/**
 Hosts that gossip never brings up to date.
 */
module Stuck {
  import opened Text
  import opened HybridClock
  import opened Membership
  import opened Gossip
  import opened Exchange
  import opened Traffic
  import opened Learning
  import opened Convergence

  predicate Stays(c: Cluster, run: seq<Action>, h: NodeId, id: NodeId)
    requires h in c.tables
  {
    h in After(c, run).tables && Says(After(c, run).tables[h], id) == Says(c.tables[h], id)
  }

  ghost predicate TakesNone(c: Cluster, h: NodeId, id: NodeId)
    requires h in c.tables
  {
    forall x: Digest :: x.id == id && Present(c, x) ==> !Takes(Says(c.tables[h], id), x)
  }

  /** A host that takes over nothing that is held or in flight keeps what it says in every run. */
  lemma {:induction false} TakesNoneStays(c: Cluster, run: seq<Action>, h: NodeId, id: NodeId)
    requires DistinctNet(c) && h in c.tables && TakesNone(c, h, id) && AllRemote(run)
    ensures Stays(c, run, h, id)
  {
    hide After, Present, AllRemote, DistinctNet;
    var ds := Learned(c, run, h, id);
    if ds != [] { ChainFirst(About(c, id), Says(c.tables[h], id), ds); }
  }

  /** What a host in reach of all that is about says of a member never changes, in any run, exactly
      when it takes over nothing of it. */
  lemma {:induction false} StuckExactly(c: Cluster, h: NodeId, id: NodeId)
    requires DistinctNet(c) && h in c.tables && InReach(c, h, id)
    ensures (forall run :: AllRemote(run) ==> Stays(c, run, h, id)) <==> TakesNone(c, h, id)
  {
    hide After, Present, AllRemote, InReach, DistinctNet, Smooth;
    var from := Says(c.tables[h], id);
    if TakesNone(c, h, id) {
      forall run | AllRemote(run) ensures Stays(c, run, h, id) { TakesNoneStays(c, run, h, id); }
    } else {
      var x: Digest :| x.id == id && Present(c, x) && Takes(from, x);
      ChainOn(About(c, id), from, [], x);
      assert [] + [x] == [x];
      LearnsExactly(c, h, id, x);
      var run :| Brings(c, run, h, id, x);
      assert !Stays(c, run, h, id);
    }
  }

  /** A later record that is not one edge away. */
  predicate OutOfReach(lo: Digest, hi: Digest) {
    && lo.id == hi.id && Newer(hi.generation, hi.at, lo.generation, lo.at) && !Step(lo.state, hi.state)
  }

  /** Whatever is held or in flight about the member is one of these two digests. */
  ghost predicate OnlyThese(c: Cluster, lo: Digest, hi: Digest) {
    DistinctNet(c) && forall x: Digest :: x.id == lo.id && Present(c, x) ==> x == lo || x == hi
  }

  /** If all that is known of a member is two records of which the later is not one edge away from
      the earlier, then no gossip ever brings a host with the earlier record up to date. */
  lemma {:induction false} StuckForever(c: Cluster, run: seq<Action>, lo: Digest, hi: Digest)
    requires OutOfReach(lo, hi) && OnlyThese(c, lo, hi) && AllRemote(run)
    ensures OnlyThese(After(c, run), lo, hi) && After(c, run).tables.Keys == c.tables.Keys
    ensures forall h :: h in c.tables && lo.id in c.tables[h] ==> Stays(c, run, h, lo.id)
  {
    hide After, AllRemote;
    RunPresent(c, run);
    forall h | h in c.tables && lo.id in c.tables[h] ensures Stays(c, run, h, lo.id) {
      assert Present(c, DigestOf(lo.id, c.tables[h][lo.id]));
      hide Present;
      TakesNoneStays(c, run, h, lo.id);
    }
  }

  predicate Names(p: Packet, h: NodeId) { exists i :: 0 <= i < |p| && p[i].id == h }

  /** Nobody can reach `h`: it lists nobody else and is listed by nobody else, no message in flight is
      for it, from it or names it, and no answer is due to or from it. */
  predicate CutOff(c: Cluster, h: NodeId) {
    && h in c.tables && c.tables[h].Keys <= {h} && h !in c.owed
    && (forall g :: g in c.tables && g != h ==> h !in c.tables[g])
    && (forall e :: e in c.net ==> e.to != h && e.from != h && !Names(e.packet, h))
    && (forall g :: g in c.owed ==> c.owed[g] != h)
  }

  lemma {:induction false} CutOffStep(c: Cluster, h: NodeId, a: Action)
    requires CutOff(c, h) && Remote(a)
    ensures CutOff(Act(c, a), h) && Act(c, a).tables[h] == c.tables[h]
  {
    hide MergeAll, Enumerates, CutOff, Posted, Received;
    if Enabled(c, a) {
      CutOffPacket(c, h, a);
      match a
      case Send(g, to, p) => CutOffPosted(c, h, g, to, p);
      case Reply(g, p) => CutOffPosted(c, h, g, c.owed[g], p);
      case Deliver(g, from, p, again) => CutOffReceived(c, h, g, from, p, again);
    }
    CutOffHost(c, h);
  }

  lemma CutOffHost(c: Cluster, h: NodeId)
    requires CutOff(c, h)
    ensures h in c.tables
  {
  }

  lemma {:induction false} CutOffPacket(c: Cluster, h: NodeId, a: Action)
    requires CutOff(c, h) && Remote(a) && Enabled(c, a)
    ensures a.host != h && !Names(a.packet, h) && (a.Send? ==> a.to != h) && (a.Deliver? ==> a.from != h)
    ensures a.Reply? ==> c.owed[a.host] != h
  {
    if a.Deliver? {
      var e := Envelope(a.from, a.host, a.packet);
      assert e in c.net;
    }
  }

  lemma {:induction false} CutOffPosted(c: Cluster, h: NodeId, g: NodeId, to: NodeId, p: Packet)
    requires CutOff(c, h) && g != h && to != h && !Names(p, h)
    ensures CutOff(Posted(c, g, to, p), h) && Posted(c, g, to, p).tables == c.tables
  {
    hide Names;
  }

  lemma {:induction false} CutOffReceived(c: Cluster, h: NodeId, g: NodeId, from: NodeId, p: Packet, again: bool)
    requires CutOff(c, h) && g in c.tables && g != h && from != h && !Names(p, h)
    ensures var c' := Received(c, g, from, p, again);
      CutOff(c', h) && c'.tables[h] == c.tables[h]
  {
    hide Names, MergeAll;
    NotNamed(c.tables[g], p, h);
  }

  lemma NotNamed(t: Table, p: Packet, h: NodeId)
    requires !Names(p, h)
    ensures h in MergeAll(t, p) <==> h in t
  {
    MergeFrame(t, p, h);
  }

  /** Then it never hears of anything. */
  lemma {:induction false} CutOffForever(c: Cluster, run: seq<Action>, h: NodeId)
    requires CutOff(c, h) && AllRemote(run)
    ensures CutOff(After(c, run), h) && After(c, run).tables[h] == c.tables[h]
    decreases |run|
  {
    if run != [] {
      hide Act;
      Shorter(run);
      CutOffForever(c, run[..|run| - 1], h);
      CutOffStep(After(c, run[..|run| - 1]), h, run[|run| - 1]);
    }
  }

  /** A chain alone is not enough: between fresh hosts a chain can lead to a record that no run ever brings. */
  lemma {:induction false} ChainNotEnough(c: Cluster, g: NodeId, h: NodeId)
    requires Starting(c) && g in c.tables && h in c.tables && g != h && c.tables[g][g].state == Healthy
    ensures ChainTo(About(c, g), Says(c.tables[h], g), DigestOf(g, c.tables[g][g]))
    ensures forall run :: AllRemote(run) ==> !Brings(c, run, h, g, DigestOf(g, c.tables[g][g]))
  {
    hide After, CutOff, Present, Chain;
    var x := DigestOf(g, c.tables[g][g]);
    FreshCutOff(c, g, h);
    assert Chain(About(c, g), None, []) by { NoChain(About(c, g)); }
    ChainOn(About(c, g), None, [], x);
    hide Starting, About;
    forall run | AllRemote(run) ensures !Brings(c, run, h, g, x) { CutOffForever(c, run, h); }
  }

  lemma NoChain(avail: iset<Digest>)
    ensures Chain(avail, None, [])
  {
  }

  lemma {:induction false} FreshCutOff(c: Cluster, g: NodeId, h: NodeId)
    requires Starting(c) && g in c.tables && h in c.tables && g != h
    ensures CutOff(c, h) && Says(c.tables[h], g) == None && Present(c, DigestOf(g, c.tables[g][g]))
  {
  }

  // ---------------------------------------------------------------------
  // A run that gets stuck
  // ---------------------------------------------------------------------

  const HERE := Record(Healthy, 1, 0, 1)
  const EARLY := Record(Joining, 1, 0, 1)
  const LATE := Record(Healthy, 1, 2, 3)

  /** Three hosts that know only themselves. */
  function Fresh(n: NodeId, a: NodeId, b: NodeId): Cluster {
    Cluster(map[n := map[n := EARLY], a := map[a := HERE], b := map[b := HERE]], multiset{}, map[],
            {DigestOf(n, EARLY), DigestOf(a, HERE), DigestOf(b, HERE)})
  }

  function Own(g: NodeId): Table { map[g := HERE] }

  /** The table of the joining host once it lists the others. */
  function Guests(n: NodeId, a: NodeId, b: NodeId): Table { map[n := EARLY, a := HERE, b := HERE] }

  /** Host `g` sends its table to `h`, which merges it and answers. */
  lemma {:induction false} Tell(c: Cluster, run: seq<Action>, g: NodeId, h: NodeId)
    returns (run': seq<Action>, p: Packet, q: Packet)
    requires Smooth(c, run) && g in After(c, run).tables && h in After(c, run).tables && g != h
    requires h in After(c, run).tables[g]
    ensures Smooth(c, run') && Enumerates(p, After(c, run).tables[g])
    ensures var c1, c2 := After(c, run), After(c, run');
      && c2.tables == c1.tables[h := MergeAll(c1.tables[h], p)] && Enumerates(q, c2.tables[h])
      && c2.net == c1.net + multiset{Envelope(h, g, q)}
  {
    hide After, Smooth, Enumerates, MergeAll;
    var c1 := After(c, run);
    p := ListingOf(c1.tables[g]);
    SmoothOn(c, run, Send(g, h, p));
    var sent := run + [Send(g, h, p)];
    q := ListingOf(MergeAll(c1.tables[h], p));
    SmoothHear(c, sent, h, g, p, q);
    run' := sent + [Deliver(h, g, p, false), Reply(h, q)];
  }

  /** Only the table of `g` has changed. */
  predicate OnlyTable(c: Cluster, c': Cluster, g: NodeId, t: Table) {
    g in c.tables && c'.tables == c.tables[g := t] && c'.net == c.net
  }

  /** The joining host `n` lists the other two. */
  lemma {:induction false} Introduce(n: NodeId, a: NodeId, b: NodeId) returns (run: seq<Action>)
    requires n != a && n != b && a != b
    ensures Smooth(Fresh(n, a, b), run)
    ensures OnlyTable(Fresh(n, a, b), After(Fresh(n, a, b), run), n, Guests(n, a, b))
  {
    hide After, Smooth;
    var c := Fresh(n, a, b);
    AfterNone(c);
    NoneSmooth(c);
    var x, y := LocalUpsert(n, a, Healthy, 1, 1), LocalUpsert(n, b, Healthy, 1, 1);
    var t0: Table, t1: Table, t2 := map[n := EARLY], map[n := EARLY, a := HERE], Guests(n, a, b);
    assert Upsert(t0, a, Healthy, 1, 1) == Some(t1) by { assert t0[a := HERE] == t1; }
    assert Upsert(t1, b, Healthy, 1, 1) == Some(t2) by { assert t1[b := HERE] == t2; }
    hide Upsert;
    LocalOn(c, [], n, x, t1);
    LocalOn(c, [] + [x], n, y, t2);
    run := [] + [x] + [y];
  }

  lemma {:induction false} LocalOn(c: Cluster, run: seq<Action>, g: NodeId, a: Action, t: Table)
    requires Smooth(c, run) && a.host == g && g in After(c, run).tables
    requires match a
      case LocalUpsert(_, id, s, address, at) => Upsert(After(c, run).tables[g], id, s, address, at) == Some(t)
      case LocalTransition(_, id, s, at) => Transition(After(c, run).tables[g], id, s, at) == Some(t)
      case _ => false
    ensures Smooth(c, run + [a]) && OnlyTable(After(c, run), After(c, run + [a]), g, t)
  {
    hide After, Smooth;
    SmoothOn(c, run, a);
    hide Upsert, Transition;
  }

  /** The joining host bootstraps and becomes healthy. */
  lemma {:induction false} GetHealthy(c: Cluster, run: seq<Action>, n: NodeId, t: Table) returns (run': seq<Action>)
    requires Smooth(c, run) && n in After(c, run).tables && After(c, run).tables[n] == t && n in t && t[n] == EARLY
    ensures Smooth(c, run') && OnlyTable(After(c, run), After(c, run'), n, t[n := LATE])
  {
    hide After, Smooth;
    var x, y := LocalTransition(n, n, Bootstrapping, 2), LocalTransition(n, n, Healthy, 3);
    var t1: Table := t[n := Record(Bootstrapping, 1, 1, 2)];
    assert Transition(t, n, Bootstrapping, 2) == Some(t1);
    assert Transition(t1, n, Healthy, 3) == Some(t[n := LATE]) by { assert t1[n := LATE] == t[n := LATE]; }
    hide Transition;
    LocalOn(c, run, n, x, t1);
    LocalOn(c, run + [x], n, y, t[n := LATE]);
    run' := run + [x] + [y];
  }

  predicate Tables(c: Cluster, n: NodeId, a: NodeId, b: NodeId, tn: Table, ta: Table, tb: Table) {
    c.tables.Keys == {n, a, b} && c.tables[n] == tn && c.tables[a] == ta && c.tables[b] == tb
  }

  lemma {:induction false} FreshFacts(n: NodeId, a: NodeId, b: NodeId)
    requires n != a && n != b && a != b
    ensures Starting(Fresh(n, a, b)) && Fresh(n, a, b).net == multiset{}
    ensures Tables(Fresh(n, a, b), n, a, b, map[n := EARLY], Own(a), Own(b))
  {
  }

  /** What the three say about the joining host and whom they list. */
  predicate Missed(c: Cluster, n: NodeId, a: NodeId, b: NodeId) {
    && c.tables.Keys == {n, a, b} && Mesh(c)
    && Says(c.tables[n], n) == Some(DigestOf(n, LATE)) && Says(c.tables[a], n) == Some(DigestOf(n, LATE))
    && Says(c.tables[b], n) == Some(DigestOf(n, EARLY))
  }

  lemma {:induction false} TellListing(t: Table, u: Table, p: Packet, id: NodeId)
    requires Enumerates(p, u) && id in u
    ensures id !in t && u[id].state in {Joining, Healthy} ==> Says(MergeAll(t, p), id) == Says(u, id)
    ensures id in t ==> id in MergeAll(t, p)
  {
    hide Enumerates;
    MergedListing(t, u, p, id);
    MergeForward(t, p);
    hide MergeAll;
  }

  /** From fresh hosts there is a run in which nothing is lost, duplicated or left unanswered, after which all hosts
      list each other and yet one of them, whatever else is sent, delivered and answered, never learns that another
      is healthy: it heard of the joining and missed the bootstrapping. */
  lemma {:induction false} MissedStateExample(n: NodeId, a: NodeId, b: NodeId) returns (run: seq<Action>)
    requires n != a && n != b && a != b
    ensures Starting(Fresh(n, a, b)) && Smooth(Fresh(n, a, b), run) && Missed(After(Fresh(n, a, b), run), n, a, b)
    ensures forall more :: AllRemote(more) ==>
      var later := After(Fresh(n, a, b), run + more);
      b in later.tables && Says(later.tables[b], n) == Some(DigestOf(n, EARLY))
  {
    hide After, Smooth;
    run := MissedRun(n, a, b);
    var c := Fresh(n, a, b);
    var end := After(c, run);
    hide Fresh, Starting, OnlyThese;
    forall more | AllRemote(more)
      ensures b in After(c, run + more).tables
      ensures Says(After(c, run + more).tables[b], n) == Some(DigestOf(n, EARLY))
    {
      AfterBoth(c, run, more);
      StuckForever(end, more, DigestOf(n, EARLY), DigestOf(n, LATE));
      assert Stays(end, more, b, n);
    }
  }

  /** The other host hears of the joining. */
  lemma {:induction false} Hears(n: NodeId, a: NodeId, b: NodeId) returns (run: seq<Action>, p: Packet, q: Packet)
    requires n != a && n != b && a != b
    ensures Smooth(Fresh(n, a, b), run)
    ensures var t := Guests(n, a, b);
      var c, tb := After(Fresh(n, a, b), run), MergeAll(Own(b), p);
      && Tables(c, n, a, b, t, Own(a), tb) && c.net == multiset{Envelope(b, n, q)}
      && Enumerates(p, t) && Enumerates(q, tb)
  {
    hide After, Smooth, Enumerates, MergeAll, Fresh;
    FreshFacts(n, a, b);
    hide Starting;
    var met := Introduce(n, a, b);
    run, p, q := Tell(Fresh(n, a, b), met, n, b);
  }

  /** Then the joining host becomes healthy and the third host hears of that. */
  lemma {:induction false} HearsLate(c: Cluster, run: seq<Action>, n: NodeId, a: NodeId, b: NodeId, t: Table, tb: Table,
          q: Packet)
    returns (run': seq<Action>, p: Packet, q': Packet)
    requires n != a && n != b && a != b && n in t && a in t && t[n] == EARLY && Smooth(c, run)
    requires Tables(After(c, run), n, a, b, t, Own(a), tb) && After(c, run).net == multiset{Envelope(b, n, q)}
    ensures Smooth(c, run')
    ensures var c', ta := After(c, run'), MergeAll(Own(a), p);
      && Tables(c', n, a, b, t[n := LATE], ta, tb) && c'.net == multiset{Envelope(b, n, q), Envelope(a, n, q')}
      && Enumerates(p, t[n := LATE]) && Enumerates(q', ta)
  {
    hide After, Smooth, Enumerates, MergeAll;
    var ready := GetHealthy(c, run, n, t);
    run', p, q' := Tell(c, ready, n, a);
  }

  lemma {:induction false} Told(t: Table, own: Table, n: NodeId, a: NodeId, b: NodeId, g: NodeId, p: Packet)
    requires n != a && n != b && a != b && g in {a, b} && own == Own(g) && Enumerates(p, t)
    requires t.Keys == {n, a, b} && t[a] == HERE && t[b] == HERE && (t[n] == EARLY || t[n] == LATE)
    ensures Says(MergeAll(own, p), n) == Some(DigestOf(n, t[n])) && a in MergeAll(own, p) && b in MergeAll(own, p)
  {
    hide Enumerates, MergeAll;
    TellAll(own, t, p, n, a, b);
  }

  lemma {:induction false} MissedRun(n: NodeId, a: NodeId, b: NodeId) returns (run: seq<Action>)
    requires n != a && n != b && a != b
    ensures Starting(Fresh(n, a, b)) && Smooth(Fresh(n, a, b), run) && Missed(After(Fresh(n, a, b), run), n, a, b)
    ensures OnlyThese(After(Fresh(n, a, b), run), DigestOf(n, EARLY), DigestOf(n, LATE))
  {
    hide After, Smooth, Enumerates, MergeAll, OnlyThese, Missed, Fresh, Starting, Says;
    FreshFacts(n, a, b);
    var c := Fresh(n, a, b);
    var t := Guests(n, a, b);
    var heard, p, q := Hears(n, a, b);
    Told(t, Own(b), n, a, b, b, p);
    var p', q';
    run, p', q' := HearsLate(c, heard, n, a, b, t, MergeAll(Own(b), p), q);
    Told(t[n := LATE], Own(a), n, a, b, a, p');
    EndFacts(After(c, run), n, a, b, t, MergeAll(Own(a), p'), MergeAll(Own(b), p), q, q');
  }

  lemma {:induction false} TellAll(t: Table, u: Table, p: Packet, n: NodeId, a: NodeId, b: NodeId)
    requires Enumerates(p, u) && u.Keys == {n, a, b} && n !in t && (forall id :: id in t ==> id in u)
    requires forall id :: id in u ==> u[id].state in {Joining, Healthy}
    ensures Says(MergeAll(t, p), n) == Says(u, n) && a in MergeAll(t, p) && b in MergeAll(t, p)
  {
    hide Enumerates, MergeAll;
    TellListing(t, u, p, n);
    TellListing(t, u, p, a);
    TellListing(t, u, p, b);
  }

  lemma {:induction false} EndFacts(c: Cluster, n: NodeId, a: NodeId, b: NodeId, t: Table, ta: Table, tb: Table,
          q: Packet, q': Packet)
    requires n != a && n != b && a != b && t.Keys == {n, a, b} && Tables(c, n, a, b, t[n := LATE], ta, tb)
    requires Says(ta, n) == Some(DigestOf(n, LATE)) && Says(tb, n) == Some(DigestOf(n, EARLY))
    requires b in ta && a in tb && Enumerates(q, tb) && Enumerates(q', ta)
    requires c.net == multiset{Envelope(b, n, q), Envelope(a, n, q')}
    ensures Missed(c, n, a, b) && OnlyThese(c, DigestOf(n, EARLY), DigestOf(n, LATE))
  {
    EndThese(c, n, a, b, t, ta, tb, q, q');
    hide OnlyThese, Enumerates;
  }

  lemma ListedIsSaid(p: Packet, t: Table, x: Digest)
    requires Enumerates(p, t) && x in p
    ensures Says(t, x.id) == Some(x) && DistinctIds(p)
  {
  }

  lemma {:induction false} EndThese(c: Cluster, n: NodeId, a: NodeId, b: NodeId, t: Table, ta: Table, tb: Table,
          q: Packet, q': Packet)
    requires Tables(c, n, a, b, t[n := LATE], ta, tb) && Enumerates(q, tb) && Enumerates(q', ta)
    requires Says(ta, n) == Some(DigestOf(n, LATE)) && Says(tb, n) == Some(DigestOf(n, EARLY))
    requires c.net == multiset{Envelope(b, n, q), Envelope(a, n, q')}
    ensures OnlyThese(c, DigestOf(n, EARLY), DigestOf(n, LATE))
  {
    var lo, hi := DigestOf(n, EARLY), DigestOf(n, LATE);
    assert DistinctNet(c);
    hide Enumerates, DistinctNet, DistinctIds;
    forall x: Digest | x.id == n && Present(c, x) ensures x == lo || x == hi {
      if e :| e in c.net && x in e.packet {
        if e.packet == q { ListedIsSaid(q, tb, x); } else { ListedIsSaid(q', ta, x); }
      }
    }
  }
}
