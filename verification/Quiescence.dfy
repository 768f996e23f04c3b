/**
 Where gossip comes to rest: all members at once, over every run.
 */
module Quiescence {
  import opened HybridClock
  import opened Membership
  import opened Gossip
  import opened Exchange
  import opened Traffic
  import opened Learning

  // ---------------------------------------------------------------------
  // Clusters that no gossip changes
  // ---------------------------------------------------------------------

  predicate Owes(c: Cluster, g: NodeId, h: NodeId) { g in c.owed && c.owed[g] == h }

  predicate Mailed(c: Cluster, g: NodeId, h: NodeId) { exists e :: e in c.net && e.from == g && e.to == h }

  /** A message from one to the other is possible: one lists the other, has to answer it, or is
      going to have to. */
  predicate Linked(c: Cluster, g: NodeId, h: NodeId) {
    && g in c.tables && h in c.tables
    && (h in c.tables[g] || g in c.tables[h] || Owes(c, g, h) || Owes(c, h, g) || Mailed(c, g, h) || Mailed(c, h, g))
  }

  /** The host takes over a digest that a linked host holds or that is in flight to it. */
  predicate Open(c: Cluster, h: NodeId, x: Digest) {
    && h in c.tables && Takes(Says(c.tables[h], x.id), x)
    && ((exists g :: Linked(c, g, h) && Holds(c, g, x)) || InMail(c, h, x))
  }

  ghost predicate AtRest(c: Cluster) { forall h, x :: !Open(c, h, x) }

  /** Links and mail of `c'` were there in `c`, as far as mail goes at least as a record of a linked host. */
  ghost predicate NoneNew(c: Cluster, c': Cluster) {
    && c'.tables == c.tables
    && (forall g, h :: Linked(c', g, h) ==> Linked(c, g, h))
    && (forall h, x :: h in c.tables && InMail(c', h, x) ==>
          InMail(c, h, x) || exists g :: Linked(c, g, h) && Holds(c, g, x))
  }

  lemma {:induction false} NoneNewRests(c: Cluster, c': Cluster)
    requires AtRest(c) && NoneNew(c, c')
    ensures AtRest(c')
  {
    hide Open, NoneNew;
    forall h, x ensures Open(c', h, x) ==> Open(c, h, x) {
      if Open(c', h, x) { OpenEarlier(c, c', h, x); }
    }
  }

  lemma {:induction false} OpenEarlier(c: Cluster, c': Cluster, h: NodeId, x: Digest)
    requires NoneNew(c, c') && Open(c', h, x)
    ensures Open(c, h, x)
  {
    hide Linked, InMail, Takes;
    if g :| Linked(c', g, h) && Holds(c', g, x) {
      assert Linked(c, g, h) && Holds(c, g, x);
    }
  }

  lemma {:induction false} PostedNew(c: Cluster, g: NodeId, to: NodeId, p: Packet)
    requires g in c.tables && Enumerates(p, c.tables[g]) && (to in c.tables ==> Linked(c, g, to))
    ensures NoneNew(c, Posted(c, g, to, p))
  {
    var c', e := Posted(c, g, to, p), Envelope(g, to, p);
    assert c'.tables == c.tables && c'.net == c.net + multiset{e};
    forall f, h | Linked(c', f, h) ensures Linked(c, f, h) {
      LinkedFewer(c, c', e, f, h);
    }
    forall h, x | h in c.tables && InMail(c', h, x)
      ensures InMail(c, h, x) || exists f :: Linked(c, f, h) && Holds(c, f, x)
    {
      var f :| f in c'.net && f.to == h && x in f.packet;
      if f == e {
        var i :| 0 <= i < |p| && p[i] == x;
        assert Holds(c, g, x);
      }
    }
  }

  lemma {:induction false} LinkedFewer(c: Cluster, c': Cluster, e: Envelope, g: NodeId, h: NodeId)
    requires Linked(c', g, h) && c'.tables == c.tables && e.from in c.tables
    requires e.to in c.tables ==> Linked(c, e.from, e.to)
    requires forall f :: f in c'.net ==> f in c.net || f == e
    requires forall k :: k in c'.owed ==> Owes(c, k, c'.owed[k]) || Mailed(c, c'.owed[k], k)
    ensures Linked(c, g, h)
  {
    if Mailed(c', g, h) && !Mailed(c, g, h) {
      var f :| f in c'.net && f.from == g && f.to == h;
      assert f == e;
    } else if Mailed(c', h, g) && !Mailed(c, h, g) {
      var f :| f in c'.net && f.from == h && f.to == g;
      assert f == e;
    }
  }

  lemma {:induction false} RefusedMail(c: Cluster, h: NodeId, e: Envelope)
    requires AtRest(c) && h in c.tables && e in c.net && e.to == h
    ensures MergeAll(c.tables[h], e.packet) == c.tables[h]
  {
    forall i | 0 <= i < |e.packet| ensures !Accepts(c.tables[h], e.packet[i]) {
      assert !Open(c, h, e.packet[i]);
      assert InMail(c, h, e.packet[i]);
    }
    MergeRefusesAll(c.tables[h], e.packet);
  }

  lemma {:induction false} ReceivedNew(c: Cluster, h: NodeId, e: Envelope, again: bool)
    requires AtRest(c) && h in c.tables && e in c.net && e.to == h
    ensures NoneNew(c, Received(c, h, e.from, e.packet, again))
  {
    RefusedMail(c, h, e);
    hide MergeAll, AtRest;
    var c' := Received(c, h, e.from, e.packet, again);
    assert c'.tables == c.tables;
    assert Mailed(c, e.from, h);
    forall f, g | Linked(c', f, g) ensures Linked(c, f, g) {
      if e.from in c.tables {
        LinkedFewer(c, c', e, f, g);
      } else {
        LinkedKept(c, c', f, g);
      }
    }
  }

  lemma {:induction false} LinkedKept(c: Cluster, c': Cluster, g: NodeId, h: NodeId)
    requires Linked(c', g, h) && c'.tables == c.tables && forall f :: f in c'.net ==> f in c.net
    requires forall k :: k in c'.owed ==> Owes(c, k, c'.owed[k]) || Mailed(c, c'.owed[k], k)
    ensures Linked(c, g, h)
  {
  }

  lemma {:induction false} RestStep(c: Cluster, a: Action)
    requires AtRest(c) && Remote(a)
    ensures AtRest(Act(c, a)) && Act(c, a).tables == c.tables
  {
    hide AtRest, NoneNew, Posted, Received, MergeAll, Enumerates;
    if Enabled(c, a) {
      match a {
        case Send(g, to, p) => PostedNew(c, g, to, p);
        case Reply(g, p) => PostedNew(c, g, c.owed[g], p);
        case Deliver(g, from, p, again) => ReceivedNew(c, g, Envelope(from, g, p), again);
      }
      NoneNewTables(c, Act(c, a));
      NoneNewRests(c, Act(c, a));
    }
  }

  lemma NoneNewTables(c: Cluster, c': Cluster)
    requires NoneNew(c, c')
    ensures c'.tables == c.tables
  {
  }

  lemma {:induction false} RestStays(c: Cluster, run: seq<Action>)
    requires AtRest(c) && AllRemote(run)
    ensures AtRest(After(c, run)) && After(c, run).tables == c.tables
    decreases |run|
  {
    if run != [] {
      hide Act, AtRest;
      Shorter(run);
      RestStays(c, run[..|run| - 1]);
      RestStep(After(c, run[..|run| - 1]), run[|run| - 1]);
    }
  }

  // ---------------------------------------------------------------------
  // Every other cluster can change
  // ---------------------------------------------------------------------

  ghost predicate Stirs(c: Cluster, run: seq<Action>, run': seq<Action>) {
    Smooth(c, run') && AllRemote(run') && run <= run' && After(c, run').tables != After(c, run).tables
  }

  lemma {:induction false} StirMail(c: Cluster, run: seq<Action>, h: NodeId, x: Digest) returns (run': seq<Action>)
    requires DistinctNet(c) && Smooth(c, run) && AllRemote(run) && h in After(c, run).tables
    requires Takes(Says(After(c, run).tables[h], x.id), x) && InMail(After(c, run), h, x)
    ensures Smooth(c, run') && AllRemote(run') && run <= run'
    ensures h in After(c, run').tables && After(c, run').tables[h] != After(c, run).tables[h]
  {
    hide After, Smooth, Enumerates, MergeAll, DistinctNet;
    var c1 := After(c, run);
    RunPresent(c, run);
    var e :| e in c1.net && e.to == h && x in e.packet;
    assert e == Envelope(e.from, h, e.packet);
    var q := ListingOf(MergeAll(c1.tables[h], e.packet));
    SmoothHear(c, run, h, e.from, e.packet, q);
    MailDistinct(c1, e);
    var k :| 0 <= k < |e.packet| && e.packet[k] == x;
    MergedSays(c1.tables[h], e.packet, x.id);
    run' := run + [Deliver(h, e.from, e.packet, false), Reply(h, q)];
  }

  lemma MailDistinct(c: Cluster, e: Envelope)
    requires DistinctNet(c) && e in c.net
    ensures DistinctIds(e.packet)
  {
  }

  /** Records that were brought to `h` and are taken over there change it. */
  lemma {:induction false} StirBrought(c: Cluster, run: seq<Action>, mid: seq<Action>, g: NodeId, h: NodeId, x: Digest)
    returns (run': seq<Action>)
    requires DistinctNet(c) && Smooth(c, mid) && AllRemote(mid) && run <= mid && Holds(After(c, run), g, x)
    requires Spares(After(c, run), After(c, mid), h, x.id) && Brought(After(c, run), After(c, mid), g, h, x.id)
    requires Takes(Says(After(c, run).tables[h], x.id), x)
    ensures Stirs(c, run, run')
  {
    hide After, Smooth, DistinctNet, Spares, InMail;
    SparesHost(After(c, run), After(c, mid), h, x.id);
    TakesBeyond(Says(After(c, run).tables[h], x.id), x);
    hide Holds, Beyond, Says, Takes;
    run' := StirMail(c, mid, h, x);
  }

  /** Before it comes to that, messages in flight may have to be answered, and may change something themselves. */
  lemma {:induction false} StirLinked(c: Cluster, run: seq<Action>, g: NodeId, h: NodeId, x: Digest)
    returns (run': seq<Action>)
    requires DistinctNet(c) && Smooth(c, run) && AllRemote(run) && Linked(After(c, run), g, h)
    requires Holds(After(c, run), g, x) && Takes(Says(After(c, run).tables[h], x.id), x)
    ensures Stirs(c, run, run')
  {
    hide After, Smooth, DistinctNet, Spares, Brought, Mailed, Stirs, Enumerates;
    var c1 := After(c, run);
    TakesOther(c1, g, h, x);
    hide Takes, Says;
    if h in c1.tables[g] || g in c1.tables[h] {
      var mid := Fetch(c, run, g, h, x.id);
      run' := StirBrought(c, run, mid, g, h, x);
    } else if Owes(c1, g, h) {
      var p := ListingOf(c1.tables[g]);
      SmoothOn(c, run, Reply(g, p));
      PostedFacts(c1, g, h, h, p, x.id);
      run' := StirBrought(c, run, run + [Reply(g, p)], g, h, x);
    } else if Owes(c1, h, g) {
      run' := StirAsked(c, run, g, h, x);
    } else if Mailed(c1, h, g) {
      run' := StirAnswered(c, run, g, h, x);
    } else {
      run' := StirBoth(c, run, g, h, x);
    }
  }

  lemma TakesOther(c: Cluster, g: NodeId, h: NodeId, x: Digest)
    requires h in c.tables && Holds(c, g, x) && Takes(Says(c.tables[h], x.id), x)
    ensures g != h && g in c.tables
  {
  }

  /** `h` has to answer `g`, which then answers in turn. */
  lemma {:induction false} StirAsked(c: Cluster, run: seq<Action>, g: NodeId, h: NodeId, x: Digest)
    returns (run': seq<Action>)
    requires DistinctNet(c) && Smooth(c, run) && AllRemote(run) && Owes(After(c, run), h, g)
    requires h in After(c, run).tables
    requires Holds(After(c, run), g, x) && Takes(Says(After(c, run).tables[h], x.id), x)
    ensures Stirs(c, run, run')
  {
    hide After, Smooth, DistinctNet, Spares, Brought, Stirs, Enumerates;
    var c1 := After(c, run);
    TakesOther(c1, g, h, x);
    hide Takes, Says;
    var p := ListingOf(c1.tables[h]);
    SmoothOn(c, run, Reply(h, p));
    var asked := run + [Reply(h, p)];
    var c2 := After(c, asked);
    PostedFacts(c1, h, h, g, p, x.id);
    var mid := Ask(c, asked, g, h, p, x.id);
    hide Posted;
    SparesTransitive(c1, c2, After(c, mid), h, x.id);
    BroughtEarlier(c1, c2, After(c, mid), g, h, x.id);
    run' := StirBrought(c, run, mid, g, h, x);
  }

  lemma {:induction false} HeardSame(c: Cluster, g: NodeId, h: NodeId, p: Packet, q: Packet, id: NodeId)
    requires g in c.tables && h in c.tables && MergeAll(c.tables[g], p) == c.tables[g] && Enumerates(q, c.tables[g])
    ensures var c' := Heard(c, g, h, p, q);
      c'.tables == c.tables && Brought(c, c', g, h, id) && Envelope(g, h, q) in c'.net
    ensures g != h ==> Spares(c, Heard(c, g, h, p, q), h, id)
  {
    hide MergeAll, Enumerates;
    var mid := Received(c, g, h, p, false);
    assert mid.tables == c.tables;
    PostedFacts(mid, g, h, h, q, id);
  }

  /** A message from `h` to `g` is in flight. */
  lemma {:induction false} StirAnswered(c: Cluster, run: seq<Action>, g: NodeId, h: NodeId, x: Digest)
    returns (run': seq<Action>)
    requires DistinctNet(c) && Smooth(c, run) && AllRemote(run) && Mailed(After(c, run), h, g)
    requires h in After(c, run).tables
    requires Holds(After(c, run), g, x) && Takes(Says(After(c, run).tables[h], x.id), x)
    ensures Stirs(c, run, run')
  {
    hide After, Smooth, DistinctNet, Spares, Brought, Enumerates, MergeAll, Holds, Takes, Says;
    var c1 := After(c, run);
    TakesOther(c1, g, h, x);
    var e :| e in c1.net && e.from == h && e.to == g;
    assert e == Envelope(h, g, e.packet);
    var q := ListingOf(MergeAll(c1.tables[g], e.packet));
    SmoothHear(c, run, g, h, e.packet, q);
    var mid := run + [Deliver(g, h, e.packet, false), Reply(g, q)];
    if MergeAll(c1.tables[g], e.packet) == c1.tables[g] {
      HeardSame(c1, g, h, e.packet, q, x.id);
      run' := StirBrought(c, run, mid, g, h, x);
    } else {
      run' := mid;
    }
  }

  /** A message from `g` to `h` is in flight. */
  lemma {:induction false} StirBoth(c: Cluster, run: seq<Action>, g: NodeId, h: NodeId, x: Digest)
    returns (run': seq<Action>)
    requires DistinctNet(c) && Smooth(c, run) && AllRemote(run) && Mailed(After(c, run), g, h)
    requires h in After(c, run).tables
    requires Holds(After(c, run), g, x) && Takes(Says(After(c, run).tables[h], x.id), x)
    ensures Stirs(c, run, run')
  {
    hide After, Smooth, DistinctNet, Spares, Brought, Enumerates, MergeAll, Takes;
    var c1 := After(c, run);
    TakesOther(c1, g, h, x);
    hide Says;
    var e :| e in c1.net && e.from == g && e.to == h;
    assert e == Envelope(g, h, e.packet);
    var q := ListingOf(MergeAll(c1.tables[h], e.packet));
    SmoothHear(c, run, h, g, e.packet, q);
    var asked := run + [Deliver(h, g, e.packet, false), Reply(h, q)];
    if MergeAll(c1.tables[h], e.packet) == c1.tables[h] {
      HeardSame(c1, h, g, e.packet, q, x.id);
      hide Heard;
      var mid := Ask(c, asked, g, h, q, x.id);
      run' := StirBrought(c, asked, mid, g, h, x);
    } else {
      run' := asked;
    }
  }

  lemma {:induction false} Stir(c: Cluster, run: seq<Action>, h: NodeId, x: Digest) returns (run': seq<Action>)
    requires DistinctNet(c) && Smooth(c, run) && AllRemote(run) && Open(After(c, run), h, x)
    ensures Stirs(c, run, run')
  {
    hide After, Smooth, DistinctNet, Linked, Holds, InMail, Takes, Says;
    var c1 := After(c, run);
    if InMail(c1, h, x) {
      run' := StirMail(c, run, h, x);
    } else {
      var g :| Linked(c1, g, h) && Holds(c1, g, x);
      run' := StirLinked(c, run, g, h, x);
    }
  }

  /** No run of gossip changes any table exactly when no host takes over a digest that is in flight to it or that
      is held by a host it is linked with. Otherwise a run without loss or duplication changes one. */
  lemma {:induction false} RestExactly(c: Cluster)
    requires DistinctNet(c)
    ensures AtRest(c) <==> forall run :: AllRemote(run) ==> After(c, run).tables == c.tables
    ensures AtRest(c) <==> forall run :: AllRemote(run) && Smooth(c, run) ==> After(c, run).tables == c.tables
  {
    hide After, Smooth, DistinctNet, Open, AllRemote;
    if AtRest(c) {
      forall run | AllRemote(run) ensures After(c, run).tables == c.tables { RestStays(c, run); }
    } else {
      var h, x :| Open(c, h, x);
      AfterNone(c);
      NoneSmooth(c);
      var run := Stir(c, [], h, x);
    }
  }
}
