/**
 What gossip can and cannot spread: over every run of sends, deliveries and
 replies, which record of a member a host can come to hold.
 */
module Learning {
  import opened Text
  import opened HybridClock
  import opened Membership
  import opened Gossip
  import opened Exchange
  import opened Traffic

  predicate DistinctNet(c: Cluster) { forall e :: e in c.net ==> DistinctIds(e.packet) }

  predicate Remote(a: Action) { a.Send? || a.Reply? || a.Deliver? }

  /** Nothing but sending, delivering and answering. */
  predicate AllRemote(run: seq<Action>) { forall k :: 0 <= k < |run| ==> Remote(run[k]) }

  lemma NoneSmooth(c: Cluster)
    ensures Smooth(c, []) && AllRemote([])
  {
  }

  predicate Holds(c: Cluster, g: NodeId, x: Digest) { g in c.tables && Says(c.tables[g], x.id) == Some(x) }

  /** The digest is in flight to `h`. */
  predicate InMail(c: Cluster, h: NodeId, x: Digest) { exists e :: e in c.net && e.to == h && x in e.packet }

  /** One of the two hosts lists the other. */
  predicate Near(c: Cluster, g: NodeId, h: NodeId) {
    g != h && g in c.tables && h in c.tables && (h in c.tables[g] || g in c.tables[h])
  }

  /** The digest is held by a host near `h` or in flight to `h`. */
  predicate Offered(c: Cluster, h: NodeId, x: Digest) {
    (exists g :: Near(c, g, h) && Holds(c, g, x)) || InMail(c, h, x)
  }

  ghost function About(c: Cluster, id: NodeId): iset<Digest> { iset x: Digest | x.id == id && Present(c, x) }

  ghost function Offers(c: Cluster, h: NodeId, id: NodeId): iset<Digest> {
    iset x: Digest | x.id == id && Offered(c, h, x)
  }

  /** Available digests, each of which is taken over by a table that has the one before it, the
      first by a table that says `from`. */
  ghost predicate Chain(avail: iset<Digest>, from: Option<Digest>, ds: seq<Digest>) {
    ds != [] ==>
      var before, x := ds[..|ds| - 1], ds[|ds| - 1];
      Chain(avail, from, before) && x in avail && Takes(EndOf(from, before), x)
  }

  function EndOf(from: Option<Digest>, ds: seq<Digest>): Option<Digest> {
    if ds == [] then from else Some(ds[|ds| - 1])
  }

  ghost predicate ChainTo(avail: iset<Digest>, from: Option<Digest>, d: Digest) {
    exists ds :: Chain(avail, from, ds) && EndOf(from, ds) == Some(d)
  }

  predicate Brings(c: Cluster, run: seq<Action>, h: NodeId, id: NodeId, d: Digest) {
    AllRemote(run) && h in After(c, run).tables && Says(After(c, run).tables[h], id) == Some(d)
  }

  // ---------------------------------------------------------------------
  // Every run follows a chain
  // ---------------------------------------------------------------------

  /** A packet changes what a table says about a member exactly when it carries a digest that is taken over. */
  lemma {:induction false} MergedSays(t: Table, p: Packet, id: NodeId)
    requires DistinctIds(p)
    ensures forall k :: 0 <= k < |p| && p[k].id == id ==>
      Says(MergeAll(t, p), id) == if Takes(Says(t, id), p[k]) then Some(p[k]) else Says(t, id)
    ensures (forall k :: 0 <= k < |p| ==> p[k].id != id) ==> Says(MergeAll(t, p), id) == Says(t, id)
  {
    forall k | 0 <= k < |p| && p[k].id == id
      ensures Says(MergeAll(t, p), id) == if Takes(Says(t, id), p[k]) then Some(p[k]) else Says(t, id)
    {
      MergeEach(t, p, k);
    }
    if forall k :: 0 <= k < |p| ==> p[k].id != id { MergeFrame(t, p, id); }
  }

  /** One action: a host keeps what it says or takes over a digest in flight to it. */
  lemma {:induction false} ActSays(c: Cluster, a: Action, h: NodeId, id: NodeId)
    requires DistinctNet(c) && Remote(a) && h in c.tables
    ensures h in Act(c, a).tables
    ensures var was, now := Says(c.tables[h], id), Says(Act(c, a).tables[h], id);
      now == was || (now.Some? && now.value.id == id && Takes(was, now.value) && InMail(c, h, now.value))
  {
    if a.Deliver? && a.host == h && Enabled(c, a) {
      var e := Envelope(a.from, h, a.packet);
      assert e in c.net;
      var p := e.packet;
      MergedSays(c.tables[h], p, id);
      if k :| 0 <= k < |p| && p[k].id == id { assert p[k] in e.packet; }
    }
    hide MergeAll, Enumerates;
  }

  lemma {:induction false} ActPresent(c: Cluster, a: Action, x: Digest)
    requires DistinctNet(c) && Remote(a) && Present(Act(c, a), x)
    ensures Present(c, x)
  {
    hide Present, Posted, Received, Enumerates, MergeAll;
    if Enabled(c, a) {
      match a
      case Send(g, to, p) => PostedPresent(c, g, to, p, x);
      case Reply(g, p) => PostedPresent(c, g, c.owed[g], p, x);
      case Deliver(_, _, _, _) => ReceivedPresent(c, a, x);
    }
  }

  lemma {:induction false} PostedPresent(c: Cluster, g: NodeId, to: NodeId, p: Packet, x: Digest)
    requires g in c.tables && Enumerates(p, c.tables[g]) && Present(Posted(c, g, to, p), x)
    ensures Present(c, x)
  {
    var c' := Posted(c, g, to, p);
    assert c'.tables == c.tables;
    if e :| e in c'.net && x in e.packet && e !in c.net {
      var i :| 0 <= i < |p| && p[i] == x;
      assert x == DigestOf(x.id, c.tables[g][x.id]);
    }
  }

  lemma {:induction false} ReceivedPresent(c: Cluster, a: Action, x: Digest)
    requires DistinctNet(c) && a.Deliver? && Enabled(c, a) && Present(Act(c, a), x)
    ensures Present(c, x)
  {
    hide MergeAll, DistinctNet, Takes, InMail;
    var c' := Act(c, a);
    assert c'.net <= c.net && c'.tables.Keys == c.tables.Keys;
    if h :| h in c'.tables && x.id in c'.tables[h] && x == DigestOf(x.id, c'.tables[h][x.id]) {
      ActSays(c, a, h, x.id);
      hide Act;
      assert Says(c'.tables[h], x.id) == Some(x);
      if Says(c.tables[h], x.id) != Some(x) { InMailIsPresent(c, h, x); }
    } else {
      var e :| e in c'.net && x in e.packet;
      assert e in c.net;
    }
  }

  lemma {:induction false} ActDistinct(c: Cluster, a: Action)
    requires DistinctNet(c)
    ensures DistinctNet(Act(c, a))
  {
    hide MergeAll;
  }

  lemma {:induction false} Shorter(run: seq<Action>)
    requires run != [] && AllRemote(run)
    ensures AllRemote(run[..|run| - 1]) && Remote(run[|run| - 1])
  {
  }

  /** Gossip invents nothing. */
  lemma {:induction false} RunPresent(c: Cluster, run: seq<Action>)
    requires DistinctNet(c) && AllRemote(run)
    ensures DistinctNet(After(c, run)) && After(c, run).tables.Keys == c.tables.Keys
    ensures forall x :: Present(After(c, run), x) ==> Present(c, x)
    decreases |run|
  {
    RunKeys(c, run);
    if run != [] {
      hide Act, Present, DistinctNet;
      var rest, last := run[..|run| - 1], run[|run| - 1];
      Shorter(run);
      RunPresent(c, rest);
      ActDistinct(After(c, rest), last);
      forall x | Present(After(c, run), x) ensures Present(c, x) { ActPresent(After(c, rest), last, x); }
    }
  }

  lemma InMailIsPresent(c: Cluster, h: NodeId, x: Digest)
    requires InMail(c, h, x)
    ensures Present(c, x)
  {
  }

  lemma {:induction false} ChainOn(avail: iset<Digest>, from: Option<Digest>, ds: seq<Digest>, x: Digest)
    requires Chain(avail, from, ds) && x in avail && Takes(EndOf(from, ds), x)
    ensures Chain(avail, from, ds + [x]) && EndOf(from, ds + [x]) == Some(x)
  {
    assert (ds + [x])[..|ds|] == ds;
    hide Takes;
  }

  lemma {:induction false} ChainFirst(avail: iset<Digest>, from: Option<Digest>, ds: seq<Digest>)
    requires ds != [] && Chain(avail, from, ds)
    ensures ds[0] in avail && Takes(from, ds[0])
    decreases |ds|
  {
    if |ds| > 1 { ChainFirst(avail, from, ds[..|ds| - 1]); }
  }

  lemma {:induction false} Learned(c: Cluster, run: seq<Action>, h: NodeId, id: NodeId) returns (ds: seq<Digest>)
    requires DistinctNet(c) && AllRemote(run) && h in c.tables
    ensures h in After(c, run).tables && Chain(About(c, id), Says(c.tables[h], id), ds)
    ensures EndOf(Says(c.tables[h], id), ds) == Says(After(c, run).tables[h], id)
    decreases |run|
  {
    if run == [] {
      ds := [];
    } else {
      hide Act, Present, DistinctNet, Takes, Chain, InMail;
      var rest, last := run[..|run| - 1], run[|run| - 1];
      Shorter(run);
      ds := Learned(c, rest, h, id);
      RunPresent(c, rest);
      ActSays(After(c, rest), last, h, id);
      var now := Says(After(c, run).tables[h], id);
      if now != Says(After(c, rest).tables[h], id) {
        InMailIsPresent(After(c, rest), h, now.value);
        ChainOn(About(c, id), Says(c.tables[h], id), ds, now.value);
        ds := ds + [now.value];
      }
    }
  }

  /** Whatever the network does, and whoever lists whom: a host comes to say `d` about a member only
      if a chain of digests that are held or in flight leads there from what it says. */
  lemma {:induction false} LearnsOnly(c: Cluster, run: seq<Action>, h: NodeId, id: NodeId, d: Digest)
    requires DistinctNet(c) && h in c.tables && Brings(c, run, h, id, d)
    ensures ChainTo(About(c, id), Says(c.tables[h], id), d)
  {
    hide After, Chain, About;
    var ds := Learned(c, run, h, id);
  }

  // ---------------------------------------------------------------------
  // Getting the records to a host
  // ---------------------------------------------------------------------

  /** Every table can be listed. */
  lemma {:induction false} Listing(t: Table, some: set<NodeId>) returns (p: Packet)
    requires some <= t.Keys
    ensures DistinctIds(p) && forall i :: 0 <= i < |p| ==> p[i].id in some && p[i] == DigestOf(p[i].id, t[p[i].id])
    ensures forall id :: id in some ==> DigestOf(id, t[id]) in p
    decreases some
  {
    if some == {} {
      p := [];
    } else {
      var id :| id in some;
      var rest := Listing(t, some - {id});
      p := rest + [DigestOf(id, t[id])];
    }
  }

  lemma {:induction false} ListingOf(t: Table) returns (p: Packet)
    ensures Enumerates(p, t)
  {
    p := Listing(t, t.Keys);
  }

  /** A stamp after the one of `s`, if there is one. */
  predicate Beyond(s: Option<Digest>, x: Digest) {
    s.Some? ==> Newer(x.generation, x.at, s.value.generation, s.value.at)
  }

  lemma TakesBeyond(s: Option<Digest>, x: Digest)
    requires Takes(s, x)
    ensures Beyond(s, x)
  {
  }

  /** From `c` to `c'` the host `h` has not changed and nothing in flight to it was used up; no host
      forgot a member, or a record of `id` that is beyond the one `h` has. */
  ghost predicate Spares(c: Cluster, c': Cluster, h: NodeId, id: NodeId) {
    && h in c.tables && c'.tables.Keys == c.tables.Keys && c'.tables[h] == c.tables[h]
    && (forall g, k :: g in c.tables && k in c.tables[g] ==> k in c'.tables[g])
    && (forall g, x :: Holds(c, g, x) && x.id == id && Beyond(Says(c.tables[h], id), x) ==> Holds(c', g, x))
    && (forall e :: e in c.net && e.to == h ==> e in c'.net)
  }

  lemma {:induction false} SparesTransitive(c: Cluster, c': Cluster, c'': Cluster, h: NodeId, id: NodeId)
    requires Spares(c, c', h, id) && Spares(c', c'', h, id)
    ensures Spares(c, c'', h, id)
  {
    hide Holds, Beyond;
  }

  lemma SparesMail(c: Cluster, c': Cluster, h: NodeId, id: NodeId, x: Digest)
    requires Spares(c, c', h, id) && InMail(c, h, x)
    ensures InMail(c', h, x)
  {
    hide Holds, Beyond;
  }

  /** What `g` holds about `id` beyond the record of `h` is in flight to `h`. */
  ghost predicate Brought(c: Cluster, c': Cluster, g: NodeId, h: NodeId, id: NodeId) {
    h in c.tables &&
    forall x :: Holds(c, g, x) && x.id == id && Beyond(Says(c.tables[h], id), x) ==> InMail(c', h, x)
  }

  lemma {:induction false} PostedFacts(c: Cluster, g: NodeId, h: NodeId, to: NodeId, p: Packet, id: NodeId)
    requires g in c.tables && h in c.tables && Enumerates(p, c.tables[g])
    ensures Spares(c, Posted(c, g, to, p), h, id) && c.net <= Posted(c, g, to, p).net
    ensures to == h ==> Brought(c, Posted(c, g, to, p), g, h, id)
    ensures Envelope(g, to, p) in Posted(c, g, to, p).net
  {
    var c' := Posted(c, g, to, p);
    assert c'.tables == c.tables;
    var e := Envelope(g, to, p);
    assert e in c'.net;
    if to == h {
      forall x | Holds(c, g, x) ensures InMail(c', h, x) { assert e.to == h && x in e.packet; }
    }
  }

  /** A host that is told what `h` holds keeps whatever it has beyond that, and its answer brings it to `h`. */
  lemma {:induction false} HeardFacts(c: Cluster, g: NodeId, h: NodeId, p: Packet, q: Packet, id: NodeId)
    requires g != h && g in c.tables && h in c.tables && Enumerates(p, c.tables[h])
    requires Enumerates(q, MergeAll(c.tables[g], p))
    ensures Spares(c, Heard(c, g, h, p, q), h, id) && Brought(c, Heard(c, g, h, p, q), g, h, id)
  {
    hide MergeAll, Enumerates, Spares, Brought, Posted, Received;
    var mid := Received(c, g, h, p, false);
    ReceivedSpares(c, g, h, p, id);
    ReceivedTable(c, g, h, p);
    PostedFacts(mid, g, h, h, q, id);
    SparesTransitive(c, mid, Posted(mid, g, h, q), h, id);
    BroughtEarlier(c, mid, Posted(mid, g, h, q), g, h, id);
  }

  lemma ReceivedTable(c: Cluster, g: NodeId, h: NodeId, p: Packet)
    requires g in c.tables
    ensures var c' := Received(c, g, h, p, false);
      c'.tables.Keys == c.tables.Keys && c'.tables[g] == MergeAll(c.tables[g], p)
  {
    hide MergeAll;
  }

  lemma {:induction false} ReceivedSpares(c: Cluster, g: NodeId, h: NodeId, p: Packet, id: NodeId)
    requires g != h && g in c.tables && h in c.tables && Enumerates(p, c.tables[h])
    ensures Spares(c, Received(c, g, h, p, false), h, id)
  {
    hide MergeAll, Enumerates;
    MergedListing(c.tables[g], c.tables[h], p, id);
    MergeForward(c.tables[g], p);
  }

  /** Once a host has been sent the table of `h`, its answer brings its own. */
  lemma {:induction false} Ask(c: Cluster, run: seq<Action>, g: NodeId, h: NodeId, p: Packet, id: NodeId)
    returns (run': seq<Action>)
    requires Smooth(c, run) && AllRemote(run) && g != h && g in After(c, run).tables && h in After(c, run).tables
    requires Enumerates(p, After(c, run).tables[h]) && Envelope(h, g, p) in After(c, run).net
    ensures Smooth(c, run') && AllRemote(run') && run <= run'
    ensures Spares(After(c, run), After(c, run'), h, id) && Brought(After(c, run), After(c, run'), g, h, id)
  {
    hide After, Smooth, Enumerates, MergeAll, Spares, Brought, Heard;
    var c1 := After(c, run);
    var q := ListingOf(MergeAll(c1.tables[g], p));
    SmoothHear(c, run, g, h, p, q);
    HeardFacts(c1, g, h, p, q, id);
    run' := run + [Deliver(g, h, p, false), Reply(g, q)];
  }

  /** A host near `h` sends its table to `h`, or `h` asks for it by sending its own. */
  lemma {:induction false} Fetch(c: Cluster, run: seq<Action>, g: NodeId, h: NodeId, id: NodeId)
    returns (run': seq<Action>)
    requires Smooth(c, run) && AllRemote(run) && Near(After(c, run), g, h)
    ensures Smooth(c, run') && AllRemote(run') && run <= run'
    ensures Spares(After(c, run), After(c, run'), h, id) && Brought(After(c, run), After(c, run'), g, h, id)
    ensures h in After(c, run).tables[g] ==>
      After(c, run').tables == After(c, run).tables && After(c, run).net <= After(c, run').net
  {
    hide After, Smooth, Enumerates, MergeAll, Spares, Brought;
    var c1 := After(c, run);
    if h in c1.tables[g] {
      var p := ListingOf(c1.tables[g]);
      SmoothOn(c, run, Send(g, h, p));
      PostedFacts(c1, g, h, h, p, id);
      run' := run + [Send(g, h, p)];
    } else {
      var p := ListingOf(c1.tables[h]);
      SmoothOn(c, run, Send(h, g, p));
      var asked := run + [Send(h, g, p)];
      var c2 := After(c, asked);
      PostedFacts(c1, h, h, g, p, id);
      run' := Ask(c, asked, g, h, p, id);
      hide Posted;
      SparesTransitive(c1, c2, After(c, run'), h, id);
      BroughtEarlier(c1, c2, After(c, run'), g, h, id);
    }
  }

  lemma {:induction false} BroughtEarlier(c: Cluster, c': Cluster, c'': Cluster, g: NodeId, h: NodeId, id: NodeId)
    requires Spares(c, c', h, id) && Brought(c', c'', g, h, id)
    ensures Brought(c, c'', g, h, id)
  {
    hide InMail;
  }

  lemma {:induction false} BroughtLater(c: Cluster, c': Cluster, c'': Cluster, g: NodeId, h: NodeId, id: NodeId)
    requires Brought(c, c', g, h, id) && Spares(c', c'', h, id)
    ensures Brought(c, c'', g, h, id)
  {
    hide InMail, Spares, Holds, Beyond;
    forall x | Holds(c, g, x) && x.id == id && Beyond(Says(c.tables[h], id), x) ensures InMail(c'', h, x) {
      SparesMail(c', c'', h, id, x);
    }
  }

  predicate AllList(c: Cluster, h: NodeId) { forall g :: g in c.tables && g != h ==> h in c.tables[g] }

  lemma {:induction false} StillNear(c: Cluster, c': Cluster, g: NodeId, h: NodeId, id: NodeId)
    requires Spares(c, c', h, id) && Near(c, g, h)
    ensures Near(c', g, h)
  {
    hide Holds, Beyond;
  }

  /** All hosts near `h` do so, one after the other. */
  lemma {:induction false} Gather(c: Cluster, run: seq<Action>, hosts: set<NodeId>, h: NodeId, id: NodeId)
    returns (run': seq<Action>)
    requires Smooth(c, run) && AllRemote(run) && h in After(c, run).tables
    ensures Smooth(c, run') && AllRemote(run') && Spares(After(c, run), After(c, run'), h, id)
    ensures forall g :: g in hosts && Near(After(c, run), g, h) ==> Brought(After(c, run), After(c, run'), g, h, id)
    ensures AllList(After(c, run), h) ==>
      After(c, run').tables == After(c, run).tables && After(c, run).net <= After(c, run').net
    decreases hosts
  {
    hide After, Smooth, Near, Brought, Holds, Beyond, Says;
    var c1 := After(c, run);
    if hosts == {} {
      run' := run;
    } else {
      hide Spares;
      var g :| g in hosts;
      var rest := Gather(c, run, hosts - {g}, h, id);
      var c2 := After(c, rest);
      if Near(c1, g, h) {
        StillNear(c1, c2, g, h, id);
        NearHost(c2, g, h);
        run' := Fetch(c, rest, g, h, id);
        SparesTransitive(c1, c2, After(c, run'), h, id);
        BroughtEarlier(c1, c2, After(c, run'), g, h, id);
        forall f | f in hosts - {g} && Near(c1, f, h) ensures Brought(c1, After(c, run'), f, h, id) {
          BroughtLater(c1, c2, After(c, run'), f, h, id);
        }
      } else {
        run' := rest;
      }
    }
  }

  lemma NearHost(c: Cluster, g: NodeId, h: NodeId)
    requires Near(c, g, h)
    ensures g in c.tables && g != h
  {
  }

  // ---------------------------------------------------------------------
  // Teaching a host
  // ---------------------------------------------------------------------

  /** Only the table of `h` has changed and only messages to `h` are used up. */
  ghost predicate OnlyHost(c: Cluster, c': Cluster, h: NodeId) {
    && h in c.tables && c'.tables.Keys == c.tables.Keys
    && (forall g :: g in c.tables && g != h ==> c'.tables[g] == c.tables[g])
    && (forall e :: e in c.net && e.to != h ==> e in c'.net)
  }

  /** The available digests beyond what `h` says about the member are in flight to it. */
  ghost predicate Ready(c: Cluster, h: NodeId, id: NodeId, avail: iset<Digest>) {
    h in c.tables && forall x :: x in avail ==> x.id == id && (Beyond(Says(c.tables[h], id), x) ==> InMail(c, h, x))
  }

  /** A message that carries the next digest is delivered and answered; the digests beyond it come in other messages. */
  lemma {:induction false} TaughtOne(c: Cluster, h: NodeId, id: NodeId, avail: iset<Digest>, e: Envelope, x: Digest,
          q: Packet)
    requires DistinctNet(c) && Ready(c, h, id, avail) && e in c.net && e.to == h && x in e.packet && x.id == id
    requires Takes(Says(c.tables[h], id), x)
    ensures var c' := Heard(c, h, e.from, e.packet, q);
      OnlyHost(c, c', h) && Says(c'.tables[h], id) == Some(x) && Ready(c', h, id, avail)
  {
    hide MergeAll, Takes, Beyond, DistinctIds;
    var c' := Heard(c, h, e.from, e.packet, q);
    var k :| 0 <= k < |e.packet| && e.packet[k] == x;
    MergedSays(c.tables[h], e.packet, id);
    assert c'.tables == c.tables[h := MergeAll(c.tables[h], e.packet)];
    hide Says;
    forall y | y in avail && Beyond(Some(x), y) ensures InMail(c', h, y) {
      BeyondBoth(Says(c.tables[h], id), x, y);
      OneEach(e.packet, x, y);
      var f :| f in c.net && f.to == h && y in f.packet;
      assert f in c'.net;
    }
  }

  lemma OneEach(p: Packet, x: Digest, y: Digest)
    requires DistinctIds(p) && x.id == y.id && x != y && x in p
    ensures y !in p
  {
  }

  lemma BeyondBoth(s: Option<Digest>, x: Digest, y: Digest)
    requires Takes(s, x) && Beyond(Some(x), y)
    ensures Beyond(s, y) && x != y
  {
  }

  /** Messages that carry the digests of a chain are delivered one after the other. */
  lemma {:induction false} Teach(c: Cluster, run: seq<Action>, h: NodeId, id: NodeId, avail: iset<Digest>,
          ds: seq<Digest>)
    returns (run': seq<Action>)
    requires DistinctNet(c) && Smooth(c, run) && AllRemote(run) && Ready(After(c, run), h, id, avail)
    requires Chain(avail, Says(After(c, run).tables[h], id), ds)
    ensures Smooth(c, run') && AllRemote(run') && OnlyHost(After(c, run), After(c, run'), h)
    ensures Ready(After(c, run'), h, id, avail)
    ensures Says(After(c, run').tables[h], id) == EndOf(Says(After(c, run).tables[h], id), ds)
    decreases |ds|
  {
    hide After, Smooth, DistinctNet, Enumerates, MergeAll, Takes, Ready, Heard;
    ReadyHost(After(c, run), h, id, avail);
    if ds == [] {
      run' := run;
    } else {
      hide OnlyHost;
      var m := |ds| - 1;
      var rest := Teach(c, run, h, id, avail, ds[..m]);
      var c2, x := After(c, rest), ds[m];
      RunPresent(c, rest);
      var e := NextMail(c2, h, id, avail, x);
      var q := ListingOf(MergeAll(c2.tables[h], e.packet));
      SmoothHear(c, rest, h, e.from, e.packet, q);
      TaughtOne(c2, h, id, avail, e, x, q);
      run' := rest + [Deliver(h, e.from, e.packet, false), Reply(h, q)];
      OnlyHostTransitive(After(c, run), c2, After(c, run'), h);
    }
  }

  lemma {:induction false} NextMail(c: Cluster, h: NodeId, id: NodeId, avail: iset<Digest>, x: Digest)
    returns (e: Envelope)
    requires Ready(c, h, id, avail) && x in avail && Takes(Says(c.tables[h], id), x)
    ensures e in c.net && e.to == h && x in e.packet && x.id == id && e == Envelope(e.from, h, e.packet)
  {
    TakesBeyond(Says(c.tables[h], id), x);
    e :| e in c.net && e.to == h && x in e.packet;
  }

  lemma ReadyHost(c: Cluster, h: NodeId, id: NodeId, avail: iset<Digest>)
    requires Ready(c, h, id, avail)
    ensures h in c.tables
  {
  }

  lemma OnlyHostTransitive(c: Cluster, c': Cluster, c'': Cluster, h: NodeId)
    requires OnlyHost(c, c', h) && OnlyHost(c', c'', h)
    ensures OnlyHost(c, c'', h)
  {
  }

  // ---------------------------------------------------------------------
  // One host
  // ---------------------------------------------------------------------

  lemma {:induction false} GatheredReady(c: Cluster, c': Cluster, h: NodeId, id: NodeId)
    requires Spares(c, c', h, id)
    requires forall g :: g in c.tables && Near(c, g, h) ==> Brought(c, c', g, h, id)
    ensures Ready(c', h, id, Offers(c, h, id))
  {
    hide Spares, Near, Holds, Beyond, InMail;
    SparesHost(c, c', h, id);
    forall x | x in Offers(c, h, id) && Beyond(Says(c'.tables[h], id), x) ensures InMail(c', h, x) {
      if g :| Near(c, g, h) && Holds(c, g, x) {
        NearHost(c, g, h);
        assert Brought(c, c', g, h, id);
      } else {
        SparesMail(c, c', h, id, x);
      }
    }
  }

  lemma SparesHost(c: Cluster, c': Cluster, h: NodeId, id: NodeId)
    requires Spares(c, c', h, id)
    ensures h in c.tables && h in c'.tables && c'.tables[h] == c.tables[h]
  {
  }

  /** If a chain of digests that hosts near `h` hold, or that are in flight to `h`, leads from what `h` says to `d`,
      then a run in which nothing is lost, duplicated or left unanswered makes `h` say `d`. */
  lemma {:induction false} LearnsWhenOffered(c: Cluster, h: NodeId, id: NodeId, d: Digest) returns (run: seq<Action>)
    requires DistinctNet(c) && h in c.tables && ChainTo(Offers(c, h, id), Says(c.tables[h], id), d)
    ensures Smooth(c, run) && Brings(c, run, h, id, d)
  {
    hide After, DistinctNet, Near, Brought, Spares, Offers, Chain, OnlyHost, Ready, Says;
    AfterNone(c);
    var gathered := Gather(c, [], c.tables.Keys, h, id);
    var c' := After(c, gathered);
    GatheredReady(c, c', h, id);
    SparesHost(c, c', h, id);
    var from := Says(c.tables[h], id);
    var ds :| Chain(Offers(c, h, id), from, ds) && EndOf(from, ds) == Some(d);
    run := Teach(c, gathered, h, id, Offers(c, h, id), ds);
    OnlyHostKeys(c', After(c, run), h);
  }

  lemma OnlyHostKeys(c: Cluster, c': Cluster, h: NodeId)
    requires OnlyHost(c, c', h)
    ensures h in c.tables && c'.tables.Keys == c.tables.Keys
    ensures forall g :: g in c.tables && g != h ==> c'.tables[g] == c.tables[g]
  {
  }

  /** Whatever is held or in flight about the member is held by `h`, by a host near it, or in flight to it. */
  ghost predicate InReach(c: Cluster, h: NodeId, id: NodeId) {
    forall x: Digest :: x.id == id && Present(c, x) ==> Holds(c, h, x) || Offered(c, h, x)
  }

  /** In particular if every host lists `h` and nothing is in flight. */
  lemma {:induction false} ListedInReach(c: Cluster, h: NodeId, id: NodeId)
    requires h in c.tables && AllList(c, h) && c.net == multiset{}
    ensures InReach(c, h, id)
  {
    forall x: Digest | x.id == id && Present(c, x) ensures Holds(c, h, x) || Offered(c, h, x) {
      var g :| g in c.tables && x.id in c.tables[g] && x == DigestOf(x.id, c.tables[g][x.id]);
      assert Holds(c, g, x);
      if g != h { assert Near(c, g, h); }
    }
  }

  lemma {:induction false} ChainWithin(c: Cluster, h: NodeId, id: NodeId, ds: seq<Digest>)
    requires h in c.tables && InReach(c, h, id) && Chain(About(c, id), Says(c.tables[h], id), ds)
    ensures Chain(Offers(c, h, id), Says(c.tables[h], id), ds)
    ensures ds != [] ==> Beyond(Says(c.tables[h], id), ds[|ds| - 1])
    decreases |ds|
  {
    hide Present, Offered;
    var from := Says(c.tables[h], id);
    if ds != [] {
      var before, x := ds[..|ds| - 1], ds[|ds| - 1];
      ChainWithin(c, h, id, before);
      TakesBeyond(EndOf(from, before), x);
      assert Beyond(from, x);
      assert !Holds(c, h, x);
    }
  }

  /** What a host in reach of all that is about can come to say: `d` exactly when a chain of digests that
      are held or in flight leads there from what it says, whether or not the network misbehaves. */
  lemma {:induction false} LearnsExactly(c: Cluster, h: NodeId, id: NodeId, d: Digest)
    requires DistinctNet(c) && h in c.tables && InReach(c, h, id)
    ensures (exists run :: Brings(c, run, h, id, d)) <==> ChainTo(About(c, id), Says(c.tables[h], id), d)
    ensures (exists run :: Brings(c, run, h, id, d)) <==> exists run :: Smooth(c, run) && Brings(c, run, h, id, d)
  {
    hide After, DistinctNet, Chain, About, Offers, InReach, Smooth, Brings;
    var from := Says(c.tables[h], id);
    if run :| Brings(c, run, h, id, d) { LearnsOnly(c, run, h, id, d); }
    if ChainTo(About(c, id), from, d) {
      var ds :| Chain(About(c, id), from, ds) && EndOf(from, ds) == Some(d);
      ChainWithin(c, h, id, ds);
      assert ChainTo(Offers(c, h, id), from, d);
      var run := LearnsWhenOffered(c, h, id, d);
    }
  }

  // ---------------------------------------------------------------------
  // All hosts
  // ---------------------------------------------------------------------

  predicate BringsAll(c: Cluster, run: seq<Action>, hosts: set<NodeId>, id: NodeId, d: Digest) {
    && AllRemote(run)
    && forall h :: h in hosts ==> h in After(c, run).tables && Says(After(c, run).tables[h], id) == Some(d)
  }

  lemma {:induction false} ReadyMore(c: Cluster, c': Cluster, h: NodeId, id: NodeId, avail: iset<Digest>)
    requires Ready(c, h, id, avail) && h in c'.tables && c'.tables[h] == c.tables[h]
    requires forall e :: e in c.net && e.to == h ==> e in c'.net
    ensures Ready(c', h, id, avail)
  {
    hide Beyond, Says;
  }

  /** Every host sends its table to every other. */
  lemma {:induction false} GatherAll(c: Cluster, hosts: set<NodeId>, id: NodeId) returns (run: seq<Action>)
    requires hosts <= c.tables.Keys && forall h :: h in c.tables ==> AllList(c, h)
    ensures Smooth(c, run) && AllRemote(run) && After(c, run).tables == c.tables && c.net <= After(c, run).net
    ensures forall h :: h in hosts ==> Ready(After(c, run), h, id, Offers(c, h, id))
    decreases hosts
  {
    hide After, Near, Brought, Spares, Ready, Offers, AllList;
    AfterNone(c);
    if hosts == {} {
      run := [];
    } else {
      var h :| h in hosts;
      var rest := GatherAll(c, hosts - {h}, id);
      var c1 := After(c, rest);
      SameLists(c, c1, h);
      run := Gather(c, rest, c.tables.Keys, h, id);
      var c2 := After(c, run);
      GatheredReady(c1, c2, h, id);
      OffersMore(c, c1, h, id);
      ReadyFewer(c2, h, id, Offers(c1, h, id), Offers(c, h, id));
      forall g | g in hosts && g != h ensures Ready(c2, g, id, Offers(c, g, id)) {
        ReadyMore(c1, c2, g, id, Offers(c, g, id));
      }
    }
  }

  lemma SameLists(c: Cluster, c': Cluster, h: NodeId)
    requires c'.tables == c.tables && AllList(c, h)
    ensures AllList(c', h)
  {
  }

  lemma {:induction false} OffersMore(c: Cluster, c': Cluster, h: NodeId, id: NodeId)
    requires c'.tables == c.tables && c.net <= c'.net
    ensures Offers(c, h, id) <= Offers(c', h, id)
  {
    hide Says;
    forall x | x in Offers(c, h, id) ensures Offered(c', h, x) {
      if g :| Near(c, g, h) && Holds(c, g, x) {
        assert Near(c', g, h) && Holds(c', g, x);
      } else {
        var e :| e in c.net && e.to == h && x in e.packet;
        assert e in c'.net;
      }
    }
  }

  lemma ReadyFewer(c: Cluster, h: NodeId, id: NodeId, avail: iset<Digest>, fewer: iset<Digest>)
    requires Ready(c, h, id, avail) && fewer <= avail
    ensures Ready(c, h, id, fewer)
  {
    hide Beyond, Says, InMail;
  }

  /** Then the hosts are taught one after the other. */
  lemma {:induction false} TeachAll(c: Cluster, run: seq<Action>, hosts: set<NodeId>, id: NodeId, d: Digest)
    returns (run': seq<Action>)
    requires DistinctNet(c) && Smooth(c, run) && AllRemote(run) && hosts <= c.tables.Keys
    requires After(c, run).tables == c.tables
    requires forall h :: h in c.tables ==> Ready(After(c, run), h, id, Offers(c, h, id))
    requires forall h :: h in hosts ==> ChainTo(Offers(c, h, id), Says(c.tables[h], id), d)
    ensures Smooth(c, run') && BringsAll(c, run', hosts, id, d) && After(c, run').tables.Keys == c.tables.Keys
    ensures forall g :: g in c.tables && g !in hosts ==>
      After(c, run').tables[g] == c.tables[g] && Ready(After(c, run'), g, id, Offers(c, g, id))
    decreases hosts
  {
    hide After, Smooth, DistinctNet, Ready, Offers, Chain, OnlyHost, Says;
    if hosts == {} {
      run' := run;
    } else {
      var h :| h in hosts;
      var rest := TeachAll(c, run, hosts - {h}, id, d);
      var from := Says(c.tables[h], id);
      var ds :| Chain(Offers(c, h, id), from, ds) && EndOf(from, ds) == Some(d);
      run' := Teach(c, rest, h, id, Offers(c, h, id), ds);
      var c1, c2 := After(c, rest), After(c, run');
      OnlyHostKeys(c1, c2, h);
      forall g | g in c.tables && g !in hosts ensures Ready(c2, g, id, Offers(c, g, id)) {
        OnlyHostMail(c1, c2, h, g);
        ReadyMore(c1, c2, g, id, Offers(c, g, id));
      }
    }
  }

  lemma OnlyHostMail(c: Cluster, c': Cluster, h: NodeId, g: NodeId)
    requires OnlyHost(c, c', h) && g != h
    ensures forall e :: e in c.net && e.to == g ==> e in c'.net
  {
  }

  /** Where every host lists every other, gossip can make all of them say `d` about a member exactly when from
      what each of them says a chain leads to `d`. */
  lemma {:induction false} AllLearnExactly(c: Cluster, id: NodeId, d: Digest)
    requires DistinctNet(c) && forall h :: h in c.tables ==> AllList(c, h) && InReach(c, h, id)
    ensures (exists run :: BringsAll(c, run, c.tables.Keys, id, d)) <==>
      forall h :: h in c.tables ==> ChainTo(About(c, id), Says(c.tables[h], id), d)
    ensures (exists run :: BringsAll(c, run, c.tables.Keys, id, d)) <==>
      exists run :: Smooth(c, run) && BringsAll(c, run, c.tables.Keys, id, d)
  {
    hide After, DistinctNet, Chain, About, Offers, InReach, AllList, Ready, Smooth;
    if run :| BringsAll(c, run, c.tables.Keys, id, d) {
      forall h | h in c.tables ensures ChainTo(About(c, id), Says(c.tables[h], id), d) {
        assert Brings(c, run, h, id, d);
        LearnsOnly(c, run, h, id, d);
      }
    }
    if forall h :: h in c.tables ==> ChainTo(About(c, id), Says(c.tables[h], id), d) {
      forall h | h in c.tables ensures ChainTo(Offers(c, h, id), Says(c.tables[h], id), d) {
        var from := Says(c.tables[h], id);
        var ds :| Chain(About(c, id), from, ds) && EndOf(from, ds) == Some(d);
        ChainWithin(c, h, id, ds);
      }
      var sends := GatherAll(c, c.tables.Keys, id);
      var run := TeachAll(c, sends, c.tables.Keys, id, d);
    }
  }
}
