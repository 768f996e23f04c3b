/**
 Members that a host can learn one by one, but not all of them.
 */
module Joint {
  import opened Text
  import opened HybridClock
  import opened Membership
  import opened Gossip
  import opened Exchange
  import opened Traffic
  import opened Learning
  import opened Convergence
  import opened Stuck

  const FIRST := Record(Joining, 1, 0, 1)
  const NEXT := Record(Bootstrapping, 1, 0, 2)
  const GONE := Record(Down, 1, 0, 3)
  const LAST := Record(Healthy, 1, 0, 4)

  predicate IsOne(s: Option<Digest>, id: NodeId) {
    || s == Some(DigestOf(id, FIRST)) || s == Some(DigestOf(id, NEXT))
    || s == Some(DigestOf(id, GONE)) || s == Some(DigestOf(id, LAST))
  }

  /** The table says these records of the two members. */
  predicate Both(t: Table, i: NodeId, j: NodeId, r: Record) {
    Says(t, i) == Some(DigestOf(i, r)) && Says(t, j) == Some(DigestOf(j, r))
  }

  /** The table says the first records of both members, or the last ones, or that one of them is down. */
  predicate Crossed(t: Table, i: NodeId, j: NodeId) {
    && IsOne(Says(t, i), i) && IsOne(Says(t, j), j)
    && (|| Both(t, i, j, FIRST) || Both(t, i, j, LAST)
        || Says(t, i) == Some(DigestOf(i, GONE)) || Says(t, j) == Some(DigestOf(j, GONE)))
  }

  ghost predicate AllCrossed(c: Cluster, i: NodeId, j: NodeId) {
    && (forall g :: g in c.tables ==> Crossed(c.tables[g], i, j))
    && (forall e :: e in c.net ==> CrossedPacket(e.packet, i, j))
  }

  ghost predicate CrossedPacket(p: Packet, i: NodeId, j: NodeId) { exists t :: Enumerates(p, t) && Crossed(t, i, j) }

  // ---------------------------------------------------------------------
  // Crossed tables stay crossed
  // ---------------------------------------------------------------------

  lemma {:induction false} CrossedMerge(t: Table, p: Packet, i: NodeId, j: NodeId)
    requires Crossed(t, i, j) && CrossedPacket(p, i, j)
    ensures Crossed(MergeAll(t, p), i, j) && (Both(MergeAll(t, p), i, j, LAST) ==> Both(t, i, j, LAST))
  {
    hide Enumerates, MergeAll;
    var u :| Enumerates(p, u) && Crossed(u, i, j);
    MergedListing(t, u, p, i);
    MergedListing(t, u, p, j);
    OneTaken(t, u, i);
    OneTaken(t, u, j);
    hide Takes;
  }

  /** Of a member whose records are among the four: down is never left, and the first record gives way to down. */
  lemma {:induction false} OneTaken(t: Table, u: Table, id: NodeId)
    requires IsOne(Says(t, id), id) && IsOne(Says(u, id), id)
    ensures id in t && id in u && DigestOf(id, u[id]) == Says(u, id).value
    ensures var was, x := Says(t, id), DigestOf(id, u[id]);
      && (was == Some(DigestOf(id, GONE)) ==> !Takes(was, x))
      && (was == Some(DigestOf(id, LAST)) ==> !Takes(was, x))
      && (was == Some(DigestOf(id, FIRST)) && x == DigestOf(id, GONE) ==> Takes(was, x))
      && (was == Some(DigestOf(id, FIRST)) && x in {DigestOf(id, FIRST), DigestOf(id, LAST)} ==> !Takes(was, x))
  {
  }

  lemma {:induction false} CrossedStep(c: Cluster, a: Action, i: NodeId, j: NodeId)
    requires AllCrossed(c, i, j) && Remote(a)
    ensures AllCrossed(Act(c, a), i, j) && Act(c, a).tables.Keys == c.tables.Keys
    ensures forall g :: g in c.tables && Both(Act(c, a).tables[g], i, j, LAST) ==> Both(c.tables[g], i, j, LAST)
  {
    hide Crossed, Both, MergeAll, Enumerates, CrossedPacket;
    ActElsewhere(c, a);
    if Enabled(c, a) {
      match a
      case Send(g, _, p) => ListedCrossed(p, c.tables[g], i, j);
      case Reply(g, p) => ListedCrossed(p, c.tables[g], i, j);
      case Deliver(g, from, p, _) =>
        var e := Envelope(from, g, p);
        assert e in c.net && CrossedPacket(e.packet, i, j);
        CrossedMerge(c.tables[g], p, i, j);
    }
  }

  lemma ListedCrossed(p: Packet, t: Table, i: NodeId, j: NodeId)
    requires Enumerates(p, t) && Crossed(t, i, j)
    ensures CrossedPacket(p, i, j)
  {
  }

  lemma {:induction false} CrossedRun(c: Cluster, run: seq<Action>, i: NodeId, j: NodeId)
    requires AllCrossed(c, i, j) && AllRemote(run)
    ensures AllCrossed(After(c, run), i, j) && After(c, run).tables.Keys == c.tables.Keys
    ensures forall g :: g in c.tables && Both(After(c, run).tables[g], i, j, LAST) ==> Both(c.tables[g], i, j, LAST)
    decreases |run|
  {
    if run != [] {
      hide Act, AllCrossed, Both;
      var rest, last := run[..|run| - 1], run[|run| - 1];
      Shorter(run);
      CrossedRun(c, rest, i, j);
      CrossedStep(After(c, rest), last, i, j);
    }
  }

  // ---------------------------------------------------------------------
  // Four hosts
  // ---------------------------------------------------------------------

  function Row(hosts: set<NodeId>, i: NodeId, j: NodeId, ri: Record, rj: Record): Table {
    map k | k in hosts + {i, j} :: if k == i then ri else if k == j then rj else HERE
  }

  /** Hosts that know only themselves. */
  function Hosts(hosts: set<NodeId>): Cluster {
    Cluster(map g | g in hosts :: Own(g), multiset{}, map[], set g | g in hosts :: DigestOf(g, HERE))
  }

  /** A host enters the members it does not know yet, one after the other. */
  lemma {:induction false} SetUp(c: Cluster, run: seq<Action>, g: NodeId, t: Table, todo: set<NodeId>)
    returns (run': seq<Action>)
    requires Smooth(c, run) && g in After(c, run).tables && todo <= t.Keys
    requires After(c, run).tables[g] == t - todo && forall id :: id in todo ==> t[id].generation == 0
    ensures Smooth(c, run') && OnlyTable(After(c, run), After(c, run'), g, t)
    decreases todo
  {
    hide After, Smooth;
    var c1 := After(c, run);
    if todo == {} {
      run' := run;
      assert t - todo == t && c1.tables[g := t] == c1.tables;
    } else {
      var id :| id in todo;
      var r, t1 := t[id], t - (todo - {id});
      var a := LocalUpsert(g, id, r.state, r.address, r.at);
      assert (t - todo)[id := r] == t1;
      LocalOn(c, run, g, a, t1);
      run' := SetUp(c, run + [a], g, t, todo - {id});
      assert c1.tables[g := t1][g := t] == c1.tables[g := t];
    }
  }

  predicate Entered(t: Table, g: NodeId) {
    g in t && t[g] == HERE && forall id :: id in t ==> t[id].generation == 0
  }

  lemma {:induction false} SetUpAll(hosts: set<NodeId>, rows: map<NodeId, Table>, todo: set<NodeId>)
    returns (run: seq<Action>)
    requires todo <= hosts <= rows.Keys && forall g :: g in hosts ==> Entered(rows[g], g)
    ensures Smooth(Hosts(hosts), run)
    ensures var c := After(Hosts(hosts), run);
      c.net == multiset{} && c.tables == map g | g in hosts :: if g in todo then rows[g] else Own(g)
    decreases todo
  {
    hide After, Smooth;
    var c := Hosts(hosts);
    AfterNone(c);
    NoneSmooth(c);
    if todo == {} {
      run := [];
    } else {
      var g :| g in todo;
      var rest := SetUpAll(hosts, rows, todo - {g});
      var t := rows[g];
      assert Entered(t, g) && t - (t.Keys - {g}) == Own(g);
      run := SetUp(c, rest, g, t, t.Keys - {g});
    }
  }

  predicate Apart(h: NodeId, g: NodeId, k: NodeId, l: NodeId, i: NodeId, j: NodeId) {
    h !in {g, k, l} && g !in {k, l} && k != l && i !in {h, g, k, l} && j !in {h, g, k, l} && i != j
  }

  predicate Holding(c: Cluster, g: NodeId, i: NodeId, j: NodeId, ri: Record, rj: Record) {
    g in c.tables && Says(c.tables[g], i) == Some(DigestOf(i, ri)) && Says(c.tables[g], j) == Some(DigestOf(j, rj))
  }

  /** The four hosts list each other and hold these records of the two members; nothing is in flight. */
  predicate Crossing(c: Cluster, h: NodeId, g: NodeId, k: NodeId, l: NodeId, i: NodeId, j: NodeId) {
    && c.tables.Keys == {h, g, k, l} && Mesh(c) && c.net == multiset{}
    && Holding(c, h, i, j, FIRST, FIRST) && Holding(c, g, i, j, NEXT, GONE)
    && Holding(c, k, i, j, GONE, NEXT) && Holding(c, l, i, j, LAST, LAST)
  }

  lemma {:induction false} CrossingRun(h: NodeId, g: NodeId, k: NodeId, l: NodeId, i: NodeId, j: NodeId)
    returns (run: seq<Action>)
    requires Apart(h, g, k, l, i, j)
    ensures Smooth(Hosts({h, g, k, l}), run) && Crossing(After(Hosts({h, g, k, l}), run), h, g, k, l, i, j)
  {
    hide After, Smooth, Hosts, Crossing, RowOf;
    var hosts := {h, g, k, l};
    var rows := map f | f in hosts :: RowOf(h, g, k, l, i, j, f);
    forall f | f in hosts ensures Entered(rows[f], f) { RowOfFacts(h, g, k, l, i, j, f); }
    hide Entered;
    run := SetUpAll(hosts, rows, hosts);
    var c := After(Hosts(hosts), run);
    assert forall f :: f in hosts ==> c.tables[f] == RowOf(h, g, k, l, i, j, f);
    RowsCross(c, h, g, k, l, i, j);
  }

  function RowOf(h: NodeId, g: NodeId, k: NodeId, l: NodeId, i: NodeId, j: NodeId, f: NodeId): Table {
    var hosts := {h, g, k, l};
    if f == h then Row(hosts, i, j, FIRST, FIRST) else if f == g then Row(hosts, i, j, NEXT, GONE)
    else if f == k then Row(hosts, i, j, GONE, NEXT) else Row(hosts, i, j, LAST, LAST)
  }

  lemma {:induction false} RowOfFacts(h: NodeId, g: NodeId, k: NodeId, l: NodeId, i: NodeId, j: NodeId, f: NodeId)
    requires Apart(h, g, k, l, i, j) && f in {h, g, k, l}
    ensures var t := RowOf(h, g, k, l, i, j, f);
      && t.Keys == {h, g, k, l} + {i, j} && Entered(t, f)
      && var ri := if f == h then FIRST else if f == g then NEXT else if f == k then GONE else LAST;
         var rj := if f == h then FIRST else if f == g then GONE else if f == k then NEXT else LAST;
         Says(t, i) == Some(DigestOf(i, ri)) && Says(t, j) == Some(DigestOf(j, rj))
  {
    hide Row, Says, Entered;
    var hosts := {h, g, k, l};
    if f == h {
      RowFacts(hosts, i, j, FIRST, FIRST);
    } else if f == g {
      RowFacts(hosts, i, j, NEXT, GONE);
    } else if f == k {
      RowFacts(hosts, i, j, GONE, NEXT);
    } else {
      RowFacts(hosts, i, j, LAST, LAST);
    }
  }

  lemma {:induction false} RowsCross(c: Cluster, h: NodeId, g: NodeId, k: NodeId, l: NodeId, i: NodeId, j: NodeId)
    requires Apart(h, g, k, l, i, j) && c.tables.Keys == {h, g, k, l} && c.net == multiset{}
    requires forall f :: f in {h, g, k, l} ==> c.tables[f] == RowOf(h, g, k, l, i, j, f)
    ensures Crossing(c, h, g, k, l, i, j)
  {
    hide RowOf, Says, Mesh, Holding;
    assert Mesh(c) by { RowsMesh(c, h, g, k, l, i, j); }
    RowHolds(c, h, g, k, l, i, j, h, FIRST, FIRST);
    RowHolds(c, h, g, k, l, i, j, g, NEXT, GONE);
    RowHolds(c, h, g, k, l, i, j, k, GONE, NEXT);
    RowHolds(c, h, g, k, l, i, j, l, LAST, LAST);
  }

  lemma {:induction false} RowsMesh(c: Cluster, h: NodeId, g: NodeId, k: NodeId, l: NodeId, i: NodeId, j: NodeId)
    requires Apart(h, g, k, l, i, j) && c.tables.Keys == {h, g, k, l}
    requires forall f :: f in {h, g, k, l} ==> c.tables[f] == RowOf(h, g, k, l, i, j, f)
    ensures Mesh(c)
  {
    hide RowOf, Says, Entered, Apart;
    forall f | f in c.tables ensures c.tables[f].Keys >= {h, g, k, l} { RowOfFacts(h, g, k, l, i, j, f); }
  }

  lemma {:induction false} RowHolds(c: Cluster, h: NodeId, g: NodeId, k: NodeId, l: NodeId, i: NodeId, j: NodeId,
          f: NodeId, ri: Record, rj: Record)
    requires Apart(h, g, k, l, i, j) && f in {h, g, k, l} && f in c.tables
    requires c.tables[f] == RowOf(h, g, k, l, i, j, f)
    requires (f, ri, rj) in {(h, FIRST, FIRST), (g, NEXT, GONE), (k, GONE, NEXT), (l, LAST, LAST)}
    ensures Holding(c, f, i, j, ri, rj)
  {
    hide RowOf, Says, Entered;
    RowOfFacts(h, g, k, l, i, j, f);
  }

  lemma {:induction false} RowFacts(hosts: set<NodeId>, i: NodeId, j: NodeId, ri: Record, rj: Record)
    requires i !in hosts && j !in hosts && i != j && ri.generation == 0 && rj.generation == 0
    ensures var t := Row(hosts, i, j, ri, rj);
      && t.Keys == hosts + {i, j} && Says(t, i) == Some(DigestOf(i, ri)) && Says(t, j) == Some(DigestOf(j, rj))
      && forall g :: g in hosts ==> Entered(t, g)
  {
  }

  /** Each of the two members alone can be learned by `h`. */
  lemma {:induction false} EachLearned(c: Cluster, h: NodeId, f: NodeId, l: NodeId, id: NodeId)
    returns (run: seq<Action>)
    requires DistinctNet(c) && h in c.tables && Near(c, f, h) && Near(c, l, h)
    requires Says(c.tables[h], id) == Some(DigestOf(id, FIRST))
    requires Holds(c, f, DigestOf(id, NEXT)) && Holds(c, l, DigestOf(id, LAST))
    ensures Smooth(c, run) && Brings(c, run, h, id, DigestOf(id, LAST))
  {
    hide After, Smooth, DistinctNet, Near;
    var avail, from := Offers(c, h, id), Says(c.tables[h], id);
    var x, y := DigestOf(id, NEXT), DigestOf(id, LAST);
    assert x in avail && y in avail;
    ChainOn(avail, from, [], x);
    ChainOn(avail, from, [] + [x], y);
    assert ChainTo(avail, from, y);
    run := LearnsWhenOffered(c, h, id, y);
  }

  lemma FreshHosts(hosts: set<NodeId>)
    ensures Starting(Hosts(hosts))
  {
  }

  lemma {:induction false} CrossingFacts(c: Cluster, h: NodeId, g: NodeId, k: NodeId, l: NodeId, i: NodeId, j: NodeId)
    requires Apart(h, g, k, l, i, j) && Crossing(c, h, g, k, l, i, j)
    ensures DistinctNet(c) && Near(c, g, h) && Near(c, k, h) && Near(c, l, h) && AllCrossed(c, i, j)
  {
    hide Says;
    assert AllList(c, h);
  }

  /** From fresh hosts there is a run after which all of them list each other and one of them can learn the last
      record of either of two members, but of both of them in no run: each step towards one brings the other down. */
  lemma {:induction false} JointExample(h: NodeId, g: NodeId, k: NodeId, l: NodeId, i: NodeId, j: NodeId)
    returns (run: seq<Action>)
    requires Apart(h, g, k, l, i, j)
    ensures Starting(Hosts({h, g, k, l})) && Smooth(Hosts({h, g, k, l}), run)
    ensures var c := After(Hosts({h, g, k, l}), run);
      && Crossing(c, h, g, k, l, i, j)
      && (exists more :: Smooth(c, more) && Brings(c, more, h, i, DigestOf(i, LAST)))
      && (exists more :: Smooth(c, more) && Brings(c, more, h, j, DigestOf(j, LAST)))
      && (forall more :: !(Brings(c, more, h, i, DigestOf(i, LAST)) && Brings(c, more, h, j, DigestOf(j, LAST))))
  {
    hide After, Smooth;
    run := CrossingRun(h, g, k, l, i, j);
    var c := After(Hosts({h, g, k, l}), run);
    FreshHosts({h, g, k, l});
    hide Starting, Hosts;
    CrossingFacts(c, h, g, k, l, i, j);
    hide Near, AllCrossed, Mesh;
    var one := EachLearned(c, h, g, l, i);
    var other := EachLearned(c, h, k, l, j);
    forall more | AllRemote(more)
      ensures !(Brings(c, more, h, i, DigestOf(i, LAST)) && Brings(c, more, h, j, DigestOf(j, LAST)))
    {
      CrossedRun(c, more, i, j);
    }
  }
}
