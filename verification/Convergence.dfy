/**
 Gossip comes to rest, and when the hosts then agree.
 */
module Convergence {
  import opened Text
  import opened HybridClock
  import opened Membership
  import opened Gossip
  import opened Exchange
  import opened Traffic
  import opened Learning
  import opened Quiescence

  // ---------------------------------------------------------------------
  // Only so many changes
  // ---------------------------------------------------------------------

  /** All digests that are held or in flight. */
  ghost function Known(c: Cluster): set<Digest> {
    (set h, id | h in c.tables && id in c.tables[h] :: DigestOf(id, c.tables[h][id])) +
    (set e, x | e in c.net && x in e.packet :: x)
  }

  lemma KnownIsPresent(c: Cluster, x: Digest)
    ensures x in Known(c) <==> Present(c, x)
  {
  }

  /** Which of these digests each host has yet to reach. */
  ghost function Unseen(c: Cluster, some: set<Digest>): set<(NodeId, Digest)> {
    set h, x | h in c.tables && x in some && Beyond(Says(c.tables[h], x.id), x) :: (h, x)
  }

  /** A merge that changes a table takes over some digest. */
  lemma {:induction false} MergeTakes(t: Table, p: Packet) returns (x: Digest)
    requires DistinctIds(p) && MergeAll(t, p) != t
    ensures x in p && Takes(Says(t, x.id), x) && Says(MergeAll(t, p), x.id) == Some(x)
  {
    if forall i :: 0 <= i < |p| ==> !Accepts(t, p[i]) {
      MergeRefusesAll(t, p);
      assert false;
    } else {
      var k :| 0 <= k < |p| && Accepts(t, p[k]);
      x := p[k];
      MergedSays(t, p, x.id);
    }
  }

  lemma {:induction false} ActUnseen(c: Cluster, a: Action, some: set<Digest>)
    requires DistinctNet(c) && Remote(a)
    ensures Unseen(Act(c, a), some) <= Unseen(c, some)
  {
    var c' := Act(c, a);
    ActKeys(c, a);
    hide Act, DistinctNet, InMail;
    forall h, x | h in c.tables && x in some && Beyond(Says(c'.tables[h], x.id), x)
      ensures Beyond(Says(c.tables[h], x.id), x)
    {
      ActSays(c, a, h, x.id);
    }
  }

  lemma ActKeys(c: Cluster, a: Action)
    ensures Act(c, a).tables.Keys == c.tables.Keys
  {
    hide MergeAll, Enumerates, Upsert, Transition;
  }

  lemma {:induction false} ChangeUnseen(c: Cluster, a: Action, some: set<Digest>)
    requires DistinctNet(c) && Remote(a) && Act(c, a).tables != c.tables && forall x :: Present(c, x) ==> x in some
    ensures Unseen(Act(c, a), some) != Unseen(c, some)
  {
    hide Enumerates, Present, MergeAll;
    var h, c' := a.host, Act(c, a);
    assert a.Deliver? && Enabled(c, a);
    var e := Envelope(a.from, h, a.packet);
    assert e in c.net && c'.tables == c.tables[h := MergeAll(c.tables[h], e.packet)];
    assert MergeAll(c.tables[h], e.packet) != c.tables[h];
    var x := MergeTakes(c.tables[h], e.packet);
    TakesBeyond(Says(c.tables[h], x.id), x);
    assert InMail(c, h, x);
    InMailIsPresent(c, h, x);
    assert (h, x) in Unseen(c, some) && (h, x) !in Unseen(c', some);
  }

  function Changes(c: Cluster, run: seq<Action>): nat {
    if run == [] then 0
    else
      var rest := run[..|run| - 1];
      Changes(c, rest) + if After(c, run).tables != After(c, rest).tables then 1 else 0
  }

  lemma {:induction false} SmallerSet(a: set<(NodeId, Digest)>, b: set<(NodeId, Digest)>)
    requires a <= b
    ensures |a| <= |b| && (a != b ==> |a| < |b|)
  {
    assert b == a + (b - a);
    if a != b {
      var x :| x in b - a;
      assert |b - a| > 0;
    }
  }

  /** Every change of a table uses up a digest that its host had yet to reach. */
  lemma {:induction false} ChangesUse(c: Cluster, run: seq<Action>, some: set<Digest>)
    requires DistinctNet(c) && AllRemote(run) && forall x :: Present(c, x) ==> x in some
    ensures Changes(c, run) + |Unseen(After(c, run), some)| <= |Unseen(c, some)|
    ensures After(c, run).tables != c.tables ==> Changes(c, run) > 0
    decreases |run|
  {
    if run != [] {
      hide Act, DistinctNet, Present, Unseen;
      var rest, last := run[..|run| - 1], run[|run| - 1];
      Shorter(run);
      ChangesUse(c, rest, some);
      RunPresent(c, rest);
      var c1, c2 := After(c, rest), After(c, run);
      ActUnseen(c1, last, some);
      SmallerSet(Unseen(c2, some), Unseen(c1, some));
      if c2.tables != c1.tables { ChangeUnseen(c1, last, some); }
    }
  }

  /** No run of gossip changes tables more often than there are, for all hosts together, digests about
      beyond what the host says. */
  lemma {:induction false} ChangesBounded(c: Cluster, run: seq<Action>)
    requires DistinctNet(c) && AllRemote(run)
    ensures Changes(c, run) <= |Unseen(c, Known(c))|
  {
    hide DistinctNet, Present, Unseen, Known, Changes;
    forall x | Present(c, x) ensures x in Known(c) { KnownIsPresent(c, x); }
    ChangesUse(c, run, Known(c));
  }

  // ---------------------------------------------------------------------
  // Coming to rest
  // ---------------------------------------------------------------------

  lemma {:induction false} SettleOn(c: Cluster, run: seq<Action>, some: set<Digest>) returns (run': seq<Action>)
    requires DistinctNet(c) && Smooth(c, run) && AllRemote(run) && forall x :: Present(c, x) ==> x in some
    ensures Smooth(c, run') && AllRemote(run') && AtRest(After(c, run'))
    decreases |Unseen(After(c, run), some)|
  {
    hide After, Smooth, DistinctNet, Present, Unseen, Open;
    var c1 := After(c, run);
    if AtRest(c1) {
      run' := run;
    } else {
      var h, x :| Open(c1, h, x);
      var mid := Stir(c, run, h, x);
      var more := mid[|run|..];
      assert mid == run + more;
      AfterBoth(c, run, more);
      RunPresent(c, run);
      assert AllRemote(more);
      ChangesUse(c1, more, some);
      run' := SettleOn(c, mid, some);
    }
  }

  /** From every cluster a run without loss or duplication leads to rest. */
  lemma {:induction false} Settles(c: Cluster) returns (run: seq<Action>)
    requires DistinctNet(c)
    ensures Smooth(c, run) && AllRemote(run) && AtRest(After(c, run))
  {
    hide After, Smooth, DistinctNet, Present, AtRest, Known;
    NoneSmooth(c);
    forall x | Present(c, x) ensures x in Known(c) { KnownIsPresent(c, x); }
    run := SettleOn(c, [], Known(c));
  }

  // ---------------------------------------------------------------------
  // Agreement
  // ---------------------------------------------------------------------

  /** Every host lists every other. */
  predicate Mesh(c: Cluster) { forall h :: h in c.tables ==> AllList(c, h) }

  /** At rest, two hosts of which one lists the other say the same about a member exactly when what they say is
      reconcilable. */
  lemma {:induction false} RestAgreesExactly(c: Cluster, g: NodeId, h: NodeId, id: NodeId)
    requires AtRest(c) && Linked(c, g, h)
    ensures Says(c.tables[g], id) == Says(c.tables[h], id) <==>
      Reconcilable(Says(c.tables[g], id), Says(c.tables[h], id))
  {
    hide Takes, InMail;
    assert Linked(c, h, g);
    var a, b := Says(c.tables[g], id), Says(c.tables[h], id);
    if a.Some? { assert Holds(c, g, a.value) && !Open(c, h, a.value); }
    if b.Some? { assert Holds(c, h, b.value) && !Open(c, g, b.value); }
  }

  /** Of two different digests of a member one is taken over by a table that has the other, and those of
      a member that some host does not know are taken over there. */
  ghost predicate Tame(c: Cluster) {
    && (forall x: Digest, y: Digest ::
          Present(c, x) && Present(c, y) && x.id == y.id ==> Reconcilable(Some(x), Some(y)))
    && (forall h, x: Digest :: h in c.tables && Present(c, x) && x.id !in c.tables[h] ==> Takes(None, x))
  }

  /** The second record is the first one or has a later stamp. */
  predicate NotBefore(s: Option<Digest>, s': Option<Digest>) {
    s.Some? ==> s'.Some? && (s' == s || Beyond(s, s'.value))
  }

  lemma {:induction false} ChainUp(avail: iset<Digest>, from: Option<Digest>, ds: seq<Digest>)
    requires Chain(avail, from, ds)
    ensures NotBefore(from, EndOf(from, ds)) && (ds != [] ==> Beyond(from, ds[|ds| - 1]))
    decreases |ds|
  {
    if ds != [] {
      ChainUp(avail, from, ds[..|ds| - 1]);
      TakesBeyond(EndOf(from, ds[..|ds| - 1]), ds[|ds| - 1]);
    }
  }

  lemma {:induction false} RunNotBefore(c: Cluster, run: seq<Action>, h: NodeId, id: NodeId)
    requires DistinctNet(c) && AllRemote(run) && h in c.tables
    ensures h in After(c, run).tables && NotBefore(Says(c.tables[h], id), Says(After(c, run).tables[h], id))
  {
    hide After, DistinctNet, Chain, About;
    var ds := Learned(c, run, h, id);
    ChainUp(About(c, id), Says(c.tables[h], id), ds);
  }

  lemma {:induction false} StaysMesh(c: Cluster, run: seq<Action>)
    requires DistinctNet(c) && AllRemote(run) && Mesh(c)
    ensures Mesh(After(c, run))
  {
    hide After, DistinctNet;
    var c' := After(c, run);
    RunKeys(c, run);
    forall g, h | g in c.tables && h in c.tables && g != h ensures h in c'.tables[g] {
      assert AllList(c, h);
      RunNotBefore(c, run, g, h);
    }
  }

  lemma {:induction false} StaysTame(c: Cluster, run: seq<Action>)
    requires DistinctNet(c) && AllRemote(run) && Tame(c)
    ensures Tame(After(c, run))
  {
    hide After, DistinctNet, Present, Reconcilable, Takes;
    var c' := After(c, run);
    RunPresent(c, run);
    forall h, x: Digest | h in c'.tables && Present(c', x) && x.id !in c'.tables[h] ensures Takes(None, x) {
      RunNotBefore(c, run, h, x.id);
    }
  }

  predicate Agreed(c: Cluster) {
    forall g, h, id :: g in c.tables && h in c.tables ==> Says(c.tables[g], id) == Says(c.tables[h], id)
  }

  lemma {:induction false} TameReconcilable(c: Cluster, g: NodeId, h: NodeId, id: NodeId)
    requires Tame(c) && g in c.tables && h in c.tables
    ensures Reconcilable(Says(c.tables[g], id), Says(c.tables[h], id))
  {
    var a, b := Says(c.tables[g], id), Says(c.tables[h], id);
    assert a.Some? ==> Present(c, a.value);
    assert b.Some? ==> Present(c, b.value);
    hide Present;
    assert a.Some? && b.Some? ==> Reconcilable(Some(a.value), Some(b.value));
    hide Reconcilable;
    if a.None? && b.Some? {
      assert Takes(None, b.value);
    } else if a.Some? && b.None? {
      assert Takes(None, a.value);
    }
    OneUnknown(a, b);
  }

  lemma OneUnknown(a: Option<Digest>, b: Option<Digest>)
    ensures a.None? && b.None? ==> Reconcilable(a, b)
    ensures a.None? && b.Some? && Takes(None, b.value) ==> Reconcilable(a, b)
    ensures b.None? && a.Some? && Takes(None, a.value) ==> Reconcilable(a, b)
  {
  }

  /** Where every host lists every other and the records are tame, hosts at rest agree about every member, on a
      record that is not older than any that was held. */
  lemma {:induction false} RestIsAgreement(c: Cluster, run: seq<Action>)
    requires DistinctNet(c) && AllRemote(run) && Mesh(c) && Tame(c) && AtRest(After(c, run))
    ensures Agreed(After(c, run)) && After(c, run).tables.Keys == c.tables.Keys
    ensures forall g, h, id :: g in c.tables && h in c.tables ==>
      NotBefore(Says(c.tables[g], id), Says(After(c, run).tables[h], id))
  {
    hide After, DistinctNet, Tame, AtRest, Reconcilable, Says, NotBefore;
    var c' := After(c, run);
    RunKeys(c, run);
    StaysMesh(c, run);
    StaysTame(c, run);
    forall g, h, id | g in c'.tables && h in c'.tables ensures Says(c'.tables[g], id) == Says(c'.tables[h], id) {
      if g != h {
        MeshLinked(c', g, h);
        RestAgreesExactly(c', g, h, id);
        TameReconcilable(c', g, h, id);
      }
    }
    forall g, h, id | g in c.tables && h in c.tables
      ensures NotBefore(Says(c.tables[g], id), Says(c'.tables[h], id))
    {
      RunNotBefore(c, run, g, id);
      assert Says(c'.tables[g], id) == Says(c'.tables[h], id);
    }
  }

  lemma MeshLinked(c: Cluster, g: NodeId, h: NodeId)
    requires Mesh(c) && g in c.tables && h in c.tables && g != h
    ensures Linked(c, g, h)
  {
    assert AllList(c, h);
  }

  /** Then gossip makes all hosts agree on every member at once. */
  lemma {:induction false} Converges(c: Cluster) returns (run: seq<Action>)
    requires DistinctNet(c) && Mesh(c) && Tame(c)
    ensures Smooth(c, run) && AllRemote(run) && AtRest(After(c, run)) && Agreed(After(c, run))
    ensures After(c, run).tables.Keys == c.tables.Keys
    ensures forall g, h, id :: g in c.tables && h in c.tables ==>
      NotBefore(Says(c.tables[g], id), Says(After(c, run).tables[h], id))
  {
    hide After, DistinctNet, Mesh, Tame, AtRest, Smooth, Agreed, NotBefore, Says;
    run := Settles(c);
    RestIsAgreement(c, run);
  }
}
