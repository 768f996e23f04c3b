/**
 Read repair on the replicas' stores: what a second read of the same owners
 finds once the repairs of the first have landed.
 */
module Settling {
  import opened Text
  import opened HybridClock
  import opened VectorClock
  import opened Ring
  import opened Resolver
  import opened Replica
  import opened FanOut
  import opened ReadRepair
  import C = Coordinator

  ghost predicate InView(view: View, nodes: seq<NodeId>) { forall n :: n in nodes ==> n in view }

  /** The stores after every stale replica has been sent the winner and has stored it. */
  ghost function RepairedView(view: View, key: ObjectKey, rs: seq<Response>, winner: VersionedDoc): View {
    Spread(view, Members(Stale(rs, winner)), C.RepairRequest(key, winner))
  }

  lemma {:induction false} StaleFrom(rs: seq<Response>, w: VersionedDoc, n: NodeId) returns (i: nat)
    requires n in Stale(rs, w)
    ensures i < |rs| && rs[i].node == n && NeedsRepair(rs[i].doc, w)
    decreases |rs|
  {
    hide NeedsRepair;
    var m := |rs| - 1;
    if NeedsRepair(rs[m].doc, w) && rs[m].node == n {
      i := m;
    } else {
      i := StaleFrom(rs[..m], w, n);
    }
  }

  lemma {:induction false} StaleHas(rs: seq<Response>, w: VersionedDoc, i: nat)
    requires i < |rs| && NeedsRepair(rs[i].doc, w)
    ensures rs[i].node in Stale(rs, w)
    decreases |rs|
  {
    hide NeedsRepair;
    if i < |rs| - 1 { StaleHas(rs[..|rs| - 1], w, i); }
  }

  /** Among different nodes, exactly those whose answer needs repair are stale. */
  lemma {:induction false} StaleExactly(view: View, key: ObjectKey, nodes: seq<NodeId>, w: VersionedDoc, i: nat)
    requires Distinct(nodes) && InView(view, nodes) && i < |nodes|
    ensures var rs := C.Answers(view, key, nodes);
      nodes[i] in Stale(rs, w) <==> NeedsRepair(rs[i].doc, w)
  {
    hide NeedsRepair, Stale;
    var rs := C.Answers(view, key, nodes);
    if NeedsRepair(rs[i].doc, w) { StaleHas(rs, w, i); }
    if nodes[i] in Stale(rs, w) {
      var j := StaleFrom(rs, w, nodes[i]);
    }
  }

  lemma {:induction false} RepairedCopy(view: View, key: ObjectKey, takers: set<NodeId>, w: VersionedDoc, n: NodeId)
    requires n in view && Sound(w)
    ensures var after := Spread(view, takers, C.RepairRequest(key, w));
      && n in after
      && Lookup(after[n].docs, key) == if n in takers then Some(w) else Lookup(view[n].docs, key)
  {
  }

  /** The replicas' answers after repair are the answers before it with the winner in place of those
      that needed repair. */
  lemma {:induction false} AnswersAfterRepair(view: View, key: ObjectKey, nodes: seq<NodeId>, w: VersionedDoc)
    requires Distinct(nodes) && InView(view, nodes) && Sound(w)
    ensures var rs := C.Answers(view, key, nodes);
      var after := RepairedView(view, key, rs, w);
      InView(after, nodes) && C.Answers(after, key, nodes) == Repaired(rs, w)
  {
    var rs := C.Answers(view, key, nodes);
    var stale := Stale(rs, w);
    var after := RepairedView(view, key, rs, w);
    hide NeedsRepair, Stale, Spread;
    forall i | 0 <= i < |nodes|
      ensures nodes[i] in after
      ensures Response(nodes[i], Lookup(after[nodes[i]].docs, key)) == Repaired(rs, w)[i]
    {
      StaleExactly(view, key, nodes, w, i);
      RepairedCopy(view, key, Members(stale), w, nodes[i]);
      assert nodes[i] in Members(stale) <==> nodes[i] in stale;
    }
    assert C.Answers(after, key, nodes) == Repaired(rs, w);
  }

  // ---------------------------------------------------------------------
  // The order of answers
  // ---------------------------------------------------------------------

  lemma {:induction false} AnswersConcat(view: View, key: ObjectKey, a: seq<NodeId>, b: seq<NodeId>)
    requires InView(view, a) && InView(view, b)
    ensures InView(view, a + b) && C.Answers(view, key, a + b) == C.Answers(view, key, a) + C.Answers(view, key, b)
  {
  }

  lemma {:induction false} Cut(s: seq<NodeId>, n: NodeId) returns (a: seq<NodeId>, b: seq<NodeId>)
    requires n in s
    ensures s == a + [n] + b
  {
    var j :| 0 <= j < |s| && s[j] == n;
    a, b := s[..j], s[j + 1..];
  }

  /** Asked in another order, the same nodes give the same answers in another order. */
  lemma {:induction false} AnswersReordered(view: View, key: ObjectKey, nodes: seq<NodeId>, again: seq<NodeId>)
    requires InView(view, nodes) && multiset(nodes) == multiset(again)
    ensures InView(view, again) && multiset(C.Answers(view, key, nodes)) == multiset(C.Answers(view, key, again))
    decreases |nodes|
  {
    hide C.Answers;
    assert forall n :: n in again ==> n in multiset(again);
    assert |nodes| == |multiset(nodes)| == |again|;
    if nodes == [] {
      assert again == nodes;
    } else {
      var m := |nodes| - 1;
      var n := nodes[m];
      assert n in multiset(nodes);
      assert n in again;
      var a, b := Cut(again, n);
      assert nodes == nodes[..m] + [n];
      OneLess(nodes[..m], a, b, n);
      AnswersReordered(view, key, nodes[..m], a + b);
      OneMore(view, key, nodes[..m], a, b, n);
    }
  }

  lemma {:induction false} OneLess(rest: seq<NodeId>, a: seq<NodeId>, b: seq<NodeId>, n: NodeId)
    requires multiset(rest + [n]) == multiset(a + [n] + b)
    ensures multiset(rest) == multiset(a + b)
  {
    assert multiset(rest + [n]) == multiset(rest) + multiset{n};
    assert multiset(a + [n] + b) == multiset(a + b) + multiset{n};
    assert multiset(rest) == multiset(rest) + multiset{n} - multiset{n};
  }

  lemma {:induction false} OneMore(view: View, key: ObjectKey, rest: seq<NodeId>, a: seq<NodeId>, b: seq<NodeId>,
          n: NodeId)
    requires InView(view, rest) && InView(view, a) && InView(view, b) && n in view
    requires InView(view, a + b) && multiset(C.Answers(view, key, rest)) == multiset(C.Answers(view, key, a + b))
    ensures InView(view, rest + [n]) && InView(view, a + [n] + b)
    ensures multiset(C.Answers(view, key, rest + [n])) == multiset(C.Answers(view, key, a + [n] + b))
  {
    AnswersConcat(view, key, rest, [n]);
    AnswersConcat(view, key, a, b);
    AnswersConcat(view, key, a, [n]);
    AnswersConcat(view, key, a + [n], b);
    hide C.Answers;
  }

  lemma {:induction false} SecondAnswers(view: View, key: ObjectKey, nodes: seq<NodeId>, again: seq<NodeId>,
          w: VersionedDoc)
    requires Distinct(nodes) && InView(view, nodes) && Sound(w) && multiset(nodes) == multiset(again)
    ensures var rs := C.Answers(view, key, nodes);
      var after := RepairedView(view, key, rs, w);
      InView(after, again) && multiset(C.Answers(after, key, again)) == multiset(Repaired(rs, w))
  {
    hide C.Answers, RepairedView, Repaired;
    var rs := C.Answers(view, key, nodes);
    AnswersAfterRepair(view, key, nodes, w);
    AnswersReordered(RepairedView(view, key, rs, w), key, nodes, again);
  }

  /** Once the repairs of a read are stored, a read of the same replicas, in whatever order they
      answer, finds the same version and nothing to repair, exactly when no copy that the first
      read saw was causally after its winner. */
  lemma {:induction false} StoresSettleExactly(view: View, key: ObjectKey, nodes: seq<NodeId>, again: seq<NodeId>)
    requires Distinct(nodes) && InView(view, nodes) && multiset(nodes) == multiset(again)
    requires var rs := C.Answers(view, key, nodes);
      Present(rs) != [] && Sound(Resolve(Present(rs)))
    ensures var rs := C.Answers(view, key, nodes);
      InView(RepairedView(view, key, rs, Resolve(Present(rs))), again)
    ensures var rs := C.Answers(view, key, nodes);
      var w := Resolve(Present(rs));
      var other := C.Answers(RepairedView(view, key, rs, w), key, again);
      && Present(other) != []
      && (Order(Resolve(Present(other)).version, w.version).Equal? && Stale(other, Resolve(Present(other))) == []
          <==> !Dominated(rs, w))
  {
    hide C.Answers, RepairedView, Repaired, Present, Resolve, Stale, Order, Dominated;
    var rs := C.Answers(view, key, nodes);
    var w := Resolve(Present(rs));
    SecondAnswers(view, key, nodes, again, w);
    RepairSettlesExactly(rs, C.Answers(RepairedView(view, key, rs, w), key, again));
  }

  /** From coherent copies the second read has the outcome of the first, without repairs. */
  lemma {:induction false} CoherentStoresSettle(view: View, key: ObjectKey, nodes: seq<NodeId>, again: seq<NodeId>,
          r: nat)
    requires Distinct(nodes) && InView(view, nodes) && multiset(nodes) == multiset(again) && |nodes| >= r
    requires var rs := C.Answers(view, key, nodes);
      Present(rs) != [] && Coherent(Present(rs)) && Sound(Resolve(Present(rs)))
    ensures var rs := C.Answers(view, key, nodes);
      InView(RepairedView(view, key, rs, Resolve(Present(rs))), again)
    ensures var rs := C.Answers(view, key, nodes);
      var other := C.Answers(RepairedView(view, key, rs, Resolve(Present(rs))), key, again);
      Outcome(rs, r).Found? && Outcome(other, r) == Outcome(rs, r).(repairs := 0)
  {
    var rs := C.Answers(view, key, nodes);
    assert |rs| == |nodes|;
    hide C.Answers, RepairedView, Repaired, Present, Resolve, Stale, Coherent, Outcome;
    var w := Resolve(Present(rs));
    SecondAnswers(view, key, nodes, again, w);
    CoherentSettles(rs, C.Answers(RepairedView(view, key, rs, w), key, again), r);
  }
}
