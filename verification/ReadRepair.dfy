/**
 What a quorum read makes of the replicas' answers: the winner, the replicas
 that need repair, and when repairing them settles the matter.
 */
module ReadRepair {
  import opened Text
  import opened HybridClock
  import opened VectorClock
  import opened Resolver

  datatype Response = Response(node: NodeId, doc: Option<VersionedDoc>)

  function Present(rs: seq<Response>): seq<VersionedDoc> {
    if rs == [] then []
    else Present(rs[..|rs| - 1]) + (if rs[|rs| - 1].doc.Some? then [rs[|rs| - 1].doc.value] else [])
  }

  predicate NeedsRepair(d: Option<VersionedDoc>, winner: VersionedDoc) {
    d.None? || Order(d.value.version, winner.version).Before? || Order(d.value.version, winner.version).Concurrent?
  }

  function Stale(rs: seq<Response>, winner: VersionedDoc): seq<NodeId> {
    if rs == [] then []
    else Stale(rs[..|rs| - 1], winner) + (if NeedsRepair(rs[|rs| - 1].doc, winner) then [rs[|rs| - 1].node] else [])
  }

  datatype ReadOutcome =
    | Found(document: Option<Doc>, version: Entries, repairs: nat)
    | TooFewRead(needed: nat, available: nat)

  function Outcome(rs: seq<Response>, r: nat): ReadOutcome {
    if |rs| < r then TooFewRead(r, |rs|)
    else if Present(rs) == [] then Found(None, map[], 0)
    else
      var winner := Resolve(Present(rs));
      Found(winner.document, winner.version, |Stale(rs, winner)|)
  }

  lemma PresentStep(rs: seq<Response>)
    requires rs != []
    ensures var m := |rs| - 1;
      Present(rs) == if rs[m].doc.Some? then Present(rs[..m]) + [rs[m].doc.value] else Present(rs[..m])
  {
  }

  lemma {:induction false} PresentFacts(rs: seq<Response>)
    ensures forall d :: d in Present(rs) <==> exists i :: 0 <= i < |rs| && rs[i].doc == Some(d)
  {
    if rs != [] {
      var m := |rs| - 1;
      PresentFacts(rs[..m]);
      PresentStep(rs);
      hide Present;
      forall d ensures d in Present(rs) <==> exists i :: 0 <= i < |rs| && rs[i].doc == Some(d) {
        if i :| 0 <= i < |rs| && rs[i].doc == Some(d) {
          if i < m { assert rs[..m][i].doc == Some(d); }
        }
        if d in Present(rs[..m]) {
          var i :| 0 <= i < m && rs[..m][i].doc == Some(d);
          assert rs[i].doc == Some(d);
        }
      }
    }
  }

  lemma {:induction false} StaleFacts(rs: seq<Response>, winner: VersionedDoc)
    ensures Stale(rs, winner) == [] <==> forall i :: 0 <= i < |rs| ==> !NeedsRepair(rs[i].doc, winner)
  {
    if rs != [] {
      var m := |rs| - 1;
      StaleFacts(rs[..m], winner);
      assert forall i :: 0 <= i < m ==> rs[..m][i] == rs[i];
    }
  }

  /** A copy needs repair exactly when the winner knows more of some node than it does. */
  lemma {:induction false} RepairMeans(d: VersionedDoc, w: VersionedDoc)
    ensures NeedsRepair(Some(d), w) <==> exists n :: At(d.version, n) < At(w.version, n)
  {
    OrderMeans(d.version, w.version);
    EqualMeansSame(d.version, w.version);
    hide Order, At;
  }

  /** The replicas to repair are, in the order of their answers, those without a copy and those whose copy
      lacks something the winner knows. */
  lemma {:induction false} StaleExactly(rs: seq<Response>, w: VersionedDoc) returns (at: seq<nat>)
    ensures Increasing(at) && |at| == |Stale(rs, w)|
    ensures forall k :: 0 <= k < |at| ==> at[k] < |rs| && Stale(rs, w)[k] == rs[at[k]].node
    ensures forall i: nat :: i in at <==>
      i < |rs| && (rs[i].doc.None? || exists n :: At(rs[i].doc.value.version, n) < At(w.version, n))
    decreases |rs|
  {
    hide NeedsRepair, At, Stale, Increasing;
    StaleStep(rs, w);
    if rs == [] {
      at := [];
      assert Increasing([]) by { NoneIncreasing(); }
    } else {
      var m := |rs| - 1;
      at := StaleExactly(rs[..m], w);
      NoCopy(w);
      if rs[m].doc.Some? { RepairMeans(rs[m].doc.value, w); }
      if NeedsRepair(rs[m].doc, w) {
        IncreasingNext(at, m);
        at := at + [m];
      }
    }
  }

  lemma NoneIncreasing()
    ensures Increasing([])
  {
  }

  lemma StaleStep(rs: seq<Response>, w: VersionedDoc)
    ensures rs == [] ==> Stale(rs, w) == []
    ensures rs != [] ==>
      var m := |rs| - 1;
      Stale(rs, w) == if NeedsRepair(rs[m].doc, w) then Stale(rs[..m], w) + [rs[m].node] else Stale(rs[..m], w)
  {
    hide NeedsRepair;
  }

  lemma NoCopy(w: VersionedDoc)
    ensures NeedsRepair(None, w)
  {
  }

  /** The copies that are compared are those of the answers that have one, in order. */
  lemma {:induction false} PresentExactly(rs: seq<Response>) returns (at: seq<nat>)
    ensures Increasing(at) && |at| == |Present(rs)|
    ensures forall k :: 0 <= k < |at| ==> at[k] < |rs| && rs[at[k]].doc == Some(Present(rs)[k])
    ensures forall i: nat :: i in at <==> i < |rs| && rs[i].doc.Some?
    decreases |rs|
  {
    hide Present, Increasing;
    if rs == [] {
      at := [];
      assert Increasing([]) && Present([]) == [] by { NonePresent(); }
    } else {
      var m := |rs| - 1;
      PresentStep(rs);
      at := PresentExactly(rs[..m]);
      if rs[m].doc.Some? {
        IncreasingNext(at, m);
        at := at + [m];
      }
    }
  }

  lemma NonePresent()
    ensures Increasing([]) && Present([]) == []
  {
  }

  /** Too few answers fail with both numbers; answers without any copy find nothing, at the empty version and
      with nothing to repair; otherwise the winner is found. */
  lemma {:induction false} OutcomeMeans(rs: seq<Response>, r: nat)
    ensures |rs| < r ==> Outcome(rs, r) == TooFewRead(r, |rs|)
    ensures |rs| >= r && (forall i :: 0 <= i < |rs| ==> rs[i].doc.None?) ==> Outcome(rs, r) == Found(None, map[], 0)
    ensures |rs| >= r && (exists i :: 0 <= i < |rs| && rs[i].doc.Some?) ==>
      && Present(rs) != []
      && var w := Resolve(Present(rs));
         Outcome(rs, r) == Found(w.document, w.version, |Stale(rs, w)|)
  {
    hide Resolve, Stale;
    PresentFacts(rs);
    if i :| 0 <= i < |rs| && rs[i].doc.Some? { assert rs[i].doc.value in Present(rs); }
    if Present(rs) != [] { assert Present(rs)[0] in Present(rs); }
    hide Present;
  }

  // ---------------------------------------------------------------------
  // Repair
  // ---------------------------------------------------------------------

  /** The answers of the same replicas once every repair has landed. */
  function Repaired(rs: seq<Response>, winner: VersionedDoc): seq<Response> {
    seq(|rs|, i requires 0 <= i < |rs| =>
      if NeedsRepair(rs[i].doc, winner) then Response(rs[i].node, Some(winner)) else rs[i])
  }

  predicate AtLeast(d: VersionedDoc, w: VersionedDoc) {
    Order(d.version, w.version).Equal? || Order(d.version, w.version).After?
  }

  lemma {:induction false} TwoAbove(a: VersionedDoc, b: VersionedDoc, w: VersionedDoc)
    requires AtLeast(a, w) && AtLeast(b, w)
    ensures AtLeast(ResolveTwo(a, b), w)
    ensures Order(a.version, w.version).After? || Order(b.version, w.version).After? ==>
      Order(ResolveTwo(a, b).version, w.version).After?
  {
    OrderLaws(a.version, w.version, b.version);
    OrderLaws(b.version, w.version, a.version);
    OrderLaws(a.version, b.version, w.version);
    OrderLaws(w.version, a.version, b.version);
    OrderLaws(w.version, b.version, a.version);
    hide Order;
  }

  lemma {:induction false} FoldAbove(v: VersionedDoc, docs: seq<VersionedDoc>, w: VersionedDoc)
    requires AtLeast(v, w) && forall x :: x in docs ==> AtLeast(x, w)
    ensures AtLeast(Fold(v, docs), w)
    ensures Order(v.version, w.version).After? || (exists x :: x in docs && Order(x.version, w.version).After?) ==>
      Order(Fold(v, docs).version, w.version).After?
    decreases |docs|
  {
    hide Order, ResolveTwo, AtLeast;
    if docs != [] {
      TwoAbove(v, docs[0], w);
      FoldAbove(ResolveTwo(v, docs[0]), docs[1..], w);
      assert forall x :: x in docs ==> x == docs[0] || x in docs[1..];
    }
  }

  /** Any replica's answer is at or above the winner after repair, and above it exactly when it was before. */
  lemma {:induction false} RepairedAbove(rs: seq<Response>, w: VersionedDoc, other: seq<Response>)
    requires multiset(other) == multiset(Repaired(rs, w))
    ensures forall j :: 0 <= j < |other| ==> other[j].doc.Some? && AtLeast(other[j].doc.value, w)
    ensures forall j :: 0 <= j < |other| && Order(other[j].doc.value.version, w.version).After? ==>
      exists i :: 0 <= i < |rs| && rs[i].doc == other[j].doc
    ensures forall i :: 0 <= i < |rs| && rs[i].doc.Some? && Order(rs[i].doc.value.version, w.version).After? ==>
      exists j :: 0 <= j < |other| && other[j].doc == rs[i].doc
  {
    var fixed := Repaired(rs, w);
    OrderLaws(w.version, w.version, w.version);
    forall j | 0 <= j < |other|
      ensures other[j].doc.Some? && AtLeast(other[j].doc.value, w)
      ensures Order(other[j].doc.value.version, w.version).After? ==>
        exists i :: 0 <= i < |rs| && rs[i].doc == other[j].doc
    {
      assert other[j] in multiset(other);
      assert other[j] in fixed;
      var i :| 0 <= i < |fixed| && fixed[i] == other[j];
    }
    forall i | 0 <= i < |rs| && rs[i].doc.Some? && Order(rs[i].doc.value.version, w.version).After?
      ensures exists j :: 0 <= j < |other| && other[j].doc == rs[i].doc
    {
      assert fixed[i] == rs[i] && fixed[i] in multiset(fixed);
      assert rs[i] in other;
    }
  }

  lemma {:induction false} AgainAbove(docs: seq<VersionedDoc>, w: VersionedDoc)
    requires docs != [] && forall x :: x in docs ==> AtLeast(x, w)
    ensures AtLeast(Resolve(docs), w) && Resolve(docs) in docs
    ensures (exists x :: x in docs && Order(x.version, w.version).After?) ==>
      Order(Resolve(docs).version, w.version).After?
  {
    hide Order, AtLeast, ResolveTwo;
    FoldAbove(docs[0], docs[1..], w);
    FoldGivesOne(docs[0], docs[1..]);
    assert forall x :: x in docs ==> x == docs[0] || x in docs[1..];
  }

  lemma {:induction false} InPresent(rs: seq<Response>, i: nat)
    requires i < |rs| && rs[i].doc.Some?
    ensures rs[i].doc.value in Present(rs)
  {
    PresentFacts(rs);
  }

  lemma {:induction false} FromPresent(rs: seq<Response>, d: VersionedDoc) returns (i: nat)
    requires d in Present(rs)
    ensures i < |rs| && rs[i].doc == Some(d)
  {
    PresentFacts(rs);
    i :| 0 <= i < |rs| && rs[i].doc == Some(d);
  }

  predicate Dominated(rs: seq<Response>, w: VersionedDoc) {
    exists d :: d in Present(rs) && Order(d.version, w.version).After?
  }

  lemma {:induction false} SameLength(rs: seq<Response>, w: VersionedDoc, other: seq<Response>)
    requires multiset(other) == multiset(Repaired(rs, w))
    ensures |other| == |rs|
  {
    assert |other| == |multiset(other)|;
  }

  lemma {:induction false} StillDominated(rs: seq<Response>, w: VersionedDoc, other: seq<Response>)
    requires multiset(other) == multiset(Repaired(rs, w))
    ensures Dominated(rs, w) ==> Dominated(other, w)
  {
    hide Order, Present, NeedsRepair, AtLeast;
    RepairedAbove(rs, w, other);
    hide Repaired;
    if d :| d in Present(rs) && Order(d.version, w.version).After? {
      var i := FromPresent(rs, d);
      var j :| 0 <= j < |other| && other[j].doc == rs[i].doc;
      InPresent(other, j);
    }
  }

  lemma {:induction false} NotNewlyDominated(rs: seq<Response>, w: VersionedDoc, other: seq<Response>)
    requires multiset(other) == multiset(Repaired(rs, w))
    ensures Dominated(other, w) ==> Dominated(rs, w)
  {
    hide Order, Present, NeedsRepair, AtLeast;
    RepairedAbove(rs, w, other);
    hide Repaired;
    if d :| d in Present(other) && Order(d.version, w.version).After? {
      var j := FromPresent(other, d);
      var i :| 0 <= i < |rs| && rs[i].doc == other[j].doc;
      InPresent(rs, i);
    }
  }

  lemma {:induction false} PresentAbove(other: seq<Response>, w: VersionedDoc)
    requires other != [] && forall j :: 0 <= j < |other| ==> other[j].doc.Some? && AtLeast(other[j].doc.value, w)
    ensures Present(other) != [] && forall d :: d in Present(other) ==> AtLeast(d, w)
  {
    hide AtLeast, Present;
    InPresent(other, 0);
    forall d | d in Present(other) ensures AtLeast(d, w) {
      var j := FromPresent(other, d);
    }
  }

  /** After repair every answer is at or above the winner; one is above it exactly when one was before. */
  lemma {:induction false} AfterRepair(rs: seq<Response>, w: VersionedDoc, other: seq<Response>)
    requires multiset(other) == multiset(Repaired(rs, w)) && rs != []
    ensures |other| == |rs| && Present(other) != []
    ensures forall j :: 0 <= j < |other| ==> other[j].doc.Some?
    ensures forall d :: d in Present(other) ==> AtLeast(d, w)
    ensures Dominated(rs, w) <==> Dominated(other, w)
  {
    hide *;
    SameLength(rs, w, other);
    RepairedAbove(rs, w, other);
    PresentAbove(other, w);
    StillDominated(rs, w, other);
    NotNewlyDominated(rs, w, other);
  }

  lemma {:induction false} Clean(other: seq<Response>, w: VersionedDoc, again: VersionedDoc)
    requires forall j :: 0 <= j < |other| ==> other[j].doc.Some?
    requires forall d :: d in Present(other) ==> AtLeast(d, w)
    requires !Dominated(other, w) && again in Present(other)
    ensures Order(again.version, w.version).Equal? && Stale(other, again) == []
  {
    hide Order, Present, NeedsRepair, Stale;
    assert Order(again.version, w.version).Equal?;
    forall j | 0 <= j < |other| ensures !NeedsRepair(other[j].doc, again) {
      InPresent(other, j);
      EqualNeedsNoRepair(other[j].doc.value, w, again);
    }
    StaleFacts(other, again);
  }

  lemma {:induction false} EqualNeedsNoRepair(d: VersionedDoc, w: VersionedDoc, again: VersionedDoc)
    requires Order(d.version, w.version).Equal? && Order(again.version, w.version).Equal?
    ensures !NeedsRepair(Some(d), again)
  {
    OrderLaws(again.version, w.version, d.version);
    hide Order;
  }

  /** A second read of the same replicas, after all repairs landed and in any order of answers,
      finds the same version and nothing to repair, exactly when no answer of the first read was
      causally after its winner. */
  lemma {:induction false} RepairSettlesExactly(rs: seq<Response>, other: seq<Response>)
    requires Present(rs) != []
    requires multiset(other) == multiset(Repaired(rs, Resolve(Present(rs))))
    ensures |other| == |rs| && Present(other) != []
    ensures var w, again := Resolve(Present(rs)), Resolve(Present(other));
      (Order(again.version, w.version).Equal? && Stale(other, again) == []) <==> !Dominated(rs, w)
  {
    hide Order, Resolve, Stale, Repaired;
    var w := Resolve(Present(rs));
    assert rs != [];
    AfterRepair(rs, w, other);
    hide Present;
    AgainAbove(Present(other), w);
    if !Dominated(rs, w) {
      Clean(other, w, Resolve(Present(other)));
    }
  }

  lemma {:induction false} OnlyTheWinner(rs: seq<Response>, w: VersionedDoc, other: seq<Response>)
    requires multiset(other) == multiset(Repaired(rs, w))
    requires Coherent(Present(rs)) && w in Present(rs)
    requires forall x :: x in Present(rs) ==> Order(w.version, x.version) != Before
    ensures forall j :: 0 <= j < |other| ==> other[j].doc == Some(w)
  {
    hide Order, Present;
    var fixed := Repaired(rs, w);
    forall j | 0 <= j < |other| ensures other[j].doc == Some(w) {
      assert other[j] in multiset(other);
      var i :| 0 <= i < |fixed| && fixed[i] == other[j];
      if !NeedsRepair(rs[i].doc, w) {
        InPresent(rs, i);
        OrderLaws(w.version, rs[i].doc.value.version, w.version);
      }
    }
  }

  lemma {:induction false} AllTheWinner(other: seq<Response>, w: VersionedDoc)
    requires other != [] && forall j :: 0 <= j < |other| ==> other[j].doc == Some(w)
    ensures Present(other) != [] && Resolve(Present(other)) == w && Stale(other, w) == []
  {
    InPresent(other, 0);
    forall d | d in Present(other) ensures d == w {
      var i := FromPresent(other, d);
    }
    SelfBeats(w);
    assert Champion(w, Present(other));
    ChampionWins(w, Present(other));
    OrderLaws(w.version, w.version, w.version);
    StaleFacts(other, w);
  }

  /** Coherent answers settle: once all repairs landed, reading the same replicas again gives the
      same document and version with no repairs, in any order of answers. */
  lemma {:induction false} CoherentSettles(rs: seq<Response>, other: seq<Response>, r: nat)
    requires Present(rs) != [] && |rs| >= r && Coherent(Present(rs))
    requires multiset(other) == multiset(Repaired(rs, Resolve(Present(rs))))
    ensures Outcome(rs, r).Found? && Outcome(other, r) == Outcome(rs, r).(repairs := 0)
  {
    var w := Resolve(Present(rs));
    CoherentWinner(Present(rs), Present(rs));
    hide Order, Resolve, Present, Coherent, Stale;
    OnlyTheWinner(rs, w, other);
    assert |other| == |multiset(other)| == |rs|;
    assert rs != [] by { var i := FromPresent(rs, Present(rs)[0]); }
    AllTheWinner(other, w);
  }

  lemma {:induction false} PresentOfThree(x: VersionedDoc, y: VersionedDoc, z: VersionedDoc)
    ensures Present([Response(1, Some(x)), Response(2, Some(y)), Response(3, Some(z))]) == [x, y, z]
  {
    var rs := [Response(1, Some(x)), Response(2, Some(y)), Response(3, Some(z))];
    assert rs[..2] == [rs[0], rs[1]] && rs[..2][..1] == [rs[0]] && [rs[0]][..0] == [];
    assert Present(rs[..2][..1]) == [x];
    assert Present(rs[..2]) == [x, y];
  }

  /** Answers that are not coherent need not settle: here the older tombstone wins over a version
      that causally follows it, and no repair ever reaches the replica that has the newer one. */
  lemma {:induction false} SettlingCanFail(m: NodeId, n: NodeId, other: seq<Response>)
    requires m != n
    requires var a := VersionedDoc(None, map[m := 1], 1, true);
      var b := VersionedDoc(Some(7), map[m := 2], 2, false);
      var c := VersionedDoc(Some(8), map[n := 3], 3, false);
      multiset(other) == multiset(Repaired([Response(1, Some(b)), Response(2, Some(c)), Response(3, Some(a))], a))
    ensures Present(other) != [] && !Order(Resolve(Present(other)).version, map[m := 1]).Equal?
  {
    var a := VersionedDoc(None, map[m := 1], 1, true);
    var b := VersionedDoc(Some(7), map[m := 2], 2, false);
    var c := VersionedDoc(Some(8), map[n := 3], 3, false);
    var rs := [Response(1, Some(b)), Response(2, Some(c)), Response(3, Some(a))];
    PresentOfThree(b, c, a);
    ResolutionCycles(m, n);
    hide ResolveTwo, Fold, Present, Stale, Repaired;
    assert Order(b.version, a.version).After? by {
      assert b.version[m] == 2 && At(a.version, m) == 1;
    }
    hide Order, Resolve;
    assert Dominated(rs, a);
    RepairSettlesExactly(rs, other);
    AfterRepair(rs, a, other);
    AgainAbove(Present(other), a);
  }
}
