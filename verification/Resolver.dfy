/**
 Conflict resolution between the versions that replicas answer with.
 */
module Resolver {
  import opened Text
  import opened Hlc
  import opened HybridClock
  import opened VectorClock

  /** Document bodies are opaque to replication. */
  type Doc = nat

  datatype VersionedDoc = VersionedDoc(document: Option<Doc>, version: Entries, hlc: Hlc, tombstone: bool)

  function ResolveTwo(a: VersionedDoc, b: VersionedDoc): VersionedDoc {
    match Order(a.version, b.version)
    case After => a
    case Before => b
    case Equal => a
    case Concurrent =>
      if a.tombstone && !b.tombstone then a
      else if !a.tombstone && b.tombstone then b
      else if a.hlc >= b.hlc then a else b
  }

  /** Every node that `a` knows of, `b` knows at least as much of, and of some more. */
  ghost predicate KnowsLess(a: Entries, b: Entries) {
    (forall n :: At(a, n) <= At(b, n)) && exists n :: At(a, n) < At(b, n)
  }

  /** The second version displaces the first exactly when it dominates it, or when neither dominates
      the other and they differ and it alone is a tombstone or, with both or none of them one, it has
      the later clock value. In all other cases, ties included, the first one stays. */
  lemma {:induction false} SecondWinsExactly(a: VersionedDoc, b: VersionedDoc)
    ensures var apart := !KnowsLess(a.version, b.version) && !KnowsLess(b.version, a.version) &&
                         exists n :: At(a.version, n) != At(b.version, n);
      ResolveTwo(a, b) ==
        if KnowsLess(a.version, b.version) ||
           (apart && (if a.tombstone == b.tombstone then b.hlc > a.hlc else b.tombstone))
        then b else a
  {
    OrderMeans(a.version, b.version);
    EqualMeansSame(a.version, b.version);
    hide Order, At;
  }

  function Fold(winner: VersionedDoc, docs: seq<VersionedDoc>): VersionedDoc
    decreases |docs|
  {
    if docs == [] then winner else Fold(ResolveTwo(winner, docs[0]), docs[1..])
  }

  function Resolve(docs: seq<VersionedDoc>): VersionedDoc
    requires docs != []
  {
    Fold(docs[0], docs[1..])
  }

  /** The loop that keeps one winner. */
  method ResolveConflict(docs: seq<VersionedDoc>) returns (winner: VersionedDoc)
    requires docs != []
    ensures winner == Resolve(docs)
    ensures winner in docs
  {
    winner := docs[0];
    for i := 1 to |docs|
      invariant Fold(winner, docs[i..]) == Resolve(docs)
      invariant winner in docs
    {
      assert docs[i..][1..] == docs[i + 1..];
      winner := ResolveTwo(winner, docs[i]);
    }
  }

  // ---------------------------------------------------------------------
  // When the order of the responses does not matter
  // ---------------------------------------------------------------------

  /** `w` wins against `x` whichever comes first. */
  predicate Beats(w: VersionedDoc, x: VersionedDoc) { ResolveTwo(w, x) == w && ResolveTwo(x, w) == w }

  predicate Champion(w: VersionedDoc, docs: seq<VersionedDoc>) {
    w in docs && forall x :: x in docs ==> Beats(w, x)
  }

  predicate Reordering(docs: seq<VersionedDoc>, other: seq<VersionedDoc>) {
    multiset(docs) == multiset(other)
  }

  lemma {:induction false} FoldStays(w: VersionedDoc, docs: seq<VersionedDoc>)
    requires forall x :: x in docs ==> ResolveTwo(w, x) == w
    ensures Fold(w, docs) == w
  {
    if docs != [] { FoldStays(w, docs[1..]); }
  }

  lemma {:induction false} FoldReaches(v: VersionedDoc, docs: seq<VersionedDoc>, w: VersionedDoc)
    requires w in docs && Beats(w, v) && forall x :: x in docs ==> Beats(w, x)
    ensures Fold(v, docs) == w
    decreases |docs|
  {
    hide ResolveTwo;
    if docs[0] == w {
      assert forall x :: x in docs[1..] ==> x in docs && Beats(w, x);
      FoldStays(w, docs[1..]);
    } else {
      var next := ResolveTwo(v, docs[0]);
      assert next == v || next == docs[0] by { TwoGivesOne(v, docs[0]); }
      FoldReaches(next, docs[1..], w);
    }
  }

  lemma TwoGivesOne(a: VersionedDoc, b: VersionedDoc)
    ensures ResolveTwo(a, b) == a || ResolveTwo(a, b) == b
  {
  }

  lemma {:induction false} ChampionWins(w: VersionedDoc, docs: seq<VersionedDoc>)
    requires Champion(w, docs)
    ensures Resolve(docs) == w
  {
    hide ResolveTwo;
    var rest := docs[1..];
    assert forall x :: x in rest ==> x in docs && Beats(w, x);
    if docs[0] == w {
      FoldStays(w, rest);
    } else {
      FoldReaches(docs[0], rest, w);
    }
  }

  lemma {:induction false} FoldGivesOne(v: VersionedDoc, docs: seq<VersionedDoc>)
    ensures Fold(v, docs) == v || Fold(v, docs) in docs
    decreases |docs|
  {
    if docs != [] {
      TwoGivesOne(v, docs[0]);
      FoldGivesOne(ResolveTwo(v, docs[0]), docs[1..]);
    }
  }

  lemma {:induction false} FoldConcat(v: VersionedDoc, a: seq<VersionedDoc>, b: seq<VersionedDoc>)
    ensures Fold(v, a + b) == Fold(Fold(v, a), b)
    decreases |a|
  {
    if a == [] {
      assert a + b == b;
    } else {
      assert (a + b)[1..] == a[1..] + b;
      FoldConcat(ResolveTwo(v, a[0]), a[1..], b);
    }
  }

  function Others(docs: seq<VersionedDoc>, w: VersionedDoc): seq<VersionedDoc> {
    if docs == [] then [] else (if docs[0] == w then [] else [docs[0]]) + Others(docs[1..], w)
  }

  function Copies(docs: seq<VersionedDoc>, w: VersionedDoc): seq<VersionedDoc> {
    if docs == [] then [] else (if docs[0] == w then [w] else []) + Copies(docs[1..], w)
  }

  lemma {:induction false} Parts(docs: seq<VersionedDoc>, w: VersionedDoc)
    ensures multiset(docs) == multiset(Others(docs, w)) + multiset(Copies(docs, w))
    ensures w !in Others(docs, w)
    ensures forall x :: x in Copies(docs, w) ==> x == w
    ensures forall x :: x in docs && x != w ==> x in Others(docs, w)
  {
    if docs != [] {
      Parts(docs[1..], w);
      assert docs == [docs[0]] + docs[1..];
    }
  }

  /** An element moved to the front. */
  lemma {:induction false} Fronted(s: seq<VersionedDoc>, x: VersionedDoc) returns (rest: seq<VersionedDoc>)
    requires x in s
    ensures multiset(s) == multiset([x] + rest)
    ensures forall y :: y in rest ==> y in s
  {
    var i :| 0 <= i < |s| && s[i] == x;
    rest := s[..i] + s[i + 1..];
    assert s == s[..i] + [x] + s[i + 1..];
  }

  /** If every order of the responses gives `w`, then `w` wins against each other response. */
  lemma {:induction false} SameWinnerIsChampion(docs: seq<VersionedDoc>, w: VersionedDoc)
    requires docs != []
    requires forall other :: Reordering(docs, other) && other != [] ==> Resolve(other) == w
    ensures Champion(w, docs)
  {
    assert Reordering(docs, docs);
    FoldGivesOne(docs[0], docs[1..]);
    assert w in docs;
    forall x | x in docs ensures Beats(w, x) {
      if x != w {
        LastLoses(docs, w, x);
        FirstLoses(docs, w, x);
      } else {
        SelfBeats(w);
      }
    }
  }

  lemma SelfBeats(w: VersionedDoc)
    ensures Beats(w, w)
  {
  }

  /** With `x` last, the winner must already hold the field. */
  lemma {:induction false} LastLoses(docs: seq<VersionedDoc>, w: VersionedDoc, x: VersionedDoc)
    requires x in docs && x != w && w in docs
    requires forall other :: Reordering(docs, other) && other != [] ==> Resolve(other) == w
    ensures ResolveTwo(w, x) == w
  {
    hide ResolveTwo;
    var rest := Fronted(docs, x);
    var order := rest + [x];
    assert Reordering(docs, order);
    assert w in multiset(docs);
    assert w in [x] + rest;
    assert order[1..] == rest[1..] + [x];
    FoldConcat(rest[0], rest[1..], [x]);
    var y := Fold(rest[0], rest[1..]);
    assert [x][1..] == [];
    assert Resolve(order) == ResolveTwo(y, x);
    TwoGivesOne(y, x);
  }

  lemma Shuffled(x: VersionedDoc, copies: seq<VersionedDoc>, rest: seq<VersionedDoc>)
    ensures multiset([x] + copies + rest) == multiset([x] + rest) + multiset(copies)
  {
  }

  /** An order that starts with `x` and every copy of `w`. */
  lemma {:induction false} SplitFirst(docs: seq<VersionedDoc>, w: VersionedDoc, x: VersionedDoc)
    returns (copies: seq<VersionedDoc>, rest: seq<VersionedDoc>)
    requires x in docs && x != w
    ensures Reordering(docs, [x] + copies + rest)
    ensures forall y :: y in copies ==> y == w
    ensures w !in rest
  {
    Parts(docs, w);
    copies := Copies(docs, w);
    rest := Fronted(Others(docs, w), x);
    Shuffled(x, copies, rest);
  }

  /** With `x` first and then every copy of `w`, the winner must take the field from `x`. */
  lemma {:induction false} FirstLoses(docs: seq<VersionedDoc>, w: VersionedDoc, x: VersionedDoc)
    requires x in docs && x != w && w in docs
    requires forall other :: Reordering(docs, other) && other != [] ==> Resolve(other) == w
    ensures ResolveTwo(x, w) == w
  {
    hide ResolveTwo;
    var copies, rest := SplitFirst(docs, w, x);
    var order := [x] + copies + rest;
    hide Reordering;
    assert order[1..] == copies + rest;
    TwoGivesOne(x, w);
    if ResolveTwo(x, w) == x {
      FoldConcat(x, copies, rest);
      FoldStays(x, copies);
      FoldGivesOne(x, rest);
    }
  }

  /** All orders of the responses resolve to the same version exactly when one of the
      responses wins against every other; that one is then the result. */
  lemma {:induction false} OrderIndependence(docs: seq<VersionedDoc>)
    requires docs != []
    ensures (forall other :: Reordering(docs, other) && other != [] ==> Resolve(other) == Resolve(docs))
       <==> exists w :: Champion(w, docs)
  {
    if w :| Champion(w, docs) {
      forall other | Reordering(docs, other) && other != [] ensures Resolve(other) == Resolve(docs) {
        assert forall x :: x in other <==> x in multiset(other);
        assert forall x :: x in docs <==> x in multiset(docs);
        assert Champion(w, other);
        ChampionWins(w, other);
        ChampionWins(w, docs);
      }
    } else if forall other :: Reordering(docs, other) && other != [] ==> Resolve(other) == Resolve(docs) {
      SameWinnerIsChampion(docs, Resolve(docs));
      assert false;
    }
  }

  /** Resolution is not transitive: a later live version beats an older tombstone, a concurrent
      newer live version beats that one, and the tombstone beats the concurrent one. Read in
      two orders, the same three responses have two different winners. */
  lemma {:induction false} ResolutionCycles(m: NodeId, n: NodeId)
    requires m != n
    ensures var a := VersionedDoc(None, map[m := 1], 1, true);
      var b := VersionedDoc(Some(7), map[m := 2], 2, false);
      var c := VersionedDoc(Some(8), map[n := 3], 3, false);
      && ResolveTwo(a, b) == b && ResolveTwo(b, c) == c && ResolveTwo(c, a) == a
      && Resolve([a, b, c]) == c && Resolve([b, c, a]) == a
  {
    var a := VersionedDoc(None, map[m := 1], 1, true);
    var b := VersionedDoc(Some(7), map[m := 2], 2, false);
    var c := VersionedDoc(Some(8), map[n := 3], 3, false);
    assert Le(a.version, b.version) && !Le(b.version, a.version) by {
      assert b.version[m] == 2 && At(a.version, m) == 1;
    }
    assert !Le(b.version, c.version) && !Le(c.version, b.version) by {
      assert b.version[m] == 2 && At(c.version, m) == 0 && c.version[n] == 3 && At(b.version, n) == 0;
    }
    assert !Le(a.version, c.version) && !Le(c.version, a.version) by {
      assert a.version[m] == 1 && At(c.version, m) == 0 && c.version[n] == 3 && At(a.version, n) == 0;
    }
    hide Le;
    assert [a, b, c][1..] == [b, c] && [b, c][1..] == [c] && [c][1..] == [];
    assert [b, c, a][1..] == [c, a] && [c, a][1..] == [a] && [a][1..] == [];
    assert Fold(a, [b, c]) == Fold(b, [c]) == Fold(c, []);
    assert Fold(b, [c, a]) == Fold(c, [a]) == Fold(a, []);
  }

  // ---------------------------------------------------------------------
  // Two situations in which there is a champion
  // ---------------------------------------------------------------------

  /** Clock values respect causality, tell versions apart, versions identify records, and no
      tombstone causally precedes a live document. */
  predicate Coherent(docs: seq<VersionedDoc>) {
    forall a, b :: a in docs && b in docs ==>
      && (Order(a.version, b.version) == Before ==> a.hlc < b.hlc)
      && (a.hlc == b.hlc ==> Order(a.version, b.version) == Equal)
      && (Order(a.version, b.version) == Equal ==> a == b)
      && (Order(a.version, b.version) == Before && a.tombstone ==> b.tombstone)
  }

  /** Tombstones rank above live documents, and later clock values above earlier ones. */
  predicate Ranks(w: VersionedDoc, x: VersionedDoc) {
    if w.tombstone == x.tombstone then w.hlc >= x.hlc else w.tombstone
  }

  lemma {:induction false} RankDecides(docs: seq<VersionedDoc>, w: VersionedDoc, x: VersionedDoc)
    requires Coherent(docs) && w in docs && x in docs && Ranks(w, x)
    ensures Beats(w, x)
    ensures Order(w.version, x.version) != Before
  {
    OrderLaws(w.version, x.version, x.version);
    assert Order(w.version, x.version) == Before ==> w.hlc < x.hlc;
    assert Order(x.version, w.version) == Before ==> x.hlc < w.hlc;
    assert Order(w.version, x.version) == Equal ==> w == x;
    hide Order;
  }

  lemma {:induction false} TopRank(docs: seq<VersionedDoc>) returns (w: VersionedDoc)
    requires docs != []
    ensures w in docs && forall x :: x in docs ==> Ranks(w, x)
  {
    w := docs[0];
    if |docs| > 1 {
      var top := TopRank(docs[1..]);
      if !Ranks(w, top) { w := top; }
      assert forall x :: x in docs ==> x == docs[0] || x in docs[1..];
    }
  }

  /** Coherent responses resolve, in every order, to the newest tombstone if there is one and
      to the newest document otherwise, and none of them causally dominates the result. */
  lemma {:induction false} CoherentWinner(docs: seq<VersionedDoc>, other: seq<VersionedDoc>)
    requires docs != [] && Coherent(docs) && Reordering(docs, other) && other != []
    ensures var w := Resolve(docs);
      && Resolve(other) == w && w in docs
      && (forall x :: x in docs ==> Ranks(w, x))
      && (forall x :: x in docs ==> Order(w.version, x.version) != Before)
  {
    var w := TopRank(docs);
    forall x | x in docs ensures Beats(w, x) && Order(w.version, x.version) != Before {
      RankDecides(docs, w, x);
    }
    hide Coherent, Ranks, Beats, Order;
    assert Champion(w, docs);
    ChampionWins(w, docs);
    OrderIndependence(docs);
  }

  /** Versions form a chain: each pair is causally ordered or equal, and equal ones are identical. */
  predicate Chain(docs: seq<VersionedDoc>) {
    forall a, b :: a in docs && b in docs ==>
      && Order(a.version, b.version) != Concurrent
      && (Order(a.version, b.version) == Equal ==> a == b)
  }

  /** In a chain, the version at or after all others wins. */
  lemma {:induction false} ChainWinner(docs: seq<VersionedDoc>, w: VersionedDoc)
    requires Chain(docs) && w in docs
    requires forall x :: x in docs ==> Order(w.version, x.version) != Before
    ensures Champion(w, docs) && Resolve(docs) == w
  {
    forall x | x in docs ensures Beats(w, x) {
      OrderLaws(w.version, x.version, x.version);
      assert Order(w.version, x.version) == Equal ==> w == x;
    }
    hide Beats;
    ChampionWins(w, docs);
  }
}
