/**
 The consistent hash ring: positions owned by nodes, walked clockwise from a
 key. Placement of virtual nodes is an arbitrary function of node and index.
 */
module Ring {
  import opened Text
  import opened HybridClock

  type Positions = map<u64, NodeId>

  type Placement = (NodeId, nat) -> u64

  // ---------------------------------------------------------------------
  // Adding and removing
  // ---------------------------------------------------------------------

  /** Positions of the first `vnodes` virtual nodes of a node. */
  function Spots(place: Placement, node: NodeId, vnodes: nat): set<u64> {
    set i | 0 <= i < vnodes :: place(node, i)
  }

  function Added(r: Positions, spots: set<u64>, node: NodeId): Positions {
    r + map p | p in spots :: node
  }

  function Removed(r: Positions, node: NodeId): Positions {
    map p | p in r && r[p] != node :: r[p]
  }

  /** Adding a node that is not on the ring and removing it again restores the ring
      exactly when none of its positions was taken. */
  lemma {:induction false} AddThenRemove(r: Positions, spots: set<u64>, x: NodeId)
    requires x !in r.Values
    ensures Removed(Added(r, spots, x), x) == r <==> spots !! r.Keys
  {
    var a := Added(r, spots, x);
    assert forall p :: p in r ==> r[p] in r.Values;
    if spots !! r.Keys {
      assert Removed(a, x) == r;
    } else {
      var p :| p in spots && p in r;
      assert p !in Removed(a, x);
    }
  }

  // ---------------------------------------------------------------------
  // The clockwise walk
  // ---------------------------------------------------------------------

  predicate IsLeast(m: u64, s: set<u64>) { m in s && forall p :: p in s ==> m <= p }

  lemma {:induction false} FindLeast(s: set<u64>) returns (m: u64)
    requires s != {}
    ensures IsLeast(m, s)
    decreases s
  {
    var x :| x in s;
    if s == {x} {
      m := x;
    } else {
      var least := FindLeast(s - {x});
      m := if x < least then x else least;
      forall p | p in s ensures m <= p { assert p == x || p in s - {x}; }
    }
  }

  lemma {:induction false} LeastExists(s: set<u64>)
    requires s != {}
    ensures exists m :: IsLeast(m, s)
  {
    var m := FindLeast(s);
  }

  ghost function Least(s: set<u64>): (m: u64)
    requires s != {}
    ensures IsLeast(m, s)
  {
    LeastExists(s);
    var m :| IsLeast(m, s);
    m
  }

  /** Owners of the positions in `s`, in increasing order of position. */
  ghost function InOrder(r: Positions, s: set<u64>): seq<NodeId>
    requires s <= r.Keys
    decreases s
  {
    if s == {} then [] else [r[Least(s)]] + InOrder(r, s - {Least(s)})
  }

  function From(r: Positions, h: u64): set<u64> { set p | p in r && p >= h }

  function Below(r: Positions, h: u64): set<u64> { set p | p in r && p < h }

  ghost function Walk(r: Positions, h: u64): seq<NodeId> {
    InOrder(r, From(r, h)) + InOrder(r, Below(r, h))
  }

  /** `done` followed by the nodes of `walk` at their first appearance. */
  function Collect(done: seq<NodeId>, walk: seq<NodeId>): (r: seq<NodeId>)
    ensures done <= r
    decreases |walk|
  {
    if walk == [] then done
    else if walk[0] in done then Collect(done, walk[1..])
    else Collect(done + [walk[0]], walk[1..])
  }

  /** All nodes of the ring in the order the walk first meets them. */
  ghost function FullOrder(r: Positions, h: u64): seq<NodeId> { Collect([], Walk(r, h)) }

  function Prefix(s: seq<NodeId>, n: nat): (r: seq<NodeId>)
    ensures |r| == if n < |s| then n else |s|
    ensures r <= s
  {
    if n < |s| then s[..n] else s
  }

  /** The owners of a key; asking for none still gives one. */
  ghost function Owners(r: Positions, h: u64, n: nat): seq<NodeId> {
    Prefix(FullOrder(r, h), if n == 0 then 1 else n)
  }

  // ---------------------------------------------------------------------
  // Owners are distinct and as many as possible
  // ---------------------------------------------------------------------

  predicate Distinct(s: seq<NodeId>) { forall i, j :: 0 <= i < j < |s| ==> s[i] != s[j] }

  function Members(s: seq<NodeId>): set<NodeId> { set i | 0 <= i < |s| :: s[i] }

  lemma {:induction false} CollectFacts(done: seq<NodeId>, walk: seq<NodeId>)
    requires Distinct(done)
    ensures Distinct(Collect(done, walk))
    ensures forall n :: n in Collect(done, walk) <==> n in done || n in walk
    decreases |walk|
  {
    if walk != [] {
      assert walk == [walk[0]] + walk[1..];
      CollectFacts(if walk[0] in done then done else done + [walk[0]], walk[1..]);
    }
  }

  lemma {:induction false} InOrderMembers(r: Positions, s: set<u64>, n: NodeId)
    requires s <= r.Keys
    ensures n in InOrder(r, s) <==> exists p :: p in s && r[p] == n
    decreases s
  {
    if s != {} {
      var m := Least(s);
      InOrderMembers(r, s - {m}, n);
      if exists p :: p in s && r[p] == n {
        var p :| p in s && r[p] == n;
        assert p == m || p in s - {m};
      }
    }
  }

  lemma {:induction false} WalkMembers(r: Positions, h: u64, n: NodeId)
    ensures n in Walk(r, h) <==> n in r.Values
  {
    hide InOrder;
    InOrderMembers(r, From(r, h), n);
    InOrderMembers(r, Below(r, h), n);
    if n in r.Values {
      var p :| p in r && r[p] == n;
      assert p in From(r, h) || p in Below(r, h);
    }
  }

  /** The walk meets every node of the ring once. */
  lemma {:induction false} FullOrderFacts(r: Positions, h: u64)
    ensures Distinct(FullOrder(r, h))
    ensures forall n :: n in FullOrder(r, h) <==> n in r.Values
    ensures |FullOrder(r, h)| == |r.Values|
  {
    hide Walk, Collect;
    CollectFacts([], Walk(r, h));
    var f := FullOrder(r, h);
    forall n ensures n in f <==> n in r.Values { WalkMembers(r, h, n); }
    DistinctCount(f);
    assert Members(f) == r.Values;
  }

  lemma {:induction false} DistinctCount(s: seq<NodeId>)
    requires Distinct(s)
    ensures |Members(s)| == |s|
    decreases |s|
  {
    if s != [] {
      var t := s[..|s| - 1];
      DistinctCount(t);
      assert Members(s) == Members(t) + {s[|s| - 1]};
      assert s[|s| - 1] !in Members(t);
    }
  }

  /** Distinct nodes of the ring, min(n, nodes on the ring) of them; asked for none, still one. */
  lemma {:induction false} OwnersFacts(r: Positions, h: u64, n: nat)
    ensures Distinct(Owners(r, h, n))
    ensures forall x :: x in Owners(r, h, n) ==> x in r.Values
    ensures var m := if n == 0 then 1 else n;
      |Owners(r, h, n)| == if m < |r.Values| then m else |r.Values|
  {
    FullOrderFacts(r, h);
    assert forall x :: x in Owners(r, h, n) ==> x in FullOrder(r, h);
  }

  // ---------------------------------------------------------------------
  // Owners come in order of clockwise distance
  // ---------------------------------------------------------------------

  const CIRCLE: int := 0x1_0000_0000_0000_0000

  /** How far clockwise from `h` the position `p` is. */
  function Distance(h: u64, p: u64): (d: nat)
    ensures d < CIRCLE && (h + d) % CIRCLE == p
  {
    (p - h) % CIRCLE
  }

  /** The least distance from `h` to a position of the node. */
  ghost predicate Closest(r: Positions, h: u64, x: NodeId, d: nat) {
    && (exists p :: p in r && r[p] == x && Distance(h, p) == d)
    && forall p :: p in r && r[p] == x ==> d <= Distance(h, p)
  }

  ghost function PositionsInOrder(s: set<u64>): (ps: seq<u64>)
    ensures forall p :: p in s <==> p in ps
    decreases s
  {
    if s == {} then []
    else
      assert s == {Least(s)} + (s - {Least(s)});
      [Least(s)] + PositionsInOrder(s - {Least(s)})
  }

  lemma {:induction false} InOrderPositions(r: Positions, s: set<u64>)
    requires s <= r.Keys
    ensures InOrder(r, s) == OwnersAt(r, PositionsInOrder(s)) && Ascends(PositionsInOrder(s))
    decreases s
  {
    hide Ascends, Least;
    if s == {} {
      assert OwnersAt(r, []) == [] && Ascends([]) by { NoneAscends(); }
    } else {
      var m := Least(s);
      var rest := PositionsInOrder(s - {m});
      InOrderPositions(r, s - {m});
      AscendsNext(m, s - {m}, rest) by { LeastBelow(s); }
      assert OwnersAt(r, [m] + rest) == [r[m]] + OwnersAt(r, rest);
    }
  }

  /** The owners of the positions. */
  function OwnersAt(r: Positions, ps: seq<u64>): (s: seq<NodeId>)
    requires forall p :: p in ps ==> p in r
    ensures |s| == |ps|
  {
    seq(|ps|, i requires 0 <= i < |ps| => r[ps[i]])
  }

  predicate Ascends(ps: seq<u64>) { forall i, j :: 0 <= i < j < |ps| ==> ps[i] < ps[j] }

  lemma NoneAscends()
    ensures Ascends([])
  {
  }

  lemma LeastBelow(s: set<u64>)
    requires s != {}
    ensures forall p :: p in s - {Least(s)} ==> Least(s) < p
  {
  }

  lemma {:induction false} AscendsNext(m: u64, s: set<u64>, rest: seq<u64>)
    requires Ascends(rest) && (forall p :: p in rest <==> p in s) && forall p :: p in s ==> m < p
    ensures Ascends([m] + rest)
  {
    assert forall j :: 0 <= j < |rest| ==> rest[j] in s;
  }

  lemma FromIsNearer(h: u64, p: u64, q: u64)
    ensures p >= h ==> Distance(h, p) == p - h
    ensures p < h ==> Distance(h, p) == p - h + CIRCLE
    ensures h <= p < q || p < q < h || q < h <= p ==> Distance(h, p) < Distance(h, q)
  {
  }

  /** The walk goes through all positions, ever further from the key. */
  lemma {:induction false} WalkPositions(r: Positions, h: u64) returns (ps: seq<u64>)
    ensures |Walk(r, h)| == |ps| && forall i :: 0 <= i < |ps| ==> ps[i] in r && Walk(r, h)[i] == r[ps[i]]
    ensures forall p :: p in r ==> p in ps
    ensures forall i, j :: 0 <= i < j < |ps| ==> Distance(h, ps[i]) < Distance(h, ps[j])
  {
    hide InOrder, PositionsInOrder, Distance, Ascends;
    var a, b := PositionsInOrder(From(r, h)), PositionsInOrder(Below(r, h));
    InOrderPositions(r, From(r, h));
    InOrderPositions(r, Below(r, h));
    ps := a + b;
    forall i, j | 0 <= i < j < |ps| ensures Distance(h, ps[i]) < Distance(h, ps[j]) {
      RoundTheCircle(r, h, a, b, i, j);
      FromIsNearer(h, ps[i], ps[j]);
    }
    forall p | p in r ensures p in ps { assert p in From(r, h) || p in Below(r, h); }
  }

  lemma {:induction false} RoundTheCircle(r: Positions, h: u64, a: seq<u64>, b: seq<u64>, i: nat, j: nat)
    requires Ascends(a) && Ascends(b) && i < j < |a + b|
    requires (forall p :: p in a ==> p in From(r, h)) && (forall p :: p in b ==> p in Below(r, h))
    ensures var p, q := (a + b)[i], (a + b)[j];
      h <= p < q || p < q < h || q < h <= p
  {
    assert i < |a| ==> a[i] in a;
    assert j < |a| ==> a[j] in a;
    assert j >= |a| ==> b[j - |a|] in b;
    assert i >= |a| ==> b[i - |a|] in b;
  }

  /** Collecting keeps the order of first appearance: of two collected nodes the first one stands
      in the walk before any occurrence of the second. */
  lemma {:induction false} CollectOrder(done: seq<NodeId>, walk: seq<NodeId>, i: nat, j: nat, k: nat) returns (l: nat)
    requires Distinct(done) && |done| <= i < j < |Collect(done, walk)| && k < |walk|
    requires walk[k] == Collect(done, walk)[j]
    ensures l < k && walk[l] == Collect(done, walk)[i]
    decreases |walk|
  {
    var c := Collect(done, walk);
    CollectFacts(done, walk);
    if walk[0] in done {
      assert k > 0;
      l := CollectOrder(done, walk[1..], i, j, k - 1);
      l := l + 1;
    } else {
      var more := done + [walk[0]];
      assert c[|done|] == walk[0] by { assert more <= c; }
      if i == |done| {
        assert k != 0;
        l := 0;
      } else {
        assert k != 0;
        l := CollectOrder(more, walk[1..], i, j, k - 1);
        l := l + 1;
      }
    }
  }

  /** A node stands before another in the owner order of a key exactly when it has a position at a
      smaller clockwise distance from the key than all positions of the other. */
  lemma {:induction false} OrderedByDistance(r: Positions, h: u64, i: nat, j: nat)
    requires i < |FullOrder(r, h)| && j < |FullOrder(r, h)|
    ensures i < j <==>
      exists d, e :: d < e && Closest(r, h, FullOrder(r, h)[i], d) && Closest(r, h, FullOrder(r, h)[j], e)
  {
    hide Walk, Collect, Distance, FullOrder;
    var x, y := FullOrder(r, h)[i], FullOrder(r, h)[j];
    FullOrderFacts(r, h);
    var d := FindClosest(r, h, x);
    var e := FindClosest(r, h, y);
    if i < j {
      EarlierIsCloser(r, h, i, j, d, e);
    } else if i == j {
      ClosestUnique(r, h, x);
    } else {
      EarlierIsCloser(r, h, j, i, e, d);
      ClosestUnique(r, h, x);
      ClosestUnique(r, h, y);
    }
  }

  lemma ClosestUnique(r: Positions, h: u64, x: NodeId)
    ensures forall d, e :: Closest(r, h, x, d) && Closest(r, h, x, e) ==> d == e
  {
    hide Distance;
  }

  lemma {:induction false} LeastDistance(h: u64, s: set<u64>) returns (p: u64)
    requires s != {}
    ensures p in s && forall q :: q in s ==> Distance(h, p) <= Distance(h, q)
    decreases s
  {
    hide Distance;
    var x :| x in s;
    if s == {x} {
      p := x;
    } else {
      var rest := s - {x};
      p := LeastDistance(h, rest);
      assert forall q :: q in s ==> q == x || q in rest;
      if Distance(h, x) < Distance(h, p) { p := x; }
    }
  }

  lemma {:induction false} FindClosest(r: Positions, h: u64, x: NodeId) returns (d: nat)
    requires x in r.Values
    ensures Closest(r, h, x, d)
  {
    hide Distance;
    var s := set p | p in r && r[p] == x;
    var p :| p in r && r[p] == x;
    assert p in s;
    var q := LeastDistance(h, s);
    d := Distance(h, q);
  }

  lemma {:induction false} EarlierIsCloser(r: Positions, h: u64, i: nat, j: nat, d: nat, e: nat)
    requires i < j < |FullOrder(r, h)|
    requires Closest(r, h, FullOrder(r, h)[i], d) && Closest(r, h, FullOrder(r, h)[j], e)
    ensures d < e
  {
    hide Walk, Collect, Distance;
    var ps := WalkPositions(r, h);
    var q :| q in r && r[q] == FullOrder(r, h)[j] && Distance(h, q) == e;
    var k :| 0 <= k < |ps| && ps[k] == q;
    var l := CollectOrder([], Walk(r, h), i, j, k);
    assert r[ps[l]] == FullOrder(r, h)[i] && ps[l] in r;
  }

  /** The first owner holds the least position at or after the key or, if there is none, the least
      position of the ring. */
  lemma {:induction false} FirstOwner(r: Positions, h: u64, n: nat, p: u64)
    requires p in r
    requires if exists q :: q in r && q >= h
             then p >= h && forall q :: q in r && q >= h ==> p <= q
             else forall q :: q in r ==> p <= q
    ensures Owners(r, h, n) != [] && Owners(r, h, n)[0] == r[p]
  {
    hide Walk, Collect, FullOrder, Distance;
    FullOrderFacts(r, h);
    var x := r[p];
    assert x in r.Values && x in FullOrder(r, h);
    var i :| 0 <= i < |FullOrder(r, h)| && FullOrder(r, h)[i] == x;
    forall q | q in r ensures Distance(h, p) <= Distance(h, q) { FromIsNearer(h, p, q); }
    assert Closest(r, h, x, Distance(h, p));
    if i > 0 {
      OrderedByDistance(r, h, 0, i);
      ClosestUnique(r, h, x);
    }
  }

  // ---------------------------------------------------------------------
  // Removing a node moves only its own keys
  // ---------------------------------------------------------------------

  function Without(s: seq<NodeId>, x: NodeId): seq<NodeId> {
    if s == [] then [] else if s[0] == x then Without(s[1..], x) else [s[0]] + Without(s[1..], x)
  }

  lemma WithoutNone(x: NodeId)
    ensures Without([], x) == []
  {
  }

  lemma WithoutStep(s: seq<NodeId>, x: NodeId)
    requires s != []
    ensures Without(s, x) == if s[0] == x then Without(s[1..], x) else [s[0]] + Without(s[1..], x)
  {
  }

  lemma {:induction false} WithoutHas(s: seq<NodeId>, x: NodeId, n: NodeId)
    ensures n in Without(s, x) <==> n in s && n != x
  {
    if s != [] {
      WithoutHas(s[1..], x, n);
      assert s == [s[0]] + s[1..];
    }
  }

  lemma ConcatFacts(s: seq<NodeId>, t: seq<NodeId>)
    ensures s == [] ==> s + t == t
    ensures s != [] ==> (s + t)[0] == s[0] && (s + t)[1..] == s[1..] + t
  {
  }

  lemma ConcatAssoc(s: seq<NodeId>, t: seq<NodeId>, u: seq<NodeId>)
    ensures s + (t + u) == s + t + u
  {
  }

  lemma {:induction false} WithoutConcat(s: seq<NodeId>, t: seq<NodeId>, x: NodeId)
    ensures Without(s + t, x) == Without(s, x) + Without(t, x)
  {
    hide Without;
    ConcatFacts(s, t);
    if s == [] {
      WithoutNone(x);
      ConcatFacts(s, Without(t, x));
    } else {
      WithoutConcat(s[1..], t, x);
      WithoutStep(s, x);
      WithoutStep(s + t, x);
      ConcatAssoc([s[0]], Without(s[1..], x), Without(t, x));
    }
  }

  lemma {:induction false} CollectWithout(done: seq<NodeId>, walk: seq<NodeId>, x: NodeId)
    ensures Collect(Without(done, x), Without(walk, x)) == Without(Collect(done, walk), x)
    decreases |walk|
  {
    if walk != [] {
      var y := walk[0];
      WithoutHas(done, x, y);
      WithoutConcat(done, [y], x);
      CollectWithout(if y in done then done else done + [y], walk[1..], x);
      if y != x {
        assert Without(walk, x)[1..] == Without(walk[1..], x);
        assert Without([y], x) == [y];
      } else {
        assert Without([y], x) == [];
        assert Without(done, x) + [] == Without(done, x);
      }
    }
  }

  function Kept(r: Positions, s: set<u64>, x: NodeId): set<u64>
    requires s <= r.Keys
  {
    set p | p in s && r[p] != x
  }

  lemma {:induction false} InOrderWithout(r: Positions, s: set<u64>, x: NodeId)
    requires s <= r.Keys
    ensures Kept(r, s, x) <= Removed(r, x).Keys
    ensures InOrder(Removed(r, x), Kept(r, s, x)) == Without(InOrder(r, s), x)
    decreases s
  {
    var kept := Kept(r, s, x);
    if s == {} {
      assert kept == {};
    } else {
      var m := Least(s);
      var rest := s - {m};
      InOrderWithout(r, rest, x);
      var keptRest := Kept(r, rest, x);
      assert InOrder(r, s)[1..] == InOrder(r, rest);
      if r[m] == x {
        assert kept == keptRest;
      } else {
        assert kept == keptRest + {m};
        assert Least(kept) == m;
        assert kept - {m} == keptRest;
      }
    }
  }

  /** The order after a removal is the old order with the removed node struck out. */
  lemma {:induction false} RemovalOrder(r: Positions, h: u64, x: NodeId)
    ensures FullOrder(Removed(r, x), h) == Without(FullOrder(r, h), x)
  {
    var r' := Removed(r, x);
    InOrderWithout(r, From(r, h), x);
    InOrderWithout(r, Below(r, h), x);
    assert From(r', h) == Kept(r, From(r, h), x);
    assert Below(r', h) == Kept(r, Below(r, h), x);
    hide InOrder, Without, Kept, From, Below;
    WithoutConcat(InOrder(r, From(r, h)), InOrder(r, Below(r, h)), x);
    assert Walk(r', h) == Without(Walk(r, h), x);
    CollectWithout([], Walk(r, h), x);
    WithoutAbsent([], x);
  }

  lemma {:induction false} WithoutLength(s: seq<NodeId>, x: NodeId)
    requires Distinct(s) && x in s
    ensures |Without(s, x)| == |s| - 1
  {
    if s[0] == x { WithoutAbsent(s[1..], x); } else { WithoutLength(s[1..], x); }
  }

  /** Striking out an element beyond the first `n` leaves those; striking out one of them lets in the next. */
  lemma {:induction false} PrefixWithout(s: seq<NodeId>, x: NodeId, n: nat)
    requires Distinct(s)
    ensures x !in Prefix(s, n) ==> Prefix(Without(s, x), n) == Prefix(s, n)
    ensures x in Prefix(s, n) ==> Prefix(Without(s, x), n) == Without(Prefix(s, n + 1), x)
  {
    hide Without;
    var head := Prefix(s, n);
    var tail := s[|head|..];
    assert s == head + tail;
    WithoutConcat(head, tail, x);
    if x !in head {
      WithoutAbsent(head, x);
      if |head| < n {
        assert tail == [];
        assert head + tail == head;
      }
    } else {
      assert x !in tail;
      WithoutAbsent(tail, x);
      WithoutLength(head, x);
      var next := Prefix(s, n + 1);
      if tail == [] {
        assert next == s;
      } else {
        assert next == head + tail[..1];
        WithoutConcat(head, tail[..1], x);
        WithoutAbsent(tail[..1], x);
      }
    }
  }

  lemma {:induction false} WithoutAbsent(s: seq<NodeId>, x: NodeId)
    requires x !in s
    ensures Without(s, x) == s
  {
    if s != [] { WithoutAbsent(s[1..], x); }
  }

  /** Removing a node keeps the owners of every key it did not own; of a key it owned it
      strikes that owner out and lets in at most the next node of the old order. */
  lemma {:induction false} RemovalMovesLittle(r: Positions, h: u64, x: NodeId, n: nat)
    requires n >= 1
    ensures Owners(Removed(r, x), h, n) == Prefix(Without(FullOrder(r, h), x), n)
    ensures x !in Owners(r, h, n) ==> Owners(Removed(r, x), h, n) == Owners(r, h, n)
    ensures x in Owners(r, h, n) ==>
      Owners(Removed(r, x), h, n) == Without(Owners(r, h, n + 1), x)
  {
    RemovalOrder(r, h, x);
    FullOrderFacts(r, h);
    PrefixWithout(FullOrder(r, h), x, n);
    hide FullOrder, Without;
  }

  // ---------------------------------------------------------------------
  // The ring as it is updated in place
  // ---------------------------------------------------------------------

  lemma {:induction false} CollectConcat(done: seq<NodeId>, a: seq<NodeId>, b: seq<NodeId>)
    ensures Collect(done, a + b) == Collect(Collect(done, a), b)
    decreases |a|
  {
    if a == [] {
      assert a + b == b;
    } else {
      assert (a + b)[1..] == a[1..] + b;
      CollectConcat(if a[0] in done then done else done + [a[0]], a[1..], b);
    }
  }

  lemma {:induction false} SpotsStep(place: Placement, node: NodeId, i: nat)
    ensures Spots(place, node, i + 1) == Spots(place, node, i) + {place(node, i)}
  {
    forall p | p in Spots(place, node, i + 1) ensures p in Spots(place, node, i) + {place(node, i)} {
      var k :| 0 <= k < i + 1 && p == place(node, k);
      assert k < i ==> place(node, k) in Spots(place, node, i);
    }
  }

  lemma AddedStep(r: Positions, spots: set<u64>, p: u64, node: NodeId)
    ensures Added(r, spots, node)[p := node] == Added(r, spots + {p}, node)
  {
  }

  class HashRing {
    var ring: Positions
    const vnodes: nat
    const place: Placement

    constructor (vnodes: nat, place: Placement)
      ensures ring == map[] && this.vnodes == vnodes && this.place == place
    {
      ring := map[];
      this.vnodes := vnodes;
      this.place := place;
    }

    /** Later insertions take over positions that were taken. */
    method AddNode(node: NodeId)
      modifies this
      ensures ring == Added(old(ring), Spots(place, node, vnodes), node)
    {
      assert ring == Added(ring, Spots(place, node, 0), node);
      hide Added, Spots;
      for i := 0 to vnodes
        invariant ring == Added(old(ring), Spots(place, node, i), node)
      {
        SpotsStep(place, node, i);
        AddedStep(old(ring), Spots(place, node, i), place(node, i), node);
        ring := ring[place(node, i) := node];
      }
    }

    method RemoveNode(node: NodeId)
      modifies this
      ensures ring == Removed(old(ring), node)
      ensures node !in ring.Values
    {
      ring := map p | p in ring && ring[p] != node :: ring[p];
    }

    /** The walk from the key's position upwards, then from the start, until enough nodes are met. */
    method OwnersForKey(position: u64, n: nat) returns (owners: seq<NodeId>)
      ensures owners == Owners(ring, position, n)
    {
      if ring == map[] {
        return [];
      }
      hide InOrder;
      ghost var after := InOrder(ring, Below(ring, position));
      var full;
      owners, full := Gather(From(ring, position), [], n, after);
      if full {
        return;
      }
      owners, full := Gather(Below(ring, position), owners, n, []);
      CollectConcat([], InOrder(ring, From(ring, position)), after);
      assert after + [] == after;
    }

    method Gather(range: set<u64>, start: seq<NodeId>, n: nat, ghost after: seq<NodeId>)
      returns (owners: seq<NodeId>, full: bool)
      requires range <= ring.Keys && |start| < if n == 0 then 1 else n
      ensures var limit := if n == 0 then 1 else n;
        if full then owners == Prefix(Collect(start, InOrder(ring, range) + after), limit)
        else owners == Collect(start, InOrder(ring, range)) && |owners| < limit
    {
      owners := start;
      var todo := range;
      while todo != {}
        invariant todo <= range
        invariant |owners| < if n == 0 then 1 else n
        invariant Collect(owners, InOrder(ring, todo)) == Collect(start, InOrder(ring, range))
        decreases todo
      {
        LeastExists(todo);
        var p :| p in todo && IsLeast(p, todo);
        assert p == Least(todo);
        ghost var rest := InOrder(ring, todo - {p});
        assert InOrder(ring, todo)[1..] == rest;
        if ring[p] !in owners {
          owners := owners + [ring[p]];
          if |owners| >= n {
            CollectConcat(start, InOrder(ring, range), after);
            CollectConcat(owners, rest, after);
            return owners, true;
          }
        }
        todo := todo - {p};
      }
      full := false;
    }
  }
}
