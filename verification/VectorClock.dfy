/**
 Capped vector clocks. A node that is missing from a clock counts as zero.
 */
module VectorClock {
  import opened Text
  import opened Hlc
  import opened HybridClock

  const MAX_ENTRIES := 4096

  datatype CausalOrder = Before | After | Concurrent | Equal

  type Entries = map<NodeId, Hlc>

  function At(v: Entries, n: NodeId): Hlc { if n in v then v[n] else 0 }

  /** Componentwise at most. */
  predicate Le(a: Entries, b: Entries) { forall n :: n in a ==> a[n] <= At(b, n) }

  function Order(a: Entries, b: Entries): CausalOrder {
    if Le(a, b) then (if Le(b, a) then Equal else Before)
    else (if Le(b, a) then After else Concurrent)
  }

  function Later(h: Hlc, g: Hlc): Hlc { if h >= g then h else g }

  function Raised(v: Entries, n: NodeId, h: Hlc): Entries { v[n := Later(At(v, n), h)] }

  /** One step forward for `n`, unless it is new and the clock is full. */
  function Increment(v: Entries, n: NodeId, h: Hlc): Option<Entries> {
    if n !in v && |v| >= MAX_ENTRIES then None else Some(Raised(v, n, h))
  }

  function Joined(a: Entries, b: Entries): Entries {
    map n | n in a.Keys + b.Keys :: Later(At(a, n), At(b, n))
  }

  function Count(nodes: set<NodeId>): nat { |nodes| }

  /** Element-wise maximum, unless it has too many entries. */
  function Merge(a: Entries, b: Entries): Option<Entries> {
    if Count(a.Keys + b.Keys) > MAX_ENTRIES then None else Some(Joined(a, b))
  }

  // ---------------------------------------------------------------------
  // Causal order is a partial order
  // ---------------------------------------------------------------------

  lemma {:induction false} LeTransitive(a: Entries, b: Entries, c: Entries)
    requires Le(a, b) && Le(b, c)
    ensures Le(a, c)
  {
    forall n | n in a ensures a[n] <= At(c, n) {
      assert a[n] <= At(b, n);
    }
  }

  /** Equal means the same component for every node. */
  lemma {:induction false} EqualMeansSame(a: Entries, b: Entries)
    ensures Order(a, b) == Equal <==> forall n :: At(a, n) == At(b, n)
  {
    if Order(a, b) == Equal {
      forall n ensures At(a, n) == At(b, n) {
        assert (n in a ==> a[n] <= At(b, n)) && (n in b ==> b[n] <= At(a, n));
      }
    }
  }

  /** Comparison is reflexive and mirrored, Before is transitive, and Equal clocks are interchangeable. */
  lemma {:induction false} OrderLaws(a: Entries, b: Entries, c: Entries)
    ensures Order(a, a) == Equal
    ensures Order(a, b) == Before <==> Order(b, a) == After
    ensures Order(a, b) == Concurrent <==> Order(b, a) == Concurrent
    ensures Order(a, b) == Before && Order(b, c) == Before ==> Order(a, c) == Before
    ensures Order(a, b) == Equal ==> Order(a, c) == Order(b, c) && Order(c, a) == Order(c, b)
  {
    if Le(a, b) && Le(b, c) { LeTransitive(a, b, c); }
    if Le(c, a) && Le(a, b) { LeTransitive(c, a, b); }
    if Le(b, a) && Le(a, c) { LeTransitive(b, a, c); }
    if Le(c, b) && Le(b, a) { LeTransitive(c, b, a); }
    if Le(b, c) && Le(c, a) { LeTransitive(b, c, a); }
  }

  /** The order, component by component. */
  lemma {:induction false} OrderMeans(a: Entries, b: Entries)
    ensures Order(a, b) == Before <==> (forall n :: At(a, n) <= At(b, n)) && (exists n :: At(a, n) < At(b, n))
    ensures Order(a, b) == CausalOrder.After <==>
      (forall n :: At(b, n) <= At(a, n)) && (exists n :: At(b, n) < At(a, n))
    ensures Order(a, b) == Concurrent <==> (exists n :: At(a, n) < At(b, n)) && (exists n :: At(b, n) < At(a, n))
  {
    LeMeans(a, b);
    LeMeans(b, a);
    hide Le, At;
  }

  lemma {:induction false} LeMeans(a: Entries, b: Entries)
    ensures Le(a, b) <==> forall n :: At(a, n) <= At(b, n)
    ensures !Le(a, b) <==> exists n :: At(b, n) < At(a, n)
  {
    if !Le(a, b) {
      var n :| n in a && a[n] > At(b, n);
      assert At(b, n) < At(a, n);
    }
  }

  /** An increment raises one component to the later of its value and the new one; a clock of 4096
      entries takes no new node. */
  lemma IncrementMeans(v: Entries, n: NodeId, h: Hlc, m: NodeId)
    ensures Increment(v, n, h).None? <==> n !in v && |v| >= 4096
    ensures Increment(v, n, h).Some? ==>
      At(Increment(v, n, h).value, m) == if m == n && h > At(v, n) then h else At(v, m)
  {
  }

  /** A merge takes the later value of each component, and fails exactly for more than 4096 nodes. */
  lemma MergeMeans(a: Entries, b: Entries, m: NodeId)
    ensures Merge(a, b).None? <==> |a.Keys + b.Keys| > 4096
    ensures Merge(a, b).Some? ==> Merge(a, b).value.Keys == a.Keys + b.Keys
    ensures Merge(a, b).Some? ==>
      At(Merge(a, b).value, m) == if At(a, m) > At(b, m) then At(a, m) else At(b, m)
  {
  }

  // ---------------------------------------------------------------------
  // Merge is the least upper bound
  // ---------------------------------------------------------------------

  lemma JoinedIsLub(a: Entries, b: Entries, c: Entries)
    ensures Le(a, Joined(a, b)) && Le(b, Joined(a, b))
    ensures Le(a, c) && Le(b, c) ==> Le(Joined(a, b), c)
  {
  }

  function Then(m: Option<Entries>, b: Entries): Option<Entries> {
    if m.None? then None else Merge(m.value, b)
  }

  lemma JoinedAt(a: Entries, b: Entries)
    ensures forall n :: n in Joined(a, b) <==> n in a || n in b
    ensures forall n :: At(Joined(a, b), n) == Later(At(a, n), At(b, n))
  {
  }

  lemma {:induction false} SameEntries(a: Entries, b: Entries)
    requires forall n :: n in a <==> n in b
    requires forall n :: At(a, n) == At(b, n)
    ensures a == b
  {
    assert forall n :: n in a ==> At(a, n) == a[n];
    assert forall n :: n in b ==> At(b, n) == b[n];
  }

  lemma {:induction false} JoinedAssociates(a: Entries, b: Entries, c: Entries)
    ensures Joined(Joined(a, b), c) == Joined(Joined(b, c), a)
  {
    hide Joined, At;
    JoinedAt(a, b);
    JoinedAt(b, c);
    JoinedAt(Joined(a, b), c);
    JoinedAt(Joined(b, c), a);
    SameEntries(Joined(Joined(a, b), c), Joined(Joined(b, c), a));
  }

  lemma {:induction false} ThreeKeys(a: Entries, b: Entries, c: Entries)
    ensures Joined(a, b).Keys + c.Keys == Joined(b, c).Keys + a.Keys
    ensures a.Keys + b.Keys <= Joined(a, b).Keys + c.Keys
    ensures b.Keys + c.Keys <= Joined(b, c).Keys + a.Keys
  {
    hide Joined;
    JoinedAt(a, b);
    JoinedAt(b, c);
  }

  lemma {:induction false} MergeCommutes(a: Entries, b: Entries)
    ensures Merge(a, b) == Merge(b, a)
  {
    hide Count;
    assert a.Keys + b.Keys == b.Keys + a.Keys;
    assert Joined(a, b) == Joined(b, a);
  }

  lemma {:induction false} MergeAssociates(a: Entries, b: Entries, c: Entries)
    ensures Then(Merge(a, b), c) == Then(Merge(b, c), a)
  {
    hide Count, Joined;
    JoinedAssociates(a, b, c);
    ThreeKeys(a, b, c);
    Smaller(a.Keys + b.Keys, Joined(a, b).Keys + c.Keys);
    Smaller(b.Keys + c.Keys, Joined(b, c).Keys + a.Keys);
  }

  lemma {:induction false} MergeIdempotent(a: Entries)
    requires |a| <= MAX_ENTRIES
    ensures Merge(a, a) == Some(a)
  {
    assert a.Keys + a.Keys == a.Keys;
    assert Joined(a, a) == a;
  }

  /** Merging is commutative, associative and idempotent, failures included. */
  lemma {:induction false} MergeLaws(a: Entries, b: Entries, c: Entries)
    ensures Merge(a, b) == Merge(b, a)
    ensures Then(Merge(a, b), c) == Then(Merge(b, c), a)
    ensures |a| <= MAX_ENTRIES ==> Merge(a, a) == Some(a)
  {
    hide *;
    MergeCommutes(a, b);
    MergeAssociates(a, b, c);
    if |a| <= MAX_ENTRIES { MergeIdempotent(a); }
  }

  lemma {:induction false} Smaller(s: set<NodeId>, t: set<NodeId>)
    requires s <= t
    ensures Count(s) <= Count(t)
  {
    assert t == s + (t - s);
  }

  // ---------------------------------------------------------------------
  // Every clock that operations can build
  // ---------------------------------------------------------------------

  datatype Op = Inc(node: NodeId, hlc: Hlc) | Absorb(other: Entries)

  function Applied(v: Entries, op: Op): Entries {
    var r := match op case Inc(n, h) => Increment(v, n, h) case Absorb(o) => Merge(v, o);
    if r.Some? then r.value else v
  }

  function Built(ops: seq<Op>): Entries {
    if ops == [] then map[] else Applied(Built(ops[..|ops| - 1]), ops[|ops| - 1])
  }

  lemma {:induction false} JoinedCount(a: Entries, b: Entries)
    ensures |Joined(a, b)| == Count(a.Keys + b.Keys)
  {
    assert Joined(a, b).Keys == a.Keys + b.Keys;
  }

  lemma {:induction false} RaisedFacts(v: Entries, n: NodeId, h: Hlc)
    ensures |Raised(v, n, h)| == |v| + if n in v then 0 else 1
    ensures Le(v, Raised(v, n, h))
  {
    assert Raised(v, n, h).Keys == v.Keys + {n};
    if n in v { assert v.Keys + {n} == v.Keys; }
  }

  lemma {:induction false} AppliedFacts(v: Entries, op: Op)
    requires |v| <= MAX_ENTRIES
    ensures |Applied(v, op)| <= MAX_ENTRIES
    ensures Le(v, Applied(v, op))
  {
    hide Count, Joined, Raised;
    match op
    case Inc(n, h) => RaisedFacts(v, n, h);
    case Absorb(o) =>
      JoinedCount(v, o);
      JoinedIsLub(v, o, v);
  }

  lemma BuiltStep(ops: seq<Op>)
    ensures ops == [] ==> Built(ops) == map[]
    ensures ops != [] ==> Built(ops) == Applied(Built(ops[..|ops| - 1]), ops[|ops| - 1])
  {
    hide Applied;
  }

  /** No clock built from the empty one exceeds the cap, and none ever loses what it knew. */
  lemma {:induction false} BuiltWithinCap(ops: seq<Op>, k: nat)
    requires k <= |ops|
    ensures |Built(ops)| <= 4096
    ensures Le(Built(ops[..k]), Built(ops))
  {
    hide Applied, Built;
    BuiltStep(ops);
    if k == |ops| {
      assert ops[..k] == ops;
    }
    if ops != [] {
      var before := ops[..|ops| - 1];
      BuiltWithinCap(before, if k < |ops| then k else 0);
      AppliedFacts(Built(before), ops[|ops| - 1]);
      if k < |ops| {
        assert before[..k] == ops[..k];
        LeTransitive(Built(ops[..k]), Built(before), Built(ops));
      }
    }
  }

  lemma {:induction false} CountAdded(a: Entries, b: Entries)
    ensures Count(a.Keys + b.Keys) == |a| + |b.Keys - a.Keys|
  {
    assert a.Keys + b.Keys == a.Keys + (b.Keys - a.Keys);
  }

  /** Entries of `other` outside `todo` have been merged into `before`. */
  ghost predicate Merging(now: Entries, before: Entries, other: Entries, todo: set<NodeId>) {
    && todo <= other.Keys
    && now.Keys == before.Keys + (other.Keys - todo)
    && forall n :: n in now ==> now[n] == if n in todo then At(before, n) else Later(At(before, n), At(other, n))
  }

  lemma MergeStart(v: Entries, o: Entries)
    ensures Merging(v, v, o, o.Keys)
  {
  }

  lemma {:induction false} MergeStep(now: Entries, before: Entries, other: Entries, todo: set<NodeId>, n: NodeId)
    requires Merging(now, before, other, todo) && n in todo
    ensures Merging(Raised(now, n, other[n]), before, other, todo - {n})
  {
    var next := Raised(now, n, other[n]);
    assert next.Keys == before.Keys + (other.Keys - (todo - {n}));
  }

  lemma {:induction false} MergeEnd(now: Entries, before: Entries, other: Entries)
    requires Merging(now, before, other, {})
    ensures now == Joined(before, other)
  {
    assert now.Keys == Joined(before, other).Keys;
  }

  // ---------------------------------------------------------------------
  // The clock as it is updated in place
  // ---------------------------------------------------------------------

  class Clock {
    var entries: Entries

    constructor ()
      ensures entries == map[]
    {
      entries := map[];
    }

    /** A full clock refuses a new node and stays as it was. */
    method IncrementNode(node: NodeId, hlc: Hlc) returns (ok: bool)
      modifies this
      ensures ok <==> Increment(old(entries), node, hlc).Some?
      ensures entries == if ok then Increment(old(entries), node, hlc).value else old(entries)
      ensures |old(entries)| <= MAX_ENTRIES ==> |entries| <= MAX_ENTRIES
    {
      if node !in entries && |entries| >= MAX_ENTRIES {
        return false;
      }
      RaisedFacts(entries, node, hlc);
      if node in entries {
        if hlc > entries[node] {
          entries := entries[node := hlc];
        }
      } else {
        entries := entries[node := hlc];
      }
      ok := true;
    }

    /** Capacity is checked before anything changes. */
    method MergeFrom(other: Entries) returns (ok: bool)
      modifies this
      ensures ok <==> Merge(old(entries), other).Some?
      ensures entries == if ok then Merge(old(entries), other).value else old(entries)
      ensures |old(entries)| <= MAX_ENTRIES ==> |entries| <= MAX_ENTRIES
    {
      hide Count, Merging, Raised, Joined;
      var added := other.Keys - entries.Keys;
      CountAdded(entries, other);
      if |entries| + |added| > MAX_ENTRIES {
        return false;
      }
      ghost var before := entries;
      var todo := other.Keys;
      MergeStart(entries, other);
      while todo != {}
        invariant Merging(entries, before, other, todo)
        decreases todo
      {
        var n :| n in todo;
        MergeStep(entries, before, other, todo, n);
        RaiseTo(n, other[n]);
        todo := todo - {n};
      }
      MergeEnd(entries, before, other);
      JoinedCount(before, other);
      ok := true;
    }

    method RaiseTo(n: NodeId, h: Hlc)
      modifies this
      ensures entries == Raised(old(entries), n, h)
    {
      if n in entries {
        if h > entries[n] {
          entries := entries[n := h];
        } else {
          assert entries == Raised(entries, n, h);
        }
      } else {
        entries := entries[n := h];
      }
    }

    /** Two flags over the nodes of both clocks. */
    method Compare(other: Entries) returns (r: CausalOrder)
      ensures r == Order(entries, other)
    {
      var selfLe, otherLe := true, true;
      var todo := entries.Keys + other.Keys;
      while todo != {}
        invariant todo <= entries.Keys + other.Keys
        invariant selfLe <==> forall n :: n in entries && n !in todo ==> entries[n] <= At(other, n)
        invariant otherLe <==> forall n :: n in other && n !in todo ==> other[n] <= At(entries, n)
        decreases todo
      {
        var n :| n in todo;
        var a, b := At(entries, n), At(other, n);
        if a > b { selfLe := false; }
        if b > a { otherLe := false; }
        todo := todo - {n};
      }
      return if selfLe then (if otherLe then Equal else Before)
             else (if otherLe then After else Concurrent);
    }
  }
}
