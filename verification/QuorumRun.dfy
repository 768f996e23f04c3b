/**
 Runs of reads, writes and deletes of one key, and when a read is sure to see
 the last write that a write quorum acknowledged.
 */
module QuorumRun {
  import opened Text
  import opened Hlc
  import opened HybridClock
  import opened VectorClock
  import opened Resolver
  import opened ReadRepair

  /** The copies that owners hold, every record ever written in the order of the operations, and
      the record of the last write or delete that a write quorum of owners acknowledged. */
  datatype State = State(copies: map<NodeId, VersionedDoc>, issued: seq<VersionedDoc>, last: Option<VersionedDoc>)

  /** A write, or a delete when there is no document, is stored by the owners it reached and
      acknowledged by some of them. A record written earlier lands on one owner in the background:
      a read repair, a delivered hint, or a request that was believed lost. */
  datatype Op =
    | Write(local: NodeId, doc: Option<Doc>, hlc: Hlc, reached: set<NodeId>, acked: set<NodeId>)
    | Land(node: NodeId, record: VersionedDoc)

  function NewRecord(local: NodeId, doc: Option<Doc>, hlc: Hlc): VersionedDoc {
    VersionedDoc(doc, map[local := hlc], hlc, doc.None?)
  }

  function Step(s: State, op: Op, w: nat): State {
    match op
    case Write(local, doc, hlc, reached, acked) =>
      var v := NewRecord(local, doc, hlc);
      State(s.copies + (map n | n in reached :: v), s.issued + [v], if |acked| >= w then Some(v) else s.last)
    case Land(node, v) => s.(copies := s.copies[node := v])
  }

  /** Operations on the key do not overlap, and each coordinator's own clock values increase. The
      clocks of different coordinators need not agree. */
  predicate Possible(owners: set<NodeId>, s: State, op: Op) {
    match op
    case Write(local, _, hlc, reached, acked) =>
      && acked <= reached <= owners && hlc > 0
      && forall v :: v in s.issued && v.version.Keys == {local} ==> v.hlc < hlc
    case Land(node, v) => node in owners && v in s.issued
  }

  /** The place of a record in the order of the operations, from 1; 0 for any other record. */
  function Rank(issued: seq<VersionedDoc>, v: VersionedDoc): (r: nat)
    ensures r <= |issued|
    ensures r > 0 ==> issued[r - 1] == v
  {
    if issued == [] then 0
    else if issued[|issued| - 1] == v then |issued|
    else Rank(issued[..|issued| - 1], v)
  }

  /** What lands was not issued before what it replaces. */
  predicate InTime(s: State, op: Op) {
    op.Land? && op.node in s.copies ==> Rank(s.issued, op.record) >= Rank(s.issued, s.copies[op.node])
  }

  function Reached(s: State, ops: seq<Op>, w: nat): State {
    if ops == [] then s else Step(Reached(s, ops[..|ops| - 1], w), ops[|ops| - 1], w)
  }

  ghost predicate PossibleRun(owners: set<NodeId>, s: State, ops: seq<Op>, w: nat) {
    forall i :: 0 <= i < |ops| ==> Possible(owners, Reached(s, ops[..i], w), ops[i])
  }

  ghost predicate InTimeRun(s: State, ops: seq<Op>, w: nat) {
    forall i :: 0 <= i < |ops| ==> InTime(Reached(s, ops[..i], w), ops[i])
  }

  const EMPTY := State(map[], [], None)

  lemma {:induction false} RankNext(issued: seq<VersionedDoc>, w: VersionedDoc, v: VersionedDoc)
    ensures Rank(issued + [w], v) == if v == w then |issued| + 1 else Rank(issued, v)
  {
    assert (issued + [w])[..|issued|] == issued;
  }

  lemma {:induction false} RankIn(issued: seq<VersionedDoc>, v: VersionedDoc)
    ensures v in issued <==> Rank(issued, v) > 0
    decreases |issued|
  {
    if issued != [] {
      var rest := issued[..|issued| - 1];
      assert issued == rest + [issued[|issued| - 1]];
      RankIn(rest, v);
    }
  }

  // ---------------------------------------------------------------------
  // Invariants
  // ---------------------------------------------------------------------

  ghost predicate Issued(v: VersionedDoc) { v.hlc > 0 && exists l: NodeId :: v == NewRecord(l, v.document, v.hlc) }

  /** Each coordinator's clock values increase. */
  predicate Rising(issued: seq<VersionedDoc>) {
    forall i, j :: 0 <= i < j < |issued| && issued[i].version.Keys == issued[j].version.Keys ==>
      issued[i].hlc < issued[j].hlc
  }

  /** Records carry one entry, their coordinator's clock value, which tells its records apart. */
  ghost predicate Shaped(owners: set<NodeId>, s: State) {
    && s.copies.Keys <= owners
    && (forall n :: n in s.copies ==> s.copies[n] in s.issued)
    && (forall v :: v in s.issued ==> Issued(v))
    && Rising(s.issued)
    && (s.last.Some? ==> s.last.value in s.issued)
  }

  /** The owners whose copy is `v` or a record issued after it. */
  ghost function Cover(s: State, v: VersionedDoc): set<NodeId> {
    set n | n in s.copies && Rank(s.issued, s.copies[n]) >= Rank(s.issued, v)
  }

  /** The owners whose copy is the last acknowledged record or one issued after it. */
  ghost function Holders(s: State): set<NodeId> { if s.last.Some? then Cover(s, s.last.value) else {} }

  /** No owner stops covering a record. */
  ghost predicate Grows(s: State, t: State) {
    forall v :: v in s.issued ==> v in t.issued && Cover(s, v) <= Cover(t, v)
  }

  ghost predicate Inv(owners: set<NodeId>, w: nat, s: State) {
    Shaped(owners, s) && (s.last.Some? ==> |Holders(s)| >= w)
  }

  lemma {:induction false} StepShaped(owners: set<NodeId>, w: nat, s: State, op: Op)
    requires Shaped(owners, s) && Possible(owners, s, op)
    ensures Shaped(owners, Step(s, op, w))
  {
    if op.Write? {
      var v := NewRecord(op.local, op.doc, op.hlc);
      assert v == NewRecord(op.local, v.document, v.hlc);
      assert Issued(v);
      assert v.version.Keys == {op.local};
      assert forall i :: 0 <= i < |s.issued| ==> s.issued[i] in s.issued;
    }
  }

  lemma {:induction false} NewIsNew(owners: set<NodeId>, s: State, op: Op)
    requires Shaped(owners, s) && Possible(owners, s, op) && op.Write?
    ensures NewRecord(op.local, op.doc, op.hlc) !in s.issued
  {
    var v := NewRecord(op.local, op.doc, op.hlc);
    assert v.version.Keys == {op.local};
  }

  lemma {:induction false} CoverStays(owners: set<NodeId>, w: nat, s: State, op: Op, v: VersionedDoc)
    requires Shaped(owners, s) && Possible(owners, s, op) && InTime(s, op) && v in s.issued
    ensures Cover(s, v) <= Cover(Step(s, op, w), v)
  {
    hide Issued, Rank, Rising;
    if op.Write? {
      NewIsNew(owners, s, op);
      var latest := NewRecord(op.local, op.doc, op.hlc);
      RankNext(s.issued, latest, latest);
      RankNext(s.issued, latest, v);
      forall n | n in Cover(s, v) ensures n in Cover(Step(s, op, w), v) {
        RankNext(s.issued, latest, s.copies[n]);
      }
    }
  }

  lemma {:induction false} StepGrows(owners: set<NodeId>, w: nat, s: State, op: Op)
    requires Shaped(owners, s) && Possible(owners, s, op) && InTime(s, op)
    ensures Grows(s, Step(s, op, w))
  {
    hide Shaped, Possible, InTime, Cover;
    forall v | v in s.issued ensures v in Step(s, op, w).issued && Cover(s, v) <= Cover(Step(s, op, w), v) {
      CoverStays(owners, w, s, op, v);
    }
  }

  lemma GrowsOn(s: State, t: State, u: State)
    requires Grows(s, t) && Grows(t, u)
    ensures Grows(s, u)
  {
    hide Cover;
  }

  /** A new record is covered by exactly the owners it reached. */
  lemma {:induction false} NewCover(owners: set<NodeId>, w: nat, s: State, op: Op)
    requires Shaped(owners, s) && Possible(owners, s, op) && op.Write?
    ensures Cover(Step(s, op, w), NewRecord(op.local, op.doc, op.hlc)) == op.reached
  {
    hide Issued, Rank, Rising;
    NewIsNew(owners, s, op);
    var v := NewRecord(op.local, op.doc, op.hlc);
    RankNext(s.issued, v, v);
    forall n | n in s.copies ensures Rank(s.issued + [v], s.copies[n]) <= |s.issued| {
      RankNext(s.issued, v, s.copies[n]);
    }
  }

  lemma {:induction false} StepInv(owners: set<NodeId>, w: nat, s: State, op: Op)
    requires Inv(owners, w, s) && Possible(owners, s, op) && InTime(s, op)
    ensures Inv(owners, w, Step(s, op, w)) && Grows(s, Step(s, op, w))
  {
    StepShaped(owners, w, s, op);
    StepGrows(owners, w, s, op);
    var t := Step(s, op, w);
    if op.Write? && |op.acked| >= w {
      NewCover(owners, w, s, op);
      Smaller(op.acked, Holders(t));
    } else if s.last.Some? {
      Smaller(Holders(s), Holders(t));
    }
    hide Cover, InTime;
  }

  lemma {:induction false} RunInv(owners: set<NodeId>, w: nat, ops: seq<Op>)
    requires PossibleRun(owners, EMPTY, ops, w) && InTimeRun(EMPTY, ops, w)
    ensures Inv(owners, w, Reached(EMPTY, ops, w))
    decreases |ops|
  {
    hide Inv, Possible, InTime, Step;
    if ops == [] {
      assert Inv(owners, w, EMPTY) by { EmptyInv(owners, w); }
    } else {
      var rest := ops[..|ops| - 1];
      assert forall i :: 0 <= i < |rest| ==> rest[..i] == ops[..i] && rest[i] == ops[i];
      RunInv(owners, w, rest);
      StepInv(owners, w, Reached(EMPTY, rest, w), ops[|ops| - 1]);
    }
  }

  lemma EmptyInv(owners: set<NodeId>, w: nat)
    ensures Inv(owners, w, EMPTY)
  {
  }

  // ---------------------------------------------------------------------
  // Who wins
  // ---------------------------------------------------------------------

  /** Of one coordinator's records the later clock value wins; otherwise a tombstone wins over a
      document, and between two of a kind the later clock value. */
  predicate Outranks(v: VersionedDoc, x: VersionedDoc) {
    if v.version.Keys == x.version.Keys || v.tombstone == x.tombstone then v.hlc > x.hlc else v.tombstone
  }

  /** One of two different records wins in either order exactly when it outranks the other. */
  lemma {:induction false} WinsExactly(v: VersionedDoc, x: VersionedDoc)
    requires Issued(v) && Issued(x) && v != x && (v.version.Keys == x.version.Keys ==> v.hlc != x.hlc)
    ensures Beats(v, x) <==> Outranks(v, x)
  {
    var l: NodeId :| v == NewRecord(l, v.document, v.hlc);
    var m: NodeId :| x == NewRecord(m, x.document, x.hlc);
    assert v.version.Keys == {l} && x.version.Keys == {m};
    assert l == m <==> v.version.Keys == x.version.Keys by { assert l in {l} && m in {m}; }
    SingleOrder(l, v.hlc, m, x.hlc);
    SingleOrder(m, x.hlc, l, v.hlc);
    hide Order;
  }

  /** In particular, a record issued later wins exactly when its clock value is later too, except
      that between two coordinators a tombstone wins over a document whatever the clock values. */
  lemma {:induction false} LaterWinsExactly(owners: set<NodeId>, s: State, v: VersionedDoc, x: VersionedDoc)
    requires Shaped(owners, s) && v in s.issued && x in s.issued && v != x
    ensures Beats(v, x) <==> Outranks(v, x)
    ensures v.version.Keys == x.version.Keys ==> (Outranks(v, x) <==> Rank(s.issued, v) > Rank(s.issued, x))
  {
    hide Outranks, Beats, Rank;
    RankIn(s.issued, v);
    RankIn(s.issued, x);
    var i, j := Rank(s.issued, v) - 1, Rank(s.issued, x) - 1;
    assert s.issued[i] == v && s.issued[j] == x;
    SameKeysRanks(s.issued, i, j);
    WinsExactly(v, x);
  }

  lemma {:induction false} SameKeysRanks(issued: seq<VersionedDoc>, i: nat, j: nat)
    requires Rising(issued) && i < |issued| && j < |issued| && issued[i] != issued[j]
    ensures issued[i].version.Keys == issued[j].version.Keys ==>
      issued[i].hlc != issued[j].hlc && (Outranks(issued[i], issued[j]) <==> i > j)
  {
  }

  lemma {:induction false} SingleOrder(la: NodeId, h: Hlc, lb: NodeId, g: Hlc)
    requires h > 0 && g > 0
    ensures Order(map[la := h], map[lb := g]) ==
      if la != lb then Concurrent else if h < g then Before else if h > g then CausalOrder.After else Equal
  {
    var a: Entries, b: Entries := map[la := h], map[lb := g];
    assert At(b, la) == (if la == lb then g else 0) && At(a, lb) == (if la == lb then h else 0);
    assert a[la] == h && b[lb] == g;
    assert Le(a, b) <==> h <= At(b, la);
    assert Le(b, a) <==> g <= At(a, lb);
  }

  /** The record among `docs` that was issued last. */
  function Latest(issued: seq<VersionedDoc>, docs: seq<VersionedDoc>): VersionedDoc
    requires docs != []
  {
    if |docs| == 1 then docs[0]
    else
      var rest := Latest(issued, docs[1..]);
      if Rank(issued, docs[0]) >= Rank(issued, rest) then docs[0] else rest
  }

  lemma {:induction false} LatestFacts(issued: seq<VersionedDoc>, docs: seq<VersionedDoc>)
    requires docs != []
    ensures Latest(issued, docs) in docs
    ensures forall x :: x in docs ==> Rank(issued, x) <= Rank(issued, Latest(issued, docs))
    decreases |docs|
  {
    hide Rank;
    assert forall x :: x in docs ==> x == docs[0] || x in docs[1..];
    if |docs| > 1 { LatestFacts(issued, docs[1..]); }
  }

  /** The record issued last among `docs` outranks all the others. */
  predicate Orderly(issued: seq<VersionedDoc>, docs: seq<VersionedDoc>) {
    docs != [] ==> forall x :: x in docs && x != Latest(issued, docs) ==> Outranks(Latest(issued, docs), x)
  }

  /** A read gives the record issued last among its answers, in whatever order they come in, exactly
      when that record outranks all the others. */
  lemma {:induction false} LatestWinsExactly(owners: set<NodeId>, s: State, docs: seq<VersionedDoc>)
    requires Shaped(owners, s) && docs != [] && forall x :: x in docs ==> x in s.issued
    ensures (forall other :: Reordering(docs, other) && other != [] ==> Resolve(other) == Latest(s.issued, docs))
       <==> Orderly(s.issued, docs)
  {
    hide Shaped, Resolve, Beats, Rank, Outranks, Latest;
    var v := Latest(s.issued, docs);
    LatestFacts(s.issued, docs);
    forall x | x in docs ensures Beats(v, x) <==> x == v || Outranks(v, x) {
      if x == v { SelfBeats(v); } else { LaterWinsExactly(owners, s, v, x); }
    }
    if Orderly(s.issued, docs) {
      forall other | Reordering(docs, other) && other != [] ensures Resolve(other) == v {
        assert forall x :: x in other ==> x in multiset(other);
        assert v in multiset(docs);
        assert Champion(v, other);
        ChampionWins(v, other);
      }
    } else if forall other :: Reordering(docs, other) && other != [] ==> Resolve(other) == v {
      SameWinnerIsChampion(docs, v);
      assert false;
    }
  }

  lemma {:induction false} LatestWins(owners: set<NodeId>, s: State, docs: seq<VersionedDoc>)
    requires Shaped(owners, s) && docs != [] && (forall x :: x in docs ==> x in s.issued) && Orderly(s.issued, docs)
    ensures Resolve(docs) == Latest(s.issued, docs) && Resolve(docs) in docs
    ensures forall x :: x in docs ==> Rank(s.issued, x) <= Rank(s.issued, Resolve(docs))
  {
    hide Shaped, Resolve, Rank, Latest, Orderly;
    LatestWinsExactly(owners, s, docs);
    assert Reordering(docs, docs);
    LatestFacts(s.issued, docs);
  }

  // ---------------------------------------------------------------------
  // Reads
  // ---------------------------------------------------------------------

  /** Different owners answer with their copies. */
  ghost predicate ReadOf(owners: set<NodeId>, s: State, rs: seq<Response>) {
    && (forall i :: 0 <= i < |rs| ==> rs[i].node in owners && rs[i].doc == Lookup(s.copies, rs[i].node))
    && (forall i, j :: 0 <= i < j < |rs| ==> rs[i].node != rs[j].node)
  }

  /** The read finds `v` or a record issued after it. */
  ghost predicate Fresh(s: State, v: VersionedDoc, rs: seq<Response>) {
    Present(rs) != [] && Rank(s.issued, Resolve(Present(rs))) >= Rank(s.issued, v)
  }

  function Nodes(rs: seq<Response>): set<NodeId> { set i | 0 <= i < |rs| :: rs[i].node }

  lemma {:induction false} NodesCount(rs: seq<Response>)
    requires forall i, j :: 0 <= i < j < |rs| ==> rs[i].node != rs[j].node
    ensures |Nodes(rs)| == |rs|
    decreases |rs|
  {
    if rs != [] {
      var m := |rs| - 1;
      NodesCount(rs[..m]);
      assert Nodes(rs) == Nodes(rs[..m]) + {rs[m].node};
      assert rs[m].node !in Nodes(rs[..m]);
    }
  }

  lemma {:induction false} Meet(a: set<NodeId>, b: set<NodeId>, all: set<NodeId>) returns (n: NodeId)
    requires a <= all && b <= all && |a| + |b| > |all|
    ensures n in a && n in b
  {
    if a * b == {} {
      assert |a + b| == |a| + |b|;
      Smaller(a + b, all);
      assert false;
    }
    n :| n in a * b;
  }

  lemma {:induction false} QuorumMeets(owners: set<NodeId>, s: State, v: VersionedDoc, rs: seq<Response>)
    returns (i: nat)
    requires Shaped(owners, s) && ReadOf(owners, s, rs) && |Cover(s, v)| + |rs| > |owners|
    ensures i < |rs| && rs[i].doc.Some? && Rank(s.issued, rs[i].doc.value) >= Rank(s.issued, v)
  {
    hide Rank;
    NodesCount(rs);
    var n := Meet(Cover(s, v), Nodes(rs), owners);
    i :| 0 <= i < |rs| && rs[i].node == n;
  }

  lemma {:induction false} DocsIssued(owners: set<NodeId>, s: State, rs: seq<Response>)
    requires Shaped(owners, s) && ReadOf(owners, s, rs)
    ensures forall d :: d in Present(rs) ==> d in s.issued
  {
    hide Present, Issued;
    forall d | d in Present(rs) ensures d in s.issued {
      var i := FromPresent(rs, d);
    }
  }

  lemma {:induction false} EnoughCover(owners: set<NodeId>, s: State, v: VersionedDoc, rs: seq<Response>)
    requires Shaped(owners, s) && Orderly(s.issued, Present(rs))
    requires ReadOf(owners, s, rs) && |Cover(s, v)| + |rs| > |owners|
    ensures Fresh(s, v, rs) && Resolve(Present(rs)) in s.issued
  {
    hide Shaped, Orderly, ReadOf, Present, Resolve, Cover, Rank;
    var i := QuorumMeets(owners, s, v, rs);
    InPresent(rs, i);
    DocsIssued(owners, s, rs);
    LatestWins(owners, s, Present(rs));
  }

  /** The winner of a read was not issued before any copy the read has seen. */
  lemma {:induction false} WinnerNotOlder(owners: set<NodeId>, s: State, rs: seq<Response>, i: nat)
    requires Shaped(owners, s) && Orderly(s.issued, Present(rs)) && ReadOf(owners, s, rs)
    requires Present(rs) != [] && i < |rs|
    ensures var v := Resolve(Present(rs));
      && v in s.issued && rs[i].node in owners
      && (rs[i].node in s.copies ==> Rank(s.issued, v) >= Rank(s.issued, s.copies[rs[i].node]))
  {
    hide Shaped, Orderly, Present, Resolve, Rank;
    DocsIssued(owners, s, rs);
    LatestWins(owners, s, Present(rs));
    if rs[i].node in s.copies { InPresent(rs, i); }
  }

  /** Some read asks exactly the owners in `some`. */
  lemma {:induction false} ReadFrom(owners: set<NodeId>, s: State, some: set<NodeId>) returns (rs: seq<Response>)
    requires some <= owners
    ensures ReadOf(owners, s, rs) && |rs| == |some| && forall i :: 0 <= i < |rs| ==> rs[i].node in some
    decreases |some|
  {
    if some == {} {
      rs := [];
    } else {
      var n :| n in some;
      var rest := ReadFrom(owners, s, some - {n});
      rs := rest + [Response(n, Lookup(s.copies, n))];
    }
  }

  lemma {:induction false} StaleRead(owners: set<NodeId>, s: State, v: VersionedDoc, rs: seq<Response>)
    requires ReadOf(owners, s, rs) && forall i :: 0 <= i < |rs| ==> rs[i].node !in Cover(s, v)
    ensures !Fresh(s, v, rs)
  {
    hide Present, Resolve, Rank;
    if Present(rs) != [] {
      assert Resolve(Present(rs)) in Present(rs) by { ResolveGivesOne(Present(rs)); }
      var i := FromPresent(rs, Resolve(Present(rs)));
    }
  }

  lemma {:induction false} ResolveGivesOne(docs: seq<VersionedDoc>)
    requires docs != []
    ensures Resolve(docs) in docs
  {
    FoldGivesOne(docs[0], docs[1..]);
  }

  /** Of any two copies, the one issued later outranks the other. */
  ghost predicate CopiesOrderly(s: State) {
    forall m, n :: m in s.copies && n in s.copies && Rank(s.issued, s.copies[m]) < Rank(s.issued, s.copies[n]) ==>
      Outranks(s.copies[n], s.copies[m])
  }

  lemma {:induction false} AnswersOrderly(owners: set<NodeId>, s: State, rs: seq<Response>)
    requires Shaped(owners, s) && ReadOf(owners, s, rs) && CopiesOrderly(s)
    ensures Orderly(s.issued, Present(rs))
  {
    hide Present, Rank, Outranks, Latest, Issued, Rising;
    if Present(rs) != [] {
      var v := Latest(s.issued, Present(rs));
      LatestFacts(s.issued, Present(rs));
      var i := FromPresent(rs, v);
      forall x | x in Present(rs) && x != v ensures Outranks(v, x) {
        var j := FromPresent(rs, x);
        RankIn(s.issued, x);
        assert Rank(s.issued, x) <= Rank(s.issued, v);
        assert Rank(s.issued, x) < Rank(s.issued, v);
        assert s.copies[rs[i].node] == v && s.copies[rs[j].node] == x;
      }
    }
  }

  /** Every read of at least r owners finds a given record or one issued after it exactly when more
      than all but r owners hold one. */
  lemma {:induction false} FreshExactly(owners: set<NodeId>, s: State, v: VersionedDoc, r: nat)
    requires Shaped(owners, s) && CopiesOrderly(s) && r <= |owners|
    ensures (forall rs :: ReadOf(owners, s, rs) && |rs| >= r ==> Fresh(s, v, rs)) <==> |Cover(s, v)| + r > |owners|
  {
    hide Shaped, CopiesOrderly, ReadOf, Fresh, Orderly, Cover;
    if |Cover(s, v)| + r > |owners| {
      forall rs | ReadOf(owners, s, rs) && |rs| >= r ensures Fresh(s, v, rs) {
        AnswersOrderly(owners, s, rs);
        EnoughCover(owners, s, v, rs);
      }
    } else {
      assert Cover(s, v) <= owners by { CoverOwn(owners, s, v); }
      var some := owners - Cover(s, v);
      assert |some| == |owners| - |Cover(s, v)|;
      var rs := ReadFrom(owners, s, some);
      StaleRead(owners, s, v, rs);
    }
  }

  lemma CoverOwn(owners: set<NodeId>, s: State, v: VersionedDoc)
    requires Shaped(owners, s)
    ensures Cover(s, v) <= owners
  {
    hide Rank;
  }

  /** A landing makes its owner hold a record, or cease to, by whether what lands was issued before it. */
  lemma {:induction false} LandCover(w: nat, s: State, n: NodeId, v: VersionedDoc, x: VersionedDoc)
    ensures Cover(Step(s, Land(n, v), w), x) ==
      if Rank(s.issued, v) >= Rank(s.issued, x) then Cover(s, x) + {n} else Cover(s, x) - {n}
  {
    hide Rank;
  }

  /** When every read of r owners finds `x`, a record that lands takes that away exactly when it was
      issued before `x`, replaces one of the copies that count, and none of them can be spared. */
  lemma {:induction false} LandLosesExactly(owners: set<NodeId>, w: nat, s: State, n: NodeId, v: VersionedDoc,
          x: VersionedDoc, r: nat)
    requires Shaped(owners, s) && Possible(owners, s, Land(n, v)) && r <= |owners|
    requires CopiesOrderly(Step(s, Land(n, v), w)) && |Cover(s, x)| + r > |owners|
    ensures var t := Step(s, Land(n, v), w);
      !(forall rs :: ReadOf(owners, t, rs) && |rs| >= r ==> Fresh(t, x, rs)) <==>
      Rank(s.issued, v) < Rank(s.issued, x) && n in Cover(s, x) && |Cover(s, x)| + r == |owners| + 1
  {
    var t := Step(s, Land(n, v), w);
    StepShaped(owners, w, s, Land(n, v));
    hide Shaped, CopiesOrderly, ReadOf, Fresh, Cover, Rank, Step;
    FreshExactly(owners, t, x, r);
    LandCover(w, s, n, v, x);
    OneLess(Cover(s, x), n);
    Smaller(Cover(s, x), Cover(s, x) + {n});
  }

  lemma {:induction false} OneLess(a: set<NodeId>, n: NodeId)
    ensures |a - {n}| == if n in a then |a| - 1 else |a|
  {
    if n !in a { assert a - {n} == a; }
  }

  /** Freshness over every run of any number of coordinators. With r + w > n, whatever requests
      failed, whichever background writes landed in time, and whichever owners answer: when the
      answer issued last outranks the others, a successful read returns the last write or delete
      that a write quorum acknowledged, or one issued after it that does not causally precede it;
      and that very one when nothing was issued after it. */
  lemma {:induction false} ReadsAreFresh(owners: set<NodeId>, w: nat, r: nat, ops: seq<Op>, rs: seq<Response>)
    requires PossibleRun(owners, EMPTY, ops, w) && InTimeRun(EMPTY, ops, w) && r + w > |owners|
    requires var s := Reached(EMPTY, ops, w);
      Orderly(s.issued, Present(rs)) && s.last.Some? && ReadOf(owners, s, rs) && |rs| >= r
    ensures Present(rs) != []
    ensures var s := Reached(EMPTY, ops, w);
      var v := Resolve(Present(rs));
      && v in s.issued
      && Outcome(rs, r) == Found(v.document, v.version, |Stale(rs, v)|)
      && Rank(s.issued, v) >= Rank(s.issued, s.last.value)
      && (v == s.last.value || !AtLeast(s.last.value, v))
      && (s.issued[|s.issued| - 1] == s.last.value ==> v == s.last.value)
  {
    hide Reached, PossibleRun, InTimeRun, Orderly, ReadOf, Cover, Issued, Rank, Rising;
    hide Present, Resolve, Stale, AtLeast;
    RunInv(owners, w, ops);
    var s := Reached(EMPTY, ops, w);
    EnoughCover(owners, s, s.last.value, rs);
    var v := Resolve(Present(rs));
    if v != s.last.value {
      LaterNotBefore(owners, s, v, s.last.value);
      LastIsLast(s.issued);
    }
  }

  lemma {:induction false} LastIsLast(issued: seq<VersionedDoc>)
    requires issued != []
    ensures Rank(issued, issued[|issued| - 1]) == |issued|
  {
  }

  /** A record issued later never equals or causally precedes one issued earlier. */
  lemma {:induction false} LaterNotBefore(owners: set<NodeId>, s: State, v: VersionedDoc, x: VersionedDoc)
    requires Shaped(owners, s) && v in s.issued && x in s.issued && v != x
    requires Rank(s.issued, v) >= Rank(s.issued, x)
    ensures !AtLeast(x, v) && Rank(s.issued, v) > Rank(s.issued, x)
  {
    hide Order, Rank, Beats, Rising;
    RankIn(s.issued, v);
    RankIn(s.issued, x);
    LaterWinsExactly(owners, s, v, x);
    assert Issued(v) && Issued(x);
    var l: NodeId :| v == NewRecord(l, v.document, v.hlc);
    var m: NodeId :| x == NewRecord(m, x.document, x.hlc);
    assert v.version.Keys == {l} && x.version.Keys == {m};
    SingleOrder(m, x.hlc, l, v.hlc);
  }

  /** With one coordinator everything is orderly, and later means causally later. */
  lemma {:induction false} OneCoordinator(owners: set<NodeId>, s: State, local: NodeId, docs: seq<VersionedDoc>)
    requires Shaped(owners, s) && forall d :: d in s.issued ==> d.version.Keys == {local}
    requires forall d :: d in docs ==> d in s.issued
    ensures Orderly(s.issued, docs)
  {
    hide Rank, Latest, Outranks, Issued, Rising;
    if docs != [] {
      var v := Latest(s.issued, docs);
      LatestFacts(s.issued, docs);
      forall x | x in docs && x != v ensures Outranks(v, x) {
        LaterWinsExactly(owners, s, v, x);
        LaterNotBefore(owners, s, v, x);
      }
    }
  }

  lemma {:induction false} LaterIsCausal(owners: set<NodeId>, s: State, local: NodeId, v: VersionedDoc, x: VersionedDoc)
    requires Shaped(owners, s) && v in s.issued && x in s.issued
    requires v.version.Keys == {local} == x.version.Keys
    ensures Rank(s.issued, v) >= Rank(s.issued, x) <==> AtLeast(v, x)
    ensures Order(v.version, x.version).Equal? ==> v == x
  {
    if v == x {
      OrderLaws(v.version, v.version, v.version);
    } else {
      LaterWinsExactly(owners, s, v, x);
      assert Issued(v) && Issued(x);
      var l: NodeId :| v == NewRecord(l, v.document, v.hlc);
      var m: NodeId :| x == NewRecord(m, x.document, x.hlc);
      assert l in v.version.Keys && m in x.version.Keys;
      SingleOrder(l, v.hlc, m, x.hlc);
      RankIn(s.issued, v);
      RankIn(s.issued, x);
      hide Order, Rank, Beats;
    }
  }

  // ---------------------------------------------------------------------
  // Why the conditions are there
  // ---------------------------------------------------------------------

  lemma {:induction false} TwoSteps(x: Op, y: Op, w: nat)
    ensures var s := Step(EMPTY, x, w);
      && Reached(EMPTY, [x, y][..0], w) == EMPTY && Reached(EMPTY, [x, y][..1], w) == s
      && Reached(EMPTY, [x, y], w) == Step(s, y, w)
  {
    assert [x, y][..1] == [x] && [x][..0] == [] && [x, y][..0] == [];
    assert Reached(EMPTY, [], w) == EMPTY;
    hide Step;
    assert Reached(EMPTY, [x], w) == Step(EMPTY, x, w);
  }

  /** Coordinator a deletes on all three owners. Then coordinator b's write is acknowledged by a
      write quorum, and still a read quorum answers that the document is deleted. */
  lemma {:induction false} DeleteShadowsLaterWrite(a: NodeId, b: NodeId)
    requires a != b
    ensures var owners: set<NodeId> := {1, 2, 3};
      var ops := [Write(a, None, 1, {1, 2, 3}, {1, 2, 3}), Write(b, Some(7), 2, {1, 2}, {1, 2})];
      var s := Reached(EMPTY, ops, 2);
      var rs := [Response(1, Lookup(s.copies, 1)), Response(3, Lookup(s.copies, 3))];
      && PossibleRun(owners, EMPTY, ops, 2) && InTimeRun(EMPTY, ops, 2)
      && s.last == Some(NewRecord(b, Some(7), 2))
      && ReadOf(owners, s, rs) && Outcome(rs, 2).Found? && Outcome(rs, 2).document == None
  {
    hide Step, PossibleRun, InTimeRun, ReadOf, Present, Stale, Resolve, Reached;
    var live, gone := NewRecord(b, Some(7), 2), NewRecord(a, None, 1);
    TwoWrites(a, None, 1, b, Some(7), 2);
    TwoAnswers(1, live, 3, gone);
    ResolveOfTwo(live, gone);
    SingleOrder(b, 2, a, 1);
    hide Order;
  }

  lemma {:induction false} TwoWrites(a: NodeId, x: Option<Doc>, h: Hlc, b: NodeId, y: Option<Doc>, g: Hlc)
    requires a != b && h > 0 && g > 0
    ensures var owners: set<NodeId> := {1, 2, 3};
      var ops := [Write(a, x, h, {1, 2, 3}, {1, 2, 3}), Write(b, y, g, {1, 2}, {1, 2})];
      var s := Reached(EMPTY, ops, 2);
      && PossibleRun(owners, EMPTY, ops, 2) && InTimeRun(EMPTY, ops, 2)
      && s.last == Some(NewRecord(b, y, g))
      && Lookup(s.copies, 1) == Some(NewRecord(b, y, g)) && Lookup(s.copies, 3) == Some(NewRecord(a, x, h))
      && ReadOf(owners, s, [Response(1, Lookup(s.copies, 1)), Response(3, Lookup(s.copies, 3))])
      && ReadOf(owners, s, [Response(3, Lookup(s.copies, 3)), Response(1, Lookup(s.copies, 1))])
  {
    var first, second := Write(a, x, h, {1, 2, 3}, {1, 2, 3}), Write(b, y, g, {1, 2}, {1, 2});
    TwoSteps(first, second, 2);
    hide Reached;
    var s1 := Step(EMPTY, first, 2);
    assert s1.issued == [NewRecord(a, x, h)];
    assert NewRecord(a, x, h).version.Keys == {a} && a in {a};
    assert |{1, 2}| == 2;
    var s2 := Step(s1, second, 2);
    assert s2.last == Some(NewRecord(b, y, g));
    assert s2.copies[1] == NewRecord(b, y, g) && s2.copies[3] == NewRecord(a, x, h);
    hide Step;
  }

  /** Coordinator a writes at clock value 5 on all three owners. Then coordinator b, whose clock is
      slow, writes at clock value 2, and a write quorum acknowledges it. A read quorum still answers
      with the first document, in either order of its answers. */
  lemma {:induction false} SlowClockHidesLaterWrite(a: NodeId, b: NodeId)
    requires a != b
    ensures var owners: set<NodeId> := {1, 2, 3};
      var ops := [Write(a, Some(7), 5, {1, 2, 3}, {1, 2, 3}), Write(b, Some(8), 2, {1, 2}, {1, 2})];
      var s := Reached(EMPTY, ops, 2);
      var rs := [Response(1, Lookup(s.copies, 1)), Response(3, Lookup(s.copies, 3))];
      var sr := [Response(3, Lookup(s.copies, 3)), Response(1, Lookup(s.copies, 1))];
      && PossibleRun(owners, EMPTY, ops, 2) && InTimeRun(EMPTY, ops, 2)
      && s.last == Some(NewRecord(b, Some(8), 2))
      && ReadOf(owners, s, rs) && Outcome(rs, 2).Found? && Outcome(rs, 2).document == Some(7)
      && ReadOf(owners, s, sr) && Outcome(sr, 2).Found? && Outcome(sr, 2).document == Some(7)
  {
    hide Step, PossibleRun, InTimeRun, ReadOf, Present, Stale, Resolve, Reached;
    var fast, slow := NewRecord(a, Some(7), 5), NewRecord(b, Some(8), 2);
    TwoWrites(a, Some(7), 5, b, Some(8), 2);
    TwoAnswers(1, slow, 3, fast);
    TwoAnswers(3, fast, 1, slow);
    ResolveOfTwo(slow, fast);
    ResolveOfTwo(fast, slow);
    SingleOrder(b, 2, a, 5);
    SingleOrder(a, 5, b, 2);
    hide Order;
  }

  lemma {:induction false} ResolveOfTwo(x: VersionedDoc, y: VersionedDoc)
    ensures Resolve([x, y]) == ResolveTwo(x, y)
  {
    hide ResolveTwo;
    assert [x, y][1..] == [y] && [y][1..] == [];
    assert Fold(ResolveTwo(x, y), []) == ResolveTwo(x, y);
  }

  lemma {:induction false} TwoAnswers(m: NodeId, x: VersionedDoc, n: NodeId, y: VersionedDoc)
    ensures Present([Response(m, Some(x)), Response(n, Some(y))]) == [x, y]
  {
    var rs := [Response(m, Some(x)), Response(n, Some(y))];
    assert rs[..1] == [rs[0]] && [rs[0]][..0] == [];
    assert Present([rs[0]]) == [x];
  }

  /** A read repair that lands after a newer write takes the write away again: three owners, two
      writes by one coordinator, each acknowledged by a write quorum, and between them a read that
      sends the first record to the third owner. */
  lemma {:induction false} LateRepairLosesWrite(a: NodeId)
    ensures var owners: set<NodeId> := {1, 2, 3};
      var old1 := NewRecord(a, Some(7), 1);
      var s1 := Step(EMPTY, Write(a, Some(7), 1, {1, 2}, {1, 2}), 2);
      var s2 := Step(s1, Write(a, Some(8), 2, {1, 3}, {1, 3}), 2);
      var s3 := Step(s2, Land(3, old1), 2);
      var first := [Response(2, Lookup(s1.copies, 2)), Response(3, Lookup(s1.copies, 3))];
      var second := [Response(2, Lookup(s3.copies, 2)), Response(3, Lookup(s3.copies, 3))];
      var ops := [Write(a, Some(7), 1, {1, 2}, {1, 2}), Write(a, Some(8), 2, {1, 3}, {1, 3}), Land(3, old1)];
      && PossibleRun(owners, EMPTY, ops, 2) && Reached(EMPTY, ops, 2) == s3
      && ReadOf(owners, s1, first) && Present(first) == [old1] && Stale(first, old1) == [3]
      && !InTime(s2, Land(3, old1))
      && s3.last == Some(NewRecord(a, Some(8), 2)) && s3.issued == [old1, NewRecord(a, Some(8), 2)]
      && ReadOf(owners, s3, second) && Outcome(second, 2).Found? && Outcome(second, 2).document == Some(7)
  {
    hide Step, Possible, InTime, ReadOf, Present, Stale, Resolve, PossibleRun, Reached;
    var old1 := NewRecord(a, Some(7), 1);
    LateStates(a);
    LatePossible(a);
    ThreeSteps({1, 2, 3}, Write(a, Some(7), 1, {1, 2}, {1, 2}), Write(a, Some(8), 2, {1, 3}, {1, 3}), Land(3, old1), 2);
    MissingAnswer(old1);
    TwoAnswers(2, old1, 3, old1);
    ResolveOfTwo(old1, old1);
    TwoGivesOne(old1, old1);
    hide ResolveTwo;
  }

  lemma {:induction false} ThreeSteps(owners: set<NodeId>, x: Op, y: Op, z: Op, w: nat)
    requires Possible(owners, EMPTY, x) && Possible(owners, Step(EMPTY, x, w), y)
    requires Possible(owners, Step(Step(EMPTY, x, w), y, w), z)
    ensures PossibleRun(owners, EMPTY, [x, y, z], w)
    ensures Reached(EMPTY, [x, y, z], w) == Step(Step(Step(EMPTY, x, w), y, w), z, w)
  {
    hide Possible, Step;
    TwoSteps(x, y, w);
    var ops := [x, y, z];
    assert ops[..0] == [] && ops[..1] == [x] == [x, y][..1] && ops[..2] == [x, y];
  }

  lemma {:induction false} LatePossible(a: NodeId)
    ensures var owners: set<NodeId> := {1, 2, 3};
      var first, second := Write(a, Some(7), 1, {1, 2}, {1, 2}), Write(a, Some(8), 2, {1, 3}, {1, 3});
      Possible(owners, EMPTY, first) && Possible(owners, Step(EMPTY, first, 2), second)
  {
    assert Step(EMPTY, Write(a, Some(7), 1, {1, 2}, {1, 2}), 2).issued == [NewRecord(a, Some(7), 1)];
  }

  lemma {:induction false} LateStates(a: NodeId)
    ensures var owners: set<NodeId> := {1, 2, 3};
      var old1 := NewRecord(a, Some(7), 1);
      var s1 := Step(EMPTY, Write(a, Some(7), 1, {1, 2}, {1, 2}), 2);
      var s2 := Step(s1, Write(a, Some(8), 2, {1, 3}, {1, 3}), 2);
      var s3 := Step(s2, Land(3, old1), 2);
      && Lookup(s1.copies, 2) == Some(old1) && Lookup(s1.copies, 3) == None
      && Lookup(s3.copies, 2) == Some(old1) && Lookup(s3.copies, 3) == Some(old1)
      && Possible(owners, s2, Land(3, old1)) && !InTime(s2, Land(3, old1))
      && s3.last == Some(NewRecord(a, Some(8), 2)) && s3.issued == [old1, NewRecord(a, Some(8), 2)]
      && ReadOf(owners, s1, [Response(2, Lookup(s1.copies, 2)), Response(3, Lookup(s1.copies, 3))])
      && ReadOf(owners, s3, [Response(2, Lookup(s3.copies, 2)), Response(3, Lookup(s3.copies, 3))])
  {
    var old1, new2 := NewRecord(a, Some(7), 1), NewRecord(a, Some(8), 2);
    LateWrites(a);
    TwoRanks(old1, new2);
    hide Rank;
  }

  lemma {:induction false} LateWrites(a: NodeId)
    ensures var old1, new2 := NewRecord(a, Some(7), 1), NewRecord(a, Some(8), 2);
      var s1 := State(map[1 := old1, 2 := old1], [old1], Some(old1));
      && Step(EMPTY, Write(a, Some(7), 1, {1, 2}, {1, 2}), 2) == s1
      && Step(s1, Write(a, Some(8), 2, {1, 3}, {1, 3}), 2) ==
           State(map[1 := new2, 2 := old1, 3 := new2], [old1, new2], Some(new2))
  {
    assert |{1, 2}| == 2 && |{1, 3}| == 2;
  }

  lemma {:induction false} TwoRanks(x: VersionedDoc, y: VersionedDoc)
    requires x != y
    ensures Rank([x, y], x) == 1 && Rank([x, y], y) == 2
  {
    assert [x, y] == [x] + [y] && [x] == [] + [x];
    RankNext([], x, x);
    RankNext([x], y, x);
    RankNext([x], y, y);
  }

  lemma {:induction false} MissingAnswer(v: VersionedDoc)
    ensures Present([Response(2, Some(v)), Response(3, None)]) == [v]
    ensures Stale([Response(2, Some(v)), Response(3, None)], v) == [3]
  {
    var rs := [Response(2, Some(v)), Response(3, None)];
    OrderLaws(v.version, v.version, v.version);
    assert !NeedsRepair(rs[0].doc, v) && NeedsRepair(rs[1].doc, v);
    hide Order, NeedsRepair;
    assert rs[..1] == [rs[0]] && [rs[0]][..0] == [];
    assert Present([]) == [] && Stale([], v) == [];
    assert Present([rs[0]]) == [v];
    assert Stale([rs[0]], v) == [];
  }
}
