/**
 What a write that succeeded with the help of hints is worth: before its hints
 are delivered, and after.
 */
module Sloppy {
  import opened Text
  import opened Hlc
  import opened HybridClock
  import opened VectorClock
  import opened Ring
  import opened Resolver
  import opened Replica
  import opened FanOut
  import opened Idempotency
  import opened ReadRepair
  import opened QuorumLink
  import opened CoordinatorRun
  import C = Coordinator
  import H = Handoff
  import Q = QuorumRun

  /** The action is a write or delete that succeeds, with `standIns` keeping
      hints for owners that failed. */
  ghost predicate Succeeds(c: Setup, s: Sys, act: Act, t: Sys, result: WriteResult, standIns: map<NodeId, NodeId>)
    requires act.Put?
  {
    C.Attempted(s.view, t.view, act.up, act.env, c.w, c.local, c.key, act.doc, s.clock, t.clock, act.now,
                C.Written(result), standIns)
  }

  ghost function RecordOf(c: Setup, act: Act, t: Sys): VersionedDoc
    requires act.Put?
  {
    Q.NewRecord(c.local, act.doc, t.clock)
  }

  /** Every owner that a stand-in was counted for has since been handed the record. */
  ghost predicate Delivered(c: Setup, trace: seq<Sys>, acts: seq<Act>, i: nat, j: nat, targets: set<NodeId>,
          v: VersionedDoc)
    requires |trace| == |acts| + 1 && j <= |acts|
  {
    forall n :: n in targets ==> exists d :: i < d < j && HandsOver(c, trace[d], acts[d], n, v)
  }

  // ---------------------------------------------------------------------
  // Before
  // ---------------------------------------------------------------------

  /** A write with a clock value is held by exactly the owners it reached. */
  lemma {:induction false} PutCover(c: Setup, s: Sys, act: Act, t: Sys)
    requires act.Put? && Inv(c, s) && Next(c, s, act, t) && Ticked(s.clock, act.now).Stamped?
    ensures var v := RecordOf(c, act, t);
      && v in t.issued && Q.Cover(Abs(c, t), v) == C.Reached(act.env, act.up)
      && Members(C.Acked(act.env, act.up)) <= C.Reached(act.env, act.up) <= c.owners
  {
    hide C.Attempted, C.Acked, C.Possible, C.Reached, CopiesOf, Members, Ticked, Q.Possible, Q.Cover, Q.Issued, Q.Rank;
    var out, standIns :| C.Attempted(s.view, t.view, act.up, act.env, c.w, c.local, c.key, act.doc, s.clock, t.clock,
                                     act.now, out, standIns);
    WriteIsStep(s.view, t.view, act.up, act.env, c.w, c.local, c.key, act.doc, s.clock, t.clock, act.now, out,
                standIns, Abs(c, s));
    var op := Q.Write(c.local, act.doc, t.clock, C.Reached(act.env, act.up), Members(C.Acked(act.env, act.up)));
    Q.NewCover(c.owners, c.w, Abs(c, s), op);
    ReachedFacts(act.env, act.up);
    hide Q.Step;
    assert Abs(c, t) == Q.Step(Abs(c, s), op, c.w);
  }

  /** Right after a write or delete, every read of r owners is sure to find it exactly when the
      owners it reached and r together exceed all owners. Hints do not count. */
  lemma {:induction false} SeenExactly(c: Setup, s: Sys, act: Act, t: Sys)
    requires act.Put? && Inv(c, s) && Next(c, s, act, t) && Ticked(s.clock, act.now).Stamped? && c.r <= |c.owners|
    ensures (forall rs :: Q.ReadOf(c.owners, Abs(c, t), rs) && |rs| >= c.r ==>
              Q.Fresh(Abs(c, t), RecordOf(c, act, t), rs))
       <==> |C.Reached(act.env, act.up)| + c.r > |c.owners|
  {
    hide Next, CopiesOf, Q.Cover, Q.ReadOf, Q.Fresh, Q.CopiesOrderly, Q.Issued, Q.Rank, Q.Rising, C.Reached, Ticked;
    NextKeeps(c, s, act, t);
    PutCover(c, s, act, t);
    LocalOrderly(c, Abs(c, t));
    Q.FreshExactly(c.owners, Abs(c, t), RecordOf(c, act, t), c.r);
  }

  lemma {:induction false} PairsFull(fallbacks: seq<NodeId>, failed: seq<NodeId>, m: nat, good: set<NodeId>)
    requires m <= |fallbacks| && m <= |failed| && Distinct(fallbacks) && forall i :: 0 <= i < m ==> fallbacks[i] in good
    ensures |Pairs(fallbacks, failed, m, good)| == m
  {
    if m > 0 {
      PairsFull(fallbacks, failed, m - 1, good);
      if fallbacks[m - 1] in Pairs(fallbacks, failed, m - 1, good) {
        var i := PairsFacts(fallbacks, failed, m - 1, good, fallbacks[m - 1]);
      }
    }
  }

  lemma {:induction false} PairsSize(fallbacks: seq<NodeId>, failed: seq<NodeId>, m: nat, good: set<NodeId>)
    requires m <= |fallbacks| && m <= |failed|
    ensures |Pairs(fallbacks, failed, m, good)| <= m
  {
    if m > 0 { PairsSize(fallbacks, failed, m - 1, good); }
  }

  /** Every node that is not an owner keeps and acknowledges a hint. */
  ghost predicate AllAnswer(env: C.Env, up: set<NodeId>) {
    forall x :: x in Fallbacks(env.all, env.owners) ==> x in Ackers(up, env.hintFaults)
  }

  /** How many hints are asked for: none when W owners acknowledged; otherwise at most W, at most one for each
      failed owner and at most one on each other node, and as many as that when all of these nodes answer. */
  lemma {:induction false} HintsAskedFor(env: C.Env, up: set<NodeId>, w: nat)
    requires C.Possible(env)
    ensures |C.Acked(env, up)| >= w ==> C.Chosen(env, up, w) == map[]
    ensures var n, f, o := |C.Chosen(env, up, w)|, |C.Failed(env, up)|, |Fallbacks(env.all, env.owners)|;
      && n <= w && n <= f && n <= o
      && (|C.Acked(env, up)| < w && AllAnswer(env, up) ==> n == w || n == f || n == o)
  {
    var fallbacks, failed := Fallbacks(env.all, env.owners), C.Failed(env, up);
    var m := Fewer(Fewer(|failed|, w), |fallbacks|);
    FallbacksFacts(env.all, env.owners);
    hide Fallbacks, C.Failed, C.Acked, Pairs;
    PairsSize(fallbacks, failed, m, Ackers(up, env.hintFaults));
    if AllAnswer(env, up) {
      assert forall i :: 0 <= i < m ==> fallbacks[i] in fallbacks;
      PairsFull(fallbacks, failed, m, Ackers(up, env.hintFaults));
    }
  }

  lemma {:induction false} SameCount(a: seq<NodeId>, b: seq<NodeId>)
    requires Distinct(a) && Distinct(b) && forall n :: n in a <==> n in b
    ensures |a| == |b|
  {
    DistinctCount(a);
    DistinctCount(b);
    MembersIn(a);
    MembersIn(b);
    hide Members;
    assert Members(a) == Members(b);
  }

  lemma {:induction false} NoneSelected(s: seq<NodeId>, keep: set<NodeId>)
    requires forall n :: n in s ==> n !in keep
    ensures Select(s, keep) == []
    decreases |s|
  {
    if s != [] {
      assert s[|s| - 1] in s;
      NoneSelected(s[..|s| - 1], keep);
    }
  }

  /** Nobody answers among the owners, and no task panics: all of them failed. */
  lemma {:induction false} NoneAcked(env: C.Env, up: set<NodeId>)
    requires C.Possible(env) && up !! Members(env.owners) && env.panics == {}
    ensures C.Acked(env, up) == [] && |C.Failed(env, up)| == |env.owners| && C.Reached(env, up) == {}
  {
    hide Select;
    SelectFacts(env.order, Members(env.order) - Ackers(up, env.faults) - env.panics);
    MembersIn(env.order);
    MembersIn(env.owners);
    hide Members;
    NoneSelected(env.order, Ackers(up, env.faults) - env.panics);
    SameCount(C.Failed(env, up), env.owners);
  }

  /** With no owner in reach, a write still succeeds when w other nodes keep hints for it. */
  lemma {:induction false} HintsAloneSucceed(view: View, env: C.Env, up: set<NodeId>, w: nat, req: WriteRequest)
    returns (after: View)
    requires C.Possible(env) && up <= view.Keys && up !! Members(env.owners) && env.panics == {} && !req.isHint
    requires 0 < w <= |env.owners| && w <= |Fallbacks(env.all, env.owners)|
    requires forall f :: f in Fallbacks(env.all, env.owners) ==> f in Ackers(up, env.hintFaults)
    ensures C.Replicated(view, after, up, env, w, req, C.Written(WriteResult(req.version, 0, w)),
                         C.Chosen(env, up, w))
    ensures C.Reached(env, up) == {}
  {
    var fallbacks, failed := Fallbacks(env.all, env.owners), C.Failed(env, up);
    var takers, good := Takers(up, env.hintFaults), Ackers(up, env.hintFaults);
    NoneAcked(env, up);
    FallbacksFacts(env.all, env.owners);
    C.SplitFacts(env, up);
    hide Fallbacks, C.Failed, C.Acked, C.Reached, Select;
    var m := Fewer(Fewer(|failed|, w), |fallbacks|);
    assert m == w;
    var spread := Spread(view, C.Reached(env, up), req);
    assert forall i :: 0 <= i < m ==> fallbacks[i] in fallbacks;
    PairsFull(fallbacks, failed, m, good);
    var standIns := Pairs(fallbacks, failed, m, good);
    StandInsHold(spread, fallbacks, failed, env.owners, m, takers, good, req);
    C.HintsDurable(view, env, up, m, req, standIns);
    after := HintsAt(spread, fallbacks, failed, m, takers, req);
    hide C.Durable, C.DocsSpread, HintsAt, Pairs;
    C.Judged(view, after, up, env, w, req, C.Written(WriteResult(req.version, 0, w)), standIns);
  }

  function AlwaysClean(n: NodeId): Fault { Clean }

  /** Five nodes, of which the first three own the key, with clean links. */
  function Five(): C.Env { C.Env([1, 2, 3], [1, 2, 3], [1, 2, 3, 4, 5], AlwaysClean, {}, AlwaysClean) }

  function Blank(nodes: set<NodeId>): View { map n | n in nodes :: Node(map[], map[]) }

  lemma {:induction false} FiveNodes()
    ensures C.Possible(Five()) && Members(Five().owners) == {1, 2, 3}
    ensures |Fallbacks(Five().all, Five().owners)| == 2
    ensures forall f :: f in Fallbacks(Five().all, Five().owners) ==> f in Ackers({4, 5}, AlwaysClean)
  {
    MembersIn([1, 2, 3]);
    hide Members, Fallbacks;
    assert Members([1, 2, 3]) == {1, 2, 3};
    FallbacksFacts(Five().all, Five().owners);
    SameCount(Fallbacks(Five().all, Five().owners), [4, 5]);
  }

  /** A success that no read sees: three owners out of reach, two other nodes that keep hints, and
      w = r = 2. The write is reported as done, and afterwards every read of the owners, all three
      included, finds nothing. */
  lemma {:induction false} SuccessUnseen(local: NodeId, key: ObjectKey)
    returns (t: Sys, result: WriteResult, standIns: map<NodeId, NodeId>)
    ensures var c := Setup(local, key, {1, 2, 3}, 2, 2);
      var s := Sys(Blank({1, 2, 3, 4, 5}), 0, [], None);
      var act := Act.Put(Some(7), Five(), {4, 5}, 1);
      && Starting(c, s) && Next(c, s, act, t) && Succeeds(c, s, act, t, result, standIns)
      && forall rs :: Q.ReadOf(c.owners, Abs(c, t), rs) ==> Present(rs) == []
  {
    hide C.Replicated, C.Chosen, C.Acked, C.Reached, C.Possible, CopiesOf, Members, Fallbacks, Ackers, Five;
    hide Q.ReadOf, Present;
    var c := Setup(local, key, {1, 2, 3}, 2, 2);
    var view, env, up: set<NodeId> := Blank({1, 2, 3, 4, 5}), Five(), {4, 5};
    FiveNodes();
    FiveClean();
    var hlc := Ticked(0, 1).hlc;
    var req := C.Request(local, key, Some(7), hlc);
    var after := HintsAloneSucceed(view, env, up, 2, req);
    standIns, result := C.Chosen(env, up, 2), WriteResult(req.version, 0, 2);
    t := Sys(after, hlc, [Q.NewRecord(local, Some(7), hlc)], None);
    NoneAcked(env, up);
    NothingCopied(view, after, up, env, c.key, c.owners, c.w, req, C.Written(result), standIns);
    var s, act := Sys(view, 0, [], None), Act.Put(Some(7), env, up, 1);
    assert Succeeds(c, s, act, t, result, standIns);
    assert PutNext(c, s, Some(7), env, up, 1, t);
    forall rs | Q.ReadOf(c.owners, Abs(c, t), rs) ensures Present(rs) == [] { NothingPresent(c.owners, Abs(c, t), rs); }
  }

  lemma FiveClean()
    ensures Five().hintFaults == AlwaysClean && Five().panics == {} && |Five().owners| == 3
    ensures Ticked(0, 1).Stamped? && Ticked(0, 1).hlc > 0
  {
  }

  lemma {:induction false} NothingCopied(before: View, after: View, up: set<NodeId>, env: C.Env, key: ObjectKey,
          owners: set<NodeId>, w: nat, req: WriteRequest, out: C.WriteOutcome, standIns: map<NodeId, NodeId>)
    requires C.Replicated(before, after, up, env, w, req, out, standIns) && C.Reached(env, up) == {}
    requires forall n :: n in before ==> before[n].docs == map[]
    ensures CopiesOf(before, key, owners) == map[] == CopiesOf(after, key, owners)
  {
    hide C.Durable, C.Reached;
  }

  lemma {:induction false} NothingPresent(owners: set<NodeId>, s: Q.State, rs: seq<Response>)
    requires s.copies == map[] && Q.ReadOf(owners, s, rs)
    ensures Present(rs) == []
  {
    hide Present;
    if Present(rs) != [] {
      assert Present(rs)[0] in Present(rs);
      var i := FromPresent(rs, Present(rs)[0]);
    }
  }

  // ---------------------------------------------------------------------
  // After
  // ---------------------------------------------------------------------

  lemma {:induction false} HandedOver(c: Setup, s: Sys, act: Act, t: Sys, n: NodeId, v: VersionedDoc)
    requires Inv(c, s) && Next(c, s, act, t) && HandsOver(c, s, act, n, v) && n in c.owners
    ensures v in t.issued && n in Q.Cover(Abs(c, t), v)
  {
    hide CopiesOf, H.ViewAfter, H.Handled, H.Target, Q.Issued, Q.Rank, Q.Rising;
    DeliveredCopies(c, s, act, t);
    LandsInTime(c, s, n, v);
  }

  lemma {:induction false} ValuesWithout(m: map<NodeId, NodeId>, f: NodeId)
    requires Injective(m) && f in m
    ensures var rest := m - {f};
      m.Values == rest.Values + {m[f]} && m[f] !in rest.Values && |rest| == |m| - 1
  {
    var rest := m - {f};
    assert rest.Keys == m.Keys - {f};
    assert forall g :: g in rest ==> rest[g] == m[g] && rest[g] != m[f];
    forall x | x in m.Values ensures x in rest.Values + {m[f]} {
      var g :| g in m && m[g] == x;
      if g != f { assert rest[g] == x; }
    }
  }

  lemma {:induction false} ValueCount(m: map<NodeId, NodeId>)
    requires Injective(m)
    ensures |m.Values| == |m|
    decreases m.Keys
  {
    if m == map[] {
      assert m.Values == {};
    } else {
      var f :| f in m;
      var rest := m - {f};
      assert rest.Keys == m.Keys - {f};
      ValueCount(rest);
      ValuesWithout(m, f);
    }
  }

  /** The acknowledging owners and those that stand-ins were counted for are at least w. */
  lemma {:induction false} CountedOwners(c: Setup, s: Sys, act: Act, t: Sys, result: WriteResult,
          standIns: map<NodeId, NodeId>)
    requires act.Put? && Next(c, s, act, t) && Succeeds(c, s, act, t, result, standIns)
    ensures Ticked(s.clock, act.now).Stamped? && standIns.Values <= c.owners
    ensures |Members(C.Acked(act.env, act.up)) + standIns.Values| >= c.w
  {
    hide C.DocsSpread, C.Chosen, C.Acked, C.Failed, C.Possible, Ticked, KeepsFor, CopiesOf, C.OwnersHold;
    var acked := C.Acked(act.env, act.up);
    ValueCount(standIns);
    ReachedFacts(act.env, act.up);
    MembersIn(acked);
    MembersIn(act.env.owners);
    hide Members;
    assert Members(acked) !! standIns.Values;
    assert |Members(acked) + standIns.Values| == |acked| + |standIns|;
  }

  lemma RunNext(c: Setup, trace: seq<Sys>, acts: seq<Act>, i: nat)
    requires Run(c, trace, acts) && i < |acts|
    ensures |trace| == |acts| + 1 && Next(c, trace[i], acts[i], trace[i + 1])
  {
    hide Next, Starting;
  }

  /** From the moment a record is handed over, its target holds it or a later one. */
  lemma {:induction false} HandedOnce(c: Setup, trace: seq<Sys>, acts: seq<Act>, d: nat, j: nat, n: NodeId,
          v: VersionedDoc)
    requires Run(c, trace, acts) && d < j <= |acts| && HandsOver(c, trace[d], acts[d], n, v) && n in c.owners
    ensures v in trace[j].issued && n in Q.Cover(Abs(c, trace[j]), v)
  {
    hide Run, Next, Inv, CopiesOf, Q.Cover, HandsOver;
    RunNext(c, trace, acts, d);
    RunKeeps(c, trace, acts, d);
    HandedOver(c, trace[d], acts[d], trace[d + 1], n, v);
    RunGrows(c, trace, acts, d + 1, j);
  }

  /** Once the hints of a successful write are delivered in time, w owners hold it or a later one. */
  lemma {:induction false} HandoffFillsQuorum(c: Setup, trace: seq<Sys>, acts: seq<Act>, i: nat, j: nat,
          result: WriteResult, standIns: map<NodeId, NodeId>)
    requires Run(c, trace, acts) && i < j <= |acts|
    requires acts[i].Put? && Succeeds(c, trace[i], acts[i], trace[i + 1], result, standIns)
    requires Delivered(c, trace, acts, i, j, standIns.Values, RecordOf(c, acts[i], trace[i + 1]))
    ensures var v := RecordOf(c, acts[i], trace[i + 1]);
      v in trace[j].issued && |Q.Cover(Abs(c, trace[j]), v)| >= c.w
  {
    hide Run, Next, Inv, Succeeds, CopiesOf, Q.Cover, C.Acked, C.Reached, Members, HandsOver, Ticked;
    RunNext(c, trace, acts, i);
    var v := RecordOf(c, acts[i], trace[i + 1]);
    var acked := Members(C.Acked(acts[i].env, acts[i].up));
    CountedOwners(c, trace[i], acts[i], trace[i + 1], result, standIns);
    RunKeeps(c, trace, acts, i);
    PutCover(c, trace[i], acts[i], trace[i + 1]);
    RunGrows(c, trace, acts, i + 1, j);
    assert acked <= Q.Cover(Abs(c, trace[j]), v) by { assert v in Abs(c, trace[i + 1]).issued; }
    hide Q.Grows;
    forall n | n in standIns.Values ensures n in Q.Cover(Abs(c, trace[j]), v) {
      var d :| i < d < j && HandsOver(c, trace[d], acts[d], n, v);
      HandedOnce(c, trace, acts, d, j, n, v);
    }
    Smaller(acked + standIns.Values, Q.Cover(Abs(c, trace[j]), v));
  }

  /** Hinted handoff completes a sloppy quorum. In every run of one coordinator with r + w > n, once
      the hints of a successful write or delete have been delivered in time, every later read that
      hears from r owners returns its version or a causally later one, and exactly its document (none
      for a delete) if the versions are equal. */
  lemma {:induction false} HandoffCompletesQuorum(c: Setup, trace: seq<Sys>, acts: seq<Act>, i: nat, j: nat,
          result: WriteResult, standIns: map<NodeId, NodeId>)
    requires Run(c, trace, acts) && i < j < |acts|
    requires acts[i].Put? && Succeeds(c, trace[i], acts[i], trace[i + 1], result, standIns)
    requires Delivered(c, trace, acts, i, j, standIns.Values, RecordOf(c, acts[i], trace[i + 1]))
    requires acts[j].Get? && Environment(c, trace[j], acts[j].env, acts[j].up)
    requires c.r + c.w > |c.owners| && |Heard(c, trace[j], acts[j].env, acts[j].up)| >= c.r
    ensures Present(Heard(c, trace[j], acts[j].env, acts[j].up)) != []
    ensures Returns(c, Heard(c, trace[j], acts[j].env, acts[j].up), RecordOf(c, acts[i], trace[i + 1]))
  {
    hide Next, Starting, Succeeds, Delivered, Environment, Heard, Present, Returns, CopiesOf, Q.Cover, Inv;
    HandoffFillsQuorum(c, trace, acts, i, j, result, standIns);
    RunKeeps(c, trace, acts, j);
    ReadCovers(c, trace[j], acts[j].env, acts[j].up, RecordOf(c, acts[i], trace[i + 1]));
  }

  // ---------------------------------------------------------------------
  // Once the hints are gone
  // ---------------------------------------------------------------------

  /** The node `f` still keeps the hint for `target`. */
  ghost predicate Waiting(c: Setup, s: Sys, f: NodeId, target: NodeId, v: VersionedDoc) {
    f in s.view && Lookup(s.view[f].hints, MakeHintKey(target, v.hlc, c.key.objectId)) == Some(Hint(c.key, v))
  }

  /** A pass finds the hint too old, or something other than a pass takes it away. */
  ghost predicate Spoils(c: Setup, s: Sys, act: Act, t: Sys, f: NodeId, target: NodeId, v: VersionedDoc) {
    && Waiting(c, s, f, target, v)
    && if act.Deliver?
       then act.holder == f && act.hint == MakeHintKey(target, v.hlc, c.key.objectId) &&
            act.now > Physical(v.hlc) + 86_400_000
       else !Waiting(c, t, f, target, v)
  }

  /** A hint that goes away unspoilt is handed over. */
  lemma {:induction false} WaitingStep(c: Setup, s: Sys, act: Act, t: Sys, f: NodeId, target: NodeId, v: VersionedDoc)
    requires Next(c, s, act, t) && Waiting(c, s, f, target, v) && !Spoils(c, s, act, t, f, target, v)
    ensures Waiting(c, t, f, target, v) || HandsOver(c, s, act, target, v)
  {
    hide PutNext, GetNext, InTime, MakeHintKey, ParseHintKey, H.Expired, Record;
    HintKeyRoundTrip(target, v.hlc, c.key.objectId);
    if act.Deliver? {
      var h := s.view[act.holder].hints[act.hint];
      if act.holder == f && act.hint == MakeHintKey(target, v.hlc, c.key.objectId) {
        H.DayOld(act.hint, h, act.now, act.up, act.fault);
        assert H.Deliverable(act.hint, h, act.now);
      }
    }
  }

  lemma {:induction false} HandedOrWaiting(c: Setup, trace: seq<Sys>, acts: seq<Act>, i: nat, j: nat, f: NodeId,
          target: NodeId, v: VersionedDoc)
    requires Run(c, trace, acts) && i < j <= |acts| && Waiting(c, trace[i + 1], f, target, v)
    requires forall d :: i < d < j ==> !Spoils(c, trace[d], acts[d], trace[d + 1], f, target, v)
    ensures Waiting(c, trace[j], f, target, v) || exists d :: i < d < j && HandsOver(c, trace[d], acts[d], target, v)
    decreases j
  {
    hide Run, Next, Waiting, Spoils, HandsOver;
    RunNext(c, trace, acts, j - 1);
    if i + 1 < j {
      HandedOrWaiting(c, trace, acts, i, j - 1, f, target, v);
      if Waiting(c, trace[j - 1], f, target, v) {
        WaitingStep(c, trace[j - 1], acts[j - 1], trace[j], f, target, v);
      }
    }
  }

  /** None of the counted stand-ins keeps its hint any more, and none of the hints was spoilt. */
  ghost predicate AllGone(c: Setup, trace: seq<Sys>, acts: seq<Act>, i: nat, j: nat, standIns: map<NodeId, NodeId>,
          v: VersionedDoc)
    requires |trace| == |acts| + 1 && j <= |acts|
  {
    forall f :: f in standIns ==>
      && !Waiting(c, trace[j], f, standIns[f], v)
      && forall d :: i < d < j ==> !Spoils(c, trace[d], acts[d], trace[d + 1], f, standIns[f], v)
  }

  lemma {:induction false} SuccessWaits(c: Setup, s: Sys, act: Act, t: Sys, result: WriteResult,
          standIns: map<NodeId, NodeId>, f: NodeId)
    requires act.Put? && Succeeds(c, s, act, t, result, standIns) && f in standIns
    ensures Waiting(c, t, f, standIns[f], RecordOf(c, act, t))
  {
    hide C.DocsSpread, C.Chosen, C.Acked, C.Failed, C.OwnersHold, Ticked, MakeHintKey, Injective, C.Reached;
    assert KeepsFor(t.view, f, standIns[f], C.Request(c.local, c.key, act.doc, t.clock));
  }

  /** Hints that are gone, and were not spoilt, have been handed over. */
  lemma {:induction false} GoneIsDelivered(c: Setup, trace: seq<Sys>, acts: seq<Act>, i: nat, j: nat,
          result: WriteResult, standIns: map<NodeId, NodeId>)
    requires Run(c, trace, acts) && i < j <= |acts|
    requires acts[i].Put? && Succeeds(c, trace[i], acts[i], trace[i + 1], result, standIns)
    requires AllGone(c, trace, acts, i, j, standIns, RecordOf(c, acts[i], trace[i + 1]))
    ensures Delivered(c, trace, acts, i, j, standIns.Values, RecordOf(c, acts[i], trace[i + 1]))
  {
    hide Run, Next, Succeeds, Waiting, Spoils, HandsOver;
    RunNext(c, trace, acts, i);
    var v := RecordOf(c, acts[i], trace[i + 1]);
    forall n | n in standIns.Values ensures exists d :: i < d < j && HandsOver(c, trace[d], acts[d], n, v) {
      var f :| f in standIns && standIns[f] == n;
      SuccessWaits(c, trace[i], acts[i], trace[i + 1], result, standIns, f);
      HandedOrWaiting(c, trace, acts, i, j, f, n, v);
    }
  }

  /** So it is enough to look at the stand-ins: when none of them keeps its hint any more, and no hint
      was too old when a pass came to it or lost in another way, the quorum is complete. */
  lemma {:induction false} GoneCompletesQuorum(c: Setup, trace: seq<Sys>, acts: seq<Act>, i: nat, j: nat,
          result: WriteResult, standIns: map<NodeId, NodeId>)
    requires Run(c, trace, acts) && i < j < |acts|
    requires acts[i].Put? && Succeeds(c, trace[i], acts[i], trace[i + 1], result, standIns)
    requires AllGone(c, trace, acts, i, j, standIns, RecordOf(c, acts[i], trace[i + 1]))
    requires acts[j].Get? && Environment(c, trace[j], acts[j].env, acts[j].up)
    requires c.r + c.w > |c.owners| && |Heard(c, trace[j], acts[j].env, acts[j].up)| >= c.r
    ensures Present(Heard(c, trace[j], acts[j].env, acts[j].up)) != []
    ensures Returns(c, Heard(c, trace[j], acts[j].env, acts[j].up), RecordOf(c, acts[i], trace[i + 1]))
  {
    hide Run, Succeeds, Delivered, AllGone, Environment, Heard, Present, Returns;
    GoneIsDelivered(c, trace, acts, i, j, result, standIns);
    HandoffCompletesQuorum(c, trace, acts, i, j, result, standIns);
  }
}
