/**
 The life of a hint over every sequence of stores and delivery passes on the
 node that holds it.
 */
module HintRun {
  import opened Bytes
  import opened Text
  import opened Hlc
  import opened HybridClock
  import opened Replica
  import opened Handoff

  /** The hints on the holder, and what every node of the cluster ever accepted. */
  datatype Holding = Holding(hints: Hints, logs: Logs)

  /** The holder stores a hint; or it makes a pass in which it gets through the hints in `seen`; or
      nodes accept requests that do not come from the holder. */
  datatype Act =
    | Keep(target: NodeId, req: WriteRequest)
    | Pass(now: nat, up: set<NodeId>, faults: Buf -> Fault, seen: set<Buf>)
    | Elsewhere

  function KeyOf(target: NodeId, req: WriteRequest): Buf { MakeHintKey(target, req.hlc, req.key.objectId) }

  function EntryOf(req: WriteRequest): HintEntry { Hint(req.key, Record(req)) }

  function Kept(hints: Hints, target: NodeId, req: WriteRequest): Hints { hints[KeyOf(target, req) := EntryOf(req)] }

  ghost predicate Grown(was: Logs, logs: Logs) {
    logs.Keys == was.Keys && forall n :: n in was ==> was[n] <= logs[n]
  }

  ghost predicate Next(s: Holding, act: Act, t: Holding) {
    match act
    case Keep(target, req) => t == s.(hints := Kept(s.hints, target, req))
    case Pass(now, up, faults, seen) =>
      up <= s.logs.Keys && seen <= s.hints.Keys && Passed(s.hints, s.logs, now, up, faults, seen, t.hints, t.logs)
    case Elsewhere => t.hints == s.hints && Grown(s.logs, t.logs)
  }

  ghost predicate Run(trace: seq<Holding>, acts: seq<Act>) {
    |trace| == |acts| + 1 && forall i :: 0 <= i < |acts| ==> Next(trace[i], acts[i], trace[i + 1])
  }

  predicate Holds(s: Holding, target: NodeId, req: WriteRequest) {
    Lookup(s.hints, KeyOf(target, req)) == Some(EntryOf(req))
  }

  /** Since the state `s`, the target has accepted the key, document, version and clock value of the
      request, as a tombstone if it is a delete. */
  ghost predicate Accepted(s: Holding, t: Holding, target: NodeId, req: WriteRequest) {
    && target in s.logs && target in t.logs && s.logs[target] <= t.logs[target]
    && (req.key, Record(req)) in t.logs[target][|s.logs[target]|..]
  }

  /** A different hint is stored under the same key. */
  predicate Overwrites(act: Act, target: NodeId, req: WriteRequest) {
    && act.Keep? && act.target == target
    && act.req.hlc == req.hlc && act.req.key.objectId == req.key.objectId && EntryOf(act.req) != EntryOf(req)
  }

  /** The pass gets to the hint when it is more than 24 hours old. */
  predicate Lapses(act: Act, target: NodeId, req: WriteRequest) {
    act.Pass? && KeyOf(target, req) in act.seen && act.now > Physical(req.hlc) + 86_400_000
  }

  /** The pass gets to the hint and its target answers. */
  predicate Answers(act: Act, target: NodeId, req: WriteRequest) {
    && act.Pass? && KeyOf(target, req) in act.seen && act.now <= Physical(req.hlc) + 86_400_000
    && target in act.up && act.faults(KeyOf(target, req)).Clean?
  }

  lemma {:induction false} DeliveryOf(req: WriteRequest)
    ensures Delivery(EntryOf(req)) == (req.key, Record(req))
  {
  }

  lemma {:induction false} KeepStep(s: Holding, act: Act, t: Holding, target: NodeId, req: WriteRequest)
    requires act.Keep? && Next(s, act, t) && Holds(s, target, req)
    ensures Holds(t, target, req) <==> !Overwrites(act, target, req)
  {
    hide MakeHintKey, Record;
    if KeyOf(act.target, act.req) == KeyOf(target, req) {
      HintKeyInjective(act.target, act.req.hlc, act.req.key.objectId, target, req.hlc, req.key.objectId);
    }
  }

  lemma {:induction false} PassStep(s: Holding, act: Act, t: Holding, target: NodeId, req: WriteRequest)
    requires act.Pass? && Next(s, act, t) && Holds(s, target, req)
    ensures Holds(t, target, req) <==> !Lapses(act, target, req) && !Answers(act, target, req)
    ensures Answers(act, target, req) ==> Accepted(s, t, target, req)
  {
    hide MakeHintKey, ParseHintKey, Expired, Record, AllGrow, Delivery;
    var k := KeyOf(target, req);
    HintKeyRoundTrip(target, req.hlc, req.key.objectId);
    DeliveryOf(req);
    DayOld(k, s.hints[k], act.now, act.up, act.faults(k));
    assert Deliverable(k, s.hints[k], act.now) <==> !Expired(act.now, req.hlc);
    assert k in Acknowledged(s.hints, act.now, act.up, act.faults) * act.seen <==> Answers(act, target, req);
    if Answers(act, target, req) {
      assert Landed(s.logs, t.logs, k, s.hints[k]);
    }
  }

  predicate Removes(act: Act, target: NodeId, req: WriteRequest) {
    Lapses(act, target, req) || Answers(act, target, req) || Overwrites(act, target, req)
  }

  /** A step takes a hint away exactly when a pass gets to it and finds it too old or hears from its
      target, or when a different hint is stored over it; and its target answers only after it has
      accepted it. */
  lemma {:induction false} StepKeeps(s: Holding, act: Act, t: Holding, target: NodeId, req: WriteRequest)
    requires Next(s, act, t) && Holds(s, target, req)
    ensures Holds(t, target, req) <==> !Removes(act, target, req)
    ensures Answers(act, target, req) ==> Accepted(s, t, target, req)
  {
    if act.Keep? {
      KeepStep(s, act, t, target, req);
    } else if act.Pass? {
      PassStep(s, act, t, target, req);
    }
  }

  lemma {:induction false} StepGrows(s: Holding, act: Act, t: Holding)
    requires Next(s, act, t)
    ensures Grown(s.logs, t.logs)
  {
    if act.Pass? {
      assert forall n :: n in t.logs ==> Growth(s.hints, act.now, n, s.logs[n], t.logs[n]);
    }
  }

  lemma {:induction false} RunGrows(trace: seq<Holding>, acts: seq<Act>, i: nat, j: nat)
    requires Run(trace, acts) && i <= j <= |acts|
    ensures Grown(trace[i].logs, trace[j].logs)
    decreases j
  {
    if i < j {
      RunGrows(trace, acts, i, j - 1);
      StepGrows(trace[j - 1], acts[j - 1], trace[j]);
    }
  }

  lemma {:induction false} AcceptedLater(s: Holding, t: Holding, u: Holding, target: NodeId, req: WriteRequest)
    requires Accepted(s, t, target, req) && Grown(t.logs, u.logs)
    ensures Accepted(s, u, target, req)
  {
    hide Record;
    var e := (req.key, Record(req));
    var a, b, c := s.logs[target], t.logs[target], u.logs[target];
    var i :| 0 <= i < |b[|a|..]| && b[|a|..][i] == e;
    assert c[|a|..][i] == e;
  }

  lemma {:induction false} AcceptedSince(s: Holding, t: Holding, u: Holding, target: NodeId, req: WriteRequest)
    requires Grown(s.logs, t.logs) && Accepted(t, u, target, req)
    ensures Accepted(s, u, target, req)
  {
    hide Record;
    var e := (req.key, Record(req));
    var a, b, c := s.logs[target], t.logs[target], u.logs[target];
    var i :| 0 <= i < |c[|b|..]| && c[|b|..][i] == e;
    assert c[|a|..][|b| - |a| + i] == e;
  }

  ghost predicate Lapsed(trace: seq<Holding>, acts: seq<Act>, target: NodeId, req: WriteRequest)
    requires |trace| == |acts| + 1
  {
    exists j :: 0 <= j < |acts| && Lapses(acts[j], target, req) && Holds(trace[j], target, req)
  }

  ghost predicate Overwritten(trace: seq<Holding>, acts: seq<Act>, target: NodeId, req: WriteRequest)
    requires |trace| == |acts| + 1
  {
    exists j :: 0 <= j < |acts| && Overwrites(acts[j], target, req) && Holds(trace[j], target, req)
  }

  /** Over any stores, passes, failures and other traffic: a hint that is held at the start is held at
      the end; or its target has accepted the same key, document, version and clock value since; or
      some pass found it, unchanged, more than 24 hours old; or a different hint with the same
      target, clock value and object id was stored over it. */
  lemma {:induction false} NoLostHint(trace: seq<Holding>, acts: seq<Act>, target: NodeId, req: WriteRequest)
    requires Run(trace, acts) && Holds(trace[0], target, req)
    ensures Holds(trace[|acts|], target, req) || Accepted(trace[0], trace[|acts|], target, req) ||
      Lapsed(trace, acts, target, req) || Overwritten(trace, acts, target, req)
    decreases |acts|
  {
    hide Holds, Lapses, Answers, Overwrites, Next, Accepted, Grown;
    if acts != [] {
      var m := |acts| - 1;
      var some, before := acts[..m], trace[..m + 1];
      assert forall i :: 0 <= i < m ==> some[i] == acts[i];
      assert forall i :: 0 <= i <= m ==> before[i] == trace[i];
      NoLostHint(before, some, target, req);
      RunGrows(trace, acts, 0, m);
      StepGrows(trace[m], acts[m], trace[m + 1]);
      if Holds(trace[m], target, req) {
        StepKeeps(trace[m], acts[m], trace[m + 1], target, req);
        if Accepted(trace[m], trace[m + 1], target, req) {
          AcceptedSince(trace[0], trace[m], trace[m + 1], target, req);
        }
      } else if Accepted(trace[0], trace[m], target, req) {
        AcceptedLater(trace[0], trace[m], trace[m + 1], target, req);
      } else if Lapsed(before, some, target, req) {
        var j :| 0 <= j < m && Lapses(some[j], target, req) && Holds(before[j], target, req);
        assert Lapses(acts[j], target, req) && Holds(trace[j], target, req);
      } else {
        var j :| 0 <= j < m && Overwrites(some[j], target, req) && Holds(before[j], target, req);
        assert Overwrites(acts[j], target, req) && Holds(trace[j], target, req);
      }
    }
  }

  /** A hint is held at every moment of a run exactly when no step is one that removes it. */
  lemma {:induction false} UndeliveredStays(trace: seq<Holding>, acts: seq<Act>, target: NodeId, req: WriteRequest)
    requires Run(trace, acts) && Holds(trace[0], target, req)
    ensures (forall j :: 0 <= j <= |acts| ==> Holds(trace[j], target, req)) <==>
      (forall j :: 0 <= j < |acts| ==> !Removes(acts[j], target, req))
  {
    hide Holds, Removes, Next;
    if forall j :: 0 <= j < |acts| ==> !Removes(acts[j], target, req) {
      forall j | 0 <= j <= |acts| ensures Holds(trace[j], target, req) { StaysUntil(trace, acts, target, req, j); }
    } else {
      var j :| 0 <= j < |acts| && Removes(acts[j], target, req);
      if Holds(trace[j], target, req) {
        StepKeeps(trace[j], acts[j], trace[j + 1], target, req);
        assert !Holds(trace[j + 1], target, req);
      }
    }
  }

  lemma {:induction false} StaysUntil(trace: seq<Holding>, acts: seq<Act>, target: NodeId, req: WriteRequest, j: nat)
    requires Run(trace, acts) && Holds(trace[0], target, req) && j <= |acts|
    requires forall i :: 0 <= i < |acts| ==> !Removes(acts[i], target, req)
    ensures Holds(trace[j], target, req)
    decreases j
  {
    hide Holds, Removes, Next;
    if j > 0 {
      StaysUntil(trace, acts, target, req, j - 1);
      StepKeeps(trace[j - 1], acts[j - 1], trace[j], target, req);
    }
  }

  /** Hints share a key exactly when target, clock value and object id agree: the collection is
      not part of it. The first of two hints survives the second exactly when they differ in one
      of the three or are the same hint. */
  lemma {:induction false} OverwrittenExactly(hints: Hints, t1: NodeId, r1: WriteRequest, t2: NodeId, r2: WriteRequest)
    ensures Lookup(Kept(Kept(hints, t1, r1), t2, r2), KeyOf(t1, r1)) == Some(EntryOf(r1)) <==>
      (t1, r1.hlc, r1.key.objectId) != (t2, r2.hlc, r2.key.objectId) || EntryOf(r1) == EntryOf(r2)
  {
    hide MakeHintKey, Record;
    if KeyOf(t1, r1) == KeyOf(t2, r2) {
      HintKeyInjective(t1, r1.hlc, r1.key.objectId, t2, r2.hlc, r2.key.objectId);
    }
  }

  ghost predicate AllGood(hints: Hints) { forall k :: k in hints ==> GoodHint(k, hints[k]) }

  /** Every hint always sits under the key made from its own content. */
  lemma {:induction false} RunKeepsGoodHints(trace: seq<Holding>, acts: seq<Act>, j: nat)
    requires Run(trace, acts) && AllGood(trace[0].hints) && j <= |acts|
    ensures AllGood(trace[j].hints)
    decreases j
  {
    hide MakeHintKey, Deliverable, Landed, AllGrow, Acknowledged;
    if j > 0 {
      RunKeepsGoodHints(trace, acts, j - 1);
      var s, act, t := trace[j - 1], acts[j - 1], trace[j];
      assert Next(s, act, t);
      if act.Keep? {
        assert GoodHint(KeyOf(act.target, act.req), EntryOf(act.req));
      }
    }
  }
}
