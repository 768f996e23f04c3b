/**
 Hinted handoff: delivering the hints a node holds to the owners they are kept
 for.
 */
module Handoff {
  import opened Bytes
  import opened Text
  import opened Hlc
  import opened HybridClock
  import opened Resolver
  import opened Replica

  const HINT_TTL_MS: nat := 24 * 3600 * 1000

  predicate Expired(now: nat, hlc: Hlc) { now - Physical(hlc) > HINT_TTL_MS }

  /** The pass tries to deliver the hint. */
  predicate Deliverable(k: Buf, h: HintEntry, now: nat) {
    var parsed := ParseHintKey(k);
    parsed.Some? && !Expired(now, parsed.value.1) && h.Hint?
  }

  function Target(k: Buf): NodeId
    requires ParseHintKey(k).Some?
  {
    ParseHintKey(k).value.0
  }

  /** The record the target is asked to store. */
  function Delivery(h: HintEntry): (ObjectKey, VersionedDoc)
    requires h.Hint?
  {
    (h.key, Record(Request(h)))
  }

  function Request(h: HintEntry): WriteRequest
    requires h.Hint?
  {
    WriteRequest(h.key, h.versioned.document, h.versioned.version, h.versioned.hlc, false, None)
  }

  // ---------------------------------------------------------------------
  // One hint
  // ---------------------------------------------------------------------

  /** The target stores the record. */
  ghost predicate Handled(k: Buf, h: HintEntry, now: nat, up: set<NodeId>, fault: Fault) {
    Deliverable(k, h, now) && Target(k) in up && fault.Stores()
  }

  /** The target stores the record and its acknowledgement comes back. */
  ghost predicate Confirmed(k: Buf, h: HintEntry, now: nat, up: set<NodeId>, fault: Fault) {
    Handled(k, h, now, up, fault) && fault.Clean?
  }

  /** The hint has to go: it cannot be read, is too old or is confirmed. */
  ghost predicate Finished(k: Buf, h: HintEntry, now: nat, up: set<NodeId>, fault: Fault) {
    !Deliverable(k, h, now) || Confirmed(k, h, now, up, fault)
  }

  ghost function ViewAfter(view: View, holder: NodeId, k: Buf, h: HintEntry, now: nat, up: set<NodeId>, fault: Fault,
          disk: bool): View
    requires holder in view && up <= view.Keys
  {
    var sent := if Handled(k, h, now, up, fault) then view[Target(k) := Stored(view[Target(k)], Request(h))] else view;
    if Finished(k, h, now, up, fault) && disk then WithoutHint(sent, holder, k) else sent
  }

  ghost function LogsAfter(logs: Logs, k: Buf, h: HintEntry, now: nat, up: set<NodeId>, fault: Fault): Logs
    requires up <= logs.Keys
  {
    if Handled(k, h, now, up, fault) then logs[Target(k) := logs[Target(k)] + [Delivery(h)]] else logs
  }

  /** A hint that can be read has to go for its age exactly when it was stamped more than 24 hours
      ago; otherwise a target that answers is handed its record. */
  lemma {:induction false} DayOld(k: Buf, h: HintEntry, now: nat, up: set<NodeId>, fault: Fault)
    ensures forall n, hlc :: ParseHintKey(k) == Some((n, hlc)) ==>
      && (Expired(now, hlc) <==> now > Physical(hlc) + 86_400_000)
      && (h.Hint? ==> (!Deliverable(k, h, now) <==> now > Physical(hlc) + 86_400_000))
      && (now > Physical(hlc) + 86_400_000 ==> Finished(k, h, now, up, fault) && !Handled(k, h, now, up, fault))
      && (h.Hint? && now <= Physical(hlc) + 86_400_000 && n in up && fault.Clean? ==> Confirmed(k, h, now, up, fault))
  {
    hide ParseHintKey;
  }

  /** One iteration of the pass. A hint that has to go is deleted, which fails when the disk does;
      any other stays. */
  method DeliverOne(net: Network, holder: NodeId, k: Buf, h: HintEntry, now: nat, fault: Fault, disk: bool)
    returns (ok: bool, acked: bool)
    requires net.Valid() && holder in net.stores
    modifies net.Repr()
    ensures net.Valid()
    ensures ok <==> disk || !Finished(k, h, now, net.Reachable(holder), fault)
    ensures acked <==> disk && Confirmed(k, h, now, net.Reachable(holder), fault)
    ensures net.View() == ViewAfter(old(net.View()), holder, k, h, now, net.Reachable(holder), fault, disk)
    ensures net.Logs() == LogsAfter(old(net.Logs()), k, h, now, net.Reachable(holder), fault)
  {
    hide ParseHintKey, Replay, MakeHintKey, Record, Stored, Expired, WithoutHint, Network.Valid;
    acked := false;
    var parsed := ParseHintKey(k);
    if parsed.None? {
      ok := net.DropHint(holder, k, disk);
      return;
    }
    if Expired(now, parsed.value.1) {
      ok := net.DropHint(holder, k, disk);
      return;
    }
    if h.Garbled? {
      ok := net.DropHint(holder, k, disk);
      return;
    }
    var confirmed := net.RemoteWrite(holder, parsed.value.0, Request(h), fault);
    ok := true;
    if confirmed {
      ok := net.DropHint(holder, k, disk);
      acked := ok;
    }
  }

  // ---------------------------------------------------------------------
  // A pass
  // ---------------------------------------------------------------------

  /** The hints whose target can be reached and answers. */
  ghost function Acknowledged(hints: Hints, now: nat, up: set<NodeId>, faults: Buf -> Fault): set<Buf> {
    set k | k in hints && Confirmed(k, hints[k], now, up, faults(k))
  }

  /** Since `was`, the node that the hint is for has accepted its record. */
  ghost predicate Landed(was: Logs, logs: Logs, k: Buf, h: HintEntry) {
    && h.Hint? && ParseHintKey(k).Some? && Target(k) in was && Target(k) in logs
    && was[Target(k)] <= logs[Target(k)]
    && Delivery(h) in logs[Target(k)][|was[Target(k)]|..]
  }

  ghost predicate Sent(hints: Hints, now: nat, n: NodeId, e: (ObjectKey, VersionedDoc)) {
    exists k :: k in hints && Deliverable(k, hints[k], now) && Target(k) == n && e == Delivery(hints[k])
  }

  /** What a node accepted since `was` is deliverable hints addressed to it. */
  ghost predicate Growth(hints: Hints, now: nat, n: NodeId, was: Log, log: Log) {
    was <= log && forall e :: e in log[|was|..] ==> Sent(hints, now, n, e)
  }

  ghost predicate AllGrow(hints: Hints, now: nat, was: Logs, logs: Logs) {
    logs.Keys == was.Keys && forall n :: n in logs ==> Growth(hints, now, n, was[n], logs[n])
  }

  /** The hints that a pass has not got to, and those it has tried to deliver in vain. */
  ghost function LeftOver(hints: Hints, now: nat, todo: set<Buf>, acked: set<Buf>): Hints {
    map k | k in hints && (k in todo || (Deliverable(k, hints[k], now) && k !in acked)) :: hints[k]
  }

  /** The effect of a pass that got through the hints in `seen`: of these, exactly the readable,
      recent and unacknowledged ones remain; each acknowledged one was accepted by its target; and
      no node accepted anything but deliverable hints addressed to it. */
  ghost predicate Passed(hints: Hints, logs: Logs, now: nat, up: set<NodeId>, faults: Buf -> Fault, seen: set<Buf>,
          hints': Hints, logs': Logs) {
    var acked := Acknowledged(hints, now, up, faults) * seen;
    && hints' == LeftOver(hints, now, hints.Keys - seen, acked)
    && (forall k :: k in acked ==> k in hints && Landed(logs, logs', k, hints[k]))
    && AllGrow(hints, now, logs, logs')
  }

  lemma LeftOverStep(hints: Hints, now: nat, todo: set<Buf>, acked: set<Buf>, k: Buf, ok: bool)
    requires k in todo && k in hints && k !in acked && (ok ==> Deliverable(k, hints[k], now))
    ensures LeftOver(hints, now, todo - {k}, if ok then acked + {k} else acked) ==
      if Deliverable(k, hints[k], now) && !ok then LeftOver(hints, now, todo, acked)
      else LeftOver(hints, now, todo, acked) - {k}
  {
    hide Deliverable;
  }

  lemma ViewStep(view: View, holder: NodeId, k: Buf, h: HintEntry, now: nat, up: set<NodeId>, fault: Fault, disk: bool)
    requires holder in view && up <= view.Keys
    ensures var next := ViewAfter(view, holder, k, h, now, up, fault, disk);
      && next.Keys == view.Keys
      && (forall n :: n in view && n != holder ==> next[n].hints == view[n].hints)
      && next[holder].hints ==
           if Finished(k, h, now, up, fault) && disk then view[holder].hints - {k} else view[holder].hints
  {
    hide ParseHintKey, Expired, Record, HintKeyOf;
  }

  /** What age means for one hint that names a target and a clock value: stamped more than 24 hours
      ago, it goes and nobody is handed anything; otherwise, if it can be read and its target
      answers, it goes and the target has accepted its record; otherwise it stays. */
  lemma {:induction false} AgeDecides(view: View, logs: Logs, holder: NodeId, k: Buf, h: HintEntry, now: nat,
          up: set<NodeId>, fault: Fault, n: NodeId, hlc: Hlc)
    requires holder in view && Lookup(view[holder].hints, k) == Some(h) && up <= view.Keys && up <= logs.Keys
    requires ParseHintKey(k) == Some((n, hlc)) && h.Hint?
    ensures var late, answers := now > Physical(hlc) + 86_400_000, n in up && fault.Clean?;
      var next, log := ViewAfter(view, holder, k, h, now, up, fault, true), LogsAfter(logs, k, h, now, up, fault);
      && next.Keys == view.Keys && (k !in next[holder].hints <==> late || answers)
      && (late ==> log == logs && forall m :: m in view ==> next[m].docs == view[m].docs)
      && (!late && answers ==> log == logs[n := logs[n] + [(h.key, Record(Request(h)))]] &&
                               Lookup(next[n].docs, h.key) == Some(Record(Request(h))))
  {
    DayOld(k, h, now, up, fault);
    ViewStep(view, holder, k, h, now, up, fault, true);
    hide ParseHintKey, Expired, Record, HintKeyOf;
  }

  /** The same over a whole pass, for every hint it got through. */
  lemma {:induction false} PassByAge(hints: Hints, logs: Logs, now: nat, up: set<NodeId>, faults: Buf -> Fault,
          seen: set<Buf>, hints': Hints, logs': Logs, k: Buf, n: NodeId, hlc: Hlc)
    requires Passed(hints, logs, now, up, faults, seen, hints', logs') && k in hints && k in seen
    requires ParseHintKey(k) == Some((n, hlc)) && hints[k].Hint?
    ensures var answers := n in up && faults(k).Clean?;
      && (k !in hints' <==> now > Physical(hlc) + 86_400_000 || answers)
      && (now <= Physical(hlc) + 86_400_000 && answers ==>
            n in logs && n in logs' && logs[n] <= logs'[n] &&
            (hints[k].key, Record(Request(hints[k]))) in logs'[n][|logs[n]|..])
  {
    DayOld(k, hints[k], now, up, faults(k));
    hide ParseHintKey, Expired, Record, AllGrow;
  }

  lemma AllLeft(hints: Hints, now: nat)
    ensures LeftOver(hints, now, hints.Keys, {}) == hints
  {
    hide Deliverable;
  }

  ghost predicate HintsLeft(hints: Hints, now: nat, todo: set<Buf>, acked: set<Buf>, holder: NodeId, was: View,
          view: View) {
    && view.Keys == was.Keys && holder in view
    && view[holder].hints == LeftOver(hints, now, todo, acked)
    && forall n :: n in view && n != holder ==> view[n].hints == was[n].hints
  }

  lemma GrowsNot(hints: Hints, now: nat, logs: Logs)
    ensures AllGrow(hints, now, logs, logs)
  {
  }

  lemma {:induction false} GrowthStep(hints: Hints, now: nat, was: Logs, logs: Logs, k: Buf, up: set<NodeId>,
          fault: Fault)
    requires AllGrow(hints, now, was, logs) && k in hints && up <= logs.Keys
    ensures AllGrow(hints, now, was, LogsAfter(logs, k, hints[k], now, up, fault))
  {
    hide ParseHintKey, Expired, Request, Record, Sent;
    if Handled(k, hints[k], now, up, fault) {
      var n := Target(k);
      var e := Delivery(hints[k]);
      assert Sent(hints, now, n, e) by { DeliverySent(hints, now, k); }
      assert (logs[n] + [e])[|was[n]|..] == logs[n][|was[n]|..] + [e];
      assert Growth(hints, now, n, was[n], logs[n] + [e]);
    }
  }

  lemma DeliverySent(hints: Hints, now: nat, k: Buf)
    requires k in hints && Deliverable(k, hints[k], now)
    ensures Sent(hints, now, Target(k), Delivery(hints[k]))
  {
    hide Deliverable, Delivery, Target;
  }

  lemma {:induction false} HintsStep(hints: Hints, now: nat, todo: set<Buf>, acked: set<Buf>, holder: NodeId,
          was: View, view: View, k: Buf, up: set<NodeId>, fault: Fault)
    requires HintsLeft(hints, now, todo, acked, holder, was, view)
    requires k in todo && k in hints && up <= view.Keys && k !in acked
    ensures HintsLeft(hints, now, todo - {k},
                      if Confirmed(k, hints[k], now, up, fault) then acked + {k} else acked, holder, was,
                      ViewAfter(view, holder, k, hints[k], now, up, fault, true))
  {
    hide Deliverable, ViewAfter, LeftOver;
    ViewStep(view, holder, k, hints[k], now, up, fault, true);
    LeftOverStep(hints, now, todo, acked, k, Confirmed(k, hints[k], now, up, fault));
  }

  /** When a hint that has to go cannot be deleted, it is as if the pass had not got to it. */
  lemma {:induction false} HintsStall(hints: Hints, now: nat, todo: set<Buf>, acked: set<Buf>, holder: NodeId,
          was: View, view: View, k: Buf, up: set<NodeId>, fault: Fault)
    requires HintsLeft(hints, now, todo, acked, holder, was, view) && k in hints && up <= view.Keys
    ensures HintsLeft(hints, now, todo, acked, holder, was, ViewAfter(view, holder, k, hints[k], now, up, fault, false))
  {
    hide Deliverable, ViewAfter, LeftOver;
    ViewStep(view, holder, k, hints[k], now, up, fault, false);
  }

  lemma {:induction false} LandedOne(was: Logs, logs: Logs, n: NodeId, e: (ObjectKey, VersionedDoc))
    requires n in was && n in logs && was[n] <= logs[n]
    ensures was[n] <= logs[n] + [e] && e in (logs[n] + [e])[|was[n]|..]
    ensures forall x :: x in logs[n][|was[n]|..] ==> x in (logs[n] + [e])[|was[n]|..]
  {
    assert (logs[n] + [e])[|was[n]|..] == logs[n][|was[n]|..] + [e];
  }

  lemma {:induction false} LandedStep(hints: Hints, now: nat, acked: set<Buf>, was: Logs, logs: Logs, k: Buf,
          up: set<NodeId>, fault: Fault)
    requires k in hints && up <= logs.Keys && AllGrow(hints, now, was, logs)
    requires forall j :: j in acked ==> j in hints && Landed(was, logs, j, hints[j])
    ensures var next := LogsAfter(logs, k, hints[k], now, up, fault);
      && (forall j :: j in acked ==> j in hints && Landed(was, next, j, hints[j]))
      && (Handled(k, hints[k], now, up, fault) ==> Landed(was, next, k, hints[k]))
  {
    hide Delivery, ParseHintKey, Expired, Sent;
    if Handled(k, hints[k], now, up, fault) {
      assert Growth(hints, now, Target(k), was[Target(k)], logs[Target(k)]);
      LandedOne(was, logs, Target(k), Delivery(hints[k]));
    }
  }

  ghost predicate Progress(hints: Hints, now: nat, up: set<NodeId>, faults: Buf -> Fault, todo: set<Buf>,
          acked: set<Buf>, holder: NodeId, view0: View, logs0: Logs, view: View, logs: Logs) {
    && HintsLeft(hints, now, todo, acked, holder, view0, view)
    && acked == Acknowledged(hints, now, up, faults) - todo
    && (forall k :: k in acked ==> k in hints && Landed(logs0, logs, k, hints[k]))
    && AllGrow(hints, now, logs0, logs)
  }

  lemma {:induction false} ProgressStep(hints: Hints, now: nat, up: set<NodeId>, faults: Buf -> Fault, todo: set<Buf>,
          acked: set<Buf>, holder: NodeId, view0: View, logs0: Logs, view: View, logs: Logs, k: Buf)
    requires Progress(hints, now, up, faults, todo, acked, holder, view0, logs0, view, logs)
    requires k in todo && todo <= hints.Keys && up <= view.Keys && up <= logs.Keys
    ensures Progress(hints, now, up, faults, todo - {k},
                     if Confirmed(k, hints[k], now, up, faults(k)) then acked + {k} else acked, holder, view0, logs0,
                     ViewAfter(view, holder, k, hints[k], now, up, faults(k), true),
                     LogsAfter(logs, k, hints[k], now, up, faults(k)))
  {
    hide Handled, AllGrow, Landed, LogsAfter, ViewAfter, HintsLeft;
    HintsStep(hints, now, todo, acked, holder, view0, view, k, up, faults(k));
    LandedStep(hints, now, acked, logs0, logs, k, up, faults(k));
    GrowthStep(hints, now, logs0, logs, k, up, faults(k));
  }

  lemma {:induction false} ProgressStall(hints: Hints, now: nat, up: set<NodeId>, faults: Buf -> Fault,
          todo: set<Buf>, acked: set<Buf>, holder: NodeId, view0: View, logs0: Logs, view: View, logs: Logs, k: Buf)
    requires Progress(hints, now, up, faults, todo, acked, holder, view0, logs0, view, logs)
    requires k in todo && todo <= hints.Keys && up <= view.Keys && up <= logs.Keys
    ensures Progress(hints, now, up, faults, todo, acked, holder, view0, logs0,
                     ViewAfter(view, holder, k, hints[k], now, up, faults(k), false),
                     LogsAfter(logs, k, hints[k], now, up, faults(k)))
  {
    hide Handled, Acknowledged, AllGrow, Landed, LogsAfter, ViewAfter, HintsLeft;
    HintsStall(hints, now, todo, acked, holder, view0, view, k, up, faults(k));
    LandedStep(hints, now, acked, logs0, logs, k, up, faults(k));
    GrowthStep(hints, now, logs0, logs, k, up, faults(k));
  }

  lemma {:induction false} ProgressOne(hints: Hints, now: nat, up: set<NodeId>, faults: Buf -> Fault, todo: set<Buf>,
          acked: set<Buf>, holder: NodeId, view0: View, logs0: Logs, view: View, logs: Logs, k: Buf, disk: bool)
    requires Progress(hints, now, up, faults, todo, acked, holder, view0, logs0, view, logs)
    requires k in todo && todo <= hints.Keys && up <= view.Keys && up <= logs.Keys
    ensures var gone := Confirmed(k, hints[k], now, up, faults(k)) && disk;
      var done := disk || !Finished(k, hints[k], now, up, faults(k));
      Progress(hints, now, up, faults, if done then todo - {k} else todo, if gone then acked + {k} else acked,
               holder, view0, logs0, ViewAfter(view, holder, k, hints[k], now, up, faults(k), disk),
               LogsAfter(logs, k, hints[k], now, up, faults(k)))
  {
    if disk || !Finished(k, hints[k], now, up, faults(k)) {
      ProgressStep(hints, now, up, faults, todo, acked, holder, view0, logs0, view, logs, k);
    } else {
      ProgressStall(hints, now, up, faults, todo, acked, holder, view0, logs0, view, logs, k);
    }
    hide Progress, LogsAfter, Handled;
  }

  lemma {:induction false} ProgressEnds(hints: Hints, now: nat, up: set<NodeId>, faults: Buf -> Fault, todo: set<Buf>,
          acked: set<Buf>, holder: NodeId, view0: View, logs0: Logs, view: View, logs: Logs)
    requires Progress(hints, now, up, faults, todo, acked, holder, view0, logs0, view, logs) && todo <= hints.Keys
    ensures view.Keys == view0.Keys && holder in view
    ensures forall n :: n in view && n != holder ==> view[n].hints == view0[n].hints
    ensures acked == Acknowledged(hints, now, up, faults) * (hints.Keys - todo)
    ensures Passed(hints, logs0, now, up, faults, hints.Keys - todo, view[holder].hints, logs)
  {
    hide Confirmed, AllGrow, Landed, LeftOver;
    assert hints.Keys - (hints.Keys - todo) == todo;
    assert acked == Acknowledged(hints, now, up, faults) * (hints.Keys - todo);
  }

  lemma {:induction false} ProgressStarts(hints: Hints, now: nat, up: set<NodeId>, faults: Buf -> Fault,
          holder: NodeId, view: View, logs: Logs)
    requires holder in view && view[holder].hints == hints
    ensures Progress(hints, now, up, faults, hints.Keys, {}, holder, view, logs, view, logs)
  {
    hide LeftOver, AllGrow, Landed;
    AllLeft(hints, now);
    GrowsNot(hints, now, logs);
  }

  /** How storage fares with one row of the scan. */
  datatype Disk = Works | ScanFails | DeleteFails

  ghost predicate Ends(k: Buf, h: HintEntry, now: nat, up: set<NodeId>, fault: Fault, disk: Disk) {
    disk.ScanFails? || (disk.DeleteFails? && Finished(k, h, now, up, fault))
  }

  /** One row of the scan. */
  method Visit(net: Network, holder: NodeId, k: Buf, now: nat, faults: Buf -> Fault, disk: Disk, hints: Hints,
          ghost todo: set<Buf>, ghost acked: set<Buf>, ghost view0: View, ghost logs0: Logs)
    returns (done: bool, gone: bool)
    requires net.Valid() && holder in net.stores && k in todo && todo <= hints.Keys
    requires Progress(hints, now, net.Reachable(holder), faults, todo, acked, holder, view0, logs0,
                      net.View(), net.Logs())
    modifies net.Repr()
    ensures net.Valid() && net.Reachable(holder) == old(net.Reachable(holder))
    ensures done <==> !Ends(k, hints[k], now, net.Reachable(holder), faults(k), disk)
    ensures gone ==> done
    ensures Progress(hints, now, net.Reachable(holder), faults, if done then todo - {k} else todo,
                     if gone then acked + {k} else acked, holder, view0, logs0, net.View(), net.Logs())
  {
    hide Finished, Confirmed, Progress, LogsAfter, ViewAfter, Replay;
    if disk.ScanFails? { return false, false; }
    ProgressOne(hints, now, net.Reachable(holder), faults, todo, acked, holder, view0, logs0, net.View(), net.Logs(), k,
                disk.Works?);
    FinishedIfConfirmed(k, hints[k], now, net.Reachable(holder), faults(k));
    done, gone := DeliverOne(net, holder, k, hints[k], now, faults(k), disk.Works?);
  }

  lemma FinishedIfConfirmed(k: Buf, h: HintEntry, now: nat, up: set<NodeId>, fault: Fault)
    ensures Confirmed(k, h, now, up, fault) ==> Finished(k, h, now, up, fault)
  {
  }

  /** A delivery pass over the hints a node holds, in whatever order they are scanned. The pass ends
      early, with an error, exactly when a row cannot be read or a hint that has to go cannot be
      deleted; the hints in `seen` are those it got through. */
  method DeliverPendingHints(net: Network, holder: NodeId, now: nat, faults: Buf -> Fault, disk: Buf -> Disk)
    returns (ok: bool, delivered: nat, ghost seen: set<Buf>)
    requires net.Valid() && holder in net.stores
    modifies net.Repr()
    ensures net.Valid() && seen <= old(net.View()[holder].hints).Keys
    ensures ok <==> forall k :: k in old(net.View()[holder].hints) ==>
      !Ends(k, old(net.View()[holder].hints)[k], now, net.Reachable(holder), faults(k), disk(k))
    ensures ok ==> seen == old(net.View()[holder].hints).Keys
    ensures delivered == |Acknowledged(old(net.View()[holder].hints), now, net.Reachable(holder), faults) * seen|
    ensures Passed(old(net.View()[holder].hints), old(net.Logs()), now, net.Reachable(holder), faults, seen,
                   net.View()[holder].hints, net.Logs())
    ensures forall n :: n in net.View() && n != holder ==> net.View()[n].hints == old(net.View())[n].hints
  {
    hide Ends, Progress, Acknowledged, Passed;
    ghost var view0, logs0, up := net.View(), net.Logs(), net.Reachable(holder);
    var hints := net.stores[holder].hints;
    assert hints == view0[holder].hints;
    ghost var todo, acked;
    ok, delivered, todo, acked := VisitAll(net, holder, now, faults, disk, hints);
    seen := hints.Keys - todo;
    ProgressEnds(hints, now, up, faults, todo, acked, holder, view0, logs0, net.View(), net.Logs());
    hide *;
  }

  /** What the loop has counted, and whether it goes on. */
  ghost predicate Tally(hints: Hints, now: nat, up: set<NodeId>, faults: Buf -> Fault, disk: Buf -> Disk,
          left: set<Buf>, acked: set<Buf>, delivered: nat, ok: bool) {
    && left <= hints.Keys && acked !! left && delivered == |acked|
    && (forall k :: k in hints && k !in left ==> !Ends(k, hints[k], now, up, faults(k), disk(k)))
    && (!ok ==> exists k :: k in hints && Ends(k, hints[k], now, up, faults(k), disk(k)))
  }

  lemma {:induction false} TallyStep(hints: Hints, now: nat, up: set<NodeId>, faults: Buf -> Fault, disk: Buf -> Disk,
          left: set<Buf>, acked: set<Buf>, delivered: nat, k: Buf, gone: bool)
    requires Tally(hints, now, up, faults, disk, left, acked, delivered, true) && k in left
    requires gone ==> !Ends(k, hints[k], now, up, faults(k), disk(k))
    ensures var done := !Ends(k, hints[k], now, up, faults(k), disk(k));
      Tally(hints, now, up, faults, disk, if done then left - {k} else left, if gone then acked + {k} else acked,
            if gone then delivered + 1 else delivered, done)
  {
    hide Ends;
  }

  lemma TallyStart(hints: Hints, now: nat, up: set<NodeId>, faults: Buf -> Fault, disk: Buf -> Disk)
    ensures Tally(hints, now, up, faults, disk, hints.Keys, {}, 0, true)
  {
  }

  lemma TallyEnd(hints: Hints, now: nat, up: set<NodeId>, faults: Buf -> Fault, disk: Buf -> Disk, left: set<Buf>,
          acked: set<Buf>, delivered: nat, ok: bool)
    requires Tally(hints, now, up, faults, disk, left, acked, delivered, ok)
    ensures left <= hints.Keys && delivered == |acked|
    ensures left == {} || !ok ==>
      (ok <==> forall k :: k in hints ==> !Ends(k, hints[k], now, up, faults(k), disk(k)))
  {
    hide Ends;
  }

  method VisitAll(net: Network, holder: NodeId, now: nat, faults: Buf -> Fault, disk: Buf -> Disk, hints: Hints)
    returns (ok: bool, delivered: nat, ghost todo: set<Buf>, ghost acked: set<Buf>)
    requires net.Valid() && holder in net.stores && hints == net.View()[holder].hints
    modifies net.Repr()
    ensures net.Valid() && net.Reachable(holder) == old(net.Reachable(holder)) && todo <= hints.Keys
    ensures Progress(hints, now, net.Reachable(holder), faults, todo, acked, holder, old(net.View()), old(net.Logs()),
                     net.View(), net.Logs())
    ensures delivered == |acked|
    ensures ok <==> forall k :: k in hints ==> !Ends(k, hints[k], now, net.Reachable(holder), faults(k), disk(k))
    ensures ok ==> todo == {}
  {
    hide *;
    ghost var view0, logs0, up := net.View(), net.Logs(), net.Reachable(holder);
    var left := hints.Keys;
    delivered, ok, acked := 0, true, {};
    assert holder in net.View() by { InView(net, holder); }
    ProgressStarts(hints, now, up, faults, holder, view0, logs0);
    TallyStart(hints, now, up, faults, disk);
    TallyEnd(hints, now, up, faults, disk, left, acked, delivered, ok);
    while ok && left != {}
      invariant left <= hints.Keys
      invariant net.Valid() && up == net.Reachable(holder)
      invariant Progress(hints, now, up, faults, left, acked, holder, view0, logs0, net.View(), net.Logs())
      invariant Tally(hints, now, up, faults, disk, left, acked, delivered, ok)
      decreases if ok then 1 else 0, left
    {
      var k :| k in left;
      var done, gone := Visit(net, holder, k, now, faults, disk(k), hints, left, acked, view0, logs0);
      TallyStep(hints, now, up, faults, disk, left, acked, delivered, k, gone);
      if done {
        left := left - {k};
      } else {
        ok := false;
      }
      if gone {
        delivered := delivered + 1;
        acked := acked + {k};
      }
    }
    TallyEnd(hints, now, up, faults, disk, left, acked, delivered, ok);
    todo := left;
  }

  lemma InView(net: Network, n: NodeId)
    requires n in net.stores
    ensures n in net.View()
  {
  }
}
