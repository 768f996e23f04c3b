/**
 Distributed runs of hybrid clocks. Physical clocks are read arbitrarily, even
 backwards; messages may be lost, delayed, reordered and delivered many times;
 nodes restart from whatever value they had persisted.
 */
module ClockRun {
  import opened Hlc
  import opened HybridClock

  datatype Event =
    | Tick(node: NodeId, now: nat)
    | Receive(node: NodeId, now: nat, from: nat)
    | Restart(node: NodeId, now: nat, persisted: Hlc)

  datatype Run = Run(init: map<NodeId, Hlc>, events: seq<Event>)

  /** Clock of every node before event `t`. */
  function Clocks(run: Run, t: nat): (c: map<NodeId, Hlc>)
    requires t <= |run.events|
    ensures c.Keys >= run.init.Keys
    decreases t, 1
  {
    if t == 0 then run.init
    else
      var before := Clocks(run, t - 1);
      var out := Output(run, t - 1);
      if out.Stamped? then before[run.events[t - 1].node := out.hlc] else before
  }

  function ClockOf(run: Run, t: nat, node: NodeId): Hlc
    requires t <= |run.events|
    decreases t, 2
  {
    var c := Clocks(run, t);
    if node in c then c[node] else 0
  }

  /** What event `t` computes. A receive merges the stamp of the event that sent the message. */
  function Output(run: Run, t: nat): Stamp
    requires t < |run.events|
    decreases t, 3
  {
    var e := run.events[t];
    match e
    case Tick(n, now) => Ticked(ClockOf(run, t, n), now)
    case Receive(n, now, from) =>
      if from < t && Output(run, from).Stamped?
      then Updated(ClockOf(run, t, n), Output(run, from).hlc, now)
      else LogicalOverflow(0)
    case Restart(_, now, persisted) => Restored(persisted, now)
  }

  /** Event `t` issued a timestamp. */
  predicate Issued(run: Run, t: nat) {
    t < |run.events| && !run.events[t].Restart? && Output(run, t).Stamped?
  }

  function StampOf(run: Run, t: nat): Hlc
    requires Issued(run, t)
  {
    Output(run, t).hlc
  }

  /** `i` is an earlier stamp of the node of `j` that no restart in between has forgotten. */
  predicate LocalEdge(run: Run, i: nat, j: nat) {
    && i < j && Issued(run, i) && Issued(run, j)
    && run.events[i].node == run.events[j].node
    && Remembered(run, i, j)
  }

  predicate Remembered(run: Run, i: nat, j: nat)
    requires i < j <= |run.events| && Issued(run, i)
  {
    forall r :: i < r < j && run.events[r].Restart? && run.events[r].node == run.events[i].node ==>
      StampOf(run, i) <= run.events[r].persisted
  }

  predicate MessageEdge(run: Run, i: nat, j: nat) {
    Issued(run, i) && Issued(run, j) && i < j && run.events[j].Receive? && run.events[j].from == i
  }

  /** Happened-before: the transitive closure of local order and message order. */
  predicate HappenedBefore(run: Run, i: nat, j: nat)
    decreases j
  {
    || LocalEdge(run, i, j)
    || MessageEdge(run, i, j)
    || exists k: nat | k < j :: HappenedBefore(run, i, k) && (LocalEdge(run, k, j) || MessageEdge(run, k, j))
  }

  // ---------------------------------------------------------------------
  // Clocks move forward
  // ---------------------------------------------------------------------

  /** An event moves only its own node's clock, and forward; a failed one moves nothing. */
  lemma {:induction false} StepFacts(run: Run, t: nat)
    requires t < |run.events|
    ensures var e := run.events[t];
      && (Output(run, t).Stamped? ==> ClockOf(run, t + 1, e.node) == Output(run, t).hlc)
      && (!Output(run, t).Stamped? ==> Clocks(run, t + 1) == Clocks(run, t))
      && (Issued(run, t) ==> StampOf(run, t) > ClockOf(run, t, e.node))
      && (e.Restart? && Output(run, t).Stamped? ==> Output(run, t).hlc >= e.persisted)
      && forall n :: n != e.node ==> ClockOf(run, t + 1, n) == ClockOf(run, t, n)
  {
    var e := run.events[t];
    if e.Tick? {
      if e.now <= MAX_PHYSICAL { TickIsLeast(ClockOf(run, t, e.node), e.now); }
    } else if e.Receive? {
      if e.now <= MAX_PHYSICAL && e.from < t && Output(run, e.from).Stamped? {
        UpdateIsLeast(ClockOf(run, t, e.node), Output(run, e.from).hlc, e.now);
      }
    } else if e.now <= MAX_PHYSICAL {
      RestoreIsAhead(e.persisted, e.now, 0);
    }
  }

  /** A stamp stays at or below its node's clock for as long as it is remembered. */
  lemma {:induction false} ClockCovers(run: Run, i: nat, t: nat)
    requires i < t <= |run.events| && Issued(run, i) && Remembered(run, i, t)
    ensures ClockOf(run, t, run.events[i].node) >= StampOf(run, i)
    decreases t
  {
    StepFacts(run, t - 1);
    hide Clocks, ClockOf, Output;
    if t > i + 1 {
      ClockCovers(run, i, t - 1);
    }
  }

  lemma {:induction false} EdgeIncreases(run: Run, i: nat, j: nat)
    requires LocalEdge(run, i, j) || MessageEdge(run, i, j)
    ensures StampOf(run, i) < StampOf(run, j)
  {
    if LocalEdge(run, i, j) {
      ClockCovers(run, i, j);
      StepFacts(run, j);
    } else {
      var e := run.events[j];
      UpdateIsLeast(ClockOf(run, j, e.node), StampOf(run, i), e.now);
    }
  }

  /** Happened-before implies a strictly smaller timestamp. */
  lemma {:induction false} HappenedBeforeOrdersStamps(run: Run, i: nat, j: nat)
    requires HappenedBefore(run, i, j)
    ensures Issued(run, i) && Issued(run, j)
    ensures StampOf(run, i) < StampOf(run, j)
    decreases j
  {
    hide Issued, StampOf;
    if LocalEdge(run, i, j) || MessageEdge(run, i, j) {
      EdgeIncreases(run, i, j);
    } else {
      var k: nat :| k < j && HappenedBefore(run, i, k) && (LocalEdge(run, k, j) || MessageEdge(run, k, j));
      HappenedBeforeOrdersStamps(run, i, k);
      EdgeIncreases(run, k, j);
    }
  }

  // ---------------------------------------------------------------------
  // Clocks do not run ahead
  // ---------------------------------------------------------------------

  /** Every time read, restored or given at the start, before event `t`, is at most `top`. */
  predicate SeenUpTo(run: Run, t: nat, top: nat)
    requires t <= |run.events|
  {
    && (forall n :: n in run.init ==> Physical(run.init[n]) <= top)
    && (forall k :: 0 <= k < t ==> run.events[k].now <= top)
    && (forall k :: 0 <= k < t && run.events[k].Restart? ==> Physical(run.events[k].persisted) <= top)
  }

  /** No clock value ever carries a time beyond the largest one read, restored or given so far. */
  lemma {:induction false} NeverAhead(run: Run, t: nat, top: nat)
    requires t <= |run.events| && SeenUpTo(run, t, top)
    ensures forall n :: Physical(ClockOf(run, t, n)) <= top
    ensures forall k :: 0 <= k < t && Output(run, k).Stamped? ==> Physical(Output(run, k).hlc) <= top
    decreases t
  {
    if t > 0 {
      NeverAhead(run, t - 1, top);
      OutputBounded(run, t - 1, top);
      StepFacts(run, t - 1);
      hide Output;
      forall n ensures Physical(ClockOf(run, t, n)) <= top {
        assert Physical(ClockOf(run, t - 1, n)) <= top;
      }
    }
  }

  lemma OutputBounded(run: Run, t: nat, top: nat)
    requires t < |run.events| && run.events[t].now <= top
    requires run.events[t].Restart? ==> Physical(run.events[t].persisted) <= top
    requires Physical(ClockOf(run, t, run.events[t].node)) <= top
    requires forall k :: 0 <= k < t && Output(run, k).Stamped? ==> Physical(Output(run, k).hlc) <= top
    ensures Output(run, t).Stamped? ==> Physical(Output(run, t).hlc) <= top
  {
    hide ClockOf;
  }
}
