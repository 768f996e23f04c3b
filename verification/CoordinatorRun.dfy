/**
 Runs of one coordinator over the stores of the cluster: writes, deletes and
 reads of one key, one after the other, each with its own failures.
 */
module CoordinatorRun {
  import opened Bytes
  import opened Text
  import opened Hlc
  import opened HybridClock
  import opened VectorClock
  import opened Ring
  import opened Resolver
  import opened Replica
  import opened FanOut
  import opened ReadRepair
  import opened QuorumLink
  import C = Coordinator
  import H = Handoff
  import Q = QuorumRun

  datatype Setup = Setup(local: NodeId, key: ObjectKey, owners: set<NodeId>, r: nat, w: nat)

  /** The stores and the coordinator's clock; and, as history, the records written so far, in order,
      and the last one that a write quorum of owners acknowledged. */
  datatype Sys = Sys(view: View, clock: Hlc, issued: seq<VersionedDoc>, last: Option<VersionedDoc>)

  /** A write, or a delete when there is no document; a read, during which repairs land on `landed`;
      a delivery pass coming to one of the hints that `holder` keeps; or whatever else happens
      without touching the owners' copies of the key: operations on other keys, hints being kept,
      the clock moving on. */
  datatype Act =
    | Put(doc: Option<Doc>, env: C.Env, up: set<NodeId>, now: nat)
    | Get(env: C.Env, up: set<NodeId>, landed: set<NodeId>)
    | Deliver(holder: NodeId, hint: Buf, now: nat, up: set<NodeId>, fault: Fault, disk: bool)
    | Elsewhere

  ghost function Abs(c: Setup, s: Sys): Q.State {
    Q.State(CopiesOf(s.view, c.key, c.owners), s.issued, s.last)
  }

  ghost predicate Environment(c: Setup, s: Sys, env: C.Env, up: set<NodeId>) {
    && C.Possible(env) && Members(env.owners) == c.owners && up <= s.view.Keys
    && forall n :: n in C.Acked(env, up) ==> n in s.view
  }

  /** What the owners that are asked answer. */
  ghost function Heard(c: Setup, s: Sys, env: C.Env, up: set<NodeId>): seq<Response>
    requires Environment(c, s, env, up)
  {
    C.Answers(s.view, c.key, C.Acked(env, up))
  }

  ghost predicate PutNext(c: Setup, s: Sys, doc: Option<Doc>, env: C.Env, up: set<NodeId>, now: nat, t: Sys) {
    && Environment(c, s, env, up)
    && (exists out, standIns ::
          C.Attempted(s.view, t.view, up, env, c.w, c.local, c.key, doc, s.clock, t.clock, now, out, standIns))
    && var stamped := Ticked(s.clock, now).Stamped?;
       var v := Q.NewRecord(c.local, doc, t.clock);
       && t.issued == (if stamped then s.issued + [v] else s.issued)
       && t.last == if stamped && |C.Acked(env, up)| >= c.w then Some(v) else s.last
  }

  ghost predicate GetNext(c: Setup, s: Sys, env: C.Env, up: set<NodeId>, landed: set<NodeId>, t: Sys) {
    && Environment(c, s, env, up)
    && var rs := Heard(c, s, env, up);
       if |rs| >= c.r && Present(rs) != [] then
         var v := Resolve(Present(rs));
         && landed <= Members(Stale(rs, v))
         && t == s.(view := Spread(s.view, landed, C.RepairRequest(c.key, v)))
       else t == s
  }

  /** The pass asks `target` to store `v` under the key. */
  ghost predicate HandsOver(c: Setup, s: Sys, act: Act, target: NodeId, v: VersionedDoc) {
    && act.Deliver? && act.holder in s.view && act.hint in s.view[act.holder].hints
    && var h := s.view[act.holder].hints[act.hint];
       && H.Handled(act.hint, h, act.now, act.up, act.fault)
       && H.Target(act.hint) == target && h.key == c.key && h.versioned == v
  }

  /** What a hint hands over to an owner is a record of this coordinator, and it comes in time: the
      copy it replaces is not a later one. */
  ghost predicate InTime(c: Setup, s: Sys, act: Act) {
    forall n, v :: n in c.owners && HandsOver(c, s, act, n, v) ==>
      v in s.issued && (n in CopiesOf(s.view, c.key, c.owners) ==> AtLeast(v, CopiesOf(s.view, c.key, c.owners)[n]))
  }

  /** One hint of a pass, in time or not. */
  ghost predicate Delivers(s: Sys, act: Act, t: Sys)
    requires act.Deliver?
  {
    && act.holder in s.view && act.hint in s.view[act.holder].hints && act.up <= s.view.Keys
    && t == s.(view := H.ViewAfter(s.view, act.holder, act.hint, s.view[act.holder].hints[act.hint], act.now, act.up,
                                   act.fault, act.disk))
  }

  ghost predicate Next(c: Setup, s: Sys, act: Act, t: Sys) {
    match act
    case Put(doc, env, up, now) => PutNext(c, s, doc, env, up, now, t)
    case Get(env, up, landed) => GetNext(c, s, env, up, landed, t)
    case Deliver(_, _, _, _, _, _) => Delivers(s, act, t) && InTime(c, s, act)
    case Elsewhere =>
      && CopiesOf(t.view, c.key, c.owners) == CopiesOf(s.view, c.key, c.owners)
      && t.clock >= s.clock && t.issued == s.issued && t.last == s.last
  }

  ghost predicate Starting(c: Setup, s: Sys) {
    CopiesOf(s.view, c.key, c.owners) == map[] && s.issued == [] && s.last == None
  }

  ghost predicate Run(c: Setup, trace: seq<Sys>, acts: seq<Act>) {
    && |trace| == |acts| + 1 && Starting(c, trace[0])
    && forall i :: 0 <= i < |acts| ==> Next(c, trace[i], acts[i], trace[i + 1])
  }

  // ---------------------------------------------------------------------
  // The invariant
  // ---------------------------------------------------------------------

  /** All records are the coordinator's, and its clock is not behind them. */
  ghost predicate Local(c: Setup, s: Sys) {
    forall v :: v in s.issued ==> v.version.Keys == {c.local} && v.hlc <= s.clock
  }

  ghost predicate Inv(c: Setup, s: Sys) { Q.Inv(c.owners, c.w, Abs(c, s)) && Local(c, s) }

  lemma {:induction false} PutKeeps(c: Setup, s: Sys, doc: Option<Doc>, env: C.Env, up: set<NodeId>, now: nat, t: Sys)
    requires Inv(c, s) && PutNext(c, s, doc, env, up, now, t)
    ensures Inv(c, t) && Q.Grows(Abs(c, s), Abs(c, t))
  {
    hide Q.Grows, C.Attempted, C.Acked, C.Possible, C.Reached, CopiesOf, Members, Ticked, Q.Inv, Q.Possible;
    var out, standIns :|
      C.Attempted(s.view, t.view, up, env, c.w, c.local, c.key, doc, s.clock, t.clock, now, out, standIns);
    WriteIsStep(s.view, t.view, up, env, c.w, c.local, c.key, doc, s.clock, t.clock, now, out, standIns,
                Abs(c, s));
    if Ticked(s.clock, now).Stamped? {
      var op := Q.Write(c.local, doc, t.clock, C.Reached(env, up), Members(C.Acked(env, up)));
      Q.StepInv(c.owners, c.w, Abs(c, s), op);
      hide Q.Step;
      assert Abs(c, t) == Q.Step(Abs(c, s), op, c.w);
    } else {
      assert Abs(c, t) == Abs(c, s);
      GrowsNot(Abs(c, s));
    }
  }

  lemma GrowsNot(s: Q.State)
    ensures Q.Grows(s, s)
  {
  }

  lemma {:induction false} LandingsKeep(owners: set<NodeId>, w: nat, s: Q.State, rs: seq<Response>, nodes: seq<NodeId>)
    requires Q.Inv(owners, w, s) && Q.Orderly(s.issued, Present(rs)) && Q.ReadOf(owners, s, rs) && Present(rs) != []
    requires forall n :: n in nodes ==> n in Q.Nodes(rs)
    ensures var t := Q.Reached(s, Landings(nodes, Resolve(Present(rs))), w);
      Q.Inv(owners, w, t) && Q.Grows(s, t)
    decreases |nodes|
  {
    hide Q.Grows, Q.Orderly, Q.ReadOf, Present, Resolve, Q.Possible, Q.InTime, Q.Step, Q.Shaped, Q.Holders;
    var v := Resolve(Present(rs));
    if nodes != [] {
      var m := |nodes| - 1;
      LandingsKeep(owners, w, s, rs, nodes[..m]);
      assert nodes[m] in Q.Nodes(rs);
      var i :| 0 <= i < |rs| && rs[i].node == nodes[m];
      PromptRepairInTime(owners, s, rs, nodes[..m], i, w);
      Q.StepInv(owners, w, Q.Reached(s, Landings(nodes[..m], v), w), Q.Land(nodes[m], v));
      assert Landings(nodes, v)[..m] == Landings(nodes[..m], v);
      Q.GrowsOn(s, Q.Reached(s, Landings(nodes[..m], v), w), Q.Reached(s, Landings(nodes, v), w));
    } else {
      assert Landings(nodes, v) == [];
      GrowsNot(s);
    }
  }

  lemma {:induction false} Listed(some: set<NodeId>) returns (nodes: seq<NodeId>)
    ensures Members(nodes) == some
    decreases some
  {
    if some == {} {
      nodes := [];
    } else {
      var n :| n in some;
      var rest := Listed(some - {n});
      nodes := rest + [n];
      assert Members(nodes) == Members(rest) + {n} by {
        MembersIn(nodes);
        MembersIn(rest);
      }
    }
  }

  lemma {:induction false} StaleAnswered(rs: seq<Response>, v: VersionedDoc)
    ensures forall n :: n in Stale(rs, v) ==> n in Q.Nodes(rs)
    decreases |rs|
  {
    hide NeedsRepair;
    if rs != [] {
      var m := |rs| - 1;
      StaleAnswered(rs[..m], v);
      forall n | n in Q.Nodes(rs[..m]) ensures n in Q.Nodes(rs) {
        var i :| 0 <= i < m && rs[..m][i].node == n;
        assert rs[i].node == n;
      }
    }
  }

  /** A read sees only this coordinator's records, so it can be judged by clock values. */
  lemma {:induction false} ReadFacts(c: Setup, s: Sys, env: C.Env, up: set<NodeId>)
    requires Inv(c, s) && Environment(c, s, env, up)
    ensures var rs := Heard(c, s, env, up);
      && Q.ReadOf(c.owners, Abs(c, s), rs)
      && Q.Orderly(s.issued, Present(rs))
      && (Present(rs) != [] ==> Resolve(Present(rs)) in s.issued && Sound(Resolve(Present(rs))))
  {
    hide C.Acked, C.Possible, C.Answers, Members, CopiesOf, Present, Resolve, Q.ReadOf, Q.Cover;
    ReadIsRead(s.view, up, env, c.key, Abs(c, s));
    var rs := Heard(c, s, env, up);
    Q.DocsIssued(c.owners, Abs(c, s), rs);
    if Present(rs) != [] {
      Q.ResolveGivesOne(Present(rs));
      var v := Resolve(Present(rs));
      assert Q.Issued(v);
    }
    Q.OneCoordinator(c.owners, Abs(c, s), c.local, Present(rs));
  }

  lemma {:induction false} GetKeeps(c: Setup, s: Sys, env: C.Env, up: set<NodeId>, landed: set<NodeId>, t: Sys)
    requires Inv(c, s) && GetNext(c, s, env, up, landed, t)
    ensures Inv(c, t) && Q.Grows(Abs(c, s), Abs(c, t))
  {
    hide Q.Grows, C.Acked, C.Possible, C.Answers, Members, CopiesOf, Present, Resolve, Stale, Q.ReadOf, Q.Inv;
    hide Q.Orderly, Spread, Q.Reached, Landings, Q.Nodes;
    var rs := Heard(c, s, env, up);
    ReadFacts(c, s, env, up);
    if |rs| >= c.r && Present(rs) != [] {
      var v := Resolve(Present(rs));
      var nodes := Listed(landed);
      StaleAnswered(rs, v);
      LandedAnswered(c.owners, Abs(c, s), rs, Stale(rs, v), nodes);
      AnsweredInView(c, s, env, up);
      RepairIsLandings(s.view, c.key, c.owners, v, nodes, Abs(c, s), c.w);
      LandEach(Abs(c, s), nodes, v, c.w);
      LandingsKeep(c.owners, c.w, Abs(c, s), rs, nodes);
      assert Abs(c, t) == Q.Reached(Abs(c, s), Landings(nodes, v), c.w);
    } else {
      GrowsNot(Abs(c, s));
    }
  }

  lemma {:induction false} LandedAnswered(owners: set<NodeId>, s: Q.State, rs: seq<Response>, stale: seq<NodeId>,
          nodes: seq<NodeId>)
    requires Members(nodes) <= Members(stale) && Q.ReadOf(owners, s, rs) && forall n :: n in stale ==> n in Q.Nodes(rs)
    ensures Members(nodes) <= owners && Members(nodes) <= Q.Nodes(rs)
    ensures forall n :: n in nodes ==> n in Q.Nodes(rs)
  {
    MembersIn(nodes);
    MembersIn(stale);
    hide Members;
  }

  lemma {:induction false} AnsweredInView(c: Setup, s: Sys, env: C.Env, up: set<NodeId>)
    requires Environment(c, s, env, up)
    ensures Q.Nodes(Heard(c, s, env, up)) <= s.view.Keys
  {
    hide C.Acked, C.Possible, Members;
  }

  /** One hint of a pass changes at most its target's copy of its key. */
  lemma {:induction false} DeliveredCopies(c: Setup, s: Sys, act: Act, t: Sys)
    requires act.Deliver? && Delivers(s, act, t)
    ensures var h := s.view[act.holder].hints[act.hint];
      var copies := CopiesOf(s.view, c.key, c.owners);
      CopiesOf(t.view, c.key, c.owners) ==
      if H.Handled(act.hint, h, act.now, act.up, act.fault) && h.key == c.key && H.Target(act.hint) in c.owners
      then copies[H.Target(act.hint) := Record(H.Request(h))] else copies
  {
    hide ParseHintKey, H.Expired, Record, MakeHintKey, H.Finished;
  }

  lemma {:induction false} DeliverKeeps(c: Setup, s: Sys, act: Act, t: Sys)
    requires act.Deliver? && Inv(c, s) && Delivers(s, act, t) && InTime(c, s, act)
    ensures Inv(c, t) && Q.Grows(Abs(c, s), Abs(c, t))
  {
    DeliveredCopies(c, s, act, t);
    var h := s.view[act.holder].hints[act.hint];
    hide Q.Grows, Q.Issued, Q.Rank, Q.Rising, CopiesOf, H.Handled, H.ViewAfter, H.Target, Q.Cover, AtLeast;
    if H.Handled(act.hint, h, act.now, act.up, act.fault) && h.key == c.key && H.Target(act.hint) in c.owners {
      var n, v := H.Target(act.hint), h.versioned;
      assert HandsOver(c, s, act, n, v);
      LandsInTime(c, s, n, v);
      Q.StepInv(c.owners, c.w, Abs(c, s), Q.Land(n, v));
      assert Abs(c, t) == Q.Step(Abs(c, s), Q.Land(n, v), c.w);
    } else {
      assert Abs(c, t) == Abs(c, s);
      GrowsNot(Abs(c, s));
    }
  }

  lemma {:induction false} LandsInTime(c: Setup, s: Sys, n: NodeId, v: VersionedDoc)
    requires Inv(c, s) && n in c.owners && v in s.issued
    requires n in Abs(c, s).copies ==> AtLeast(v, Abs(c, s).copies[n])
    ensures Q.Possible(c.owners, Abs(c, s), Q.Land(n, v)) && Q.InTime(Abs(c, s), Q.Land(n, v)) && Sound(v)
  {
    hide Q.Rank, Q.Rising, CopiesOf, Q.Cover, AtLeast;
    assert Q.Issued(v);
    hide Q.Issued;
    if n in Abs(c, s).copies {
      Q.LaterIsCausal(c.owners, Abs(c, s), c.local, v, Abs(c, s).copies[n]);
    }
  }

  /** With one coordinator, of any two copies the later outranks the other. */
  lemma {:induction false} LocalOrderly(c: Setup, a: Q.State)
    requires Q.Shaped(c.owners, a) && forall v :: v in a.issued ==> v.version.Keys == {c.local}
    ensures Q.CopiesOrderly(a)
  {
    hide Q.Issued, Q.Rank, Q.Rising, Q.Cover, Q.Outranks;
    forall m, n | m in a.copies && n in a.copies && Q.Rank(a.issued, a.copies[m]) < Q.Rank(a.issued, a.copies[n])
      ensures Q.Outranks(a.copies[n], a.copies[m])
    {
      Q.LaterWinsExactly(c.owners, a, a.copies[n], a.copies[m]);
    }
  }

  /** What being in time is worth. When every read of r owners finds `x`, a hint that hands `v` over to
      an owner takes that away exactly when `v` is causally before `x`, the copy it replaces is `x` or
      later, and no such copy can be spared. */
  lemma {:induction false} HintLosesExactly(c: Setup, s: Sys, act: Act, t: Sys, n: NodeId, v: VersionedDoc,
          x: VersionedDoc)
    requires Inv(c, s) && act.Deliver? && Delivers(s, act, t) && HandsOver(c, s, act, n, v)
    requires n in c.owners && v in s.issued && x in s.issued
    requires c.r <= |c.owners| && |Q.Cover(Abs(c, s), x)| + c.r > |c.owners|
    ensures !(forall rs :: Q.ReadOf(c.owners, Abs(c, t), rs) && |rs| >= c.r ==> Q.Fresh(Abs(c, t), x, rs)) <==>
      && !AtLeast(v, x) && n in Q.Cover(Abs(c, s), x)
      && |Q.Cover(Abs(c, s), x)| + c.r == |c.owners| + 1
  {
    DeliveredCopies(c, s, act, t);
    hide Q.Rank, Q.Rising, CopiesOf, H.Handled, H.ViewAfter, H.Target, Q.Cover, AtLeast, Q.ReadOf, Q.Fresh;
    assert Q.Issued(v) && Sound(v);
    hide Q.Issued;
    var a := Abs(c, s);
    assert Abs(c, t) == Q.Step(a, Q.Land(n, v), c.w);
    Q.StepShaped(c.owners, c.w, a, Q.Land(n, v));
    LocalOrderly(c, Abs(c, t));
    Q.LandLosesExactly(c.owners, c.w, a, n, v, x, c.r);
    Q.LaterIsCausal(c.owners, a, c.local, v, x);
  }

  /** What every action keeps: w owners hold the last acknowledged record or a later one, and no
      owner goes back behind a record it had reached. */
  lemma {:induction false} NextKeeps(c: Setup, s: Sys, act: Act, t: Sys)
    requires Inv(c, s) && Next(c, s, act, t)
    ensures Inv(c, t) && Q.Grows(Abs(c, s), Abs(c, t))
  {
    hide PutNext, GetNext, Delivers, InTime, CopiesOf, Q.Issued, Q.Grows;
    match act
    case Put(doc, env, up, now) => PutKeeps(c, s, doc, env, up, now, t);
    case Get(env, up, landed) => GetKeeps(c, s, env, up, landed, t);
    case Deliver(_, _, _, _, _, _) => DeliverKeeps(c, s, act, t);
    case Elsewhere =>
      assert Abs(c, t) == Abs(c, s);
      GrowsNot(Abs(c, s));
  }

  lemma {:induction false} RunGrows(c: Setup, trace: seq<Sys>, acts: seq<Act>, i: nat, j: nat)
    requires Run(c, trace, acts) && i <= j <= |acts|
    ensures Q.Grows(Abs(c, trace[i]), Abs(c, trace[j]))
    decreases j
  {
    hide Next, CopiesOf, Q.Grows, Inv;
    if i < j {
      RunGrows(c, trace, acts, i, j - 1);
      RunKeeps(c, trace, acts, j - 1);
      NextKeeps(c, trace[j - 1], acts[j - 1], trace[j]);
      Q.GrowsOn(Abs(c, trace[i]), Abs(c, trace[j - 1]), Abs(c, trace[j]));
    } else {
      GrowsNot(Abs(c, trace[i]));
    }
  }

  /** At every moment of every run, w owners hold the last acknowledged record or a later one, and
      every record is this coordinator's. */
  lemma {:induction false} RunKeeps(c: Setup, trace: seq<Sys>, acts: seq<Act>, i: nat)
    requires Run(c, trace, acts) && i <= |acts|
    ensures Inv(c, trace[i])
    decreases i
  {
    hide Next, CopiesOf;
    if i > 0 {
      RunKeeps(c, trace, acts, i - 1);
      NextKeeps(c, trace[i - 1], acts[i - 1], trace[i]);
    }
  }

  /** A read of r owners finds every record that w owners have reached, or a causally later one. */
  lemma {:induction false} ReadCovers(c: Setup, s: Sys, env: C.Env, up: set<NodeId>, v: VersionedDoc)
    requires Inv(c, s) && Environment(c, s, env, up) && v in s.issued && |Q.Cover(Abs(c, s), v)| >= c.w
    requires c.r + c.w > |c.owners| && |Heard(c, s, env, up)| >= c.r
    ensures Present(Heard(c, s, env, up)) != []
    ensures Returns(c, Heard(c, s, env, up), v)
  {
    hide Environment, Heard, Present, Resolve, Stale, CopiesOf, Order, AtLeast;
    hide Q.ReadOf, Q.Orderly, Q.Cover, Q.Issued, Q.Rank, Q.Rising;
    ReadFacts(c, s, env, up);
    var rs := Heard(c, s, env, up);
    Q.EnoughCover(c.owners, Abs(c, s), v, rs);
    Q.LaterIsCausal(c.owners, Abs(c, s), c.local, Resolve(Present(rs)), v);
  }

  /** The read returns a version equal to or causally after that of `v`, and exactly its document
      (none for a delete) if the versions are equal. */
  ghost predicate Returns(c: Setup, rs: seq<Response>, v: VersionedDoc)
    requires Present(rs) != []
  {
    var winner := Resolve(Present(rs));
    && Outcome(rs, c.r) == Found(winner.document, winner.version, |Stale(rs, winner)|)
    && AtLeast(winner, v)
    && (Order(winner.version, v.version).Equal? ==> winner == v && Outcome(rs, c.r).document == v.document)
  }

  /** Freshness. In every run of one coordinator, whatever requests fail, whichever repairs land
      during their read, whichever hints are delivered in time and however the clock is read: with
      r + w > n, a read that hears from r owners returns a version equal to or causally after that
      of the last write or delete which w owners acknowledged, and exactly its document (none for a
      delete) if the versions are equal. */
  lemma {:induction false} EveryReadIsFresh(c: Setup, trace: seq<Sys>, acts: seq<Act>, i: nat)
    requires Run(c, trace, acts) && i < |acts| && acts[i].Get? && Environment(c, trace[i], acts[i].env, acts[i].up)
    requires c.r + c.w > |c.owners| && |Heard(c, trace[i], acts[i].env, acts[i].up)| >= c.r && trace[i].last.Some?
    ensures Present(Heard(c, trace[i], acts[i].env, acts[i].up)) != []
    ensures Returns(c, Heard(c, trace[i], acts[i].env, acts[i].up), trace[i].last.value)
  {
    hide Next, Starting, Environment, Heard, Present, Returns, CopiesOf, Q.Cover, Q.Issued, Q.Rank, Q.Rising;
    RunKeeps(c, trace, acts, i);
    ReadCovers(c, trace[i], acts[i].env, acts[i].up, trace[i].last.value);
  }
}
