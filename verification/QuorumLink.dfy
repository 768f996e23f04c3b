/**
 The coordinator's operations are steps of the runs in QuorumRun.
 */
module QuorumLink {
  import opened Text
  import opened Hlc
  import opened HybridClock
  import opened Ring
  import opened Resolver
  import opened Replica
  import opened FanOut
  import opened ReadRepair
  import C = Coordinator
  import Q = QuorumRun

  /** The copies of one key that the owners hold. */
  ghost function CopiesOf(view: View, key: ObjectKey, owners: set<NodeId>): map<NodeId, VersionedDoc> {
    map n | n in owners && n in view && key in view[n].docs :: view[n].docs[key]
  }

  lemma {:induction false} ReachedFacts(env: C.Env, up: set<NodeId>)
    requires C.Possible(env)
    ensures Members(C.Acked(env, up)) <= C.Reached(env, up) <= Members(env.owners)
    ensures |Members(C.Acked(env, up))| == |C.Acked(env, up)|
  {
    hide Select;
    C.SplitFacts(env, up);
    DistinctCount(C.Acked(env, up));
    SelectFacts(env.order, Ackers(up, env.faults) - env.panics);
    MembersIn(env.order);
    MembersIn(C.Acked(env, up));
    hide Members;
    assert forall n :: n in C.Acked(env, up) ==> n in Takers(up, env.faults);
  }

  lemma MembersIn(s: seq<NodeId>)
    ensures forall n :: n in Members(s) <==> n in s
  {
  }

  lemma SpreadCopies(before: View, after: View, key: ObjectKey, owners: set<NodeId>, takers: set<NodeId>,
          req: WriteRequest)
    requires C.DocsSpread(before, after, takers, req) && req.key == key && takers <= owners && takers <= before.Keys
    ensures CopiesOf(after, key, owners) == CopiesOf(before, key, owners) + (map n | n in takers :: Record(req))
  {
    hide Record;
  }

  /** A write or delete of the coordinator, successful or not, is a write step stamped by the
      coordinator's clock, which is not behind its own earlier records: it changes the state just
      so, and it counts as acknowledged by a write quorum exactly when w owners acknowledged it in
      place. Without a clock value nothing changes. */
  lemma {:induction false} WriteIsStep(before: View, after: View, up: set<NodeId>, env: C.Env, w: nat, local: NodeId,
          key: ObjectKey, doc: Option<Doc>, clock: Hlc, state: Hlc, now: nat, out: C.WriteOutcome,
          standIns: map<NodeId, NodeId>, s: Q.State)
    requires C.Possible(env) && up <= before.Keys
    requires C.Attempted(before, after, up, env, w, local, key, doc, clock, state, now, out, standIns)
    requires s.copies == CopiesOf(before, key, Members(env.owners))
    requires forall v :: v in s.issued && v.version.Keys == {local} ==> v.hlc <= clock
    ensures var copies := CopiesOf(after, key, Members(env.owners));
      if Ticked(clock, now).Stamped? then
        var op := Q.Write(local, doc, state, C.Reached(env, up), Members(C.Acked(env, up)));
        var v := Q.NewRecord(local, doc, state);
        && state > clock && Q.Possible(Members(env.owners), s, op)
        && Q.Step(s, op, w) == Q.State(copies, s.issued + [v], if |C.Acked(env, up)| >= w then Some(v) else s.last)
      else copies == s.copies && state == clock
  {
    hide C.Durable, C.Chosen, C.DocsSpread, C.Acked, C.Possible, CopiesOf, Members, Ticked;
    if Ticked(clock, now).Stamped? {
      ReachedFacts(env, up);
      ReachedUp(env, up);
      SpreadCopies(before, after, key, Members(env.owners), C.Reached(env, up), C.Request(local, key, doc, state));
    }
  }

  lemma ReachedUp(env: C.Env, up: set<NodeId>)
    ensures C.Reached(env, up) <= up
  {
  }

  /** A read of the coordinator is a read of the run's state. */
  lemma {:induction false} ReadIsRead(view: View, up: set<NodeId>, env: C.Env, key: ObjectKey, s: Q.State)
    requires C.Possible(env) && up <= view.Keys
    requires s.copies == CopiesOf(view, key, Members(env.owners))
    ensures forall n :: n in C.Acked(env, up) ==> n in view
    ensures Q.ReadOf(Members(env.owners), s, C.Answers(view, key, C.Acked(env, up)))
  {
    hide Select;
    C.SplitFacts(env, up);
    SelectFacts(env.order, Ackers(up, env.faults) - env.panics);
    MembersIn(env.order);
    var nodes := C.Acked(env, up);
    assert forall n :: n in nodes ==> n in env.order && n in up;
    hide Members;
    assert forall i :: 0 <= i < |nodes| ==> nodes[i] in nodes;
  }

  function Landings(nodes: seq<NodeId>, v: VersionedDoc): seq<Q.Op> {
    seq(|nodes|, i requires 0 <= i < |nodes| => Q.Land(nodes[i], v))
  }

  lemma {:induction false} LandEach(s: Q.State, nodes: seq<NodeId>, v: VersionedDoc, w: nat)
    ensures Q.Reached(s, Landings(nodes, v), w) == s.(copies := s.copies + (map n | n in nodes :: v))
    decreases |nodes|
  {
    if nodes != [] {
      var m := |nodes| - 1;
      assert Landings(nodes, v)[..m] == Landings(nodes[..m], v);
      LandEach(s, nodes[..m], v, w);
      assert nodes == nodes[..m] + [nodes[m]];
      assert s.copies + (map n | n in nodes :: v) == (s.copies + (map n | n in nodes[..m] :: v))[nodes[m] := v];
    } else {
      assert s.copies + (map n | n in nodes :: v) == s.copies;
    }
  }

  lemma SpreadIsSpread(view: View, takers: set<NodeId>, req: WriteRequest)
    requires !req.isHint
    ensures C.DocsSpread(view, Spread(view, takers, req), takers, req)
  {
    hide Record;
  }

  /** A read repair is a sequence of landings of the winner. */
  lemma {:induction false} RepairIsLandings(view: View, key: ObjectKey, owners: set<NodeId>, winner: VersionedDoc,
          nodes: seq<NodeId>, s: Q.State, w: nat)
    requires Sound(winner) && Members(nodes) <= owners && Members(nodes) <= view.Keys
    requires s.copies == CopiesOf(view, key, owners)
    ensures Storable(C.RepairRequest(key, winner))
    ensures Q.Reached(s, Landings(nodes, winner), w).copies ==
      CopiesOf(Spread(view, Members(nodes), C.RepairRequest(key, winner)), key, owners)
  {
    var req := C.RepairRequest(key, winner);
    assert Storable(req);
    C.RepairStoresWinner(key, winner);
    assert req.key == key;
    SpreadIsSpread(view, Members(nodes), req);
    LandEach(s, nodes, winner, w);
    SameMembers(nodes, winner);
    hide *;
    SpreadCopies(view, Spread(view, Members(nodes), req), key, owners, Members(nodes), req);
  }

  /** Repairs that land before the next operation are always in time: each is a possible step, and
      replaces no newer copy, whichever of them have landed already. */
  lemma {:induction false} PromptRepairInTime(owners: set<NodeId>, s: Q.State, rs: seq<Response>, done: seq<NodeId>,
          i: nat, w: nat)
    requires Q.Shaped(owners, s) && Q.Orderly(s.issued, Present(rs)) && Q.ReadOf(owners, s, rs)
    requires Present(rs) != [] && i < |rs|
    ensures var v := Resolve(Present(rs));
      var t := Q.Reached(s, Landings(done, v), w);
      Q.Possible(owners, t, Q.Land(rs[i].node, v)) && Q.InTime(t, Q.Land(rs[i].node, v))
  {
    hide Q.Shaped, Q.Rank, Q.Orderly, Q.ReadOf, Present, Resolve, Q.Reached, Landings;
    Q.WinnerNotOlder(owners, s, rs, i);
    LandEach(s, done, Resolve(Present(rs)), w);
  }

  lemma {:induction false} SameMembers(nodes: seq<NodeId>, v: VersionedDoc)
    ensures (map n | n in nodes :: v) == (map n | n in Members(nodes) :: v)
  {
    MembersIn(nodes);
    hide Members;
  }
}
