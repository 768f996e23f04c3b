/**
 The membership table of one node: records stamped by (generation, clock
 value), changed along the edges of the lifecycle graph, with a cached ring
 of the healthy members.
 */
module Membership {
  import opened Text
  import opened Hlc
  import opened HybridClock
  import opened Ring

  // ---------------------------------------------------------------------
  // Lifecycle
  // ---------------------------------------------------------------------

  datatype NodeState =
    | Joining | Bootstrapping | Healthy | Leaving | Draining | Suspect | Down | Rebuilding

  function ValidTransitions(s: NodeState): set<NodeState> {
    match s
    case Joining => {Bootstrapping, Down}
    case Bootstrapping => {Healthy, Down}
    case Healthy => {Leaving, Draining, Suspect, Down}
    case Leaving => {Draining, Down}
    case Draining => {Down}
    case Suspect => {Healthy, Down}
    case Down => {Rebuilding, Joining}
    case Rebuilding => {Healthy, Down}
  }

  /** Stay, or follow one edge. */
  predicate Step(from: NodeState, to: NodeState) { from == to || to in ValidTransitions(from) }

  /** From where each state can be entered. */
  lemma EnteredFrom(s: NodeState, t: NodeState)
    ensures t in ValidTransitions(s) <==>
      match t
      case Joining => s.Down?
      case Bootstrapping => s.Joining?
      case Healthy => s.Bootstrapping? || s.Suspect? || s.Rebuilding?
      case Leaving => s.Healthy?
      case Draining => s.Healthy? || s.Leaving?
      case Suspect => s.Healthy?
      case Down => !s.Down?
      case Rebuilding => s.Down?
  {
  }

  /** A node that was not healthy becomes so only by way of bootstrapping, rebuilding or suspicion, and
      a suspect was healthy before. */
  lemma {:induction false} HealthyOnlyAfter(states: seq<NodeState>)
    requires |states| > 0 && states[0] != Healthy && states[0] != Suspect && states[|states| - 1] == Healthy
    requires forall i :: 0 <= i < |states| - 1 ==> Step(states[i], states[i + 1])
    ensures Bootstrapping in states || Rebuilding in states
    decreases |states|
  {
    var m := |states| - 1;
    if states[m - 1].Healthy? {
      HealthyOnlyAfter(states[..m]);
    } else if states[m - 1].Suspect? {
      SuspectWasHealthy(states[..m]);
    } else {
      assert states[m - 1] in states;
    }
  }

  lemma {:induction false} SuspectWasHealthy(states: seq<NodeState>)
    requires |states| > 0 && states[0] != Healthy && states[0] != Suspect && states[|states| - 1] == Suspect
    requires forall i :: 0 <= i < |states| - 1 ==> Step(states[i], states[i + 1])
    ensures Bootstrapping in states || Rebuilding in states
    decreases |states|
  {
    var m := |states| - 1;
    if states[m - 1].Suspect? {
      SuspectWasHealthy(states[..m]);
    } else {
      HealthyOnlyAfter(states[..m]);
    }
  }

  // ---------------------------------------------------------------------
  // Tables
  // ---------------------------------------------------------------------

  const DEFAULT_VNODES := 256
  const UNKNOWN_ADDRESS: nat := 0

  datatype Record = Record(state: NodeState, address: nat, generation: u64, at: Hlc)

  datatype Digest = Digest(id: NodeId, state: NodeState, generation: u64, at: Hlc)

  type Table = map<NodeId, Record>

  /** Lexicographic order of stamps. */
  predicate Newer(g: u64, h: Hlc, g': u64, h': Hlc) { g > g' || (g == g' && h > h') }

  function DigestOf(id: NodeId, r: Record): Digest { Digest(id, r.state, r.generation, r.at) }

  function Bump(g: u64): u64 { if g < U64_MAX then g + 1 else g }

  /** Local insertion or update; `None` is an invalid transition. */
  function Upsert(t: Table, id: NodeId, state: NodeState, address: nat, at: Hlc): Option<Table> {
    if id !in t then Some(t[id := Record(state, address, 0, at)])
    else if !Step(t[id].state, state) then None
    else Some(t[id := Record(state, address, Bump(t[id].generation), at)])
  }

  /** Local state change; `None` is an unknown node or an invalid transition. */
  function Transition(t: Table, id: NodeId, to: NodeState, at: Hlc): Option<Table> {
    if id !in t || !Step(t[id].state, to) then None
    else Some(t[id := Record(to, t[id].address, Bump(t[id].generation), at)])
  }

  predicate Accepts(t: Table, d: Digest) {
    if d.id in t then Newer(d.generation, d.at, t[d.id].generation, t[d.id].at) && Step(t[d.id].state, d.state)
    else d.state == Joining || d.state == Healthy
  }

  function MergeOne(t: Table, d: Digest): Table {
    if !Accepts(t, d) then t
    else
      var address := if d.id in t then t[d.id].address else UNKNOWN_ADDRESS;
      t[d.id := Record(d.state, address, d.generation, d.at)]
  }

  function MergeAll(t: Table, ds: seq<Digest>): Table
    decreases |ds|
  {
    if ds == [] then t else MergeAll(MergeOne(t, ds[0]), ds[1..])
  }

  predicate DistinctIds(ds: seq<Digest>) { forall i, j :: 0 <= i < j < |ds| ==> ds[i].id != ds[j].id }

  // ---------------------------------------------------------------------
  // What a merge keeps
  // ---------------------------------------------------------------------

  /** Nothing is forgotten and no stamp goes back. */
  predicate Forward(t: Table, t': Table) {
    forall id :: id in t ==> id in t' && !Newer(t[id].generation, t[id].at, t'[id].generation, t'[id].at)
  }

  lemma {:induction false} ForwardTransitive(a: Table, b: Table, c: Table)
    requires Forward(a, b) && Forward(b, c)
    ensures Forward(a, c)
  {
    forall id | id in a ensures id in c && !Newer(a[id].generation, a[id].at, c[id].generation, c[id].at) {
      assert id in b;
    }
  }

  lemma {:induction false} MergeForward(t: Table, ds: seq<Digest>)
    ensures Forward(t, MergeAll(t, ds))
    decreases |ds|
  {
    if ds != [] {
      MergeForward(MergeOne(t, ds[0]), ds[1..]);
      assert Forward(t, MergeOne(t, ds[0]));
      ForwardTransitive(t, MergeOne(t, ds[0]), MergeAll(t, ds));
    }
  }

  /** Merging leaves every address alone and gives members it hears of first an unknown one. */
  lemma {:induction false} MergeAddress(t: Table, ds: seq<Digest>, id: NodeId)
    requires id in MergeAll(t, ds)
    ensures MergeAll(t, ds)[id].address == if id in t then t[id].address else UNKNOWN_ADDRESS
    decreases |ds|
  {
    if ds != [] { MergeAddress(MergeOne(t, ds[0]), ds[1..], id); }
  }

  /** The record of an id that no digest names is unchanged. */
  lemma {:induction false} MergeFrame(t: Table, ds: seq<Digest>, id: NodeId)
    requires forall i :: 0 <= i < |ds| ==> ds[i].id != id
    ensures id in MergeAll(t, ds) <==> id in t
    ensures id in t ==> MergeAll(t, ds)[id] == t[id]
    decreases |ds|
  {
    if ds != [] { MergeFrame(MergeOne(t, ds[0]), ds[1..], id); }
  }

  /** With one digest per id, each decides alone what becomes of its id. */
  lemma {:induction false} MergeEach(t: Table, ds: seq<Digest>, k: nat)
    requires DistinctIds(ds) && k < |ds|
    ensures var id, m := ds[k].id, MergeAll(t, ds);
      && (id in m <==> id in MergeOne(t, ds[k]))
      && (id in m ==> m[id] == MergeOne(t, ds[k])[id])
    decreases |ds|
  {
    var t1 := MergeOne(t, ds[0]);
    if k == 0 {
      MergeFrame(t1, ds[1..], ds[0].id);
    } else {
      MergeEach(t1, ds[1..], k - 1);
      assert ds[0].id != ds[k].id;
    }
  }

  lemma {:induction false} MergeRefusesAll(t: Table, ds: seq<Digest>)
    requires forall i :: 0 <= i < |ds| ==> !Accepts(t, ds[i])
    ensures MergeAll(t, ds) == t
  {
    if ds != [] { MergeRefusesAll(t, ds[1..]); }
  }

  /** A digest is refused by the table that has just merged it. */
  lemma MergedIsRefused(t: Table, d: Digest, t': Table)
    requires d.id in t' <==> d.id in MergeOne(t, d)
    requires d.id in t' ==> t'[d.id] == MergeOne(t, d)[d.id]
    ensures !Accepts(t', d)
  {
  }

  /** Merging the same digests, one per id, a second time changes nothing. */
  lemma {:induction false} MergeTwice(t: Table, ds: seq<Digest>)
    requires DistinctIds(ds)
    ensures forall i :: 0 <= i < |ds| ==> !Accepts(MergeAll(t, ds), ds[i])
    ensures MergeAll(MergeAll(t, ds), ds) == MergeAll(t, ds)
  {
    var t' := MergeAll(t, ds);
    forall i | 0 <= i < |ds| ensures !Accepts(t', ds[i]) {
      MergeEach(t, ds, i);
      MergedIsRefused(t, ds[i], t');
    }
    MergeRefusesAll(t', ds);
  }

  /** Without the one-per-id condition the second merge can still change something: the first
      pass refuses the later digest and then takes the step that makes it acceptable. */
  lemma {:induction false} MergeTwiceNeedsDistinctIds(id: NodeId)
    ensures var t: Table := map[id := Record(Joining, 1, 0, 0)];
      var ds := [Digest(id, Healthy, 2, 0), Digest(id, Bootstrapping, 1, 0)];
      MergeAll(MergeAll(t, ds), ds) != MergeAll(t, ds)
  {
    var t: Table := map[id := Record(Joining, 1, 0, 0)];
    var a, b := Digest(id, Healthy, 2, 0), Digest(id, Bootstrapping, 1, 0);
    var t1 := t[id := Record(Bootstrapping, 1, 1, 0)];
    var t2 := t[id := Record(Healthy, 1, 2, 0)];
    assert [a, b][1..] == [b];
    assert MergeOne(t, a) == t && MergeOne(t, b) == t1;
    assert MergeAll(t, [a, b]) == MergeAll(t, [b]) == t1;
    assert MergeOne(t1, a) == t2 && MergeOne(t2, b) == t2;
    assert MergeAll(t1, [a, b]) == MergeAll(t2, [b]) == t2;
  }

  /** A local update moves the stamp forward exactly when the generation can still grow or the
      clock value does not go back. */
  lemma {:induction false} LocalForward(t: Table, id: NodeId, to: NodeState, at: Hlc)
    requires Transition(t, id, to, at).Some?
    ensures Forward(t, Transition(t, id, to, at).value) <==> t[id].generation < U64_MAX || at >= t[id].at
  {
    var t' := Transition(t, id, to, at).value;
    assert id in t && id in t';
    assert forall k :: k in t && k != id ==> t'[k] == t[k];
  }

  // ---------------------------------------------------------------------
  // The cached ring
  // ---------------------------------------------------------------------

  function HealthyOf(t: Table): set<NodeId> { set id | id in t && t[id].state == Healthy }

  /** No two of these nodes share a position. */
  ghost predicate CollisionFree(place: Placement, nodes: set<NodeId>) {
    forall m, n, i: nat, j: nat ::
      (m in nodes && n in nodes && i < DEFAULT_VNODES && j < DEFAULT_VNODES && place(m, i) == place(n, j)) ==> m == n
  }

  /** Every position belongs to a virtual node of one of these nodes, and every such position is taken. */
  ghost predicate IsRingOf(r: Positions, place: Placement, nodes: set<NodeId>) {
    && (forall p :: p in r ==> r[p] in nodes && p in Spots(place, r[p], DEFAULT_VNODES))
    && (forall n, p :: n in nodes && p in Spots(place, n, DEFAULT_VNODES) ==> p in r && r[p] == n)
  }

  /** Each of the nodes has its 256 positions, and nobody else has any. */
  lemma {:induction false} RingPositions(r: Positions, place: Placement, nodes: set<NodeId>, p: u64, n: NodeId)
    requires IsRingOf(r, place, nodes)
    ensures p in r && r[p] == n <==> n in nodes && exists i: nat :: i < 256 && place(n, i) == p
  {
    if n in nodes && exists i: nat :: i < 256 && place(n, i) == p {
      var i: nat :| i < 256 && place(n, i) == p;
      assert p in Spots(place, n, DEFAULT_VNODES);
    }
  }

  lemma RingUnique(r: Positions, r': Positions, place: Placement, nodes: set<NodeId>)
    requires IsRingOf(r, place, nodes) && IsRingOf(r', place, nodes)
    ensures r == r'
  {
  }

  lemma {:induction false} AddToRing(r: Positions, place: Placement, nodes: set<NodeId>, n: NodeId)
    requires IsRingOf(r, place, nodes) && CollisionFree(place, nodes + {n})
    ensures IsRingOf(Added(r, Spots(place, n, DEFAULT_VNODES), n), place, nodes + {n})
  {
    var spots := Spots(place, n, DEFAULT_VNODES);
    var a := Added(r, spots, n);
    assert forall m, p :: m in nodes && p in Spots(place, m, DEFAULT_VNODES) && p in spots ==> m == n;
  }

  /** A ring built by adding nodes one after the other. */
  function Build(place: Placement, order: seq<NodeId>): Positions {
    if order == [] then map[]
    else Added(Build(place, order[..|order| - 1]),
               Spots(place, order[|order| - 1], DEFAULT_VNODES), order[|order| - 1])
  }

  lemma {:induction false} BuildIsRing(place: Placement, order: seq<NodeId>)
    requires CollisionFree(place, Members(order))
    ensures IsRingOf(Build(place, order), place, Members(order))
    decreases |order|
  {
    if order != [] {
      var t, n := order[..|order| - 1], order[|order| - 1];
      assert Members(order) == Members(t) + {n};
      BuildIsRing(place, t);
      AddToRing(Build(place, t), place, Members(t), n);
    }
  }

  /** Without collisions the order of additions does not matter. */
  lemma {:induction false} BuildAnyOrder(place: Placement, order: seq<NodeId>, other: seq<NodeId>)
    requires Members(order) == Members(other) && CollisionFree(place, Members(order))
    ensures Build(place, order) == Build(place, other)
  {
    BuildIsRing(place, order);
    BuildIsRing(place, other);
    RingUnique(Build(place, order), Build(place, other), place, Members(order));
  }

  /** The ring is that of the healthy members, as far as they do not collide. */
  ghost predicate Synced(r: Positions, place: Placement, t: Table) {
    CollisionFree(place, HealthyOf(t)) ==> IsRingOf(r, place, HealthyOf(t))
  }

  /** Without collisions, a position of the cached ring belongs to a node exactly when the table has the node
      as healthy and it is one of the node's 256 positions. */
  lemma {:induction false} CachedRingHolds(ring: Positions, place: Placement, t: Table, p: u64, n: NodeId)
    requires Synced(ring, place, t) && CollisionFree(place, HealthyOf(t))
    ensures p in ring && ring[p] == n <==>
      n in t && t[n].state == Healthy && exists i: nat :: i < 256 && place(n, i) == p
  {
    hide CollisionFree, IsRingOf;
    RingPositions(ring, place, HealthyOf(t), p, n);
  }

  /** Without collisions, a ring in step with the table is the one built from any listing of the
      healthy members. */
  lemma {:induction false} CachedIsBuilt(ring: Positions, place: Placement, t: Table, order: seq<NodeId>)
    requires Synced(ring, place, t) && CollisionFree(place, HealthyOf(t)) && Members(order) == HealthyOf(t)
    ensures ring == Build(place, order)
  {
    hide Build, CollisionFree, IsRingOf, HealthyOf, Members;
    BuildIsRing(place, order);
    RingUnique(ring, Build(place, order), place, HealthyOf(t));
  }

  /** So hosts that agree on who is healthy agree on the owners of every key, whatever became of
      their tables before. */
  lemma {:induction false} RingsAgree(ring: Positions, t: Table, ring': Positions, t': Table, place: Placement,
          position: u64, n: nat)
    requires Synced(ring, place, t) && Synced(ring', place, t') && HealthyOf(t) == HealthyOf(t')
    requires CollisionFree(place, HealthyOf(t))
    ensures ring == ring' && Owners(ring, position, n) == Owners(ring', position, n)
  {
    hide CollisionFree, IsRingOf, HealthyOf, Owners;
    RingUnique(ring, ring', place, HealthyOf(t));
  }

  class ClusterMembership {
    const localNode: NodeId
    const place: Placement
    var members: Table
    var ring: Positions
    var schemaVersion: u64

    ghost predicate InSync()
      reads this
    {
      Synced(ring, place, members)
    }

    constructor (local: NodeId, state: NodeState, address: nat, now: Hlc, place: Placement)
      ensures InSync() && members == map[local := Record(state, address, 0, now)]
      ensures localNode == local && schemaVersion == 0 && this.place == place
    {
      localNode := local;
      this.place := place;
      members := map[local := Record(state, address, 0, now)];
      ring := map[];
      schemaVersion := 0;
      new;
      RebuildRing();
    }

    /** The ring is rebuilt from the healthy members, met in no particular order. */
    method RebuildRing()
      modifies this`ring
      ensures InSync()
    {
      var rebuilt := new HashRing(DEFAULT_VNODES, place);
      var todo := HealthyOf(members);
      ghost var healthy := todo;
      while todo != {}
        invariant todo <= healthy == HealthyOf(members)
        invariant rebuilt.vnodes == DEFAULT_VNODES && rebuilt.place == place && fresh(rebuilt)
        invariant CollisionFree(place, healthy) ==> IsRingOf(rebuilt.ring, place, healthy - todo)
        decreases todo
      {
        var n :| n in todo;
        if CollisionFree(place, healthy) {
          assert healthy - (todo - {n}) == (healthy - todo) + {n};
          AddToRing(rebuilt.ring, place, healthy - todo, n);
        }
        hide IsRingOf, CollisionFree;
        rebuilt.AddNode(n);
        todo := todo - {n};
      }
      assert healthy - todo == healthy;
      ring := rebuilt.ring;
    }

    /** Called after the record of one node changed: the ring is rebuilt only when the node
        entered or left the healthy set, and is in step with the table either way. */
    method EmitRebalanceIfNeeded(from: Option<NodeState>, to: NodeState, ghost before: Table, ghost id: NodeId)
      requires Synced(ring, place, before)
      requires id in members && members == before[id := members[id]] && members[id].state == to
      requires from == if id in before then Some(before[id].state) else None
      modifies this`ring
      ensures InSync()
    {
      var wasHealthy := from == Some(Healthy);
      var isHealthy := to == Healthy;
      if wasHealthy != isHealthy || (from.None? && isHealthy) {
        RebuildRing();
      } else {
        assert HealthyOf(members) == HealthyOf(before);
      }
    }

    method UpsertLocalMember(id: NodeId, state: NodeState, address: nat, at: Hlc) returns (ok: bool)
      requires InSync()
      modifies this
      ensures InSync() && schemaVersion == old(schemaVersion)
      ensures ok <==> Upsert(old(members), id, state, address, at).Some?
      ensures members == if ok then Upsert(old(members), id, state, address, at).value else old(members)
    {
      var from: Option<NodeState> := None;
      var generation := 0;
      if id in members {
        if !Step(members[id].state, state) {
          return false;
        }
        from := Some(members[id].state);
        generation := Bump(members[id].generation);
      }
      ghost var before := members;
      members := members[id := Record(state, address, generation, at)];
      EmitRebalanceIfNeeded(from, state, before, id);
      ok := true;
    }

    method TransitionState(id: NodeId, to: NodeState, at: Hlc) returns (ok: bool)
      requires InSync()
      modifies this
      ensures InSync() && schemaVersion == old(schemaVersion)
      ensures ok <==> Transition(old(members), id, to, at).Some?
      ensures members == if ok then Transition(old(members), id, to, at).value else old(members)
    {
      if id !in members {
        return false;
      }
      var current := members[id];
      if !Step(current.state, to) {
        return false;
      }
      ghost var before := members;
      members := members[id := Record(to, current.address, Bump(current.generation), at)];
      EmitRebalanceIfNeeded(Some(current.state), to, before, id);
      ok := true;
    }

    /** The flag says exactly whether the table changed. */
    method MergeRemoteDigests(remote: seq<Digest>) returns (changed: bool)
      requires InSync()
      modifies this
      ensures InSync() && schemaVersion == old(schemaVersion)
      ensures members == MergeAll(old(members), remote)
      ensures changed <==> members != old(members)
      ensures Forward(old(members), members)
    {
      changed := false;
      ghost var start := members;
      assert remote[0..] == remote;
      for i := 0 to |remote|
        invariant InSync() && schemaVersion == old(schemaVersion)
        invariant MergeAll(members, remote[i..]) == MergeAll(start, remote)
        invariant changed <==> members != start
        invariant Forward(start, members)
      {
        ghost var before := members;
        var d := remote[i];
        assert remote[i..][1..] == remote[i + 1..];
        var accepted := MergeDigest(d);
        AcceptedChanges(start, before, d);
        ForwardTransitive(start, before, members);
        changed := changed || accepted;
      }
    }

    method MergeDigest(d: Digest) returns (accepted: bool)
      requires InSync()
      modifies this
      ensures InSync() && schemaVersion == old(schemaVersion)
      ensures members == MergeOne(old(members), d)
      ensures accepted <==> Accepts(old(members), d)
      ensures Forward(old(members), members)
    {
      ghost var before := members;
      if d.id in members {
        var local := members[d.id];
        if !Newer(d.generation, d.at, local.generation, local.at) {
          return false;
        }
        if !Step(local.state, d.state) {
          return false;
        }
        members := members[d.id := Record(d.state, local.address, d.generation, d.at)];
        EmitRebalanceIfNeeded(Some(local.state), d.state, before, d.id);
      } else {
        if d.state != Joining && d.state != Healthy {
          return false;
        }
        members := members[d.id := Record(d.state, UNKNOWN_ADDRESS, d.generation, d.at)];
        EmitRebalanceIfNeeded(None, d.state, before, d.id);
      }
      accepted := true;
    }
  }

  /** An accepted digest leaves a table that differs from every table it has moved forward from. */
  lemma {:induction false} AcceptedChanges(start: Table, before: Table, d: Digest)
    requires Forward(start, before)
    ensures Accepts(before, d) ==> MergeOne(before, d) != start
    ensures !Accepts(before, d) ==> MergeOne(before, d) == before
  {
    if Accepts(before, d) {
      assert d.id in MergeOne(before, d);
      assert d.id in start ==> d.id in before;
    }
  }
}
