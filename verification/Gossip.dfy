/**
 Gossip between membership tables: whole runs over a network that loses,
 duplicates and reorders messages.
 */
module Gossip {
  import opened Text
  import opened Hlc
  import opened HybridClock
  import opened Membership

  type Packet = seq<Digest>

  datatype Envelope = Envelope(from: NodeId, to: NodeId, packet: Packet)

  /** Tables of the hosts; what is in flight; for each host that has yet to answer a message, the
      host to answer; and every digest some local action has issued. */
  datatype Cluster = Cluster(
    tables: map<NodeId, Table>, net: multiset<Envelope>, owed: map<NodeId, NodeId>, issued: set<Digest>)

  /** `again` says that the network keeps another copy of what it delivers. */
  datatype Action =
    | Send(host: NodeId, to: NodeId, packet: Packet)
    | Reply(host: NodeId, packet: Packet)
    | Deliver(host: NodeId, from: NodeId, packet: Packet, again: bool)
    | LocalUpsert(host: NodeId, id: NodeId, state: NodeState, address: nat, at: Hlc)
    | LocalTransition(host: NodeId, id: NodeId, state: NodeState, at: Hlc)

  /** The packet lists every record of the table once, in some order. */
  predicate Enumerates(p: Packet, t: Table) {
    && DistinctIds(p)
    && (forall i :: 0 <= i < |p| ==> p[i].id in t && p[i] == DigestOf(p[i].id, t[p[i].id]))
    && (forall id :: id in t ==> DigestOf(id, t[id]) in p)
  }

  /** A host sends its whole table, to another node that the table lists. */
  predicate MaySend(t: Table, host: NodeId, to: NodeId, p: Packet) { to != host && to in t && Enumerates(p, t) }

  function Posted(c: Cluster, from: NodeId, to: NodeId, p: Packet): Cluster {
    c.(net := c.net + multiset{Envelope(from, to, p)}, owed := c.owed - {from})
  }

  function Received(c: Cluster, host: NodeId, from: NodeId, p: Packet, again: bool): Cluster
    requires host in c.tables
  {
    c.(tables := c.tables[host := MergeAll(c.tables[host], p)],
       net := if again then c.net else c.net - multiset{Envelope(from, host, p)},
       owed := c.owed[host := from])
  }

  function Local(c: Cluster, host: NodeId, id: NodeId, t: Option<Table>): Cluster
    requires t.Some? ==> id in t.value
  {
    match t
    case None => c
    case Some(t') => c.(tables := c.tables[host := t'], issued := c.issued + {DigestOf(id, t'[id])})
  }

  /** The code can make this action. A host answers a message before it does anything else about
      messages, or, if its clock fails it, not at all. */
  predicate Enabled(c: Cluster, a: Action) {
    && a.host in c.tables
    && match a
       case Send(host, to, p) => MaySend(c.tables[host], host, to, p)
       case Reply(host, p) => host in c.owed && Enumerates(p, c.tables[host])
       case Deliver(host, from, p, _) => Envelope(from, host, p) in c.net
       case LocalUpsert(host, id, s, address, at) => Upsert(c.tables[host], id, s, address, at).Some?
       case LocalTransition(host, id, s, at) => Transition(c.tables[host], id, s, at).Some?
  }

  /** One action; an action that the code refuses changes nothing. */
  function Act(c: Cluster, a: Action): Cluster {
    if !Enabled(c, a) then c
    else
      var t := c.tables[a.host];
      match a
      case Send(host, to, p) => Posted(c, host, to, p)
      case Reply(host, p) => Posted(c, host, c.owed[host], p)
      case Deliver(host, from, p, again) => Received(c, host, from, p, again)
      case LocalUpsert(_, id, s, address, at) => Local(c, a.host, id, Upsert(t, id, s, address, at))
      case LocalTransition(_, id, s, at) => Local(c, a.host, id, Transition(t, id, s, at))
  }

  function After(c: Cluster, run: seq<Action>): Cluster {
    if run == [] then c else Act(After(c, run[..|run| - 1]), run[|run| - 1])
  }

  /** If the action is a local one that changes a known record, the record's generation can still
      grow or its clock value does not go back. */
  predicate Rises(c: Cluster, a: Action) {
    (a.LocalUpsert? || a.LocalTransition?) && a.host in c.tables && a.id in c.tables[a.host] &&
    Step(c.tables[a.host][a.id].state, a.state) ==>
      c.tables[a.host][a.id].generation < U64_MAX || a.at >= c.tables[a.host][a.id].at
  }

  predicate AllRise(c: Cluster, run: seq<Action>) {
    forall k :: 0 <= k < |run| ==> Rises(After(c, run[..k]), run[k])
  }

  // ---------------------------------------------------------------------
  // Provenance
  // ---------------------------------------------------------------------

  predicate HeldIsIssued(t: Table, issued: set<Digest>) {
    forall id :: id in t ==> DigestOf(id, t[id]) in issued
  }

  predicate PacketIsIssued(p: Packet, issued: set<Digest>) {
    DistinctIds(p) && forall i :: 0 <= i < |p| ==> p[i] in issued
  }

  /** Every digest held or in flight was issued by some local action; packets name each id once. */
  predicate Inv(c: Cluster) {
    && (forall h :: h in c.tables ==> HeldIsIssued(c.tables[h], c.issued))
    && (forall e :: e in c.net ==> PacketIsIssued(e.packet, c.issued))
  }

  /** Each host knows only itself, and nothing has been sent. */
  predicate Starting(c: Cluster) {
    && c.net == multiset{} && c.owed == map[]
    && forall h :: h in c.tables ==> c.tables[h].Keys == {h} && DigestOf(h, c.tables[h][h]) in c.issued
  }

  lemma StartingInv(c: Cluster)
    requires Starting(c)
    ensures Inv(c)
  {
  }

  lemma {:induction false} MergeHolds(t: Table, ds: seq<Digest>, issued: set<Digest>)
    requires HeldIsIssued(t, issued)
    requires forall i :: 0 <= i < |ds| ==> ds[i] in issued
    ensures HeldIsIssued(MergeAll(t, ds), issued)
    decreases |ds|
  {
    if ds != [] {
      var t1 := MergeOne(t, ds[0]);
      assert HeldIsIssued(t1, issued) by {
        assert Accepts(t, ds[0]) ==> DigestOf(ds[0].id, t1[ds[0].id]) == ds[0];
      }
      MergeHolds(t1, ds[1..], issued);
    }
  }

  lemma {:induction false} LocalKeepsInv(c: Cluster, host: NodeId, id: NodeId, t: Option<Table>)
    requires Inv(c) && host in c.tables
    requires t.Some? ==> id in t.value && t.value == c.tables[host][id := t.value[id]]
    ensures Inv(Local(c, host, id, t))
  {
    var c' := Local(c, host, id, t);
    if t.Some? {
      assert HeldIsIssued(t.value, c'.issued) by {
        assert HeldIsIssued(c.tables[host], c.issued);
      }
      forall e | e in c'.net ensures PacketIsIssued(e.packet, c'.issued) {
        assert PacketIsIssued(e.packet, c.issued);
      }
    }
  }

  lemma {:induction false} ActKeepsInv(c: Cluster, a: Action)
    requires Inv(c)
    ensures Inv(Act(c, a))
  {
    if Enabled(c, a) {
      var t := c.tables[a.host];
      assert HeldIsIssued(t, c.issued);
      match a
      case Send(_, _, p) => assert PacketIsIssued(p, c.issued);
      case Reply(_, p) => assert PacketIsIssued(p, c.issued);
      case Deliver(_, _, p, _) =>
        assert PacketIsIssued(p, c.issued);
        MergeHolds(t, p, c.issued);
      case LocalUpsert(_, id, s, address, at) =>
        LocalKeepsInv(c, a.host, id, Upsert(t, id, s, address, at));
      case LocalTransition(_, id, s, at) =>
        LocalKeepsInv(c, a.host, id, Transition(t, id, s, at));
    }
  }

  lemma {:induction false} RunKeepsInv(c: Cluster, run: seq<Action>)
    requires Inv(c)
    ensures Inv(After(c, run))
  {
    if run != [] {
      RunKeepsInv(c, run[..|run| - 1]);
      ActKeepsInv(After(c, run[..|run| - 1]), run[|run| - 1]);
    }
  }

  // ---------------------------------------------------------------------
  // Progress
  // ---------------------------------------------------------------------

  /** Nothing forgotten, and every state changed along one edge at most. */
  predicate Walks(t: Table, t': Table) {
    forall id :: id in t ==> id in t' && Step(t[id].state, t'[id].state)
  }

  /** Moreover, no stamp back. */
  predicate Moves(t: Table, t': Table) { Walks(t, t') && Forward(t, t') }

  lemma {:induction false} MergeMoves(t: Table, p: Packet)
    requires DistinctIds(p)
    ensures Moves(t, MergeAll(t, p))
  {
    MergeForward(t, p);
    var m := MergeAll(t, p);
    forall id | id in t && id in m ensures Step(t[id].state, m[id].state) {
      if exists k :: 0 <= k < |p| && p[k].id == id {
        var k :| 0 <= k < |p| && p[k].id == id;
        MergeEach(t, p, k);
      } else {
        MergeFrame(t, p, id);
      }
    }
  }

  lemma {:induction false} LocalMoves(t: Table, id: NodeId, state: NodeState, address: nat, at: Hlc)
    ensures var u := Upsert(t, id, state, address, at);
      u.Some? ==>
        && Walks(t, u.value)
        && (Moves(t, u.value) <==> (id in t ==> t[id].generation < U64_MAX || at >= t[id].at))
    ensures var u := Transition(t, id, state, at);
      u.Some? ==> Walks(t, u.value) && (Moves(t, u.value) <==> t[id].generation < U64_MAX || at >= t[id].at)
  {
    if Transition(t, id, state, at).Some? { LocalForward(t, id, state, at); }
    if id in t && Upsert(t, id, state, address, at).Some? {
      var u := Upsert(t, id, state, address, at).value;
      assert id in u && forall k :: k in t && k != id ==> u[k] == t[k];
    }
  }

  /** An action forgets no member and changes each state along one edge at most; it takes no stamp
      back exactly when it rises. */
  lemma {:induction false} ActMoves(c: Cluster, a: Action)
    requires Inv(c)
    ensures Act(c, a).tables.Keys == c.tables.Keys
    ensures forall h :: h in c.tables ==> Walks(c.tables[h], Act(c, a).tables[h])
    ensures (forall h :: h in c.tables ==> Moves(c.tables[h], Act(c, a).tables[h])) <==> Rises(c, a)
    ensures c.issued <= Act(c, a).issued
    ensures forall e :: c.net[e] > Act(c, a).net[e] ==>
      a.Deliver? && !a.again && e == Envelope(a.from, a.host, a.packet) && c.net[e] == Act(c, a).net[e] + 1
  {
    hide Act, Moves, Walks, Inv, Rises;
    ActElsewhere(c, a);
    forall e | c.net[e] > Act(c, a).net[e]
      ensures a.Deliver? && !a.again && e == Envelope(a.from, a.host, a.packet) && c.net[e] == Act(c, a).net[e] + 1
    {
      ActNet(c, a, e);
    }
    StaysPut();
    if a.host in c.tables {
      ActOnHost(c, a);
    } else {
      RisesNowhere(c, a);
    }
  }

  lemma {:induction false} ActElsewhere(c: Cluster, a: Action)
    ensures Act(c, a).tables.Keys == c.tables.Keys && c.issued <= Act(c, a).issued
    ensures forall h :: h in c.tables && h != a.host ==> Act(c, a).tables[h] == c.tables[h]
  {
    hide MergeAll, Enumerates, Upsert, Transition;
  }

  /** Nothing in flight is used up but what is delivered for the last time. */
  lemma {:induction false} ActNet(c: Cluster, a: Action, e: Envelope)
    requires c.net[e] > Act(c, a).net[e]
    ensures a.Deliver? && !a.again && e == Envelope(a.from, a.host, a.packet) && c.net[e] == Act(c, a).net[e] + 1
  {
    hide MergeAll, Enumerates, Upsert, Transition;
  }

  lemma RisesNowhere(c: Cluster, a: Action)
    requires a.host !in c.tables
    ensures Rises(c, a)
  {
  }

  lemma StaysPut()
    ensures forall t: Table :: Walks(t, t) && Moves(t, t)
  {
  }

  lemma {:induction false} ActOnHost(c: Cluster, a: Action)
    requires Inv(c) && a.host in c.tables
    ensures a.host in Act(c, a).tables
    ensures Walks(c.tables[a.host], Act(c, a).tables[a.host])
    ensures Moves(c.tables[a.host], Act(c, a).tables[a.host]) <==> Rises(c, a)
  {
    var t := c.tables[a.host];
    match a
    case Send(_, _, _) => StaysPut();
    case Reply(_, _) => StaysPut();
    case Deliver(_, _, p, _) =>
      StaysPut();
      if Enabled(c, a) {
        assert PacketIsIssued(p, c.issued);
        MergeMoves(t, p);
      }
    case LocalUpsert(_, id, state, address, at) =>
      StaysPut();
      LocalMoves(t, id, state, address, at);
    case LocalTransition(_, id, state, at) =>
      StaysPut();
      LocalMoves(t, id, state, 0, at);
  }

  lemma {:induction false} RunKeys(c: Cluster, run: seq<Action>)
    ensures After(c, run).tables.Keys == c.tables.Keys
  {
    if run != [] { RunKeys(c, run[..|run| - 1]); }
  }

  lemma {:induction false} WalksKeep(a: Table, b: Table, c: Table)
    requires (forall id :: id in a ==> id in b) && Walks(b, c)
    ensures forall id :: id in a ==> id in c
  {
  }

  /** Between any moment of a run and its end no member is forgotten, and no stamp goes back if every
      action rises. */
  lemma {:induction false} RunForward(c: Cluster, run: seq<Action>, k: nat)
    requires Inv(c) && k <= |run|
    ensures var mid, end := After(c, run[..k]), After(c, run);
      && mid.tables.Keys == end.tables.Keys
      && (forall h, id :: h in mid.tables && id in mid.tables[h] ==> id in end.tables[h])
      && (AllRise(c, run) ==> forall h :: h in mid.tables ==> Forward(mid.tables[h], end.tables[h]))
    decreases |run|
  {
    hide Act, Inv, AllRise, Rises, Walks, Forward;
    if k == |run| {
      assert run[..k] == run;
      var mid := After(c, run);
      forall h | h in mid.tables ensures Forward(mid.tables[h], mid.tables[h]) { ForwardSelf(mid.tables[h]); }
    } else {
      var before := run[..|run| - 1];
      RunForward(c, before, k);
      assert before[..k] == run[..k];
      RunKeepsInv(c, before);
      ActMoves(After(c, before), run[|run| - 1]);
      var mid, pre, end := After(c, run[..k]), After(c, before), After(c, run);
      forall h | h in mid.tables ensures forall id :: id in mid.tables[h] ==> id in end.tables[h] {
        WalksKeep(mid.tables[h], pre.tables[h], end.tables[h]);
      }
      if AllRise(c, run) {
        AllRisePrefix(c, run);
        forall h | h in mid.tables ensures Forward(mid.tables[h], end.tables[h]) {
          ForwardTransitive(mid.tables[h], pre.tables[h], end.tables[h]);
        }
      }
    }
  }

  lemma ForwardSelf(t: Table)
    ensures Forward(t, t)
  {
  }

  lemma {:induction false} AllRisePrefix(c: Cluster, run: seq<Action>)
    requires run != [] && AllRise(c, run)
    ensures AllRise(c, run[..|run| - 1])
    ensures Rises(After(c, run[..|run| - 1]), run[|run| - 1])
  {
    hide Rises;
    var before := run[..|run| - 1];
    forall k | 0 <= k < |before| ensures Rises(After(c, before[..k]), before[k]) {
      assert before[..k] == run[..k];
    }
  }

  /** Over every run: members are never forgotten, each action changes each observed state along one
      edge at most, and it takes no stamp back exactly when it rises. */
  lemma {:induction false} RunMoves(c: Cluster, run: seq<Action>, j: nat, k: nat)
    requires Inv(c) && j <= k < |run|
    ensures var cj, ck, next := After(c, run[..j]), After(c, run[..k]), After(c, run[..k + 1]);
      && cj.tables.Keys == ck.tables.Keys == next.tables.Keys == c.tables.Keys
      && (forall h, id :: h in cj.tables && id in cj.tables[h] ==> id in ck.tables[h])
      && (forall h :: h in ck.tables ==> Walks(ck.tables[h], next.tables[h]))
      && ((forall h :: h in ck.tables ==> Moves(ck.tables[h], next.tables[h])) <==> Rises(ck, run[k]))
  {
    hide Act, Inv, Rises, Walks, Moves;
    RunKeys(c, run[..k]);
    RunForward(c, run[..k], j);
    assert run[..k][..j] == run[..j];
    RunKeepsInv(c, run[..k]);
    assert run[..k + 1][..k] == run[..k] && run[..k + 1][k] == run[k];
    ActMoves(After(c, run[..k]), run[k]);
  }

  /** No table goes back in action number k. */
  predicate NoneBack(c: Cluster, run: seq<Action>, k: nat)
    requires k < |run|
  {
    var s, t := After(c, run[..k]).tables, After(c, run[..k + 1]).tables;
    forall h :: h in s ==> h in t && Moves(s[h], t[h])
  }

  /** No action of a run takes a stamp back exactly when all of them rise; then no stamp goes back
      between any two moments either. */
  lemma {:induction false} RunRisesExactly(c: Cluster, run: seq<Action>)
    requires Inv(c)
    ensures (forall k :: 0 <= k < |run| ==> NoneBack(c, run, k)) <==> AllRise(c, run)
    ensures AllRise(c, run) ==> forall j, h :: 0 <= j <= |run| && h in After(c, run[..j]).tables ==>
      h in After(c, run).tables && Forward(After(c, run[..j]).tables[h], After(c, run).tables[h])
  {
    hide Act, Inv, Rises, Walks, Moves, After, Forward, NoneBack;
    forall k | 0 <= k < |run| ensures NoneBack(c, run, k) <==> Rises(After(c, run[..k]), run[k]) {
      OneBack(c, run, k);
    }
    if AllRise(c, run) {
      forall j | 0 <= j <= |run|
        ensures forall h :: h in After(c, run[..j]).tables ==>
          h in After(c, run).tables && Forward(After(c, run[..j]).tables[h], After(c, run).tables[h])
      {
        RunForward(c, run, j);
      }
    }
  }

  lemma {:induction false} OneBack(c: Cluster, run: seq<Action>, k: nat)
    requires Inv(c) && k < |run|
    ensures NoneBack(c, run, k) <==> Rises(After(c, run[..k]), run[k])
  {
    hide Inv, Rises, Moves, After, Act;
    RunMoves(c, run, k, k);
  }

  // ---------------------------------------------------------------------
  // Addresses
  // ---------------------------------------------------------------------

  /** The address that the host was last told locally for the member; before that, the one it had at
      the start, or the unknown one. */
  function LastGiven(c: Cluster, run: seq<Action>, h: NodeId, id: NodeId): nat
    requires h in c.tables
  {
    if run == [] then (if id in c.tables[h] then c.tables[h][id].address else UNKNOWN_ADDRESS)
    else
      var before, a := run[..|run| - 1], run[|run| - 1];
      if a.LocalUpsert? && a.host == h && a.id == id && Enabled(After(c, before), a) then a.address
      else LastGiven(c, before, h, id)
  }

  lemma {:induction false} ActAddress(c: Cluster, a: Action, h: NodeId, id: NodeId)
    requires h in c.tables && h in Act(c, a).tables && id in Act(c, a).tables[h]
    ensures Act(c, a).tables[h][id].address ==
      if a.LocalUpsert? && a.host == h && a.id == id && Enabled(c, a) then a.address
      else if id in c.tables[h] then c.tables[h][id].address else UNKNOWN_ADDRESS
  {
    hide Enumerates, MergeAll;
    if a.Deliver? && a.host == h && Enabled(c, a) { MergeAddress(c.tables[h], a.packet, id); }
  }

  /** Over every run: no gossip and no change of state touches an address; it is the one the host was
      last told locally, and unknown for a member it has only heard of. */
  lemma {:induction false} RunAddresses(c: Cluster, run: seq<Action>, h: NodeId, id: NodeId)
    requires h in c.tables && h in After(c, run).tables && id in After(c, run).tables[h]
    ensures After(c, run).tables[h][id].address == LastGiven(c, run, h, id)
    decreases |run|
  {
    if run != [] {
      hide Act, Enabled;
      var before, a := run[..|run| - 1], run[|run| - 1];
      RunKeys(c, before);
      ActAddress(After(c, before), a, h, id);
      if id in After(c, before).tables[h] {
        RunAddresses(c, before, h, id);
      } else {
        NeverGiven(c, before, h, id);
      }
    }
  }

  lemma {:induction false} NeverGiven(c: Cluster, run: seq<Action>, h: NodeId, id: NodeId)
    requires h in c.tables && h in After(c, run).tables && id !in After(c, run).tables[h]
    ensures LastGiven(c, run, h, id) == UNKNOWN_ADDRESS
    decreases |run|
  {
    if run != [] {
      var before, a := run[..|run| - 1], run[|run| - 1];
      RunKeys(c, before);
      ActKnows(After(c, before), a, h, id);
      hide Act, Enabled;
      NeverGiven(c, before, h, id);
    }
  }

  lemma {:induction false} ActKnows(c: Cluster, a: Action, h: NodeId, id: NodeId)
    requires h in c.tables && h in Act(c, a).tables && id !in Act(c, a).tables[h]
    ensures id !in c.tables[h] && !(a.LocalUpsert? && a.host == h && a.id == id && Enabled(c, a))
  {
    hide Enumerates, MergeAll;
    if a.Deliver? && a.host == h && Enabled(c, a) { MergeForward(c.tables[h], a.packet); }
  }

  // ---------------------------------------------------------------------
  // Agreement
  // ---------------------------------------------------------------------

  predicate SameStamp(d: Digest, e: Digest) { d.id == e.id && d.generation == e.generation && d.at == e.at }

  /** No stamp of a member was issued with two different states. */
  predicate IssuedOnce(issued: set<Digest>) {
    forall d, e :: d in issued && e in issued && SameStamp(d, e) ==> d.state == e.state
  }

  /** The digest is held by some host or in flight. */
  predicate Present(c: Cluster, d: Digest) {
    || (exists h :: h in c.tables && d.id in c.tables[h] && d == DigestOf(d.id, c.tables[h][d.id]))
    || (exists e :: e in c.net && d in e.packet)
  }

  lemma {:induction false} PresentIsIssued(c: Cluster, d: Digest)
    requires Inv(c) && Present(c, d)
    ensures d in c.issued
  {
    if h :| h in c.tables && d.id in c.tables[h] && d == DigestOf(d.id, c.tables[h][d.id]) {
      assert HeldIsIssued(c.tables[h], c.issued);
    } else {
      var e :| e in c.net && d in e.packet;
      assert PacketIsIssued(e.packet, c.issued);
    }
  }

  /** After every run: whatever is held or in flight was issued locally, and if stamps are
      issued once then equal stamps mean equal states everywhere. */
  lemma {:induction false} EqualStampsAgree(c: Cluster, run: seq<Action>, d: Digest, e: Digest)
    requires Inv(c) && Present(After(c, run), d) && Present(After(c, run), e) && SameStamp(d, e)
    ensures d in After(c, run).issued && e in After(c, run).issued
    ensures IssuedOnce(After(c, run).issued) ==> d.state == e.state
  {
    RunKeepsInv(c, run);
    PresentIsIssued(After(c, run), d);
    PresentIsIssued(After(c, run), e);
  }

  /** Otherwise two hosts that issued one stamp with two states refuse each other's digest. */
  lemma EqualStampsNeverReconcile(t: Table, u: Table, id: NodeId)
    requires id in t && id in u
    requires t[id].generation == u[id].generation && t[id].at == u[id].at
    ensures !Accepts(t, DigestOf(id, u[id])) && !Accepts(u, DigestOf(id, t[id]))
  {
  }

  // ---------------------------------------------------------------------
  // One node's gossip engine
  // ---------------------------------------------------------------------

  datatype Message = Message(sender: NodeId, hlc: Hlc, schema: u64, members: Packet)

  /** What one failure-detector pass makes of a state: a suspect goes down, a healthy node
      that is suspicious becomes a suspect, every other state stays. */
  function Verdict(s: NodeState, suspicious: bool): NodeState {
    if s == Suspect then Down else if s == Healthy && suspicious then Suspect else s
  }

  /** The state the detector asks for, if any; the table may refuse it. */
  function Aim(s: NodeState, suspicious: bool): Option<NodeState> {
    if s == Suspect then Some(Down) else if s != Down && suspicious then Some(Suspect) else None
  }

  /** The table after one member was judged at clock value `at`. */
  function Judged(t: Table, id: NodeId, suspicious: bool, at: Hlc): Table
    requires id in t
  {
    var aim := Aim(t[id].state, suspicious);
    if aim.Some? && Transition(t, id, aim.value, at).Some? then Transition(t, id, aim.value, at).value else t
  }

  /** A record is as it was, or has moved to its verdict with the next generation and a clock value
      from the given span. */
  predicate Renewal(r: Record, r': Record, was: Hlc, at: Hlc, suspicious: bool) {
    || r' == r
    || (&& Verdict(r.state, suspicious) != r.state && r'.state == Verdict(r.state, suspicious)
        && r'.address == r.address && r'.generation == Bump(r.generation) && was < r'.at <= at)
  }

  lemma {:induction false} JudgedRecord(t: Table, id: NodeId, suspicious: bool, was: Hlc, at: Hlc)
    requires id in t && was < at
    ensures var t' := Judged(t, id, suspicious, at);
      && t'.Keys == t.Keys && (forall k :: k in t && k != id ==> t'[k] == t[k])
      && Renewal(t[id], t'[id], was, at, suspicious) && t'[id].state == Verdict(t[id].state, suspicious)
  {
  }

  /** Judging a member is a local transition of its host. */
  lemma {:induction false} JudgedIsAction(c: Cluster, host: NodeId, id: NodeId, suspicious: bool, at: Hlc)
    requires host in c.tables && id in c.tables[host] && Aim(c.tables[host][id].state, suspicious).Some?
    ensures var to := Aim(c.tables[host][id].state, suspicious).value;
      Act(c, LocalTransition(host, id, to, at)).tables == c.tables[host := Judged(c.tables[host], id, suspicious, at)]
  {
  }

  lemma {:induction false} RenewedForward(t: Table, t': Table, was: Hlc, at: Hlc, suspicious: set<NodeId>)
    requires t'.Keys == t.Keys && forall id :: id in t ==> Renewal(t[id], t'[id], was, at, id in suspicious)
    requires forall id :: id in t ==> t[id].generation < U64_MAX
    ensures Forward(t, t')
  {
  }

  method ListDigests(t: Table) returns (p: Packet)
    ensures Enumerates(p, t)
  {
    p := [];
    var todo := t.Keys;
    while todo != {}
      invariant todo <= t.Keys && DistinctIds(p)
      invariant forall i :: 0 <= i < |p| ==> p[i].id in t && p[i].id !in todo && p[i] == DigestOf(p[i].id, t[p[i].id])
      invariant forall id :: id in t && id !in todo ==> DigestOf(id, t[id]) in p
      decreases todo
    {
      var id :| id in todo;
      p := p + [DigestOf(id, t[id])];
      todo := todo - {id};
    }
  }

  /** The listed nodes other than the local one. */
  function Peers(p: Packet, local: NodeId): (r: seq<NodeId>)
    ensures forall n :: n in r <==> n != local && exists i :: 0 <= i < |p| && p[i].id == n
  {
    if p == [] then []
    else
      var rest := Peers(p[1..], local);
      assert p == [p[0]] + p[1..];
      if p[0].id == local then rest else [p[0].id] + rest
  }

  lemma {:induction false} PeersFacts(p: Packet, t: Table, local: NodeId)
    requires Enumerates(p, t)
    ensures Peers(p, local) == [] <==> t.Keys <= {local}
    ensures forall n :: n in Peers(p, local) ==> n in t && n != local
  {
    hide Peers;
    if Peers(p, local) == [] {
      forall n | n in t ensures n == local {
        var i :| 0 <= i < |p| && p[i] == DigestOf(n, t[n]);
        assert n != local ==> n in Peers(p, local);
      }
    } else {
      var n := Peers(p, local)[0];
      assert n in Peers(p, local);
    }
  }

  class GossipEngine {
    const membership: ClusterMembership
    const clock: WallClock

    constructor (membership: ClusterMembership, clock: WallClock)
      ensures this.membership == membership && this.clock == clock
    {
      this.membership := membership;
      this.clock := clock;
    }

    /** One gossip round: nothing happens without a peer; otherwise the table is sent to one. */
    method GossipTick(choice: nat, now: nat) returns (r: Option<(NodeId, Message)>)
      modifies clock
      ensures membership.members.Keys <= {membership.localNode} ==> r.None? && clock.state == old(clock.state)
      ensures r.Some? ==> MaySend(membership.members, membership.localNode, r.value.0, r.value.1.members)
      ensures r.Some? ==> r.value.1.schema == membership.schemaVersion && r.value.1.sender == membership.localNode
      ensures if r.Some? then r.value.1.hlc == clock.state > old(clock.state) else clock.state == old(clock.state)
      ensures !(membership.members.Keys <= {membership.localNode}) ==>
        (r.Some? <==> Ticked(old(clock.state), now).Stamped?)
    {
      var digests := ListDigests(membership.members);
      var peers := Peers(digests, membership.localNode);
      PeersFacts(digests, membership.members, membership.localNode);
      hide Peers;
      if peers == [] {
        return None;
      }
      var target := peers[choice % |peers|];
      assert target in peers;
      var m := StampedMessage(now);
      return if m.Some? then Some((target, m.value)) else None;
    }

    /** What is sent lists the whole table and carries a clock value above every earlier one. */
    method StampedMessage(now: nat) returns (r: Option<Message>)
      modifies clock
      ensures r.Some? ==> Enumerates(r.value.members, membership.members)
      ensures r.Some? ==> r.value.schema == membership.schemaVersion && r.value.sender == membership.localNode
      ensures if r.Some? then r.value.hlc == clock.state > old(clock.state) else clock.state == old(clock.state)
      ensures r.Some? <==> Ticked(old(clock.state), now).Stamped?
    {
      var members := ListDigests(membership.members);
      var stamp := clock.Tick(now);
      return if stamp.Stamped?
        then Some(Message(membership.localNode, stamp.hlc, membership.schemaVersion, members)) else None;
    }

    /** A received message is merged only if its clock value could be merged. It is answered exactly
        when there is a clock value for the answer too; the reply lists the merged table and is
        stamped above the message. */
    method HandleIncoming(m: Message, now: nat, later: nat) returns (reply: Option<Message>)
      requires membership.InSync()
      modifies membership, clock
      ensures membership.InSync()
      ensures Updated(old(clock.state), m.hlc, now).Stamped? ==>
        && membership.members == MergeAll(old(membership.members), m.members)
        && membership.schemaVersion ==
           (if m.schema > old(membership.schemaVersion) then m.schema else old(membership.schemaVersion))
      ensures !Updated(old(clock.state), m.hlc, now).Stamped? ==>
        && membership.members == old(membership.members) && membership.schemaVersion == old(membership.schemaVersion)
        && clock.state == old(clock.state) && reply.None?
      ensures var stamp := Updated(old(clock.state), m.hlc, now);
        reply.Some? <==> stamp.Stamped? && Ticked(stamp.hlc, later).Stamped?
      ensures reply.Some? ==>
        && reply.value.hlc == clock.state > m.hlc && Enumerates(reply.value.members, membership.members)
        && reply.value.sender == membership.localNode && reply.value.schema == membership.schemaVersion
    {
      var stamp := clock.Update(m.hlc, now);
      if !stamp.Stamped? {
        return None;
      }
      var _ := membership.MergeRemoteDigests(m.members);
      if m.schema > membership.schemaVersion {
        membership.schemaVersion := m.schema;
      }
      reply := StampedMessage(later);
    }

    /** One member is judged at the next clock value, unless the clock gives out. */
    method Judge(id: NodeId, suspicious: bool, now: nat) returns (ok: bool)
      requires membership.InSync() && id in membership.members
      modifies membership, clock
      ensures membership.InSync() && membership.schemaVersion == old(membership.schemaVersion)
      ensures var s := old(membership.members)[id].state;
        var aims := s == Suspect || (s != Down && suspicious);
        var stamp := Ticked(old(clock.state), now);
        && (ok <==> !aims || stamp.Stamped?)
        && (aims && ok ==> clock.state == stamp.hlc > old(clock.state) &&
                           membership.members == Judged(old(membership.members), id, suspicious, clock.state))
        && (!(aims && ok) ==> clock.state == old(clock.state) && membership.members == old(membership.members))
    {
      var state := membership.members[id].state;
      if state == Suspect || (state != Down && suspicious) {
        var target := if state == Suspect then Down else Suspect;
        var stamp := clock.Tick(now);
        if !stamp.Stamped? {
          return false;
        }
        var _ := membership.TransitionState(id, target, stamp.hlc);
      }
      ok := true;
    }

    /** One pass over all members: each of them moves to its verdict with the next generation and a
        new clock value, or, when the clock gives out in between, some of them do. No healthy node
        goes down in one pass, and below the largest generation no stamp goes back. */
    method EvaluateFailureDetector(suspicious: set<NodeId>, reading: NodeId -> nat) returns (complete: bool)
      requires membership.InSync()
      modifies membership, clock
      ensures membership.InSync() && membership.members.Keys == old(membership.members.Keys)
      ensures clock.state >= old(clock.state)
      ensures forall id :: id in membership.members ==>
        var r, r' := old(membership.members)[id], membership.members[id];
        && Renewal(r, r', old(clock.state), clock.state, id in suspicious) && Step(r.state, r'.state)
        && (complete ==> r'.state == Verdict(r.state, id in suspicious))
      ensures (forall id :: id in old(membership.members) ==> old(membership.members)[id].generation < U64_MAX) ==>
        Forward(old(membership.members), membership.members)
    {
      hide Synced, Judged, Forward;
      ghost var start, was := membership.members, clock.state;
      var todo := membership.members.Keys;
      complete := true;
      while complete && todo != {}
        invariant todo <= start.Keys == membership.members.Keys && membership.InSync() && clock.state >= was
        invariant forall id :: id in start ==>
          Progressed(start[id], membership.members[id], was, clock.state, id in suspicious, id in todo)
        decreases if complete then 1 else 0, todo
      {
        var id :| id in todo;
        ghost var before, at := membership.members, clock.state;
        complete := Judge(id, id in suspicious, reading(id));
        JudgedOne(start, before, membership.members, id, was, at, clock.state, suspicious, todo, complete);
        if complete {
          todo := todo - {id};
        }
      }
      if forall id :: id in start ==> start[id].generation < U64_MAX {
        RenewedForward(start, membership.members, was, clock.state, suspicious);
      }
    }
  }

  /** A record in the middle of a pass: not judged yet, or renewed to its verdict. */
  predicate Progressed(r: Record, r': Record, was: Hlc, at: Hlc, suspicious: bool, pending: bool) {
    if pending then r' == r
    else Renewal(r, r', was, at, suspicious) && r'.state == Verdict(r.state, suspicious)
  }

  lemma {:induction false} JudgedOne(start: Table, before: Table, after: Table, id: NodeId, was: Hlc, at: Hlc,
          at': Hlc, suspicious: set<NodeId>, todo: set<NodeId>, done: bool)
    requires start.Keys == before.Keys && id in start && id in todo && was <= at <= at'
    requires forall k :: k in start ==> Progressed(start[k], before[k], was, at, k in suspicious, k in todo)
    requires var aims := Aim(before[id].state, id in suspicious).Some?;
      && (aims && done ==> at < at' && after == Judged(before, id, id in suspicious, at'))
      && (!(aims && done) ==> after == before)
    ensures after.Keys == start.Keys
    ensures forall k :: k in start ==>
      Progressed(start[k], after[k], was, at', k in suspicious, if done then k in todo - {id} else k in todo)
  {
    if Aim(before[id].state, id in suspicious).Some? && done {
      JudgedRecord(before, id, id in suspicious, at, at');
    }
    hide Judged;
  }
}
