/**
 Quorum reads, writes and deletes.
 */
module Coordinator {
  import opened Text
  import opened Hlc
  import opened HybridClock
  import opened VectorClock
  import opened Ring
  import opened Resolver
  import opened Replica
  import opened FanOut
  import opened Idempotency
  import opened ReadRepair

  datatype WriteOutcome =
    | Written(result: WriteResult)
    | TooFewWritten(needed: nat, available: nat)
    | KeyConflict
    | NoStamp(stamp: Stamp)

  // ---------------------------------------------------------------------
  // Durability
  // ---------------------------------------------------------------------

  /** The owners in `acked` hold the record under its key. */
  ghost predicate OwnersHold(view: View, acked: seq<NodeId>, owners: seq<NodeId>, req: WriteRequest) {
    && Distinct(acked)
    && forall n :: n in acked ==>
         n in owners && n in view && req.key in view[n].docs && view[n].docs[req.key] == Record(req)
  }

  /** What a write that was acknowledged by `acked` and hinted by `standIns` leaves behind. */
  ghost predicate Durable(view: View, owners: seq<NodeId>, acked: seq<NodeId>, failed: seq<NodeId>,
          standIns: map<NodeId, NodeId>, req: WriteRequest) {
    && OwnersHold(view, acked, owners, req)
    && StandIns(view, standIns, owners, failed, req)
    && (forall n :: n in failed ==> n in owners && n !in acked)
  }

  /** The nodes that hold the record, in place or as a hint, are as many as were counted. */
  lemma {:induction false} DurableCount(view: View, owners: seq<NodeId>, acked: seq<NodeId>, failed: seq<NodeId>,
          standIns: map<NodeId, NodeId>, req: WriteRequest)
    requires Durable(view, owners, acked, failed, standIns, req)
    ensures Members(acked) !! standIns.Keys
    ensures |Members(acked) + standIns.Keys| == |acked| + |standIns|
  {
    hide StandIns, OwnersHold;
    assert Distinct(acked) && forall n :: n in acked ==> n in owners by { OwnersHeld(view, acked, owners, req); }
    assert forall f :: f in standIns ==> f !in owners by { StandInsApart(view, standIns, owners, failed, req); }
    DistinctCount(acked);
    assert |standIns.Keys| == |standIns|;
  }

  lemma OwnersHeld(view: View, acked: seq<NodeId>, owners: seq<NodeId>, req: WriteRequest)
    requires OwnersHold(view, acked, owners, req)
    ensures Distinct(acked) && forall n :: n in acked ==> n in owners
  {
  }

  lemma StandInsApart(view: View, standIns: map<NodeId, NodeId>, owners: seq<NodeId>, failed: seq<NodeId>,
          req: WriteRequest)
    requires StandIns(view, standIns, owners, failed, req)
    ensures forall f :: f in standIns ==> f !in owners
  {
    hide KeepsFor;
  }

  /** Acknowledged owners hold the record once it was spread. */
  lemma {:induction false} SpreadHolds(view: View, owners: seq<NodeId>, order: seq<NodeId>, takers: set<NodeId>,
          good: set<NodeId>, req: WriteRequest)
    requires Distinct(order) && Members(order) == Members(owners) && good <= takers <= view.Keys && !req.isHint
    ensures OwnersHold(Spread(view, takers * Members(order), req), Select(order, good), owners, req)
  {
    hide Select, Record;
    SelectFacts(order, good);
    assert forall n :: n in order ==> n in Members(order);
    assert forall n :: n in Members(owners) ==> n in owners;
  }

  /** Hints on other nodes take nothing away from the owners. */
  lemma {:induction false} HintsKeepOwners(view: View, owners: seq<NodeId>, acked: seq<NodeId>,
          fallbacks: seq<NodeId>, failed: seq<NodeId>, m: nat, takers: set<NodeId>, req: WriteRequest)
    requires OwnersHold(view, acked, owners, req) && m <= |fallbacks| && m <= |failed| && takers <= view.Keys
    requires Distinct(fallbacks) && forall f :: f in fallbacks ==> f !in owners
    ensures OwnersHold(HintsAt(view, fallbacks, failed, m, takers, req), acked, owners, req)
  {
    hide HintsAt, Stored, Distinct;
    HintsAtFacts(view, fallbacks, failed, m, takers, req);
  }

  lemma {:induction false} HintsKeepDocs(view: View, fallbacks: seq<NodeId>, failed: seq<NodeId>, m: nat,
          takers: set<NodeId>, req: WriteRequest)
    requires m <= |fallbacks| && m <= |failed| && takers <= view.Keys
    ensures forall n :: n in view ==> HintsAt(view, fallbacks, failed, m, takers, req)[n].docs == view[n].docs
  {
    if m > 0 { HintsKeepDocs(view, fallbacks, failed, m - 1, takers, req); }
  }

  /** What the outside decides during one operation: the owners of the key and the order in which
      their answers come in, the nodes of the cluster, and how requests fare. */
  datatype Env = Env(owners: seq<NodeId>, order: seq<NodeId>, all: seq<NodeId>,
                     faults: NodeId -> Fault, panics: set<NodeId>, hintFaults: NodeId -> Fault)

  ghost predicate Possible(env: Env) {
    Distinct(env.owners) && Distinct(env.order) && Members(env.order) == Members(env.owners) && Distinct(env.all)
  }

  ghost function Acked(env: Env, up: set<NodeId>): seq<NodeId> {
    Select(env.order, Ackers(up, env.faults) - env.panics)
  }

  ghost function Failed(env: Env, up: set<NodeId>): seq<NodeId> {
    Select(env.order, Members(env.order) - Ackers(up, env.faults) - env.panics)
  }

  /** Owners that store the request, acknowledged or not. */
  ghost function Reached(env: Env, up: set<NodeId>): set<NodeId> { Takers(up, env.faults) * Members(env.order) }

  /** The owners in `takers` have the record in place and no other document anywhere has changed. */
  ghost predicate DocsSpread(before: View, after: View, takers: set<NodeId>, req: WriteRequest) {
    && after.Keys == before.Keys
    && forall n :: n in before ==>
         after[n].docs == if n in takers then before[n].docs[req.key := Record(req)] else before[n].docs
  }

  /** Stand-ins are asked only when too few owners acknowledged. */
  ghost function Chosen(env: Env, up: set<NodeId>, w: nat): map<NodeId, NodeId> {
    if |Acked(env, up)| >= w then map[]
    else
      var fallbacks, failed := Fallbacks(env.all, env.owners), Failed(env, up);
      Pairs(fallbacks, failed, Fewer(Fewer(|failed|, w), |fallbacks|), Ackers(up, env.hintFaults))
  }

  /** The effect and the outcome of replicating `req`. */
  ghost predicate Replicated(before: View, after: View, up: set<NodeId>, env: Env, w: nat, req: WriteRequest,
          out: WriteOutcome, standIns: map<NodeId, NodeId>) {
    var acks := |Acked(env, up)|;
    && Durable(after, env.owners, Acked(env, up), Failed(env, up), standIns, req)
    && DocsSpread(before, after, Reached(env, up), req)
    && standIns == Chosen(env, up, w)
    && out == if acks + |standIns| >= w then Written(WriteResult(req.version, acks, |standIns|))
              else TooFewWritten(w, acks + |standIns|)
  }

  /** The request for a fresh write or, without a document, a delete. */
  function Request(local: NodeId, key: ObjectKey, doc: Option<Doc>, hlc: Hlc): (req: WriteRequest)
    ensures !req.isHint && req.key == key && Record(req) == VersionedDoc(doc, map[local := hlc], hlc, doc.None?)
    ensures Increment(map[], local, hlc) == Some(req.version)
  {
    WriteRequest(key, doc, map[local := hlc], hlc, false, None)
  }

  /** A node holds the record, in place or as a hint. */
  ghost predicate Holds(view: View, n: NodeId, req: WriteRequest) {
    || (n in view && req.key in view[n].docs && view[n].docs[req.key] == Record(req))
    || (exists t: NodeId :: KeepsFor(view, n, t, req))
  }

  /** A write or delete succeeds exactly when at least w different nodes are counted that hold its
      record on return; otherwise the reported number is how many there are. */
  lemma {:induction false} WrittenMeansHeld(before: View, after: View, up: set<NodeId>, env: Env, w: nat,
          req: WriteRequest, out: WriteOutcome, standIns: map<NodeId, NodeId>)
    requires Replicated(before, after, up, env, w, req, out, standIns)
    ensures var holders := Members(Acked(env, up)) + standIns.Keys;
      && (forall n :: n in holders ==> Holds(after, n, req))
      && (out.Written? <==> |holders| >= w)
      && (out.Written? ==> out.result.nodesAcked + out.result.hintsStored == |holders| &&
                           out.result.nodesAcked == |Members(Acked(env, up))| &&
                           out.result.hintsStored == |standIns.Keys| && out.result.version == req.version)
      && (!out.Written? ==> out == TooFewWritten(w, |holders|))
  {
    hide Acked, Failed, Chosen, KeepsFor, DocsSpread;
    DurableCount(after, env.owners, Acked(env, up), Failed(env, up), standIns, req);
    DistinctCount(Acked(env, up));
    forall n | n in Members(Acked(env, up)) + standIns.Keys ensures Holds(after, n, req) {
      if n in standIns {
        assert KeepsFor(after, n, standIns[n], req);
      }
    }
  }

  /** The outcome of a write that takes the next clock value; nothing happens when there is none. */
  ghost predicate Attempted(before: View, after: View, up: set<NodeId>, env: Env, w: nat, local: NodeId,
          key: ObjectKey, doc: Option<Doc>, was: Hlc, state: Hlc, now: nat, out: WriteOutcome,
          standIns: map<NodeId, NodeId>) {
    var stamp := Ticked(was, now);
    if stamp.Stamped? then
      && state == stamp.hlc > was
      && Replicated(before, after, up, env, w, Request(local, key, doc, state), out, standIns)
    else after == before && state == was && out == NoStamp(stamp)
  }

  lemma {:induction false} SplitFacts(env: Env, up: set<NodeId>)
    requires Possible(env)
    ensures Distinct(Acked(env, up)) && Distinct(Failed(env, up))
    ensures forall n :: n in Failed(env, up) ==> n in env.owners && n !in Acked(env, up)
  {
    hide Select;
    SelectFacts(env.order, Ackers(up, env.faults) - env.panics);
    SelectFacts(env.order, Members(env.order) - Ackers(up, env.faults) - env.panics);
    assert forall n :: n in Members(env.owners) ==> n in env.owners;
  }

  lemma {:induction false} SpreadDurable(view: View, env: Env, up: set<NodeId>, req: WriteRequest)
    requires Possible(env) && up <= view.Keys && !req.isHint
    ensures Durable(Spread(view, Reached(env, up), req), env.owners, Acked(env, up), Failed(env, up), map[], req)
    ensures DocsSpread(view, Spread(view, Reached(env, up), req), Reached(env, up), req)
    ensures Spread(view, Reached(env, up), req).Keys == view.Keys
  {
    hide Select, OwnersHold;
    SpreadHolds(view, env.owners, env.order, Takers(up, env.faults), Ackers(up, env.faults) - env.panics, req);
    SplitFacts(env, up);
  }

  lemma {:induction false} HintsDurable(view: View, env: Env, up: set<NodeId>, m: nat, req: WriteRequest,
          standIns: map<NodeId, NodeId>)
    requires Possible(env) && up <= view.Keys && !req.isHint
    requires m <= |Fallbacks(env.all, env.owners)| && m <= |Failed(env, up)|
    requires Takers(up, env.hintFaults) <= Spread(view, Reached(env, up), req).Keys
    requires StandIns(HintsAt(Spread(view, Reached(env, up), req), Fallbacks(env.all, env.owners), Failed(env, up), m,
                              Takers(up, env.hintFaults), req), standIns, env.owners, Failed(env, up), req)
    ensures var after := HintsAt(Spread(view, Reached(env, up), req), Fallbacks(env.all, env.owners), Failed(env, up),
                                 m, Takers(up, env.hintFaults), req);
      && Durable(after, env.owners, Acked(env, up), Failed(env, up), standIns, req)
      && DocsSpread(view, after, Reached(env, up), req)
  {
    hide Select, Fallbacks, OwnersHold, StandIns, Spread, HintsAt, Reached, Acked, Failed;
    var spread := Spread(view, Reached(env, up), req);
    SpreadDurable(view, env, up, req);
    FallbacksFacts(env.all, env.owners);
    HintsKeepOwners(spread, env.owners, Acked(env, up), Fallbacks(env.all, env.owners), Failed(env, up), m,
                    Takers(up, env.hintFaults), req);
    HintsKeepDocs(spread, Fallbacks(env.all, env.owners), Failed(env, up), m, Takers(up, env.hintFaults), req);
    SplitFacts(env, up);
  }

  class QuorumCoordinator {
    const local: NodeId
    const net: Network
    const clock: WallClock
    const r: nat
    const w: nat
    const seen: IdempotencyStore

    constructor (local: NodeId, net: Network, clock: WallClock, r: nat, w: nat)
      ensures this.local == local && this.net == net && this.clock == clock && this.r == r && this.w == w
      ensures fresh(seen) && seen.cache == map[]
    {
      this.local, this.net, this.clock, this.r, this.w := local, net, clock, r, w;
      seen := new IdempotencyStore();
    }

    /** The common part of writing and deleting. Whatever the outcome, exactly the owners that were
        reached hold the record in place, every counted acknowledgement is an owner that does, and
        every counted hint is a different non-owner that keeps it for a different failed owner. */
    method Replicate(req: WriteRequest, env: Env)
      returns (out: WriteOutcome, ghost standIns: map<NodeId, NodeId>)
      requires net.Valid() && Possible(env) && !req.isHint
      modifies net.Repr()
      ensures net.Valid() && net.Reachable(local) == old(net.Reachable(local))
      ensures Replicated(old(net.View()), net.View(), net.Reachable(local), env, w, req, out, standIns)
    {
      hide *;
      ghost var view0, up := net.View(), net.Reachable(local);
      Answering(net, local, env.faults);
      Answering(net, local, env.hintFaults);
      Opened(net, local, env, req);
      var acked, failed := BroadcastWrite(net, local, env.order, req, env.faults, env.panics);
      SpreadDurable(view0, env, up, req);
      if |acked| >= w {
        standIns := map[];
        out := Written(WriteResult(req.version, |acked|, 0));
        Judged(old(net.View()), net.View(), up, env, w, req, out, standIns);
        return;
      }
      var stored;
      ghost var m := Fewer(Fewer(|failed|, w), |Fallbacks(env.all, env.owners)|);
      stored, standIns := StoreSloppyHints(net, local, req, env.owners, failed, env.all, w, env.hintFaults);
      HintsDurable(view0, env, up, m, req, standIns);
      if |acked| + stored >= w {
        out := Written(WriteResult(req.version, |acked|, stored));
      } else {
        out := TooFewWritten(w, |acked| + stored);
      }
      Judged(old(net.View()), net.View(), up, env, w, req, out, standIns);
    }

    method StampAndReplicate(key: ObjectKey, doc: Option<Doc>, env: Env, now: nat)
      returns (out: WriteOutcome, ghost standIns: map<NodeId, NodeId>)
      requires net.Valid() && Possible(env)
      modifies net.Repr(), clock
      ensures net.Valid()
      ensures Attempted(old(net.View()), net.View(), net.Reachable(local), env, w, local, key, doc,
                        old(clock.state), clock.state, now, out, standIns)
    {
      hide Replicated, Ticked, Request, Replay, Possible;
      standIns := map[];
      var stamp := clock.Tick(now);
      if !stamp.Stamped? { return NoStamp(stamp), standIns; }
      out, standIns := Replicate(Request(local, key, doc, stamp.hlc), env);
    }

    /** A write under an idempotency key that is still remembered changes nothing and answers as
        before, or conflicts. Any other write takes the next clock value and is replicated; its
        result is remembered exactly when it succeeds. */
    method QuorumWrite(key: ObjectKey, doc: Doc, ikey: Option<string>, env: Env, now: nat, at: nat, later: nat)
      returns (out: WriteOutcome, ghost standIns: map<NodeId, NodeId>)
      requires net.Valid() && Possible(env)
      modifies net.Repr(), clock, seen
      ensures net.Valid()
      ensures var kept := if ikey.Some? then Unexpired(old(seen.cache), at) else old(seen.cache);
        var look := if ikey.Some? then Recall(kept, ikey.value, doc) else Miss;
        if look.Miss? then
          && Attempted(old(net.View()), net.View(), net.Reachable(local), env, w, local, key, Some(doc),
                       old(clock.state), clock.state, now, out, standIns)
          && seen.cache == if ikey.Some? && out.Written?
                           then Unexpired(kept, later)[ikey.value := Entry(doc, out.result, later)] else kept
        else
          && net.View() == old(net.View()) && clock.state == old(clock.state) && seen.cache == kept
          && out == if look.Hit? then Written(look.result) else KeyConflict
    {
      hide Attempted, Unexpired, Recall, Replay, Possible;
      var look := Replayed(ikey, doc, at);
      standIns := map[];
      if look.Hit? { return Written(look.result), standIns; }
      if look.Conflict? { return KeyConflict, standIns; }
      out, standIns := StampAndReplicate(key, Some(doc), env, now);
      Remember(ikey, doc, out, later);
    }

    method Replayed(ikey: Option<string>, doc: Doc, at: nat) returns (look: Recollection)
      requires net.Valid()
      modifies seen
      ensures net.Valid() && net.View() == old(net.View())
      ensures seen.cache == if ikey.Some? then Unexpired(old(seen.cache), at) else old(seen.cache)
      ensures look == if ikey.Some? then Recall(seen.cache, ikey.value, doc) else Miss
    {
      hide Unexpired, Recall, Replay;
      if ikey.None? { return Miss; }
      look := seen.Get(ikey.value, doc, at);
    }

    method Remember(ikey: Option<string>, doc: Doc, out: WriteOutcome, later: nat)
      requires net.Valid()
      modifies seen
      ensures net.Valid() && net.View() == old(net.View()) && net.Reachable(local) == old(net.Reachable(local))
      ensures seen.cache == if ikey.Some? && out.Written?
                            then Unexpired(old(seen.cache), later)[ikey.value := Entry(doc, out.result, later)]
                            else old(seen.cache)
    {
      hide Unexpired, Replay;
      if ikey.Some? && out.Written? {
        seen.Store(ikey.value, doc, out.result, later);
      }
    }

    /** Asks the owners for their copies, in the order in which answers come in. */
    method Collect(key: ObjectKey, env: Env) returns (responses: seq<Response>)
      requires Possible(env)
      ensures (forall n :: n in Acked(env, net.Reachable(local)) ==> n in net.View())
      ensures responses == Answers(net.View(), key, Acked(env, net.Reachable(local)))
    {
      hide Replay, Possible, Answers, Select;
      AckedInView(env, net, local);
      ghost var view, up := net.View(), net.Reachable(local);
      ghost var good := Ackers(up, env.faults) - env.panics;
      responses := [];
      NoAnswers(view, key, env.order, good);
      for i := 0 to |env.order|
        invariant net.View() == view && net.Reachable(local) == up
        invariant forall n :: n in Select(env.order[..i], good) ==> n in view
        invariant responses == Answers(view, key, Select(env.order[..i], good))
      {
        var owner := env.order[i];
        SelectNext(env.order, i, good);
        assert owner in good <==> net.Reaches(local, owner) && env.faults(owner).Clean? && owner !in env.panics;
        if owner in good { AnswersNext(view, key, Select(env.order[..i], good), owner); }
        var ok, doc := net.RemoteRead(local, owner, key, env.faults(owner));
        if ok && owner !in env.panics {
          responses := responses + [Response(owner, doc)];
        }
      }
      assert env.order[..|env.order|] == env.order;
    }

    /** Reads from whichever owners answer. With no owner, or fewer answers than r, the read fails;
        otherwise the answers alone decide what is found and which replicas are to be repaired. */
    method QuorumRead(key: ObjectKey, env: Env) returns (out: ReadOutcome, job: Option<Job>)
      requires Possible(env)
      ensures (forall n :: n in Acked(env, net.Reachable(local)) ==> n in net.View())
      ensures env.owners == [] ==> out == TooFewRead(r, 0) && job.None?
      ensures env.owners != [] ==>
        var rs := Answers(net.View(), key, Acked(env, net.Reachable(local)));
        && out == Outcome(rs, r)
        && job == if out.Found? && Present(rs) != [] && Stale(rs, Resolve(Present(rs))) != []
                  then Some(Job(Resolve(Present(rs)), Stale(rs, Resolve(Present(rs))))) else None
    {
      hide Answers, Acked, Present, Stale, Resolve;
      if env.owners == [] {
        AckedInView(env, net, local);
        return TooFewRead(r, 0), None;
      }
      var rs := Collect(key, env);
      ghost var view, up := net.View(), net.Reachable(local);
      if |rs| < r {
        return TooFewRead(r, |rs|), None;
      }
      var docs := FilterPresent(rs);
      if docs == [] {
        assert net.View() == view && net.Reachable(local) == up;
        return Found(None, map[], 0), None;
      }
      var winner := ResolveConflict(docs);
      var stale := FilterStale(rs, winner);
      job := if stale != [] then Some(Job(winner, stale)) else None;
      assert net.View() == view && net.Reachable(local) == up;
      return Found(winner.document, winner.version, |stale|), job;
    }

    /** Sends the winner to every stale replica; failures are ignored. */
    method Repair(key: ObjectKey, job: Job, faults: NodeId -> Fault)
      requires net.Valid() && Distinct(job.stale)
      modifies net.Repr()
      ensures net.Valid()
      ensures net.View() == Spread(old(net.View()), Takers(net.Reachable(local), faults) * Members(job.stale),
                                   RepairRequest(key, job.winner))
    {
      var acked, failed := BroadcastWrite(net, local, job.stale, RepairRequest(key, job.winner), faults, {});
    }

    /** A delete is a write of no document, without idempotency. */
    method QuorumDelete(key: ObjectKey, env: Env, now: nat)
      returns (out: WriteOutcome, ghost standIns: map<NodeId, NodeId>)
      requires net.Valid() && Possible(env)
      modifies net.Repr(), clock
      ensures net.Valid()
      ensures Attempted(old(net.View()), net.View(), net.Reachable(local), env, w, local, key, None,
                        old(clock.state), clock.state, now, out, standIns)
    {
      out, standIns := StampAndReplicate(key, None, env, now);
    }
  }

  // ---------------------------------------------------------------------
  // Reading
  // ---------------------------------------------------------------------

  /** What the given nodes answer about a key. */
  ghost function Answers(view: View, key: ObjectKey, nodes: seq<NodeId>): seq<Response>
    requires forall n :: n in nodes ==> n in view
  {
    seq(|nodes|, i requires 0 <= i < |nodes| => Response(nodes[i], Lookup(view[nodes[i]].docs, key)))
  }

  lemma NoAnswers(view: View, key: ObjectKey, order: seq<NodeId>, good: set<NodeId>)
    ensures Select(order[..0], good) == [] && Answers(view, key, []) == []
  {
  }

  lemma {:induction false} AnswersNext(view: View, key: ObjectKey, nodes: seq<NodeId>, n: NodeId)
    requires n in view && forall m :: m in nodes ==> m in view
    ensures forall m :: m in nodes + [n] ==> m in view
    ensures Answers(view, key, nodes + [n]) == Answers(view, key, nodes) + [Response(n, Lookup(view[n].docs, key))]
  {
    var all := Answers(view, key, nodes + [n]);
    assert forall i :: 0 <= i < |nodes| ==> (nodes + [n])[i] == nodes[i];
    assert all == Answers(view, key, nodes) + [Response(n, Lookup(view[n].docs, key))];
  }

  lemma {:induction false} AckedInView(env: Env, net: Network, local: NodeId)
    requires Possible(env)
    ensures forall n :: n in Acked(env, net.Reachable(local)) ==> n in net.View()
  {
    hide Select;
    SelectFacts(env.order, Ackers(net.Reachable(local), env.faults) - env.panics);
  }

  /** Repair left to be done after a read: the winner, and the nodes to send it to. */
  datatype Job = Job(winner: VersionedDoc, stale: seq<NodeId>)

  /** The request of a read repair. */
  function RepairRequest(key: ObjectKey, winner: VersionedDoc): WriteRequest {
    WriteRequest(key, winner.document, winner.version, winner.hlc, false, None)
  }

  /** A repair stores the winner itself, as records are tombstones exactly when they have no document. */
  lemma RepairStoresWinner(key: ObjectKey, winner: VersionedDoc)
    ensures Record(RepairRequest(key, winner)) == winner <==> Sound(winner)
  {
  }

  method FilterPresent(rs: seq<Response>) returns (docs: seq<VersionedDoc>)
    ensures docs == Present(rs)
  {
    docs := [];
    for i := 0 to |rs|
      invariant docs == Present(rs[..i])
    {
      assert rs[..i + 1][..i] == rs[..i];
      if rs[i].doc.Some? {
        docs := docs + [rs[i].doc.value];
      }
    }
    assert rs[..|rs|] == rs;
  }

  method FilterStale(rs: seq<Response>, winner: VersionedDoc) returns (stale: seq<NodeId>)
    ensures stale == Stale(rs, winner)
  {
    hide Order;
    stale := [];
    for i := 0 to |rs|
      invariant stale == Stale(rs[..i], winner)
    {
      assert rs[..i + 1][..i] == rs[..i];
      var order := if rs[i].doc.None? then Before else Order(rs[i].doc.value.version, winner.version);
      if order.Before? || order.Concurrent? {
        stale := stale + [rs[i].node];
      }
    }
    assert rs[..|rs|] == rs;
  }

  lemma Judged(before: View, after: View, up: set<NodeId>, env: Env, w: nat, req: WriteRequest, out: WriteOutcome,
          standIns: map<NodeId, NodeId>)
    requires Durable(after, env.owners, Acked(env, up), Failed(env, up), standIns, req)
    requires DocsSpread(before, after, Reached(env, up), req)
    requires out == if |Acked(env, up)| + |standIns| >= w
                    then Written(WriteResult(req.version, |Acked(env, up)|, |standIns|))
                    else TooFewWritten(w, |Acked(env, up)| + |standIns|)
    requires |Acked(env, up)| >= w ==> standIns == map[]
    requires |Acked(env, up)| < w ==>
      var fallbacks, failed := Fallbacks(env.all, env.owners), Failed(env, up);
      standIns == Pairs(fallbacks, failed, Fewer(Fewer(|failed|, w), |fallbacks|), Ackers(up, env.hintFaults))
    ensures Replicated(before, after, up, env, w, req, out, standIns)
  {
  }

  lemma {:induction false} Opened(net: Network, local: NodeId, env: Env, req: WriteRequest)
    requires Possible(env) && !req.isHint
    ensures var up := net.Reachable(local);
      && up <= net.View().Keys && Storable(req)
      && Distinct(env.order) && Distinct(env.all)
      && Acked(env, up) == Select(env.order, Ackers(up, env.faults) - env.panics)
      && Failed(env, up) == Select(env.order, Members(env.order) - Ackers(up, env.faults) - env.panics)
      && Distinct(Failed(env, up))
      && Reached(env, up) == Takers(up, env.faults) * Members(env.order)
  {
    hide Select;
    SplitFacts(env, net.Reachable(local));
  }
}
