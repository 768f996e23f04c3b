/**
 What one node stores for its replicas: documents under their keys, and hints,
 that is, writes kept on behalf of an owner that could not be reached.
 */
module Replica {
  import opened Bytes
  import opened Text
  import opened Hlc
  import opened HybridClock
  import opened VectorClock
  import opened Resolver

  /** The collection is the name's UTF-8 bytes. */
  datatype ObjectKey = ObjectKey(collection: Buf, objectId: Uuid)

  datatype WriteRequest = WriteRequest(
    key: ObjectKey, doc: Option<Doc>, version: Entries, hlc: Hlc, isHint: bool, hintTarget: Option<NodeId>)

  /** A stored hint; `Garbled` stands for bytes that no longer decode. */
  datatype HintEntry = Hint(key: ObjectKey, versioned: VersionedDoc) | Garbled

  type Docs = map<ObjectKey, VersionedDoc>
  type Hints = map<Buf, HintEntry>

  datatype Node = Node(docs: Docs, hints: Hints)

  // ---------------------------------------------------------------------
  // Keys
  // ---------------------------------------------------------------------

  function ToBytes(k: ObjectKey): Buf { k.collection + [SLASH] + ShowUuid(k.objectId) }

  /** Documents may be told apart by their storage keys, whatever the collection's name. */
  lemma {:induction false} ToBytesInjective(a: ObjectKey, b: ObjectKey)
    requires ToBytes(a) == ToBytes(b)
    ensures a == b
  {
    hide ShowUuid;
    var s := ToBytes(a);
    assert |a.collection| == |b.collection|;
    assert a.collection == s[..|s| - 37] == b.collection;
    assert ShowUuid(a.objectId) == s[|s| - 36..] == ShowUuid(b.objectId);
    UuidRoundTrip(a.objectId);
    UuidRoundTrip(b.objectId);
  }

  /** The storage key is the collection's name, a slash and the object's id as text. */
  lemma {:induction false} ToBytesSplits(k: ObjectKey)
    requires SLASH !in k.collection
    ensures SplitSlash(ToBytes(k)).Some? && SplitSlash(ToBytes(k)).value.0 == k.collection
    ensures ParseUuid(SplitSlash(ToBytes(k)).value.1) == Some(k.objectId)
  {
    hide ShowUuid, ParseUuid, SplitSlash;
    SplitJoined(k.collection, ShowUuid(k.objectId));
    UuidRoundTrip(k.objectId);
  }

  function MakeHintKey(target: NodeId, hlc: Hlc, objectId: Uuid): Buf {
    ShowUuid(target) + [SLASH] + (Digits(hlc) + [SLASH] + ShowUuid(objectId))
  }

  /** The target and clock value a hint key names; None for a key the delivery pass discards. */
  function ParseHintKey(k: Buf): Option<(NodeId, Hlc)> {
    match SplitSlash(k)
    case None => None
    case Some(first) =>
      match SplitSlash(first.1)
      case None => None
      case Some(second) =>
        match ParseUuid(first.0)
        case None => None
        case Some(target) =>
          match ParseU64(second.0)
          case None => None
          case Some(hlc) => Some((target, hlc))
  }

  lemma {:induction false} HintKeySplits(target: NodeId, hlc: Hlc, objectId: Uuid)
    ensures SplitSlash(MakeHintKey(target, hlc, objectId)) ==
      Some((ShowUuid(target), Digits(hlc) + [SLASH] + ShowUuid(objectId)))
    ensures SplitSlash(Digits(hlc) + [SLASH] + ShowUuid(objectId)) == Some((Digits(hlc), ShowUuid(objectId)))
  {
    hide ShowUuid, Digits, SplitSlash;
    UuidRoundTrip(target);
    SplitJoined(ShowUuid(target), Digits(hlc) + [SLASH] + ShowUuid(objectId));
    assert SLASH !in Digits(hlc);
    SplitJoined(Digits(hlc), ShowUuid(objectId));
  }

  /** Hint keys read back, and name their target, clock value and object unambiguously. */
  lemma {:induction false} HintKeyRoundTrip(target: NodeId, hlc: Hlc, objectId: Uuid)
    ensures ParseHintKey(MakeHintKey(target, hlc, objectId)) == Some((target, hlc))
  {
    hide ShowUuid, Digits, SplitSlash, ParseUuid, ParseU64, MakeHintKey;
    HintKeySplits(target, hlc, objectId);
    UuidRoundTrip(target);
    U64RoundTrip(hlc);
  }

  lemma {:induction false} HintKeyInjective(t1: NodeId, h1: Hlc, o1: Uuid, t2: NodeId, h2: Hlc, o2: Uuid)
    requires MakeHintKey(t1, h1, o1) == MakeHintKey(t2, h2, o2)
    ensures t1 == t2 && h1 == h2 && o1 == o2
  {
    hide ShowUuid, Digits, SplitSlash, ParseHintKey, MakeHintKey;
    HintKeyRoundTrip(t1, h1, o1);
    HintKeyRoundTrip(t2, h2, o2);
    HintKeySplits(t1, h1, o1);
    HintKeySplits(t2, h2, o2);
    UuidRoundTrip(o1);
    UuidRoundTrip(o2);
  }

  // ---------------------------------------------------------------------
  // What a request stores
  // ---------------------------------------------------------------------

  /** The record a request asks to keep: a tombstone exactly when it carries no document. */
  function Record(req: WriteRequest): VersionedDoc {
    VersionedDoc(req.doc, req.version, req.hlc, req.doc.None?)
  }

  function HintKeyOf(req: WriteRequest): Buf
    requires req.hintTarget.Some?
  {
    MakeHintKey(req.hintTarget.value, req.hlc, req.key.objectId)
  }

  predicate Storable(req: WriteRequest) { req.isHint ==> req.hintTarget.Some? }

  function Stored(node: Node, req: WriteRequest): Node
    requires Storable(req)
  {
    if req.isHint then node.(hints := node.hints[HintKeyOf(req) := Hint(req.key, Record(req))])
    else node.(docs := node.docs[req.key := Record(req)])
  }

  /** A record is a tombstone exactly when it has no document. */
  predicate Sound(v: VersionedDoc) { v.tombstone <==> v.document.None? }

  /** Every record is sound and every hint sits under the key made from its own content. */
  ghost predicate WellFormed(node: Node) {
    && (forall k :: k in node.docs ==> Sound(node.docs[k]))
    && (forall k :: k in node.hints ==> GoodHint(k, node.hints[k]))
  }

  ghost predicate GoodHint(k: Buf, h: HintEntry) {
    h.Hint? && Sound(h.versioned) && exists t: NodeId :: k == MakeHintKey(t, h.versioned.hlc, h.key.objectId)
  }

  /** No request can break that. */
  lemma {:induction false} StoredKeepsWellFormed(node: Node, req: WriteRequest)
    requires Storable(req) && WellFormed(node)
    ensures WellFormed(Stored(node, req))
  {
    hide MakeHintKey;
    if req.isHint {
      assert GoodHint(HintKeyOf(req), Hint(req.key, Record(req)));
    }
  }

  type Log = seq<(ObjectKey, VersionedDoc)>

  /** The documents left by a log of accepted records: the last record for each key. */
  function Replay(log: Log): Docs {
    if log == [] then map[] else Replay(log[..|log| - 1])[log[|log| - 1].0 := log[|log| - 1].1]
  }

  lemma {:induction false} ReplayNext(log: Log, key: ObjectKey, v: VersionedDoc)
    ensures Replay(log + [(key, v)]) == Replay(log)[key := v]
  {
    assert (log + [(key, v)])[..|log|] == log;
  }

  class ReplicaStore {
    const nodeId: NodeId
    var docs: Docs
    var hints: Hints
    /** Every document record this node ever accepted, in order. */
    ghost var accepted: Log

    constructor (nodeId: NodeId)
      ensures this.nodeId == nodeId && State() == Node(map[], map[]) && accepted == []
      ensures Valid() && WellFormed(State())
    {
      this.nodeId := nodeId;
      docs, hints, accepted := map[], map[], [];
    }

    function State(): Node
      reads this
    {
      Node(docs, hints)
    }

    ghost predicate Valid()
      reads this
    {
      docs == Replay(accepted)
    }

    method StoreHint(target: NodeId, req: WriteRequest)
      requires Valid()
      modifies this
      ensures Valid()
      ensures docs == old(docs) && accepted == old(accepted)
      ensures hints == old(hints)[MakeHintKey(target, req.hlc, req.key.objectId) := Hint(req.key, Record(req))]
    {
      hide MakeHintKey;
      var hintKey := MakeHintKey(target, req.hlc, req.key.objectId);
      hints := hints[hintKey := Hint(req.key, VersionedDoc(req.doc, req.version, req.hlc, req.doc.None?))];
    }

    /** A hint without a target is refused. A plain write is always stored as a live record. When
        the storage engine fails, nothing is stored. */
    method HandleWrite(req: WriteRequest, disk: bool) returns (ok: bool)
      requires Valid()
      modifies this
      ensures Valid()
      ensures ok <==> Storable(req) && disk
      ensures !ok ==> State() == old(State()) && accepted == old(accepted)
      ensures ok && req.isHint ==> State() == Stored(old(State()), req) && accepted == old(accepted)
      ensures ok && !req.isHint ==>
                var v := Record(req).(tombstone := false);
                && State() == old(State()).(docs := old(docs)[req.key := v])
                && accepted == old(accepted) + [(req.key, v)]
    {
      hide MakeHintKey;
      if req.isHint {
        if req.hintTarget.None? || !disk { return false; }
        StoreHint(req.hintTarget.value, req);
        return true;
      }
      if !disk { return false; }
      var v := VersionedDoc(req.doc, req.version, req.hlc, false);
      ReplayNext(accepted, req.key, v);
      docs := docs[req.key := v];
      accepted := accepted + [(req.key, v)];
      return true;
    }

    method HandleDelete(req: WriteRequest, disk: bool) returns (ok: bool)
      requires Valid()
      modifies this
      ensures Valid()
      ensures ok <==> Storable(req) && disk
      ensures !ok ==> State() == old(State()) && accepted == old(accepted)
      ensures ok && req.isHint ==> State() == Stored(old(State()), req) && accepted == old(accepted)
      ensures ok && !req.isHint ==>
                var v := VersionedDoc(None, req.version, req.hlc, true);
                && State() == old(State()).(docs := old(docs)[req.key := v])
                && accepted == old(accepted) + [(req.key, v)]
    {
      hide MakeHintKey;
      if req.isHint {
        if req.hintTarget.None? || !disk { return false; }
        StoreHint(req.hintTarget.value, req);
        return true;
      }
      if !disk { return false; }
      var v := VersionedDoc(None, req.version, req.hlc, true);
      ReplayNext(accepted, req.key, v);
      docs := docs[req.key := v];
      accepted := accepted + [(req.key, v)];
      return true;
    }

    method DropHint(k: Buf)
      requires Valid()
      modifies this
      ensures Valid()
      ensures docs == old(docs) && accepted == old(accepted) && hints == old(hints) - {k}
    {
      hide Replay;
      hints := hints - {k};
    }

    /** Fails when the engine does or when the stored bytes do not decode. */
    method HandleRead(key: ObjectKey, disk: bool) returns (ok: bool, doc: Option<VersionedDoc>)
      ensures ok <==> disk
      ensures ok ==> doc == Lookup(docs, key)
    {
      if !disk { return false, None; }
      if key in docs { return true, Some(docs[key]); }
      return true, None;
    }
  }

  // ---------------------------------------------------------------------
  // The transport
  // ---------------------------------------------------------------------

  /** What may go wrong with a request to a node that is up: it is lost before it is handled, the
      node's storage fails, or it is handled and the answer is lost. */
  datatype Fault = Clean | Lost | DiskError | Unanswered {
    predicate Stores() { Clean? || Unanswered? }
  }

  /** The transport picks the handler, so that what is stored is a tombstone exactly when the
      request carries no document. */
  method Dispatch(store: ReplicaStore, req: WriteRequest, disk: bool) returns (ok: bool)
    requires store.Valid()
    modifies store
    ensures store.Valid()
    ensures ok <==> Storable(req) && disk
    ensures store.State() == if ok then Stored(old(store.State()), req) else old(store.State())
    ensures store.accepted == if ok && !req.isHint then old(store.accepted) + [(req.key, Record(req))]
                              else old(store.accepted)
  {
    hide MakeHintKey, Replay;
    if req.doc.None? && !req.isHint {
      ok := store.HandleDelete(req, disk);
    } else {
      ok := store.HandleWrite(req, disk);
    }
  }

  type View = map<NodeId, Node>
  type Logs = map<NodeId, Log>

  /** The replicas of a cluster and the links between them. */
  class Network {
    const stores: map<NodeId, ReplicaStore>
    var down: set<NodeId>
    var partitions: set<(NodeId, NodeId)>

    constructor (stores: map<NodeId, ReplicaStore>)
      requires forall m, n :: m in stores && n in stores && m != n ==> stores[m] != stores[n]
      requires forall n :: n in stores ==> stores[n].Valid()
      ensures this.stores == stores && down == {} && partitions == {} && Valid()
    {
      this.stores, down, partitions := stores, {}, {};
    }

    ghost function Repr(): set<object> { set n | n in stores :: stores[n] }

    ghost predicate Valid()
      reads Repr()
    {
      && (forall m, n :: m in stores && n in stores && m != n ==> stores[m] != stores[n])
      && (forall n :: n in stores ==> stores[n].Valid())
    }

    ghost function View(): View
      reads Repr()
    {
      map n | n in stores :: stores[n].State()
    }

    /** What each node ever accepted. */
    ghost function Logs(): Logs
      reads Repr()
    {
      map n | n in stores :: stores[n].accepted
    }

    predicate Reaches(from: NodeId, target: NodeId)
      reads this
    {
      target !in down && (from, target) !in partitions && target in stores
    }

    ghost function Reachable(from: NodeId): set<NodeId>
      reads this
    {
      set n | n in stores && Reaches(from, n)
    }

    method RemoteRead(from: NodeId, target: NodeId, key: ObjectKey, fault: Fault)
      returns (ok: bool, doc: Option<VersionedDoc>)
      ensures ok <==> Reaches(from, target) && fault.Clean?
      ensures ok <==> target in stores && target !in down && (from, target) !in partitions && fault.Clean?
      ensures ok ==> doc == Lookup(View()[target].docs, key)
    {
      if !Reaches(from, target) || fault.Lost? { return false, None; }
      ok, doc := stores[target].HandleRead(key, !fault.DiskError?);
      if fault.Unanswered? { ok := false; }
    }

    ghost predicate Takes(from: NodeId, target: NodeId, req: WriteRequest, fault: Fault)
      reads this
    {
      Reaches(from, target) && fault.Stores() && Storable(req)
    }

    /** When one node's store is all that changed, one entry of the view and of the logs changed. */
    twostate lemma OneChanged(target: NodeId)
      requires target in stores && old(Valid()) && stores[target].Valid()
      requires forall n :: n in stores && n != target ==> unchanged(stores[n])
      ensures Valid()
      ensures View() == old(View())[target := stores[target].State()]
      ensures Logs() == old(Logs())[target := stores[target].accepted]
    {
      hide Replay;
    }

    method Handle(target: NodeId, req: WriteRequest, disk: bool) returns (ok: bool)
      requires Valid() && target in stores
      modifies Repr()
      ensures Valid()
      ensures ok <==> Storable(req) && disk
      ensures View() == if ok then old(View())[target := Stored(old(View())[target], req)] else old(View())
      ensures Logs() == if ok && !req.isHint then old(Logs())[target := old(Logs())[target] + [(req.key, Record(req))]]
                        else old(Logs())
    {
      hide MakeHintKey, Replay, Record, Storable, Stored;
      assert View()[target] == stores[target].State() && Logs()[target] == stores[target].accepted;
      ok := Dispatch(stores[target], req, disk);
      OneChanged(target);
      hide Valid, View, Logs;
    }

    /** A request that fails may still have been stored. */
    method RemoteWrite(from: NodeId, target: NodeId, req: WriteRequest, fault: Fault) returns (ok: bool)
      requires Valid()
      modifies Repr()
      ensures Valid()
      ensures ok <==> Takes(from, target, req, fault) && fault.Clean?
      ensures ok <==> target in stores && target !in down && (from, target) !in partitions && fault.Clean? &&
                      (req.isHint ==> req.hintTarget.Some?)
      ensures View() == if Takes(from, target, req, fault)
                        then old(View())[target := Stored(old(View())[target], req)]
                        else old(View())
      ensures Logs() == if Takes(from, target, req, fault) && !req.isHint
                        then old(Logs())[target := old(Logs())[target] + [(req.key, Record(req))]]
                        else old(Logs())
    {
      hide Record, Stored, Valid, View, Logs;
      if !Reaches(from, target) || fault.Lost? { return false; }
      ok := Handle(target, req, !fault.DiskError?);
      if fault.Unanswered? { ok := false; }
    }

    /** Deletes a hint from the storage of the node that holds it. */
    method DropHint(holder: NodeId, k: Buf, disk: bool) returns (ok: bool)
      requires Valid() && holder in stores
      modifies Repr()
      ensures Valid() && ok == disk
      ensures View() == if ok then WithoutHint(old(View()), holder, k) else old(View())
      ensures Logs() == old(Logs())
    {
      hide Replay;
      ok := disk;
      if !disk { return; }
      stores[holder].DropHint(k);
      OneChanged(holder);
    }
  }

  function WithoutHint(view: View, holder: NodeId, k: Buf): View
    requires holder in view
  {
    view[holder := view[holder].(hints := view[holder].hints - {k})]
  }
}
