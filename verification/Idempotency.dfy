/**
 Idempotency keys: a repeated write is answered from memory for 15 minutes.
 */
module Idempotency {
  import opened VectorClock
  import opened Resolver

  const TTL_MS: nat := 15 * 60 * 1000

  datatype WriteResult = WriteResult(version: Entries, nodesAcked: nat, hintsStored: nat)

  datatype Entry = Entry(doc: Doc, result: WriteResult, createdAt: nat)

  type Cache = map<string, Entry>

  datatype Recollection = Miss | Hit(result: WriteResult) | Conflict

  function Elapsed(e: Entry, now: nat): nat { if now >= e.createdAt then now - e.createdAt else 0 }

  function Unexpired(cache: Cache, now: nat): Cache {
    map k | k in cache && Elapsed(cache[k], now) < TTL_MS :: cache[k]
  }

  function Recall(cache: Cache, key: string, doc: Doc): Recollection {
    if key !in cache then Miss
    else if cache[key].doc == doc then Hit(cache[key].result)
    else Conflict
  }

  class IdempotencyStore {
    var cache: Cache

    constructor ()
      ensures cache == map[]
    {
      cache := map[];
    }

    method EvictExpired(now: nat)
      modifies this
      ensures cache == Unexpired(old(cache), now)
    {
      cache := map k | k in cache && Elapsed(cache[k], now) < TTL_MS :: cache[k];
    }

    method Get(key: string, doc: Doc, now: nat) returns (r: Recollection)
      modifies this
      ensures cache == Unexpired(old(cache), now)
      ensures r == Recall(cache, key, doc)
    {
      EvictExpired(now);
      if key !in cache { return Miss; }
      var e := cache[key];
      if e.doc == doc { return Hit(e.result); }
      return Conflict;
    }

    method Store(key: string, doc: Doc, result: WriteResult, now: nat)
      modifies this
      ensures cache == Unexpired(old(cache), now)[key := Entry(doc, result, now)]
    {
      EvictExpired(now);
      cache := cache[key := Entry(doc, result, now)];
    }
  }

  // ---------------------------------------------------------------------
  // Every sequence of lookups and stores
  // ---------------------------------------------------------------------

  datatype Op = Look(at: nat) | Put(key: string, doc: Doc, result: WriteResult, at: nat)

  function Done(cache: Cache, op: Op): Cache {
    match op
    case Look(at) => Unexpired(cache, at)
    case Put(key, doc, result, at) => Unexpired(cache, at)[key := Entry(doc, result, at)]
  }

  function After(cache: Cache, ops: seq<Op>): Cache {
    if ops == [] then cache else Done(After(cache, ops[..|ops| - 1]), ops[|ops| - 1])
  }

  /** Operations of a monotone clock that do not store `key`. */
  predicate Others(ops: seq<Op>, key: string, from: nat, until: nat) {
    forall i :: 0 <= i < |ops| ==> from <= ops[i].at <= until && !(ops[i].Put? && ops[i].key == key)
  }

  lemma {:induction false} Remembered(cache: Cache, ops: seq<Op>, key: string, e: Entry, now: nat)
    requires key in cache && cache[key] == e && Others(ops, key, e.createdAt, now)
    requires now - e.createdAt < TTL_MS
    ensures key in After(cache, ops) && After(cache, ops)[key] == e
    decreases |ops|
  {
    if ops != [] {
      var m := |ops| - 1;
      assert Others(ops[..m], key, e.createdAt, now);
      Remembered(cache, ops[..m], key, e, now);
      assert ops[m].at <= now;
    }
  }

  /** A clock that stands before the time of storing forgets nothing. */
  lemma NotYetForgotten(cache: Cache, key: string, now: nat)
    requires key in cache && now <= cache[key].createdAt
    ensures key in Unexpired(cache, now) && Unexpired(cache, now)[key] == cache[key]
  {
  }

  lemma {:induction false} Forgotten(cache: Cache, ops: seq<Op>, key: string, e: Entry, now: nat)
    requires key in cache && cache[key] == e && Others(ops, key, e.createdAt, now)
    ensures key in After(cache, ops) ==> After(cache, ops)[key] == e
    decreases |ops|
  {
    if ops != [] {
      var m := |ops| - 1;
      assert Others(ops[..m], key, e.createdAt, now);
      Forgotten(cache, ops[..m], key, e, now);
    }
  }

  /** After a write is remembered at time `t`, and whatever is looked up or remembered under other
      keys until then, a lookup at `now` answers the same document with the first result and any
      other document with a conflict, exactly while less than 15 minutes have passed. */
  lemma {:induction false} ReplayWindow(cache: Cache, key: string, doc: Doc, result: WriteResult, t: nat,
          ops: seq<Op>, again: Doc, now: nat)
    requires t <= now && Others(ops, key, t, now)
    ensures var later := After(Done(cache, Put(key, doc, result, t)), ops);
      Recall(Unexpired(later, now), key, again) ==
        if now - t >= 900_000 then Miss else if again == doc then Hit(result) else Conflict
  {
    hide After;
    var e := Entry(doc, result, t);
    var first := Done(cache, Put(key, doc, result, t));
    if now - t < TTL_MS {
      Remembered(first, ops, key, e, now);
    } else {
      Forgotten(first, ops, key, e, now);
    }
  }
}
