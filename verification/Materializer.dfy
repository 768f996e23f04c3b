/**
 Building and dropping a secondary index: rows of the `indexes` column family,
 written in batches from a scan of the collection.
 */
module Materializer {
  import opened Bytes
  import opened Text
  import Base64
  import opened Storage

  const FLUSH_AT: nat := 1024

  /** Names are UTF-8 bytes. */
  datatype IndexDef = IndexDef(id: Buf, collection: Buf, field: Buf)

  /** The text of a document's field, if it is one that is indexed. */
  type Extractor = (Buf, Buf) -> Option<Buf>

  predicate ValidIdentifier(s: Buf) { s != [] && SLASH !in s && 0 !in s }

  predicate ValidDef(def: IndexDef) {
    ValidIdentifier(def.collection) && ValidIdentifier(def.id) && ValidIdentifier(def.field)
  }

  function Prefix(name: Buf): Buf { name + [SLASH] }

  function PrefixEnd(prefix: Buf): Buf { prefix + [0xFF] }

  function IndexKey(id: Buf, value: Buf, objectId: Buf): Buf {
    id + [SLASH] + (Base64.Encode(value) + [SLASH] + objectId)
  }

  /** The row for one object, if it has one; keys are read as text. */
  function RowOf(def: IndexDef, extract: Extractor, key: Buf, value: Buf): Option<Buf> {
    match SplitSlash(Lossy(key))
    case None => None
    case Some(parts) =>
      match extract(value, def.field)
      case None => None
      case Some(text) => Some(IndexKey(def.id, text, parts.1))
  }

  // ---------------------------------------------------------------------
  // What an index should hold
  // ---------------------------------------------------------------------

  /** An object of the collection whose field can be indexed. */
  predicate Indexable(def: IndexDef, extract: Extractor, objects: Rows, key: Buf) {
    key in objects && Prefix(def.collection) <= key && extract(objects[key], def.field).Some?
  }

  /** The row an indexable object should have: id, encoded value and object id. */
  function ProperRow(def: IndexDef, extract: Extractor, objects: Rows, key: Buf): Buf
    requires Indexable(def, extract, objects, key)
  {
    IndexKey(def.id, extract(objects[key], def.field).value, key[|Prefix(def.collection)|..])
  }

  predicate Utf8Keys(rows: Rows) { forall k :: k in rows ==> ValidUtf8(k) }

  lemma {:induction false} KeyParts(collection: Buf, key: Buf)
    requires ValidIdentifier(collection) && Prefix(collection) <= key
    ensures SplitSlash(key) == Some((collection, key[|Prefix(collection)|..]))
  {
    hide SplitSlash;
    var rest := key[|Prefix(collection)|..];
    assert key == collection + [SLASH] + rest;
    SplitJoined(collection, rest);
  }

  /** Index keys name the value and the object unambiguously. */
  lemma {:induction false} IndexKeyInjective(id: Buf, v1: Buf, o1: Buf, v2: Buf, o2: Buf)
    requires IndexKey(id, v1, o1) == IndexKey(id, v2, o2)
    ensures v1 == v2 && o1 == o2
  {
    hide Base64.Encode, SplitSlash;
    var t1 := Base64.Encode(v1) + [SLASH] + o1;
    var t2 := Base64.Encode(v2) + [SLASH] + o2;
    assert t1 == IndexKey(id, v1, o1)[|id| + 1..];
    assert t2 == IndexKey(id, v2, o2)[|id| + 1..];
    Base64.EncodeRoundTrip(v1);
    Base64.EncodeRoundTrip(v2);
    SplitJoined(Base64.Encode(v1), o1);
    SplitJoined(Base64.Encode(v2), o2);
  }

  /** Different objects have different rows. */
  lemma {:induction false} OneRowPerObject(def: IndexDef, extract: Extractor, objects: Rows, k1: Buf, k2: Buf)
    requires Indexable(def, extract, objects, k1) && Indexable(def, extract, objects, k2)
    requires ProperRow(def, extract, objects, k1) == ProperRow(def, extract, objects, k2)
    ensures k1 == k2
  {
    var n := |Prefix(def.collection)|;
    hide IndexKey;
    IndexKeyInjective(def.id, extract(objects[k1], def.field).value, k1[n..],
                      extract(objects[k2], def.field).value, k2[n..]);
    assert k1 == Prefix(def.collection) + k1[n..] && k2 == Prefix(def.collection) + k2[n..];
  }

  /** Rows of an index start with its id, and no row starts with two ids. */
  lemma {:induction false} RowsApart(id1: Buf, id2: Buf, row: Buf)
    requires ValidIdentifier(id1) && ValidIdentifier(id2) && Prefix(id1) <= row && Prefix(id2) <= row
    ensures id1 == id2
  {
    hide SplitSlash;
    KeyParts(id1, row);
    KeyParts(id2, row);
  }

  lemma {:induction false} RowStarts(id: Buf, value: Buf, objectId: Buf)
    ensures Prefix(id) <= IndexKey(id, value, objectId)
    ensures |IndexKey(id, value, objectId)| > |Prefix(id)| && IndexKey(id, value, objectId)[|Prefix(id)|] != 0xFF
  {
    hide Base64.Encode;
    var rest := Base64.Encode(value) + [SLASH] + objectId;
    assert IndexKey(id, value, objectId) == Prefix(id) + rest;
    EncodedStart(value);
  }

  lemma EncodedStart(value: Buf)
    ensures Base64.Encode(value) != [] ==> Base64.Encode(value)[0] != 0xFF
  {
  }

  // ---------------------------------------------------------------------
  // Materializing
  // ---------------------------------------------------------------------

  lemma {:induction false} NotCrossed(name: Buf)
    ensures !Crossed(Prefix(name), PrefixEnd(Prefix(name)))
  {
    var p := Prefix(name);
    PrefixRange(p, p);
    LessTotal(p, PrefixEnd(p));
  }

  /** For keys in UTF-8, the scanned range is exactly the collection. */
  lemma {:induction false} ScanIsCollection(collection: Buf, key: Buf)
    requires ValidUtf8(key)
    ensures InRange(key, Prefix(collection), PrefixEnd(Prefix(collection))) <==> Prefix(collection) <= key
  {
    var p := Prefix(collection);
    hide ValidUtf8, Less;
    PrefixRange(p, key);
    if p <= key && |key| > |p| { Utf8NoFF(key, |p|); }
  }

  /** The rows of the objects in `keys`. */
  ghost function RowSet(def: IndexDef, extract: Extractor, objects: Rows, keys: set<Buf>): set<Buf> {
    set k | k in keys && Indexable(def, extract, objects, k) :: ProperRow(def, extract, objects, k)
  }

  /** The rows that materializing makes of the objects in `keys`. */
  ghost function RowsOf(def: IndexDef, extract: Extractor, objects: Rows, keys: set<Buf>): set<Buf> {
    set k | k in keys && k in objects && RowOf(def, extract, k, objects[k]).Some? ::
      RowOf(def, extract, k, objects[k]).value
  }

  /** The objects that materializing looks at. */
  ghost function Visited(def: IndexDef, objects: Rows): set<Buf> {
    set k | k in objects && InRange(k, Prefix(def.collection), PrefixEnd(Prefix(def.collection)))
  }

  function Filled(rows: Rows, more: set<Buf>): Rows { rows + (map r | r in more :: []) }

  lemma {:induction false} RowsOfNext(def: IndexDef, extract: Extractor, objects: Rows, keys: set<Buf>, k: Buf)
    requires k in objects
    ensures var row := RowOf(def, extract, k, objects[k]);
      RowsOf(def, extract, objects, keys + {k}) ==
        if row.Some? then RowsOf(def, extract, objects, keys) + {row.value} else RowsOf(def, extract, objects, keys)
  {
    hide RowOf;
    var a, b := RowsOf(def, extract, objects, keys), RowsOf(def, extract, objects, keys + {k});
    assert forall r :: r in a ==> r in b;
    if RowOf(def, extract, k, objects[k]).Some? { assert k in keys + {k}; }
  }

  lemma {:induction false} RowSetNext(def: IndexDef, extract: Extractor, objects: Rows, keys: set<Buf>, k: Buf)
    ensures RowSet(def, extract, objects, keys + {k}) ==
      if Indexable(def, extract, objects, k)
      then RowSet(def, extract, objects, keys) + {ProperRow(def, extract, objects, k)}
      else RowSet(def, extract, objects, keys)
  {
    hide Indexable, ProperRow;
    var a, b := RowSet(def, extract, objects, keys), RowSet(def, extract, objects, keys + {k});
    assert forall r :: r in a ==> r in b;
    if Indexable(def, extract, objects, k) { assert k in keys + {k}; }
  }

  lemma {:induction false} RowIsProper(def: IndexDef, extract: Extractor, objects: Rows, k: Buf)
    requires ValidIdentifier(def.collection) && k in objects && Prefix(def.collection) <= k && ValidUtf8(k)
    ensures RowOf(def, extract, k, objects[k]) ==
      if Indexable(def, extract, objects, k) then Some(ProperRow(def, extract, objects, k)) else None
  {
    LossyValid(k);
    hide SplitSlash, IndexKey, Lossy, ValidUtf8;
    KeyParts(def.collection, k);
  }

  /** In a store with UTF-8 keys, the rows made are those of the collection's indexable objects. */
  lemma {:induction false} RowsAreProper(def: IndexDef, extract: Extractor, objects: Rows)
    requires ValidIdentifier(def.collection) && Utf8Keys(objects)
    ensures RowsOf(def, extract, objects, Visited(def, objects)) == RowSet(def, extract, objects, objects.Keys)
  {
    hide ValidUtf8, InRange, PrefixEnd, ProperRow, RowOf, ValidIdentifier;
    forall k | k in objects
      ensures k in Visited(def, objects) <==> Prefix(def.collection) <= k
      ensures Prefix(def.collection) <= k ==>
        RowOf(def, extract, k, objects[k]) ==
          if Indexable(def, extract, objects, k) then Some(ProperRow(def, extract, objects, k)) else None
    {
      ScanIsCollection(def.collection, k);
      if Prefix(def.collection) <= k { RowIsProper(def, extract, objects, k); }
    }
    var made := RowsOf(def, extract, objects, Visited(def, objects));
    var proper := RowSet(def, extract, objects, objects.Keys);
    forall r | r in made ensures r in proper {
      var k :| k in Visited(def, objects) && k in objects && RowOf(def, extract, k, objects[k]) == Some(r);
      assert Indexable(def, extract, objects, k) && ProperRow(def, extract, objects, k) == r;
    }
    forall r | r in proper ensures r in made {
      var k :| k in objects && Indexable(def, extract, objects, k) && ProperRow(def, extract, objects, k) == r;
      assert k in Visited(def, objects) && RowOf(def, extract, k, objects[k]) == Some(r);
    }
  }

  /** Two objects share a row exactly when they have the same indexed text and, read as text, the same id. */
  lemma {:induction false} RowsCoincideExactly(def: IndexDef, extract: Extractor, k1: Buf, v1: Buf, k2: Buf, v2: Buf)
    requires RowOf(def, extract, k1, v1).Some? && RowOf(def, extract, k2, v2).Some?
    ensures RowOf(def, extract, k1, v1) == RowOf(def, extract, k2, v2) <==>
      extract(v1, def.field) == extract(v2, def.field) &&
      SplitSlash(Lossy(k1)).value.1 == SplitSlash(Lossy(k2)).value.1
  {
    hide IndexKey, SplitSlash, Lossy;
    if RowOf(def, extract, k1, v1) == RowOf(def, extract, k2, v2) {
      IndexKeyInjective(def.id, extract(v1, def.field).value, SplitSlash(Lossy(k1)).value.1,
                        extract(v2, def.field).value, SplitSlash(Lossy(k2)).value.1);
    }
  }

  /** So two objects whose keys are not UTF-8 can end up with one row. */
  lemma {:induction false} LossyKeysCollide(def: IndexDef, extract: Extractor, value: Buf)
    requires extract(value, def.field).Some?
    ensures RowOf(def, extract, [99, SLASH, 0xFE], value).Some?
    ensures RowOf(def, extract, [99, SLASH, 0xFE], value) == RowOf(def, extract, [99, SLASH, 0xFD], value)
  {
    LossyByte(0xFE);
    LossyByte(0xFD);
    hide Lossy, IndexKey;
    SplitJoined([99], REPLACEMENT);
    assert [99] + [SLASH] + REPLACEMENT == [99, SLASH] + REPLACEMENT;
  }

  lemma {:induction false} LossyByte(b: byte)
    requires 0xF5 <= b
    ensures Lossy([99, SLASH, b]) == [99, SLASH] + REPLACEMENT
  {
    var s := [99, SLASH, b];
    assert s[1..] == [SLASH, b] && [SLASH, b][1..] == [b] && [b][1..] == [];
    assert Lossy([]) == [];
    assert Lossy([b]) == REPLACEMENT + Lossy([]);
    assert Lossy([b]) == REPLACEMENT;
    assert Lossy([SLASH, b]) == [SLASH] + REPLACEMENT;
    assert s[..1] == [99];
    assert [99] + ([SLASH] + REPLACEMENT) == [99, SLASH] + REPLACEMENT;
  }

  /** The families once the batch is written: the rows of the objects in `done` are there. */
  ghost predicate Built(before: Families, cfs: Families, batch: seq<BatchOp>, rows: set<Buf>) {
    && Complete(before) && Complete(cfs) && AllKnown(batch)
    && AppliedAll(cfs, batch) == before[Indexes := Filled(before[Indexes], rows)]
  }

  lemma {:induction false} BuiltStart(cfs: Families)
    requires Complete(cfs)
    ensures Built(cfs, cfs, [], {})
  {
    assert Filled(cfs[Indexes], {}) == cfs[Indexes];
  }

  lemma {:induction false} BuiltNext(before: Families, cfs: Families, batch: seq<BatchOp>, rows: set<Buf>, row: Buf)
    requires Built(before, cfs, batch, rows)
    ensures Built(before, cfs, batch + [Put(Indexes, row, [])], rows + {row})
  {
    hide AppliedAll;
    AppliedNext(cfs, batch, Put(Indexes, row, []));
    FilledNext(before[Indexes], rows, row);
    hide Filled;
  }

  lemma FilledNext(rows: Rows, more: set<Buf>, row: Buf)
    ensures Filled(rows, more + {row}) == Filled(rows, more)[row := []]
  {
  }

  lemma BuiltFlush(before: Families, cfs: Families, batch: seq<BatchOp>, rows: set<Buf>)
    requires Built(before, cfs, batch, rows)
    ensures Complete(cfs) && AllKnown(batch) && Built(before, AppliedAll(cfs, batch), [], rows)
  {
  }

  class DefaultIndexMaterializer {
    const engine: MemEngine
    var ready: set<Buf>

    constructor (engine: MemEngine)
      ensures this.engine == engine && ready == {}
    {
      this.engine := engine;
      ready := {};
    }

    /** Adds to the batch the row of one object, if any, and writes the batch when it is full. */
    method AddRow(def: IndexDef, extract: Extractor, key: Buf, value: Buf, pending: seq<BatchOp>,
            ghost before: Families, ghost rows: set<Buf>)
      returns (batch: seq<BatchOp>)
      requires engine.Valid() && Built(before, engine.cfs, pending, rows)
      modifies engine
      ensures engine.Valid()
      ensures var row := RowOf(def, extract, key, value);
        Built(before, engine.cfs, batch, if row.Some? then rows + {row.value} else rows)
    {
      hide RowOf, Built, AppliedAll;
      batch := pending;
      var row := RowOf(def, extract, key, value);
      if row.Some? {
        batch := batch + [Put(Indexes, row.value, [])];
        BuiltNext(before, engine.cfs, pending, rows, row.value);
        if |batch| >= FLUSH_AT {
          BuiltFlush(before, engine.cfs, batch, rows + {row.value});
          var ok := engine.WriteBatch(batch);
          batch := [];
        }
      }
    }

    /** Adds to the indexes family one row for each scanned object that has one and changes nothing
        else, wherever the batches happen to be written. */
    method Materialize(def: IndexDef, extract: Extractor) returns (ok: bool)
      requires engine.Valid()
      modifies this, engine
      ensures engine.Valid() && (ok <==> ValidDef(def))
      ensures !ok ==> engine.cfs == old(engine.cfs) && ready == old(ready)
      ensures ok ==> ready == old(ready) + {def.id}
      ensures ok ==> engine.cfs == old(engine.cfs)[Indexes := Filled(old(engine.cfs[Indexes]),
        RowsOf(def, extract, old(engine.cfs[Default]), Visited(def, old(engine.cfs[Default]))))]
      ensures ok && Utf8Keys(old(engine.cfs[Default])) &&
              (forall k :: k in old(engine.cfs[Indexes]) ==> !(def.id + [SLASH] <= k)) ==>
        AnswersLookups(engine.cfs[Indexes], def, extract, old(engine.cfs[Default]))
      ensures ok <==> Named(def.collection) && Named(def.id) && Named(def.field)
    {
      hide ValidIdentifier, RowOf, Built, AppliedAll, RowsOf, Visited, InRange, PrefixEnd, Prefix, Filled;
      hide Less, Ascending, Crossed, AnswersLookups, Utf8Keys, Named;
      IsNamed(def.collection);
      IsNamed(def.id);
      IsNamed(def.field);
      if !ValidIdentifier(def.collection) || !ValidIdentifier(def.id) || !ValidIdentifier(def.field) { return false; }
      ghost var before := engine.cfs;
      ghost var objects := before[Default];
      var prefix := Prefix(def.collection);
      NotCrossed(def.collection);
      var scan := engine.Scan(Default, prefix, PrefixEnd(prefix));
      var rows := scan.rows;
      var batch := [];
      BuiltStart(before);
      NothingScanned(def, extract, objects, rows);
      for i := 0 to |rows|
        invariant engine.Valid() && ready == old(ready)
        invariant Built(before, engine.cfs, batch, RowsOf(def, extract, objects, KeysOf(rows[..i])))
      {
        ScannedRow(def, objects, rows, i);
        RowsOfNext(def, extract, objects, KeysOf(rows[..i]), rows[i].key);
        batch := AddRow(def, extract, rows[i].key, rows[i].value, batch, before,
                        RowsOf(def, extract, objects, KeysOf(rows[..i])));
      }
      assert rows[..|rows|] == rows;
      AllScanned(def, objects, rows);
      if batch != [] {
        BuiltFlush(before, engine.cfs, batch, RowsOf(def, extract, objects, Visited(def, objects)));
        var _ := engine.WriteBatch(batch);
      }
      BuiltEnd(before, engine.cfs, RowsOf(def, extract, objects, Visited(def, objects)));
      if Utf8Keys(objects) && (forall k :: k in before[Indexes] ==> !(def.id + [SLASH] <= k)) {
        assert forall k :: k in before[Indexes] ==> !(Prefix(def.id) <= k) by { PrefixIs(def.id); }
        LookupsFindObjects(def, extract, objects, before[Indexes]);
      }
      ready := ready + {def.id};
      return true;
    }

    /** Deletes the rows in the index's range in one batch. */
    method DropMaterialized(id: Buf) returns (ok: bool)
      requires engine.Valid()
      modifies this, engine
      ensures engine.Valid() && (ok <==> Named(id))
      ensures !ok ==> engine.cfs == old(engine.cfs) && ready == old(ready)
      ensures ok ==> ready == old(ready) - {id}
      ensures ok ==> engine.cfs == old(engine.cfs)[Indexes := Dropped(old(engine.cfs[Indexes]), id)]
    {
      hide ValidIdentifier, InRange, PrefixEnd, Prefix, AppliedAll, Applied, Dropped, Deletes, Lists, KeysOf, Crossed;
      IsNamed(id);
      if !ValidIdentifier(id) { return false; }
      ghost var before := engine.cfs;
      var prefix := Prefix(id);
      NotCrossed(id);
      var scan := engine.Scan(Indexes, prefix, PrefixEnd(prefix));
      var rows := scan.rows;
      var batch := [];
      DeletesStart(before, rows);
      for i := 0 to |rows|
        invariant engine.Valid() && engine.cfs == before && ready == old(ready)
        invariant Deletes(before, batch, KeysOf(rows[..i]))
      {
        DeletesNext(before, batch, KeysOf(rows[..i]), rows[i].key);
        KeysUpTo(rows, i);
        batch := batch + [Delete(Indexes, rows[i].key)];
      }
      assert rows[..|rows|] == rows;
      DeletesEnd(before, batch, rows, id);
      var _ := engine.WriteBatch(batch);
      ready := ready - {id};
      return true;
    }
  }

  lemma PrefixIs(name: Buf)
    ensures Prefix(name) == name + [SLASH]
  {
  }

  /** There is a name, and no slash or NUL byte in it. */
  predicate Named(name: Buf) { |name| > 0 && forall i :: 0 <= i < |name| ==> name[i] != 47 && name[i] != 0 }

  lemma IsNamed(name: Buf)
    ensures ValidIdentifier(name) <==> Named(name)
  {
  }

  lemma {:induction false} KeysUpTo(rows: seq<Row>, i: nat)
    requires i < |rows|
    ensures KeysOf(rows[..i + 1]) == KeysOf(rows[..i]) + {rows[i].key}
  {
    assert rows[..i + 1] == rows[..i] + [rows[i]];
    KeysNext(rows[..i], rows[i]);
  }

  lemma {:induction false} NothingScanned(def: IndexDef, extract: Extractor, objects: Rows, rows: seq<Row>)
    ensures RowsOf(def, extract, objects, KeysOf(rows[..0])) == {}
  {
    hide RowOf;
    assert KeysOf(rows[..0]) == {};
  }

  lemma {:induction false} ScannedRow(def: IndexDef, objects: Rows, rows: seq<Row>, i: nat)
    requires Lists(rows, Between(objects, Prefix(def.collection), PrefixEnd(Prefix(def.collection)))) && i < |rows|
    ensures rows[i].key in objects && rows[i].value == objects[rows[i].key]
    ensures KeysOf(rows[..i + 1]) == KeysOf(rows[..i]) + {rows[i].key}
  {
    hide InRange, Ascending, KeysOf, Prefix, PrefixEnd;
    KeysUpTo(rows, i);
  }

  lemma {:induction false} AllScanned(def: IndexDef, objects: Rows, rows: seq<Row>)
    requires Lists(rows, Between(objects, Prefix(def.collection), PrefixEnd(Prefix(def.collection))))
    ensures KeysOf(rows) == Visited(def, objects)
  {
    hide InRange, Ascending, KeysOf, Prefix, PrefixEnd;
  }

  /** What is left once the range of an index is deleted. */
  ghost function Dropped(rows: Rows, id: Buf): Rows {
    map k | k in rows && !InRange(k, Prefix(id), PrefixEnd(Prefix(id))) :: rows[k]
  }

  ghost predicate Deletes(cfs: Families, batch: seq<BatchOp>, gone: set<Buf>) {
    Complete(cfs) && AllKnown(batch) && AppliedAll(cfs, batch) == cfs[Indexes := cfs[Indexes] - gone]
  }

  lemma {:induction false} DeletesStart(cfs: Families, rows: seq<Row>)
    requires Complete(cfs)
    ensures Deletes(cfs, [], KeysOf(rows[..0]))
  {
    assert KeysOf(rows[..0]) == {};
    assert cfs[Indexes] - {} == cfs[Indexes];
  }

  lemma {:induction false} DeletesNext(cfs: Families, batch: seq<BatchOp>, gone: set<Buf>, k: Buf)
    requires Deletes(cfs, batch, gone)
    ensures Deletes(cfs, batch + [Delete(Indexes, k)], gone + {k})
  {
    hide AppliedAll;
    AppliedNext(cfs, batch, Delete(Indexes, k));
    assert cfs[Indexes] - gone - {k} == cfs[Indexes] - (gone + {k});
  }

  lemma {:induction false} DeletesEnd(cfs: Families, batch: seq<BatchOp>, rows: seq<Row>, id: Buf)
    requires Deletes(cfs, batch, KeysOf(rows))
    requires Lists(rows, Between(cfs[Indexes], Prefix(id), PrefixEnd(Prefix(id))))
    ensures Complete(cfs) && AllKnown(batch) && AppliedAll(cfs, batch) == cfs[Indexes := Dropped(cfs[Indexes], id)]
  {
    hide InRange, Ascending, KeysOf, Prefix, PrefixEnd, AppliedAll;
    assert cfs[Indexes] - KeysOf(rows) == Dropped(cfs[Indexes], id);
  }

  lemma BuiltEnd(before: Families, cfs: Families, rows: set<Buf>)
    requires Built(before, cfs, [], rows)
    ensures cfs == before[Indexes := Filled(before[Indexes], rows)]
  {
  }

  // ---------------------------------------------------------------------
  // What it comes to
  // ---------------------------------------------------------------------

  lemma {:induction false} RowsStart(def: IndexDef, extract: Extractor, objects: Rows, keys: set<Buf>, row: Buf)
    requires row in RowsOf(def, extract, objects, keys)
    ensures Prefix(def.id) <= row && InRange(row, Prefix(def.id), PrefixEnd(Prefix(def.id)))
  {
    hide IndexKey, Less, SplitSlash, Lossy;
    var k :| k in keys && k in objects && RowOf(def, extract, k, objects[k]) == Some(row);
    RowStarts(def.id, extract(objects[k], def.field).value, SplitSlash(Lossy(k)).value.1);
    PrefixRange(Prefix(def.id), row);
  }

  /** No row of any other index appears, disappears or changes. */
  lemma {:induction false} OthersUntouched(def: IndexDef, extract: Extractor, objects: Rows, keys: set<Buf>,
          rows: Rows, other: Buf, row: Buf)
    requires ValidDef(def) && ValidIdentifier(other) && other != def.id && Prefix(other) <= row
    ensures var after := Filled(rows, RowsOf(def, extract, objects, keys));
      (row in after <==> row in rows) && (row in rows ==> after[row] == rows[row])
    ensures row in Dropped(rows, def.id) <==> row in rows
  {
    hide RowsOf, Less, ValidIdentifier;
    if row in RowsOf(def, extract, objects, keys) {
      RowsStart(def, extract, objects, keys, row);
      RowsApart(other, def.id, row);
    }
    PrefixRange(Prefix(def.id), row);
    if Prefix(def.id) <= row { RowsApart(other, def.id, row); }
  }

  /** Building a fresh index and dropping it restores the indexes family exactly. */
  lemma {:induction false} DropUndoesMaterialize(def: IndexDef, extract: Extractor, objects: Rows, keys: set<Buf>,
          rows: Rows)
    requires ValidDef(def) && forall k :: k in rows ==> !(Prefix(def.id) <= k)
    ensures Dropped(Filled(rows, RowsOf(def, extract, objects, keys)), def.id) == rows
  {
    hide RowsOf, InRange, Prefix, PrefixEnd;
    var more := RowsOf(def, extract, objects, keys);
    forall r | r in more
      ensures Prefix(def.id) <= r && InRange(r, Prefix(def.id), PrefixEnd(Prefix(def.id)))
    {
      RowsStart(def, extract, objects, keys, r);
    }
    forall k | k in rows ensures !InRange(k, Prefix(def.id), PrefixEnd(Prefix(def.id))) {
      OutOfRange(def.id, k);
    }
    var after := Dropped(Filled(rows, more), def.id);
    assert forall k :: k in after <==> k in rows;
  }

  lemma {:induction false} OutOfRange(id: Buf, k: Buf)
    requires !(Prefix(id) <= k)
    ensures !InRange(k, Prefix(id), PrefixEnd(Prefix(id)))
  {
    hide Less;
    PrefixRange(Prefix(id), k);
  }

  /** The object `o` of the collection has the value `v` in the indexed field. */
  predicate HasValue(def: IndexDef, extract: Extractor, objects: Rows, o: Buf, v: Buf) {
    var key := def.collection + [SLASH] + o;
    key in objects && extract(objects[key], def.field) == Some(v)
  }

  /** What an index is for: the rows that start with its id, a slash, the base64 text of a value and a
      slash are exactly those of the objects that have the value, and go on with the object's id. There is
      nothing in the rows but their keys. */
  ghost predicate AnswersLookups(rows: Rows, def: IndexDef, extract: Extractor, objects: Rows) {
    && (forall r :: r in rows && def.id + [SLASH] <= r ==> rows[r] == [])
    && forall v: Buf, r: Buf ::
         r in rows && def.id + [SLASH] + Base64.Encode(v) + [SLASH] <= r <==>
         exists o: Buf ::
           HasValue(def, extract, objects, o, v) && r == def.id + [SLASH] + Base64.Encode(v) + [SLASH] + o
  }

  lemma {:induction false} KeyText(id: Buf, v: Buf, o: Buf)
    ensures IndexKey(id, v, o) == id + [SLASH] + Base64.Encode(v) + [SLASH] + o
    ensures id + [SLASH] + Base64.Encode(v) + [SLASH] <= IndexKey(id, v, o)
  {
    hide Base64.Encode;
  }

  /** A row that starts like one for `v` is one for `v`. */
  lemma {:induction false} StartTellsValue(id: Buf, v: Buf, w: Buf, o: Buf)
    requires id + [SLASH] + Base64.Encode(v) + [SLASH] <= IndexKey(id, w, o)
    ensures v == w
  {
    hide Base64.Encode, SplitSlash;
    var r, start := IndexKey(id, w, o), id + [SLASH] + Base64.Encode(v) + [SLASH];
    var rest := r[|start|..];
    assert r == start + rest;
    var t := r[|id| + 1..];
    assert t == Base64.Encode(v) + [SLASH] + rest && t == Base64.Encode(w) + [SLASH] + o;
    Base64.EncodeRoundTrip(v);
    Base64.EncodeRoundTrip(w);
    SplitJoined(Base64.Encode(v), rest);
    SplitJoined(Base64.Encode(w), o);
  }

  lemma {:induction false} MadeFromObject(def: IndexDef, extract: Extractor, objects: Rows, r: Buf)
    returns (o: Buf, v: Buf)
    requires ValidIdentifier(def.collection) && Utf8Keys(objects)
    requires r in RowsOf(def, extract, objects, Visited(def, objects))
    ensures HasValue(def, extract, objects, o, v) && r == IndexKey(def.id, v, o)
  {
    hide RowsOf, Visited, IndexKey, Utf8Keys, ValidIdentifier;
    RowsAreProper(def, extract, objects);
    var k :| k in objects && Indexable(def, extract, objects, k) && r == ProperRow(def, extract, objects, k);
    o, v := k[|Prefix(def.collection)|..], extract(objects[k], def.field).value;
    assert k == def.collection + [SLASH] + o;
  }

  lemma {:induction false} ObjectMakes(def: IndexDef, extract: Extractor, objects: Rows, o: Buf, v: Buf)
    requires ValidIdentifier(def.collection) && Utf8Keys(objects) && HasValue(def, extract, objects, o, v)
    ensures IndexKey(def.id, v, o) in RowsOf(def, extract, objects, Visited(def, objects))
  {
    hide RowsOf, Visited, IndexKey, Utf8Keys, ValidIdentifier;
    RowsAreProper(def, extract, objects);
    var k := def.collection + [SLASH] + o;
    assert Prefix(def.collection) <= k && k[|Prefix(def.collection)|..] == o;
    assert Indexable(def, extract, objects, k) && ProperRow(def, extract, objects, k) == IndexKey(def.id, v, o);
  }

  /** A fresh index over UTF-8 keys answers lookups by value, for every collection and value. */
  lemma {:induction false} LookupsFindObjects(def: IndexDef, extract: Extractor, objects: Rows, rows: Rows)
    requires ValidDef(def) && Utf8Keys(objects) && forall k :: k in rows ==> !(Prefix(def.id) <= k)
    ensures AnswersLookups(Filled(rows, RowsOf(def, extract, objects, Visited(def, objects))), def, extract, objects)
  {
    hide RowsOf, Visited, IndexKey, Utf8Keys, ValidIdentifier, Base64.Encode, HasValue;
    var made := RowsOf(def, extract, objects, Visited(def, objects));
    forall v: Buf, r: Buf
      ensures r in Filled(rows, made) && def.id + [SLASH] + Base64.Encode(v) + [SLASH] <= r <==>
        exists o: Buf :: HasValue(def, extract, objects, o, v) && r == def.id + [SLASH] + Base64.Encode(v) + [SLASH] + o
    {
      OneLookup(def, extract, objects, rows, v, r);
    }
  }

  lemma {:induction false} OneLookup(def: IndexDef, extract: Extractor, objects: Rows, rows: Rows, v: Buf, r: Buf)
    requires ValidDef(def) && Utf8Keys(objects) && forall k :: k in rows ==> !(Prefix(def.id) <= k)
    ensures var start := def.id + [SLASH] + Base64.Encode(v) + [SLASH];
      r in Filled(rows, RowsOf(def, extract, objects, Visited(def, objects))) && start <= r <==>
      exists o: Buf :: HasValue(def, extract, objects, o, v) && r == start + o
  {
    hide RowsOf, Visited, IndexKey, Utf8Keys, ValidIdentifier, Base64.Encode, HasValue;
    var made := RowsOf(def, extract, objects, Visited(def, objects));
    var start := def.id + [SLASH] + Base64.Encode(v) + [SLASH];
    if r in Filled(rows, made) && start <= r {
      assert Prefix(def.id) <= start && Prefix(def.id) <= r;
      var o, w := MadeFromObject(def, extract, objects, r);
      StartTellsValue(def.id, v, w, o);
      KeyText(def.id, v, o);
    }
    if o: Buf :| HasValue(def, extract, objects, o, v) && r == start + o {
      ObjectMakes(def, extract, objects, o, v);
      KeyText(def.id, v, o);
    }
  }

  /** Every row of the index reads back: up to the first slash its id, up to the second the text of
      the value, and then the id of an object that has it. */
  lemma {:induction false} RowsReadBack(def: IndexDef, extract: Extractor, objects: Rows, r: Buf)
    requires ValidDef(def) && Utf8Keys(objects) && r in RowsOf(def, extract, objects, Visited(def, objects))
    ensures SplitSlash(r).Some? && SplitSlash(r).value.0 == def.id && SplitSlash(SplitSlash(r).value.1).Some?
    ensures var (text, o) := SplitSlash(SplitSlash(r).value.1).value;
      Base64.Decode(text).Some? && HasValue(def, extract, objects, o, Base64.Decode(text).value)
  {
    hide RowsOf, Visited, Utf8Keys, Base64.Encode, Base64.Decode, HasValue, SplitSlash;
    var o, v := MadeFromObject(def, extract, objects, r);
    SplitJoined(def.id, Base64.Encode(v) + [SLASH] + o);
    Base64.EncodeRoundTrip(v);
    SplitJoined(Base64.Encode(v), o);
  }

  /** The index has as many rows as the collection has indexable objects. */
  lemma {:induction false} RowCount(def: IndexDef, extract: Extractor, objects: Rows, keys: set<Buf>)
    requires forall k :: k in keys ==> Indexable(def, extract, objects, k)
    ensures |RowSet(def, extract, objects, keys)| == |keys|
    decreases keys
  {
    hide Indexable, ProperRow;
    if keys != {} {
      var k :| k in keys;
      var rest := keys - {k};
      RowCount(def, extract, objects, rest);
      RowSetNext(def, extract, objects, rest, k);
      assert rest + {k} == keys;
      if ProperRow(def, extract, objects, k) in RowSet(def, extract, objects, rest) {
        var j :| j in rest && Indexable(def, extract, objects, j) &&
                 ProperRow(def, extract, objects, j) == ProperRow(def, extract, objects, k);
        OneRowPerObject(def, extract, objects, j, k);
      }
    } else {
      assert RowSet(def, extract, objects, keys) == {};
    }
  }
}
