/**
 The in-memory storage engine: ordered rows per column family, range scans and
 batches that are applied as a whole.
 */
module Storage {
  import opened Bytes

  /** The known column families; `Other` stands for any name that is not one of them. */
  datatype Cf = Default | Metadata | Indexes | Tombstones | Hints | System | Other(name: string)

  type Rows = map<Buf, Buf>
  type Families = map<Cf, Rows>

  datatype BatchOp = Put(cf: Cf, key: Buf, value: Buf) | Delete(cf: Cf, key: Buf)

  predicate Known(cf: Cf) { !cf.Other? }

  ghost predicate Complete(cfs: Families) { forall cf :: cf in cfs <==> Known(cf) }

  /** An empty bound is no bound; the end is excluded. */
  predicate InRange(key: Buf, start: Buf, end: Buf) {
    (start == [] || !Less(key, start)) && (end == [] || Less(key, end))
  }

  /** Without bounds everything is in range; with one, what is not before the start, or before the end. */
  lemma RangeBounds(key: Buf, start: Buf, end: Buf)
    ensures InRange(key, [], [])
    ensures InRange(key, start, []) <==> key == start || Less(start, key)
    ensures InRange(key, [], end) <==> end == [] || Less(key, end)
    ensures end != [] ==> !InRange(end, start, end)
    ensures InRange(key, start, end) <==> InRange(key, start, []) && InRange(key, [], end)
  {
    LessTotal(key, start);
    LessTotal(end, end);
  }

  function Applied(cfs: Families, op: BatchOp): Families
    requires op.cf in cfs
  {
    match op
    case Put(cf, key, value) => cfs[cf := cfs[cf][key := value]]
    case Delete(cf, key) => cfs[cf := cfs[cf] - {key}]
  }

  predicate AllKnown(ops: seq<BatchOp>) { forall i :: 0 <= i < |ops| ==> Known(ops[i].cf) }

  ghost function AppliedAll(cfs: Families, ops: seq<BatchOp>): (r: Families)
    requires Complete(cfs) && AllKnown(ops)
    ensures Complete(r)
  {
    if ops == [] then cfs else Applied(AppliedAll(cfs, ops[..|ops| - 1]), ops[|ops| - 1])
  }

  lemma {:induction false} AppliedNext(cfs: Families, ops: seq<BatchOp>, op: BatchOp)
    requires Complete(cfs) && AllKnown(ops) && Known(op.cf)
    ensures AppliedAll(cfs, ops + [op]) == Applied(AppliedAll(cfs, ops), op)
  {
    assert (ops + [op])[..|ops|] == ops;
  }

  predicate Touches(op: BatchOp, cf: Cf, key: Buf) { op.cf == cf && op.key == key }

  /** Rows that no operation of a batch names stay as they are. */
  lemma {:induction false} OthersStay(cfs: Families, ops: seq<BatchOp>, cf: Cf, key: Buf)
    requires Complete(cfs) && AllKnown(ops) && Known(cf)
    requires forall i :: 0 <= i < |ops| ==> !Touches(ops[i], cf, key)
    ensures key in AppliedAll(cfs, ops)[cf] <==> key in cfs[cf]
    ensures key in cfs[cf] ==> AppliedAll(cfs, ops)[cf][key] == cfs[cf][key]
    decreases |ops|
  {
    hide Applied;
    if ops != [] {
      var m := |ops| - 1;
      OthersStay(cfs, ops[..m], cf, key);
      OneOp(AppliedAll(cfs, ops[..m]), ops[m], cf, key);
    }
  }

  /** A batch is applied in order: the last operation on a row decides what becomes of it. */
  lemma {:induction false} LastOpCounts(cfs: Families, ops: seq<BatchOp>, cf: Cf, key: Buf, i: nat)
    requires Complete(cfs) && AllKnown(ops) && Known(cf) && i < |ops| && Touches(ops[i], cf, key)
    requires forall j :: i < j < |ops| ==> !Touches(ops[j], cf, key)
    ensures key in AppliedAll(cfs, ops)[cf] <==> ops[i].Put?
    ensures ops[i].Put? ==> AppliedAll(cfs, ops)[cf][key] == ops[i].value
    decreases |ops|
  {
    hide Applied;
    var m := |ops| - 1;
    OneOp(AppliedAll(cfs, ops[..m]), ops[m], cf, key);
    if i < m { LastOpCounts(cfs, ops[..m], cf, key, i); }
  }

  lemma OneOp(cfs: Families, op: BatchOp, cf: Cf, key: Buf)
    requires op.cf in cfs && cf in cfs
    ensures var next := Applied(cfs, op);
      && cf in next
      && (op.cf == cf && op.key == key ==>
            if op.Put? then key in next[cf] && next[cf][key] == op.value else key !in next[cf])
      && (op.cf != cf || op.key != key ==>
            (key in next[cf] <==> key in cfs[cf]) && (key in cfs[cf] ==> next[cf][key] == cfs[cf][key]))
  {
  }

  lemma {:induction false} KnownUpTo(ops: seq<BatchOp>, i: nat)
    requires AllKnown(ops) && i <= |ops|
    ensures AllKnown(ops[..i])
    ensures i < |ops| ==> Known(ops[i].cf) && ops[..i + 1] == ops[..i] + [ops[i]]
  {
  }

  datatype Row = Row(key: Buf, value: Buf)

  datatype ScanResult = Scanned(rows: seq<Row>) | UnknownFamily | Panic

  /** Both bounds are given and the start is after the end. */
  predicate Crossed(start: Buf, end: Buf) { start != [] && end != [] && Less(end, start) }

  function Between(rows: Rows, start: Buf, end: Buf): Rows {
    map k | k in rows && InRange(k, start, end) :: rows[k]
  }

  function KeysOf(rows: seq<Row>): set<Buf> { set i | 0 <= i < |rows| :: rows[i].key }

  ghost predicate Ascending(rows: seq<Row>) { forall i, j :: 0 <= i < j < |rows| ==> Less(rows[i].key, rows[j].key) }

  /** Every row of the map once, in order of keys. */
  ghost predicate Lists(rows: seq<Row>, all: Rows) {
    && Ascending(rows) && KeysOf(rows) == all.Keys
    && forall i :: 0 <= i < |rows| ==> rows[i].key in all && rows[i].value == all[rows[i].key]
  }

  ghost predicate Least(k: Buf, keys: set<Buf>) { k in keys && forall j :: j in keys && j != k ==> Less(k, j) }

  lemma {:induction false} LeastExists(keys: set<Buf>)
    requires keys != {}
    ensures exists k :: Least(k, keys)
    decreases keys
  {
    hide Less;
    var k :| k in keys;
    var rest := keys - {k};
    if rest == {} {
      assert keys == {k};
      assert Least(k, keys);
    } else {
      LeastExists(rest);
      var m :| Least(m, rest);
      LessTotal(k, m);
      if Less(k, m) {
        forall j | j in keys && j != k ensures Less(k, j) {
          if j != m { LessTransitive(k, m, j); }
        }
        assert Least(k, keys);
      } else {
        assert Least(m, keys);
      }
    }
  }

  lemma {:induction false} KeysNext(rows: seq<Row>, r: Row)
    ensures KeysOf(rows + [r]) == KeysOf(rows) + {r.key}
  {
    var all := rows + [r];
    assert forall i :: 0 <= i < |rows| ==> all[i] == rows[i];
    assert all[|rows|] == r;
    forall k | k in KeysOf(rows) ensures k in KeysOf(all) {
      var i :| 0 <= i < |rows| && rows[i].key == k;
      assert all[i].key == k;
    }
  }

  /** Lists a map in order of keys. */
  method InOrder(all: Rows) returns (rows: seq<Row>)
    ensures Lists(rows, all)
  {
    hide Less;
    rows := [];
    var todo := all.Keys;
    while todo != {}
      invariant todo <= all.Keys && KeysOf(rows) == all.Keys - todo && Ascending(rows)
      invariant forall i, k :: 0 <= i < |rows| && k in todo ==> Less(rows[i].key, k)
      invariant forall i :: 0 <= i < |rows| ==> rows[i].key in all && rows[i].value == all[rows[i].key]
      decreases todo
    {
      LeastExists(todo);
      var k :| k in todo && forall j :: j in todo && j != k ==> Less(k, j);
      KeysNext(rows, Row(k, all[k]));
      rows := rows + [Row(k, all[k])];
      todo := todo - {k};
    }
  }

  class MemEngine {
    var cfs: Families

    ghost predicate Valid()
      reads this
    {
      Complete(cfs)
    }

    constructor ()
      ensures Valid() && forall cf :: cf in cfs ==> cfs[cf] == map[]
    {
      cfs := map[Default := map[], Metadata := map[], Indexes := map[], Tombstones := map[], Hints := map[],
                 System := map[]];
    }

    method PutRow(cf: Cf, key: Buf, value: Buf) returns (ok: bool)
      requires Valid()
      modifies this
      ensures Valid() && (ok <==> Known(cf))
      ensures cfs == if ok then Applied(old(cfs), Put(cf, key, value)) else old(cfs)
    {
      if cf !in cfs { return false; }
      cfs := cfs[cf := cfs[cf][key := value]];
      return true;
    }

    method DeleteRow(cf: Cf, key: Buf) returns (ok: bool)
      requires Valid()
      modifies this
      ensures Valid() && (ok <==> Known(cf))
      ensures cfs == if ok then Applied(old(cfs), Delete(cf, key)) else old(cfs)
    {
      if cf !in cfs { return false; }
      cfs := cfs[cf := cfs[cf] - {key}];
      return true;
    }

    /** The rows between the bounds, in order of their keys; a start after the end panics. */
    method Scan(cf: Cf, start: Buf, end: Buf) returns (r: ScanResult)
      requires Valid()
      ensures r.UnknownFamily? <==> !Known(cf)
      ensures r.Panic? <==> Known(cf) && Crossed(start, end)
      ensures r.Scanned? ==> Lists(r.rows, Between(cfs[cf], start, end))
    {
      if cf !in cfs { return UnknownFamily; }
      if Crossed(start, end) { return Panic; }
      var rows := InOrder(Between(cfs[cf], start, end));
      return Scanned(rows);
    }

    /** All operations of a batch take effect, in order, or none does. */
    method WriteBatch(ops: seq<BatchOp>) returns (ok: bool)
      requires Valid()
      modifies this
      ensures Valid() && (ok <==> AllKnown(ops))
      ensures cfs == if ok then AppliedAll(old(cfs), ops) else old(cfs)
    {
      for i := 0 to |ops|
        invariant forall j :: 0 <= j < i ==> Known(ops[j].cf)
      {
        if ops[i].cf.Other? { return false; }
      }
      ApplyInOrder(ops);
      return true;
    }

    method ApplyInOrder(ops: seq<BatchOp>)
      requires Valid() && AllKnown(ops)
      modifies this
      ensures Valid() && cfs == AppliedAll(old(cfs), ops)
    {
      hide Applied, Complete, AllKnown;
      ghost var before := cfs;
      assert ops[..0] == [];
      KnownUpTo(ops, 0);
      for i := 0 to |ops|
        invariant AllKnown(ops[..i])
        invariant Valid() && cfs == AppliedAll(before, ops[..i])
      {
        hide AppliedAll;
        KnownUpTo(ops, i);
        KnownUpTo(ops, i + 1);
        AppliedNext(before, ops[..i], ops[i]);
        Step(ops[i]);
      }
      assert ops[..|ops|] == ops;
    }

    method Step(op: BatchOp)
      requires Valid() && Known(op.cf)
      modifies this
      ensures Valid() && cfs == Applied(old(cfs), op)
    {
      match op
      case Put(cf, key, value) => cfs := cfs[cf := cfs[cf][key := value]];
      case Delete(cf, key) => cfs := cfs[cf := cfs[cf] - {key}];
    }
  }
}
