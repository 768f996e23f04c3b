/**
 Document values and their measures. An object is the ordered list of its
 entries: strictly increasing keys for a value held in memory, any list of
 entries for a value as it is written on the wire.
 */
module Value {
  import opened Bytes
  import opened Text

  datatype Value =
    | Null
    | Bool(b: bool)
    | Int(i: int)
    | Float(bits: u64)
    | Str(text: Buf)
    | Blob(data: Buf)
    | Array(items: seq<Value>)
    | Object(fields: seq<Field>)

  datatype Field = Field(key: Buf, val: Value)

  const MAX_NESTING_DEPTH := 64
  const MAX_STRING_BLOB_SIZE := 16 * 1024 * 1024
  const MAX_ARRAY_ELEMENTS := 1_000_000
  const MAX_OBJECT_KEYS := 100_000
  const MAX_KEY_SIZE := 256

  /** IEEE 754 binary64: every exponent but the all-ones one is a finite number. */
  predicate Finite(bits: u64) { bits / 0x10_0000_0000_0000 % 0x800 != 0x7FF }

  /** What is not finite: the infinities and the numbers above them, which are not numbers. */
  lemma FiniteMeans(bits: u64)
    ensures !Finite(bits) <==>
      0x7FF0_0000_0000_0000 <= bits <= 0x7FFF_FFFF_FFFF_FFFF || 0xFFF0_0000_0000_0000 <= bits
  {
  }

  /** What the host types guarantee of the leaves: 64-bit integers and UTF-8 text. */
  predicate Typed(v: Value) {
    match v
    case Int(i) => I64_MIN <= i <= I64_MAX
    case Str(s) => ValidUtf8(s)
    case Array(items) => forall k :: 0 <= k < |items| ==> Typed(items[k])
    case Object(fs) => forall k :: 0 <= k < |fs| ==> ValidUtf8(fs[k].key) && Typed(fs[k].val)
    case _ => true
  }

  predicate SortedKeys(fs: seq<Field>) {
    forall i, j :: 0 <= i < j < |fs| ==> Less(fs[i].key, fs[j].key)
  }

  /** Every object is an ordered map: what a value in memory satisfies. */
  predicate Canonical(v: Value) {
    match v
    case Array(items) => forall k :: 0 <= k < |items| ==> Canonical(items[k])
    case Object(fs) => SortedKeys(fs) && forall k :: 0 <= k < |fs| ==> Canonical(fs[k].val)
    case _ => true
  }

  predicate DistinctKeys(fs: seq<Field>) {
    forall i, j :: 0 <= i < j < |fs| ==> fs[i].key != fs[j].key
  }

  /** No object repeats a key, at any level. */
  predicate NoRepeats(v: Value) {
    match v
    case Array(items) => forall k :: 0 <= k < |items| ==> NoRepeats(items[k])
    case Object(fs) =>
      DistinctKeys(fs) && forall k :: 0 <= k < |fs| ==> NoRepeats(fs[k].val)
    case _ => true
  }

  /** Levels below the root. */
  function Height(v: Value): nat
    decreases v, 1
  {
    match v
    case Array(items) => HeightItems(items)
    case Object(fs) => HeightFields(fs)
    case _ => 0
  }

  function Max(a: nat, b: nat): nat { if a >= b then a else b }

  function HeightItems(items: seq<Value>): nat
    decreases items, 0
  {
    if items == [] then 0 else Max(1 + Height(items[0]), HeightItems(items[1..]))
  }

  function HeightFields(fs: seq<Field>): nat
    decreases fs, 0
  {
    if fs == [] then 0 else Max(1 + Height(fs[0].val), HeightFields(fs[1..]))
  }

  /** The limits on lengths and counts, at every level. */
  predicate CountsOk(v: Value) {
    match v
    case Str(s) => |s| <= MAX_STRING_BLOB_SIZE
    case Blob(d) => |d| <= MAX_STRING_BLOB_SIZE
    case Array(items) =>
      |items| <= MAX_ARRAY_ELEMENTS && forall k :: 0 <= k < |items| ==> CountsOk(items[k])
    case Object(fs) =>
      |fs| <= MAX_OBJECT_KEYS && forall k :: 0 <= k < |fs| ==> CountsOk(fs[k].val)
    case _ => true
  }

  /** Every float is finite and every key is short enough, at every level. */
  predicate KeysFloatsOk(v: Value) {
    match v
    case Float(bits) => Finite(bits)
    case Array(items) => forall k :: 0 <= k < |items| ==> KeysFloatsOk(items[k])
    case Object(fs) =>
      forall k :: 0 <= k < |fs| ==> |fs[k].key| <= MAX_KEY_SIZE && KeysFloatsOk(fs[k].val)
    case _ => true
  }

  /** Bytes of the encoded payload, header excluded. */
  function Size(v: Value): (n: nat)
    ensures n >= 1
    decreases v, 1
  {
    1 + match v
        case Null => 0
        case Bool(_) => 1
        case Int(_) => 8
        case Float(_) => 8
        case Str(s) => 4 + |s|
        case Blob(d) => 4 + |d|
        case Array(items) => 4 + SizeItems(items)
        case Object(fs) => 4 + SizeFields(fs)
  }

  function SizeItems(items: seq<Value>): nat
    decreases items, 0
  {
    if items == [] then 0 else Size(items[0]) + SizeItems(items[1..])
  }

  function SizeFields(fs: seq<Field>): nat
    decreases fs, 0
  {
    if fs == [] then 0 else 4 + |fs[0].key| + Size(fs[0].val) + SizeFields(fs[1..])
  }

  // ---------------------------------------------------------------------
  // From a written value to the value in memory
  // ---------------------------------------------------------------------

  /** Ordered-map insertion: replaces the entry of an equal key. */
  function Insert(fs: seq<Field>, key: Buf, val: Value): (r: seq<Field>) {
    if fs == [] then [Field(key, val)]
    else if fs[0].key == key then [Field(key, val)] + fs[1..]
    else if Less(key, fs[0].key) then [Field(key, val)] + fs
    else [fs[0]] + Insert(fs[1..], key, val)
  }

  function Collapse(v: Value): (r: Value)
    decreases v, 1
  {
    match v
    case Array(items) => Array(CollapseItems(items))
    case Object(fs) => Object(InsertAll([], fs))
    case _ => v
  }

  function CollapseItems(items: seq<Value>): (r: seq<Value>)
    ensures |r| == |items|
    decreases items, 0
  {
    if items == [] then [] else [Collapse(items[0])] + CollapseItems(items[1..])
  }

  function InsertAll(acc: seq<Field>, fs: seq<Field>): seq<Field>
    decreases fs, 0
  {
    if fs == [] then acc
    else InsertAll(Insert(acc, fs[0].key, Collapse(fs[0].val)), fs[1..])
  }

  function Keys(fs: seq<Field>): set<Buf> { set k | 0 <= k < |fs| :: fs[k].key }

  lemma {:induction false} KeysCons(f: Field, fs: seq<Field>)
    ensures Keys([f] + fs) == {f.key} + Keys(fs)
  {
    var all := [f] + fs;
    forall k | k in Keys(fs) ensures k in Keys(all) {
      var i :| 0 <= i < |fs| && fs[i].key == k;
      assert all[i + 1].key == k;
    }
    assert all[0].key == f.key;
  }

  lemma {:induction false} SortedCons(f: Field, fs: seq<Field>)
    ensures SortedKeys([f] + fs) <==> SortedKeys(fs) && forall k :: k in Keys(fs) ==> Less(f.key, k)
  {
    var all := [f] + fs;
    assert forall j :: 0 <= j < |fs| ==> all[j + 1] == fs[j] && fs[j].key in Keys(fs);
    if SortedKeys(all) {
      forall k | k in Keys(fs) ensures Less(f.key, k) {
        var j :| 0 <= j < |fs| && fs[j].key == k;
        assert Less(all[0].key, all[j + 1].key);
      }
      forall i, j | 0 <= i < j < |fs| ensures Less(fs[i].key, fs[j].key) {
        assert Less(all[i + 1].key, all[j + 1].key);
      }
    }
  }

  lemma {:induction false} InsertKeys(fs: seq<Field>, key: Buf, val: Value)
    ensures Keys(Insert(fs, key, val)) == Keys(fs) + {key}
  {
    if fs == [] {
      KeysCons(Field(key, val), []);
      assert [Field(key, val)] + [] == [Field(key, val)];
    } else {
      assert fs == [fs[0]] + fs[1..];
      KeysCons(fs[0], fs[1..]);
      KeysCons(Field(key, val), fs);
      KeysCons(Field(key, val), fs[1..]);
      InsertKeys(fs[1..], key, val);
      KeysCons(fs[0], Insert(fs[1..], key, val));
    }
  }

  /** Insertion keeps the keys in order. */
  lemma {:induction false} InsertSorted(fs: seq<Field>, key: Buf, val: Value)
    requires SortedKeys(fs)
    ensures SortedKeys(Insert(fs, key, val))
  {
    if fs != [] {
      assert fs == [fs[0]] + fs[1..];
      SortedCons(fs[0], fs[1..]);
      LessTotal(key, fs[0].key);
      if fs[0].key == key {
        SortedCons(Field(key, val), fs[1..]);
      } else if Less(key, fs[0].key) {
        KeysCons(fs[0], fs[1..]);
        forall k | k in Keys(fs[1..]) ensures Less(key, k) { LessTransitive(key, fs[0].key, k); }
        SortedCons(Field(key, val), fs);
      } else {
        InsertSorted(fs[1..], key, val);
        InsertKeys(fs[1..], key, val);
        SortedCons(fs[0], Insert(fs[1..], key, val));
      }
    }
  }

  /** A key below every key of a sorted list is not in it. */
  lemma {:induction false} BelowAllAbsent(fs: seq<Field>, key: Buf)
    requires forall k :: k in Keys(fs) ==> Less(key, k)
    ensures key !in Keys(fs)
  {
    LessTotal(key, key);
  }

  /** A replaced entry is paid for once: the size falls short exactly when the key was there. */
  lemma {:induction false} InsertSize(fs: seq<Field>, key: Buf, val: Value)
    requires SortedKeys(fs)
    ensures SizeFields(Insert(fs, key, val)) <= SizeFields(fs) + 4 + |key| + Size(val)
    ensures SizeFields(Insert(fs, key, val)) == SizeFields(fs) + 4 + |key| + Size(val)
       <==> key !in Keys(fs)
    ensures |Insert(fs, key, val)| <= |fs| + 1
  {
    if fs != [] {
      assert fs == [fs[0]] + fs[1..];
      SortedCons(fs[0], fs[1..]);
      KeysCons(fs[0], fs[1..]);
      LessTotal(key, fs[0].key);
      var r := Insert(fs, key, val);
      if fs[0].key == key {
        assert r[1..] == fs[1..];
      } else if Less(key, fs[0].key) {
        assert r[1..] == fs;
        forall k | k in Keys(fs[1..]) ensures Less(key, k) { LessTransitive(key, fs[0].key, k); }
        BelowAllAbsent(fs, key);
      } else {
        InsertSize(fs[1..], key, val);
        assert r[1..] == Insert(fs[1..], key, val);
      }
    }
  }

  lemma {:induction false} InsertMembers(fs: seq<Field>, key: Buf, val: Value)
    ensures forall f :: f in Insert(fs, key, val) ==> f == Field(key, val) || f in fs
  {
    if fs != [] { InsertMembers(fs[1..], key, val); }
  }

  /** Inserting past the last key appends. */
  lemma {:induction false} InsertAppends(fs: seq<Field>, key: Buf, val: Value)
    requires forall i :: 0 <= i < |fs| ==> Less(fs[i].key, key)
    ensures Insert(fs, key, val) == fs + [Field(key, val)]
  {
    if fs != [] {
      LessTotal(fs[0].key, key);
      InsertAppends(fs[1..], key, val);
    }
  }

  lemma {:induction false} InsertHas(fs: seq<Field>, key: Buf, val: Value, f: Field)
    ensures Field(key, val) in Insert(fs, key, val)
    ensures f in fs && f.key != key ==> f in Insert(fs, key, val)
  {
    if fs != [] {
      InsertHas(fs[1..], key, val, f);
      assert fs == [fs[0]] + fs[1..];
    }
  }

  lemma {:induction false} InsertAllHas(acc: seq<Field>, fs: seq<Field>, f: Field)
    requires f in acc && forall j :: 0 <= j < |fs| ==> fs[j].key != f.key
    ensures f in InsertAll(acc, fs)
    decreases |fs|
  {
    if fs != [] {
      hide Insert, Collapse;
      InsertHas(acc, fs[0].key, Collapse(fs[0].val), f);
      InsertAllHas(Insert(acc, fs[0].key, Collapse(fs[0].val)), fs[1..], f);
    }
  }

  /** Where a written object repeats a key, the last entry counts. */
  lemma {:induction false} LastEntryCounts(acc: seq<Field>, fs: seq<Field>, i: nat)
    requires i < |fs| && forall j :: i < j < |fs| ==> fs[j].key != fs[i].key
    ensures Field(fs[i].key, Collapse(fs[i].val)) in InsertAll(acc, fs)
    ensures acc == [] ==> Collapse(Object(fs)) == Object(InsertAll(acc, fs))
    decreases |fs|
  {
    var f := Field(fs[i].key, Collapse(fs[i].val));
    var next := Insert(acc, fs[0].key, Collapse(fs[0].val));
    assert InsertAll(acc, fs) == InsertAll(next, fs[1..]);
    hide Insert;
    if i == 0 {
      InsertHas(acc, fs[0].key, Collapse(fs[0].val), f);
      InsertAllHas(next, fs[1..], f);
    } else {
      LastEntryCounts(next, fs[1..], i - 1);
    }
  }

  // ---------------------------------------------------------------------
  // What collapsing keeps
  // ---------------------------------------------------------------------

  /** A value already in memory form is unchanged. */
  lemma {:induction false} CollapseCanonical(v: Value)
    requires Canonical(v)
    ensures Collapse(v) == v
    decreases v, 1
  {
    match v
    case Array(items) => CollapseCanonicalItems(items);
    case Object(fs) =>
      InsertAllAppends([], fs);
      assert [] + fs == fs;
    case _ =>
  }

  lemma {:induction false} CollapseCanonicalItems(items: seq<Value>)
    requires forall k :: 0 <= k < |items| ==> Canonical(items[k])
    ensures CollapseItems(items) == items
    decreases items, 0
  {
    if items != [] {
      CollapseCanonical(items[0]);
      CollapseCanonicalItems(items[1..]);
    }
  }

  lemma {:induction false} InsertAllAppends(acc: seq<Field>, fs: seq<Field>)
    requires SortedKeys(acc + fs)
    requires forall k :: 0 <= k < |fs| ==> Canonical(fs[k].val)
    ensures InsertAll(acc, fs) == acc + fs
    decreases fs, 0
  {
    if fs != [] {
      CollapseCanonical(fs[0].val);
      assert forall i :: 0 <= i < |acc| ==> (acc + fs)[i] == acc[i];
      assert (acc + fs)[|acc|] == fs[0];
      InsertAppends(acc, fs[0].key, fs[0].val);
      assert acc + [fs[0]] + fs[1..] == acc + fs;
      InsertAllAppends(acc + [fs[0]], fs[1..]);
    } else {
      assert acc + fs == acc;
    }
  }

  /** Collapsing gives a value in memory form, no taller and no larger; the size
      is kept exactly when no object repeated a key. */
  lemma {:induction false} CollapseFacts(v: Value)
    ensures Canonical(Collapse(v))
    ensures Size(Collapse(v)) <= Size(v)
    ensures Size(Collapse(v)) == Size(v) <==> NoRepeats(v)
    decreases v, 1
  {
    match v
    case Array(items) => CollapseItemsFacts(items);
    case Object(fs) => InsertAllFacts([], fs);
    case _ =>
  }

  lemma {:induction false} CollapseItemsFacts(items: seq<Value>)
    ensures forall k :: 0 <= k < |items| ==> Canonical(CollapseItems(items)[k])
    ensures SizeItems(CollapseItems(items)) <= SizeItems(items)
    ensures SizeItems(CollapseItems(items)) == SizeItems(items)
       <==> forall k :: 0 <= k < |items| ==> NoRepeats(items[k])
    decreases items, 0
  {
    if items != [] {
      CollapseFacts(items[0]);
      CollapseItemsFacts(items[1..]);
      var r := CollapseItems(items);
      assert r[1..] == CollapseItems(items[1..]);
      assert (forall k :: 0 <= k < |items| ==> NoRepeats(items[k])) <==>
             NoRepeats(items[0]) && forall k :: 0 <= k < |items[1..]| ==> NoRepeats(items[1..][k]) by {
        assert forall k :: 0 < k < |items| ==> items[k] == items[1..][k - 1];
      }
    }
  }

  /** The entries still to insert repeat no key, of theirs or of `acc`. */
  predicate Fresh(acc: seq<Field>, fs: seq<Field>)
    decreases |fs|
  {
    fs == [] ||
    (fs[0].key !in Keys(acc) && NoRepeats(fs[0].val) &&
     Fresh(Insert(acc, fs[0].key, Collapse(fs[0].val)), fs[1..]))
  }

  lemma {:induction false} InsertAllSize(acc: seq<Field>, fs: seq<Field>)
    requires SortedKeys(acc)
    requires forall f :: f in acc ==> Canonical(f.val)
    ensures SortedKeys(InsertAll(acc, fs))
    ensures forall f :: f in InsertAll(acc, fs) ==> Canonical(f.val)
    ensures SizeFields(InsertAll(acc, fs)) <= SizeFields(acc) + SizeFields(fs)
    ensures SizeFields(InsertAll(acc, fs)) == SizeFields(acc) + SizeFields(fs) <==> Fresh(acc, fs)
    decreases fs, 0
  {
    if fs != [] {
      var c := Collapse(fs[0].val);
      CollapseFacts(fs[0].val);
      InsertSorted(acc, fs[0].key, c);
      InsertSize(acc, fs[0].key, c);
      InsertMembers(acc, fs[0].key, c);
      InsertAllSize(Insert(acc, fs[0].key, c), fs[1..]);
    }
  }

  lemma {:induction false} DistinctCons(fs: seq<Field>)
    requires fs != []
    ensures DistinctKeys(fs) <==> fs[0].key !in Keys(fs[1..]) && DistinctKeys(fs[1..])
  {
    var t := fs[1..];
    assert forall k :: 0 < k < |fs| ==> fs[k] == t[k - 1];
    if DistinctKeys(fs) {
      forall i, j | 0 <= i < j < |t| ensures t[i].key != t[j].key {
        assert fs[i + 1].key != fs[j + 1].key;
      }
      forall k | 0 <= k < |t| ensures t[k].key != fs[0].key {
        assert fs[0].key != fs[k + 1].key;
      }
    } else if fs[0].key !in Keys(t) {
      var i, j :| 0 <= i < j < |fs| && fs[i].key == fs[j].key;
      assert t[j - 1].key in Keys(t);
    }
  }

  lemma {:induction false} FreshMeansDistinct(acc: seq<Field>, fs: seq<Field>)
    ensures Fresh(acc, fs) <==>
      && Keys(acc) !! Keys(fs)
      && DistinctKeys(fs)
      && forall k :: 0 <= k < |fs| ==> NoRepeats(fs[k].val)
    decreases |fs|
  {
    if fs != [] {
      var acc' := Insert(acc, fs[0].key, Collapse(fs[0].val));
      InsertKeys(acc, fs[0].key, Collapse(fs[0].val));
      FreshMeansDistinct(acc', fs[1..]);
      DistinctCons(fs);
      assert fs == [fs[0]] + fs[1..];
      KeysCons(fs[0], fs[1..]);
      assert forall k :: 0 < k < |fs| ==> fs[k] == fs[1..][k - 1];
    }
  }

  lemma {:induction false} InsertAllFacts(acc: seq<Field>, fs: seq<Field>)
    requires acc == []
    ensures var r := InsertAll(acc, fs);
      && SortedKeys(r)
      && (forall k :: 0 <= k < |r| ==> Canonical(r[k].val))
      && SizeFields(r) <= SizeFields(fs)
      && (SizeFields(r) == SizeFields(fs) <==> NoRepeats(Object(fs)))
    decreases fs, 1
  {
    InsertAllSize(acc, fs);
    FreshMeansDistinct(acc, fs);
  }

  // ---------------------------------------------------------------------
  // Limits are inherited by the collapsed value
  // ---------------------------------------------------------------------

  predicate Within(v: Value, h: nat) { Typed(v) && CountsOk(v) && Height(v) <= h }

  predicate FieldWithin(f: Field, h: nat) { ValidUtf8(f.key) && h > 0 && Within(f.val, h - 1) }

  lemma {:induction false} HeightItemsBound(items: seq<Value>, h: nat)
    ensures HeightItems(items) <= h <==> forall k :: 0 <= k < |items| ==> 1 + Height(items[k]) <= h
  {
    if items != [] {
      HeightItemsBound(items[1..], h);
      assert forall k :: 0 < k < |items| ==> items[k] == items[1..][k - 1];
    }
  }

  lemma {:induction false} HeightFieldsBound(fs: seq<Field>, h: nat)
    ensures HeightFields(fs) <= h <==> forall k :: 0 <= k < |fs| ==> 1 + Height(fs[k].val) <= h
  {
    if fs != [] {
      HeightFieldsBound(fs[1..], h);
      assert forall k :: 0 < k < |fs| ==> fs[k] == fs[1..][k - 1];
    }
  }

  lemma {:induction false} CollapseWithin(v: Value, h: nat)
    requires Within(v, h)
    ensures Within(Collapse(v), h)
    decreases v, 1
  {
    match v
    case Array(items) =>
      HeightItemsBound(items, h);
      CollapseItemsWithin(items, h);
      HeightItemsBound(CollapseItems(items), h);
    case Object(fs) =>
      HeightFieldsBound(fs, h);
      assert forall f :: f in fs ==> FieldWithin(f, h);
      InsertAllWithin([], fs, h);
      var r := InsertAll([], fs);
      assert forall k :: 0 <= k < |r| ==> r[k] in r && FieldWithin(r[k], h);
      HeightFieldsBound(r, h);
    case _ =>
  }

  lemma {:induction false} CollapseItemsWithin(items: seq<Value>, h: nat)
    requires forall k :: 0 <= k < |items| ==> h > 0 && Within(items[k], h - 1)
    ensures forall k :: 0 <= k < |items| ==> Within(CollapseItems(items)[k], h - 1)
    decreases items, 0
  {
    if items != [] {
      CollapseWithin(items[0], h - 1);
      CollapseItemsWithin(items[1..], h);
    }
  }

  lemma {:induction false} InsertAllWithin(acc: seq<Field>, fs: seq<Field>, h: nat)
    requires SortedKeys(acc)
    requires forall f :: f in acc || f in fs ==> FieldWithin(f, h)
    ensures forall f :: f in InsertAll(acc, fs) ==> FieldWithin(f, h)
    ensures |InsertAll(acc, fs)| <= |acc| + |fs|
    decreases fs, 0
  {
    if fs != [] {
      var c := Collapse(fs[0].val);
      assert FieldWithin(fs[0], h);
      CollapseWithin(fs[0].val, h - 1);
      InsertSorted(acc, fs[0].key, c);
      InsertSize(acc, fs[0].key, c);
      InsertMembers(acc, fs[0].key, c);
      assert forall f :: f in fs[1..] ==> f in fs;
      InsertAllWithin(Insert(acc, fs[0].key, c), fs[1..], h);
    }
  }
}
