/**
 What the encoder and the decoder promise of each other, for every value and
 every byte string.
 */
module CodecLaws {
  import opened Bytes
  import opened Text
  import opened Value
  import opened Codec

  // ---------------------------------------------------------------------
  // Encoding: when it succeeds and how long it is
  // ---------------------------------------------------------------------

  /** Encoding succeeds exactly within the depth, size, key and float limits. */
  lemma {:induction false} EncSucceeds(v: Value, depth: nat)
    requires Typed(v)
    ensures Enc(v, depth).Ok? <==>
      depth + Height(v) <= MAX_NESTING_DEPTH && CountsOk(v) && KeysFloatsOk(v)
    decreases v, 1
  {
    if v.Array? {
      hide ValidUtf8, EncItems, EncScalar;
      EncItemsSucceeds(v.items, depth + 1);
      if depth <= MAX_NESTING_DEPTH { HeightItemsBound(v.items, MAX_NESTING_DEPTH - depth); }
    } else if v.Object? {
      hide ValidUtf8, EncFields, EncScalar;
      EncFieldsSucceeds(v.fields, depth + 1);
      if depth <= MAX_NESTING_DEPTH { HeightFieldsBound(v.fields, MAX_NESTING_DEPTH - depth); }
    }
  }

  lemma {:induction false} EncItemsSucceeds(items: seq<Value>, depth: nat)
    requires forall k :: 0 <= k < |items| ==> Typed(items[k])
    ensures EncItems(items, depth).Ok? <==> forall k :: 0 <= k < |items| ==>
      depth + Height(items[k]) <= MAX_NESTING_DEPTH && CountsOk(items[k]) && KeysFloatsOk(items[k])
    decreases items, 0
  {
    if items != [] {
      EncSucceeds(items[0], depth);
      EncItemsSucceeds(items[1..], depth);
      assert forall k :: 0 < k < |items| ==> items[k] == items[1..][k - 1];
    }
  }

  lemma {:induction false} EncFieldsSucceeds(fs: seq<Field>, depth: nat)
    requires forall k :: 0 <= k < |fs| ==> ValidUtf8(fs[k].key) && Typed(fs[k].val)
    ensures EncFields(fs, depth).Ok? <==> forall k :: 0 <= k < |fs| ==>
      && depth + Height(fs[k].val) <= MAX_NESTING_DEPTH
      && |fs[k].key| <= MAX_KEY_SIZE && CountsOk(fs[k].val) && KeysFloatsOk(fs[k].val)
    decreases fs, 0
  {
    if fs != [] {
      EncSucceeds(fs[0].val, depth);
      EncFieldsSucceeds(fs[1..], depth);
      assert forall k :: 0 < k < |fs| ==> fs[k] == fs[1..][k - 1];
    }
  }

  lemma {:induction false} EncSize(v: Value, depth: nat)
    requires Typed(v) && Enc(v, depth).Ok?
    ensures |Enc(v, depth).value| == Size(v)
    decreases v, 1
  {
    if v.Array? {
      hide ValidUtf8, EncItems, EncScalar;
      EncItemsSize(v.items, depth + 1);
    } else if v.Object? {
      hide ValidUtf8, EncFields, EncScalar;
      EncFieldsSize(v.fields, depth + 1);
    }
  }

  lemma {:induction false} EncItemsSize(items: seq<Value>, depth: nat)
    requires forall k :: 0 <= k < |items| ==> Typed(items[k])
    requires EncItems(items, depth).Ok?
    ensures |EncItems(items, depth).value| == SizeItems(items)
    decreases items, 0
  {
    if items != [] {
      EncSize(items[0], depth);
      EncItemsSize(items[1..], depth);
    }
  }

  lemma {:induction false} EncFieldsSize(fs: seq<Field>, depth: nat)
    requires forall k :: 0 <= k < |fs| ==> ValidUtf8(fs[k].key) && Typed(fs[k].val)
    requires EncFields(fs, depth).Ok?
    ensures |EncFields(fs, depth).value| == SizeFields(fs)
    decreases fs, 0
  {
    if fs != [] {
      EncSize(fs[0].val, depth);
      EncFieldsSize(fs[1..], depth);
    }
  }

  // ---------------------------------------------------------------------
  // Decoding what was encoded
  // ---------------------------------------------------------------------

  /** `e` is written in `bytes` from `off` on. */
  predicate At(bytes: Buf, off: nat, e: Buf) {
    off + |e| <= |bytes| && forall i :: 0 <= i < |e| ==> bytes[off + i] == e[i]
  }

  lemma {:induction false} AtSplit(bytes: Buf, off: nat, a: Buf, b: Buf)
    requires At(bytes, off, a + b)
    ensures At(bytes, off, a) && At(bytes, off + |a|, b)
  {
    var e := a + b;
    forall i | 0 <= i < |a| ensures bytes[off + i] == a[i] { assert bytes[off + i] == e[i]; }
    forall i | 0 <= i < |b| ensures bytes[off + |a| + i] == b[i] {
      assert bytes[off + (|a| + i)] == e[|a| + i];
    }
  }

  lemma {:induction false} TakeWhole(bytes: Buf, off: nat, e: Buf)
    requires At(bytes, off, e)
    ensures Take(bytes, off, |e|) == Ok(e)
  {
    assert bytes[off..off + |e|] == e;
  }

  lemma {:induction false} I64BytesRoundTrip(i: int)
    requires I64_MIN <= i <= I64_MAX
    ensures I64FromBytes(I64Bytes(i)) == i
  {
    Pow256Values();
    FromToBE(if i < 0 then i + 0x1_0000_0000_0000_0000 else i, 8);
  }

  lemma {:induction false} U32At(bytes: Buf, off: nat, n: nat)
    requires n < 0x1_0000_0000 && At(bytes, off, U32Bytes(n))
    ensures TakeU32(bytes, off) == Ok(n)
  {
    TakeWhole(bytes, off, U32Bytes(n));
    Pow256Values();
    FromToBE(n, 4);
  }

  /** A tag and a 32-bit count, then a body. */
  lemma {:induction false} HeadAt(bytes: Buf, off: nat, tag: byte, n: nat, body: Buf)
    requires n < 0x1_0000_0000 && At(bytes, off, [tag] + U32Bytes(n) + body)
    ensures Take(bytes, off, 1) == Ok([tag])
    ensures TakeU32(bytes, off + 1) == Ok(n)
    ensures At(bytes, off + 5, body)
  {
    AtSplit(bytes, off, [tag] + U32Bytes(n), body);
    AtSplit(bytes, off, [tag], U32Bytes(n));
    TakeWhole(bytes, off, [tag]);
    U32At(bytes, off + 1, n);
  }

  lemma {:induction false} TakeAt(bytes: Buf, off: nat, tag: byte, body: Buf)
    requires At(bytes, off, [tag] + body)
    ensures Take(bytes, off, 1) == Ok([tag])
    ensures Take(bytes, off + 1, |body|) == Ok(body)
  {
    AtSplit(bytes, off, [tag], body);
    TakeWhole(bytes, off, [tag]);
    TakeWhole(bytes, off + 1, body);
  }

  lemma {:induction false} DecEncFixed(v: Value, bytes: Buf, off: nat)
    requires v.Null? || v.Bool? || v.Int? || v.Float?
    requires Typed(v) && EncScalar(v).Ok?
    requires At(bytes, off, EncScalar(v).value)
    ensures Take(bytes, off, 1) == Ok([Tag(v)])
    ensures DecScalar(bytes, off + 1, Tag(v)) == Ok((v, off + |EncScalar(v).value|))
  {
    match v
    case Null => TakeAt(bytes, off, 0, []);
    case Bool(b) =>
      var x: byte := if b then 1 else 0;
      assert [1, x] == [1] + [x];
      TakeAt(bytes, off, 1, [x]);
    case Int(i) =>
      TakeAt(bytes, off, 2, I64Bytes(i));
      I64BytesRoundTrip(i);
    case Float(bits) =>
      TakeAt(bytes, off, 3, ToBE(bits, 8));
      Pow256Values();
      FromToBE(bits, 8);
  }

  lemma {:induction false} DecEncText(v: Value, bytes: Buf, off: nat)
    requires v.Str? || v.Blob?
    requires Typed(v) && EncScalar(v).Ok?
    requires At(bytes, off, EncScalar(v).value)
    ensures Take(bytes, off, 1) == Ok([Tag(v)])
    ensures DecScalar(bytes, off + 1, Tag(v)) == Ok((v, off + |EncScalar(v).value|))
  {
    hide At, ValidUtf8, ToBE, TakeU32;
    var s := if v.Str? then v.text else v.data;
    HeadAt(bytes, off, Tag(v), |s|, s);
    TakeWhole(bytes, off + 5, s);
    hide Take;
  }

  lemma {:induction false} DecEncScalar(v: Value, depth: nat, bytes: Buf, off: nat)
    requires !v.Array? && !v.Object? && Typed(v) && Enc(v, depth).Ok?
    requires At(bytes, off, Enc(v, depth).value)
    ensures Dec(bytes, off, depth) == Ok((v, off + |Enc(v, depth).value|))
  {
    hide At, DecScalar, EncScalar, ValidUtf8;
    if v.Str? || v.Blob? {
      DecEncText(v, bytes, off);
    } else {
      DecEncFixed(v, bytes, off);
    }
  }

  lemma {:induction false} DecEncArray(v: Value, depth: nat, bytes: Buf, off: nat)
    requires v.Array? && Typed(v) && Enc(v, depth).Ok?
    requires At(bytes, off, Enc(v, depth).value)
    ensures forall k :: 0 <= k < |v.items| ==> Typed(v.items[k])
    ensures EncItems(v.items, depth + 1).Ok?
    ensures var body := EncItems(v.items, depth + 1).value;
      && At(bytes, off + 5, body)
      && (DecItems(bytes, off + 5, |v.items|, depth + 1) == Ok((v.items, off + 5 + |body|)) ==>
          Dec(bytes, off, depth) == Ok((v, off + |Enc(v, depth).value|)))
  {
    hide At, ValidUtf8, ToBE;
    HeadAt(bytes, off, 6, |v.items|, EncItems(v.items, depth + 1).value);
  }

  lemma {:induction false} DecEncObject(v: Value, depth: nat, bytes: Buf, off: nat)
    requires v.Object? && Typed(v) && Enc(v, depth).Ok?
    requires At(bytes, off, Enc(v, depth).value)
    ensures forall k :: 0 <= k < |v.fields| ==> ValidUtf8(v.fields[k].key) && Typed(v.fields[k].val)
    ensures EncFields(v.fields, depth + 1).Ok?
    ensures var body := EncFields(v.fields, depth + 1).value;
      && At(bytes, off + 5, body)
      && (DecFields(bytes, off + 5, |v.fields|, depth + 1) == Ok((v.fields, off + 5 + |body|)) ==>
          Dec(bytes, off, depth) == Ok((v, off + |Enc(v, depth).value|)))
  {
    hide At, ValidUtf8, ToBE;
    HeadAt(bytes, off, 7, |v.fields|, EncFields(v.fields, depth + 1).value);
  }

  /** Wherever an encoding is written, decoding there gives the value back and stops at its end. */
  lemma {:induction false} DecEnc(v: Value, depth: nat, bytes: Buf, off: nat)
    requires Typed(v) && Enc(v, depth).Ok?
    requires At(bytes, off, Enc(v, depth).value)
    ensures Dec(bytes, off, depth) == Ok((v, off + |Enc(v, depth).value|))
    decreases v, 1
  {
    hide *;
    if v.Array? {
      DecEncArray(v, depth, bytes, off);
      DecEncItems(v.items, depth + 1, bytes, off + 5);
    } else if v.Object? {
      DecEncObject(v, depth, bytes, off);
      DecEncFields(v.fields, depth + 1, bytes, off + 5);
    } else {
      DecEncScalar(v, depth, bytes, off);
    }
  }

  lemma {:induction false} DecEncItems(items: seq<Value>, depth: nat, bytes: Buf, off: nat)
    requires forall k :: 0 <= k < |items| ==> Typed(items[k])
    requires EncItems(items, depth).Ok?
    requires At(bytes, off, EncItems(items, depth).value)
    ensures DecItems(bytes, off, |items|, depth) == Ok((items, off + |EncItems(items, depth).value|))
    decreases items, 0
  {
    hide Dec, Enc, At;
    if items != [] {
      var e, es := Enc(items[0], depth).value, EncItems(items[1..], depth).value;
      AtSplit(bytes, off, e, es);
      DecEnc(items[0], depth, bytes, off);
      DecEncItems(items[1..], depth, bytes, off + |e|);
      assert items == [items[0]] + items[1..];
    }
  }

  /** A key with its length, then a value, then more. */
  lemma {:induction false} FieldAt(bytes: Buf, off: nat, key: Buf, e: Buf, es: Buf)
    requires |key| <= MAX_KEY_SIZE && ValidUtf8(key)
    requires At(bytes, off, U32Bytes(|key|) + key + e + es)
    ensures DecKey(bytes, off) == Ok((key, off + 4 + |key|))
    ensures At(bytes, off + 4 + |key|, e)
    ensures At(bytes, off + 4 + |key| + |e|, es)
  {
    hide At, ValidUtf8, ToBE, FromBE;
    AtSplit(bytes, off, U32Bytes(|key|) + key + e, es);
    AtSplit(bytes, off, U32Bytes(|key|) + key, e);
    AtSplit(bytes, off, U32Bytes(|key|), key);
    U32At(bytes, off, |key|);
    TakeWhole(bytes, off + 4, key);
  }

  lemma {:induction false} DecEncFields(fs: seq<Field>, depth: nat, bytes: Buf, off: nat)
    requires forall k :: 0 <= k < |fs| ==> ValidUtf8(fs[k].key) && Typed(fs[k].val)
    requires EncFields(fs, depth).Ok?
    requires At(bytes, off, EncFields(fs, depth).value)
    ensures DecFields(bytes, off, |fs|, depth) == Ok((fs, off + |EncFields(fs, depth).value|))
    decreases fs, 0
  {
    hide Dec, Enc, At, ValidUtf8, DecKey;
    if fs != [] {
      var key := fs[0].key;
      var e, es := Enc(fs[0].val, depth).value, EncFields(fs[1..], depth).value;
      FieldAt(bytes, off, key, e, es);
      DecEnc(fs[0].val, depth, bytes, off + 4 + |key|);
      DecEncFields(fs[1..], depth, bytes, off + 4 + |key| + |e|);
      assert fs == [fs[0]] + fs[1..];
    }
  }

  // ---------------------------------------------------------------------
  // Decoding what was cut short
  // ---------------------------------------------------------------------

  /** `bytes` ends somewhere within `e`, which is written from `off` on. */
  predicate Cut(bytes: Buf, off: nat, e: Buf) {
    off <= |bytes| < off + |e| && forall i :: 0 <= i < |bytes| - off ==> bytes[off + i] == e[i]
  }

  /** The end of the input is reported at a place between `off` and the end. */
  predicate Short<T>(r: Result<T>, off: nat, bytes: Buf) {
    r.Err? && r.error.UnexpectedEof? && off <= r.error.offset <= |bytes|
  }

  lemma {:induction false} CutSplit(bytes: Buf, off: nat, a: Buf, b: Buf)
    requires Cut(bytes, off, a + b)
    ensures Cut(bytes, off, a) || (At(bytes, off, a) && Cut(bytes, off + |a|, b))
  {
    var e := a + b;
    assert forall i :: 0 <= i < |a| ==> e[i] == a[i];
    assert forall i :: 0 <= i < |b| ==> e[|a| + i] == b[i];
    if off + |a| <= |bytes| {
      forall i | 0 <= i < |bytes| - off - |a| ensures bytes[off + |a| + i] == b[i] {
        assert bytes[off + (|a| + i)] == e[|a| + i];
      }
    }
  }

  lemma CutTake(bytes: Buf, off: nat, e: Buf)
    requires Cut(bytes, off, e)
    ensures Take(bytes, off, |e|) == Err(UnexpectedEof(off)) && off <= |bytes|
  {
  }

  lemma {:induction false} CutU32(bytes: Buf, off: nat, n: nat)
    requires Cut(bytes, off, U32Bytes(n))
    ensures TakeU32(bytes, off) == Err(UnexpectedEof(off)) && off <= |bytes|
  {
    CutTake(bytes, off, U32Bytes(n));
  }

  /** A tag and a payload of fixed length. */
  lemma {:induction false} CutPlain(bytes: Buf, off: nat, tag: byte, body: Buf)
    requires Cut(bytes, off, [tag] + body)
    ensures off <= |bytes|
    ensures Take(bytes, off, 1) == Err(UnexpectedEof(off)) ||
      (Take(bytes, off, 1) == Ok([tag]) && off + 1 <= |bytes| &&
       Take(bytes, off + 1, |body|) == Err(UnexpectedEof(off + 1)))
  {
    hide Cut, At, Take;
    CutSplit(bytes, off, [tag], body);
    if Cut(bytes, off, [tag]) {
      CutTake(bytes, off, [tag]);
    } else {
      TakeWhole(bytes, off, [tag]);
      CutTake(bytes, off + 1, body);
    }
  }

  /** A tag, a 32-bit count and a body. */
  lemma {:induction false} CutHead(bytes: Buf, off: nat, tag: byte, n: nat, body: Buf)
    requires n < 0x1_0000_0000 && Cut(bytes, off, [tag] + U32Bytes(n) + body)
    ensures off <= |bytes|
    ensures Take(bytes, off, 1) == Err(UnexpectedEof(off)) ||
      (Take(bytes, off, 1) == Ok([tag]) && off + 1 <= |bytes| &&
       (TakeU32(bytes, off + 1) == Err(UnexpectedEof(off + 1)) ||
        (TakeU32(bytes, off + 1) == Ok(n) && Cut(bytes, off + 5, body))))
  {
    hide Cut, At, Take, TakeU32, ToBE;
    CutSplit(bytes, off, [tag] + U32Bytes(n), body);
    if Cut(bytes, off, [tag] + U32Bytes(n)) {
      CutSplit(bytes, off, [tag], U32Bytes(n));
      if Cut(bytes, off, [tag]) {
        CutTake(bytes, off, [tag]);
      } else {
        TakeWhole(bytes, off, [tag]);
        CutU32(bytes, off + 1, n);
      }
    } else {
      AtSplit(bytes, off, [tag], U32Bytes(n));
      TakeWhole(bytes, off, [tag]);
      U32At(bytes, off + 1, n);
      assert off <= |bytes| by { AtWithin(bytes, off, [tag]); }
    }
  }

  lemma AtWithin(bytes: Buf, off: nat, e: Buf)
    requires At(bytes, off, e)
    ensures off + |e| <= |bytes|
  {
  }

  lemma {:induction false} ScalarCut(v: Value, depth: nat, bytes: Buf, off: nat)
    requires !v.Array? && !v.Object? && Typed(v) && Enc(v, depth).Ok? && Cut(bytes, off, Enc(v, depth).value)
    ensures Short(Dec(bytes, off, depth), off, bytes)
  {
    hide Cut, ValidUtf8, ToBE, FromBE, Finite;
    match v
    case Null =>
      assert [0] == [0] + [];
      CutTake(bytes, off, [0]);
    case Bool(b) =>
      var x: byte := if b then 1 else 0;
      assert [1, x] == [1] + [x];
      CutPlain(bytes, off, 1, [x]);
    case Int(i) => CutPlain(bytes, off, 2, I64Bytes(i));
    case Float(bits) => CutPlain(bytes, off, 3, ToBE(bits, 8));
    case Str(s) => TextCut(bytes, off, 4, s);
    case Blob(d) => TextCut(bytes, off, 5, d);
  }

  lemma {:induction false} TextCut(bytes: Buf, off: nat, tag: byte, s: Buf)
    requires |s| <= MAX_STRING_BLOB_SIZE && (tag == 4 || tag == 5) && Cut(bytes, off, [tag] + U32Bytes(|s|) + s)
    ensures off <= |bytes|
    ensures Take(bytes, off, 1) == Err(UnexpectedEof(off)) ||
      (Take(bytes, off, 1) == Ok([tag]) && off + 1 <= |bytes| && Short(DecScalar(bytes, off + 1, tag), off, bytes))
  {
    hide Cut, ValidUtf8, ToBE, TakeU32;
    CutHead(bytes, off, tag, |s|, s);
    if Cut(bytes, off + 5, s) { CutTake(bytes, off + 5, s); }
    hide Take;
  }

  /** An encoding that is cut short anywhere is reported as the end of the input, within what is there. */
  lemma {:induction false} DecCut(v: Value, depth: nat, bytes: Buf, off: nat)
    requires Typed(v) && Enc(v, depth).Ok? && Cut(bytes, off, Enc(v, depth).value)
    ensures Short(Dec(bytes, off, depth), off, bytes)
    decreases v, 1
  {
    hide Cut, ValidUtf8, ToBE, TakeU32, DecItems, DecFields, DecScalar, EncItems, EncFields, EncScalar;
    if v.Array? {
      CutHead(bytes, off, 6, |v.items|, EncItems(v.items, depth + 1).value);
      if Cut(bytes, off + 5, EncItems(v.items, depth + 1).value) { ItemsCut(v.items, depth + 1, bytes, off + 5); }
    } else if v.Object? {
      CutHead(bytes, off, 7, |v.fields|, EncFields(v.fields, depth + 1).value);
      if Cut(bytes, off + 5, EncFields(v.fields, depth + 1).value) { FieldsCut(v.fields, depth + 1, bytes, off + 5); }
    } else {
      ScalarCut(v, depth, bytes, off);
    }
  }

  lemma {:induction false} ItemsCut(items: seq<Value>, depth: nat, bytes: Buf, off: nat)
    requires forall k :: 0 <= k < |items| ==> Typed(items[k])
    requires EncItems(items, depth).Ok? && Cut(bytes, off, EncItems(items, depth).value)
    ensures off <= |bytes| && Short(DecItems(bytes, off, |items|, depth), off, bytes)
    decreases items, 0
  {
    assert off <= |bytes| by { CutWithin(bytes, off, EncItems(items, depth).value); }
    hide Cut, Dec, Enc, At;
    assert items != [] by { NothingCut(bytes, off); }
    var e, es := Enc(items[0], depth).value, EncItems(items[1..], depth).value;
    CutSplit(bytes, off, e, es);
    if Cut(bytes, off, e) {
      DecCut(items[0], depth, bytes, off);
    } else {
      DecEnc(items[0], depth, bytes, off);
      ItemsCut(items[1..], depth, bytes, off + |e|);
    }
  }

  lemma CutWithin(bytes: Buf, off: nat, e: Buf)
    requires Cut(bytes, off, e)
    ensures off <= |bytes|
  {
  }

  lemma NothingCut(bytes: Buf, off: nat)
    ensures !Cut(bytes, off, [])
  {
  }

  lemma {:induction false} KeyCut(bytes: Buf, off: nat, key: Buf)
    requires |key| <= MAX_KEY_SIZE && Cut(bytes, off, U32Bytes(|key|) + key)
    ensures Short(DecKey(bytes, off), off, bytes)
  {
    hide Cut, At, ValidUtf8, ToBE, TakeU32;
    CutSplit(bytes, off, U32Bytes(|key|), key);
    if Cut(bytes, off, U32Bytes(|key|)) {
      CutU32(bytes, off, |key|);
    } else {
      U32At(bytes, off, |key|);
      CutTake(bytes, off + 4, key);
      hide Take;
    }
  }

  lemma {:induction false} FieldsCut(fs: seq<Field>, depth: nat, bytes: Buf, off: nat)
    requires forall k :: 0 <= k < |fs| ==> ValidUtf8(fs[k].key) && Typed(fs[k].val)
    requires EncFields(fs, depth).Ok? && Cut(bytes, off, EncFields(fs, depth).value)
    ensures off <= |bytes| && Short(DecFields(bytes, off, |fs|, depth), off, bytes)
    decreases fs, 0
  {
    hide *;
    CutWithin(bytes, off, EncFields(fs, depth).value);
    EncFieldsParts(fs, depth);
    assert fs != [] by { NothingCut(bytes, off); }
    var key := fs[0].key;
    var e, es := Enc(fs[0].val, depth).value, EncFields(fs[1..], depth).value;
    var k := U32Bytes(|key|) + key;
    assert forall j :: 0 < j < |fs| ==> fs[j] == fs[1..][j - 1];
    CutSplit(bytes, off, k + e, es);
    if Cut(bytes, off, k + e) {
      CutSplit(bytes, off, k, e);
      if Cut(bytes, off, k) {
        KeyCut(bytes, off, key);
      } else {
        KeyAt(bytes, off, key);
        DecCut(fs[0].val, depth, bytes, off + |k|);
      }
    } else {
      AtSplit(bytes, off, k, e);
      KeyAt(bytes, off, key);
      DecEnc(fs[0].val, depth, bytes, off + |k|);
      FieldsCut(fs[1..], depth, bytes, off + |k + e|);
    }
    FieldShort(bytes, off, |fs|, depth, off + |k|, off + |k + e|);
  }

  lemma {:induction false} EncFieldsParts(fs: seq<Field>, depth: nat)
    requires forall k :: 0 <= k < |fs| ==> ValidUtf8(fs[k].key) && Typed(fs[k].val)
    requires EncFields(fs, depth).Ok?
    ensures fs == [] ==> EncFields(fs, depth).value == []
    ensures fs != [] ==>
      && |fs[0].key| <= MAX_KEY_SIZE && Enc(fs[0].val, depth).Ok? && EncFields(fs[1..], depth).Ok?
      && EncFields(fs, depth).value ==
           U32Bytes(|fs[0].key|) + fs[0].key + Enc(fs[0].val, depth).value + EncFields(fs[1..], depth).value
      && |U32Bytes(|fs[0].key|) + fs[0].key| == 4 + |fs[0].key|
  {
    hide Enc, ValidUtf8, Typed;
  }

  /** A list of entries is cut short where its key, its value or the rest is. */
  lemma {:induction false} FieldShort(bytes: Buf, off: nat, n: nat, depth: nat, at: nat, o: nat)
    requires n > 0 && off <= |bytes| && off <= at && off <= o
    requires Short(DecKey(bytes, off), off, bytes) ||
      (DecKey(bytes, off).Ok? && DecKey(bytes, off).value.1 == at &&
       (Short(Dec(bytes, at, depth), at, bytes) ||
        (Dec(bytes, at, depth).Ok? && Dec(bytes, at, depth).value.1 == o <= |bytes| &&
         Short(DecFields(bytes, o, n - 1, depth), o, bytes))))
    ensures Short(DecFields(bytes, off, n, depth), off, bytes)
  {
    hide Dec, DecKey;
  }

  lemma {:induction false} KeyAt(bytes: Buf, off: nat, key: Buf)
    requires |key| <= MAX_KEY_SIZE && ValidUtf8(key) && At(bytes, off, U32Bytes(|key|) + key)
    ensures DecKey(bytes, off) == Ok((key, off + 4 + |key|))
  {
    hide At, ValidUtf8, ToBE, FromBE;
    AtSplit(bytes, off, U32Bytes(|key|), key);
    U32At(bytes, off, |key|);
    TakeWhole(bytes, off + 4, key);
  }

  // ---------------------------------------------------------------------
  // What an accepted buffer satisfies
  // ---------------------------------------------------------------------

  /** A decoded value keeps the depth and count limits and is as large as what was consumed. */
  lemma {:induction false} DecFacts(bytes: Buf, off: nat, depth: nat)
    requires Dec(bytes, off, depth).Ok?
    ensures var (v, end) := Dec(bytes, off, depth).value;
      && Typed(v) && CountsOk(v) && depth + Height(v) <= MAX_NESTING_DEPTH
      && end == off + Size(v)
    decreases |bytes| - off, 0
  {
    hide DecScalar, DecItems, DecFields, ValidUtf8;
    if bytes[off] == 6 {
      var count := TakeU32(bytes, off + 1).value;
      DecItemsFacts(bytes, off + 5, count, depth + 1);
      HeightItemsBound(DecItems(bytes, off + 5, count, depth + 1).value.0, MAX_NESTING_DEPTH - depth);
    } else if bytes[off] == 7 {
      var count := TakeU32(bytes, off + 1).value;
      DecFieldsFacts(bytes, off + 5, count, depth + 1);
      HeightFieldsBound(DecFields(bytes, off + 5, count, depth + 1).value.0, MAX_NESTING_DEPTH - depth);
    } else {
      DecScalarFacts(bytes, off + 1, bytes[off]);
    }
  }

  lemma {:induction false} DecScalarFacts(bytes: Buf, off: nat, tag: byte)
    requires off <= |bytes| && tag != 6 && tag != 7 && DecScalar(bytes, off, tag).Ok?
    ensures var (v, end) := DecScalar(bytes, off, tag).value;
      && Typed(v) && CountsOk(v) && Height(v) == 0
      && end + 1 == off + Size(v)
  {
    Pow256Values();
  }

  lemma {:induction false} DecItemsFacts(bytes: Buf, off: nat, count: nat, depth: nat)
    requires off <= |bytes| && DecItems(bytes, off, count, depth).Ok?
    ensures var (vs, end) := DecItems(bytes, off, count, depth).value;
      && |vs| == count
      && (forall k :: 0 <= k < |vs| ==>
            Typed(vs[k]) && CountsOk(vs[k]) && depth + Height(vs[k]) <= MAX_NESTING_DEPTH)
      && end == off + SizeItems(vs)
    decreases |bytes| - off, 1
  {
    hide Dec;
    if count > 0 {
      DecFacts(bytes, off, depth);
      var (v, o) := Dec(bytes, off, depth).value;
      DecItemsFacts(bytes, o, count - 1, depth);
      var vs := DecItems(bytes, off, count, depth).value.0;
      assert vs[1..] == DecItems(bytes, o, count - 1, depth).value.0;
    }
  }

  lemma {:induction false} DecFieldsFacts(bytes: Buf, off: nat, count: nat, depth: nat)
    requires off <= |bytes| && DecFields(bytes, off, count, depth).Ok?
    ensures var (fs, end) := DecFields(bytes, off, count, depth).value;
      && |fs| == count
      && (forall k :: 0 <= k < |fs| ==>
            && ValidUtf8(fs[k].key) && Typed(fs[k].val) && CountsOk(fs[k].val)
            && depth + Height(fs[k].val) <= MAX_NESTING_DEPTH)
      && end == off + SizeFields(fs)
    decreases |bytes| - off, 1
  {
    hide Dec, DecKey, ValidUtf8;
    if count > 0 {
      var at := DecKey(bytes, off).value.1;
      DecFacts(bytes, at, depth);
      var (v, o) := Dec(bytes, at, depth).value;
      DecFieldsFacts(bytes, o, count - 1, depth);
      var fs := DecFields(bytes, off, count, depth).value.0;
      assert fs[1..] == DecFields(bytes, o, count - 1, depth).value.0;
    }
  }

  // ---------------------------------------------------------------------
  // Main results
  // ---------------------------------------------------------------------

  /** Decoding inverts encoding, even in front of other bytes; the length is the header plus the size. */
  lemma {:induction false} EncodeThenDecode(v: Value, rest: Buf)
    requires Typed(v) && Canonical(v) && Encode(v).Ok?
    ensures var e := Encode(v).value;
      && |e| == HEADER_SIZE + Size(v)
      && Dec(e + rest, HEADER_SIZE, 0) == Ok((v, |e|))
      && Decode(e) == Ok(v)
      && (rest != [] ==> Decode(e + rest) == Err(TrailingBytes(|e|, |rest|)))
  {
    var body := Enc(v, 0).value;
    var e := Encode(v).value;
    EncSize(v, 0);
    HeaderThen(body, rest);
    HeaderThen(body, []);
    DecEnc(v, 0, e + rest, HEADER_SIZE);
    DecEnc(v, 0, e, HEADER_SIZE);
    CollapseCanonical(v);
    hide Dec, Enc, At, Collapse;
  }

  lemma HeaderThen(body: Buf, rest: Buf)
    ensures var e := MAGIC + [VERSION] + body;
      && |e| == HEADER_SIZE + |body|
      && (e + rest)[..3] == MAGIC && (e + rest)[3] == VERSION
      && e[..3] == MAGIC && e[3] == VERSION
      && At(e + rest, HEADER_SIZE, body) && At(e, HEADER_SIZE, body)
  {
  }

  /** Every proper beginning of an encoding is reported as cut short, never as anything else. */
  lemma {:induction false} PrefixIsShort(v: Value, k: nat)
    requires Typed(v) && Encode(v).Ok? && k < |Encode(v).value|
    ensures Short(Decode(Encode(v).value[..k]), 0, Encode(v).value[..k])
  {
    hide Dec, Enc, Collapse;
    var e, body := Encode(v).value, Enc(v, 0).value;
    var b := e[..k];
    HeaderThen(body, []);
    if k >= HEADER_SIZE {
      assert b[..3] == e[..3] && b[3] == e[3];
      assert Cut(b, HEADER_SIZE, body);
      DecCut(v, 0, b, HEADER_SIZE);
    }
  }

  /** Encoding a value in memory succeeds exactly within the documented limits. */
  lemma {:induction false} EncodeSucceedsExactly(v: Value)
    requires Typed(v)
    ensures Encode(v).Ok? <==> Height(v) <= MAX_NESTING_DEPTH && CountsOk(v) && KeysFloatsOk(v)
  {
    EncSucceeds(v, 0);
  }

  // ---------------------------------------------------------------------
  // The bytes on disk
  // ---------------------------------------------------------------------

  /** An integer is written in eight bytes, most significant first, and a negative one as if 2^64 were
      added to it. */
  lemma {:induction false} I64Layout(i: int)
    requires I64_MIN <= i <= I64_MAX
    ensures |I64Bytes(i)| == 8 && I64Bytes(0) == [0, 0, 0, 0, 0, 0, 0, 0]
    ensures FromBE(I64Bytes(i)) == if i < 0 then 18_446_744_073_709_551_616 + i else i
  {
    hide ToBE, FromBE, Pow256;
    Pow256Values();
    FromToBE(if i < 0 then 18_446_744_073_709_551_616 + i else i, 8);
    ZeroBytes();
  }

  lemma {:induction false} ZeroBytes()
    ensures ToBE(0, 8) == [0, 0, 0, 0, 0, 0, 0, 0]
  {
    assert ToBE(0, 1) == [0] && ToBE(0, 2) == [0, 0] && ToBE(0, 3) == [0, 0, 0] && ToBE(0, 4) == [0, 0, 0, 0];
    assert ToBE(0, 5) == [0, 0, 0, 0, 0] && ToBE(0, 6) == [0, 0, 0, 0, 0, 0];
    assert ToBE(0, 7) == [0, 0, 0, 0, 0, 0, 0];
  }

  /** Every encoding starts with "BDB", the version 1 and the type of the value: nil 0, boolean 1, integer 2,
      float 3, string 4, blob 5, array 6, object 7. */
  lemma {:induction false} StartsWithType(v: Value)
    requires Typed(v) && Encode(v).Ok?
    ensures var e := Encode(v).value;
      && |e| >= 5 && e[0] == 'B' as int && e[1] == 'D' as int && e[2] == 'B' as int && e[3] == 1
      && (e[4] == 0 <==> v.Null?) && (e[4] == 1 <==> v.Bool?) && (e[4] == 2 <==> v.Int?) && (e[4] == 3 <==> v.Float?)
      && (e[4] == 4 <==> v.Str?) && (e[4] == 5 <==> v.Blob?) && (e[4] == 6 <==> v.Array?) && (e[4] == 7 <==> v.Object?)
  {
    hide EncItems, EncFields, ValidUtf8, I64Bytes, U32Bytes, Finite, Typed;
    EncSize(v, 0);
  }

  /** Small buffers, byte by byte: any byte but zero is true, types above 7 are unknown, and a wrong start is
      reported by its first byte, a wrong version as such. */
  lemma {:induction false} SmallBuffers(t: byte, b: byte, rest: Buf)
    ensures Decode([66, 68, 66, 1, 1, b]) == Ok(Bool(b != 0))
    ensures Decode([66, 68, 66, 1, 0]) == Ok(Null)
    ensures t > 7 ==> Decode([66, 68, 66, 1, t] + rest) == Err(UnknownTypeTag(t))
    ensures t != 66 ==> Decode([t, 68, 66, 1] + rest) == Err(UnknownTypeTag(t))
    ensures t != 68 ==> Decode([66, t, 66, 1] + rest) == Err(UnknownTypeTag(66))
    ensures |rest| < 4 ==> Decode(rest) == Err(UnexpectedEof(0))
    ensures t != 1 ==> Decode([66, 68, 66, t] + rest) == Err(UnsupportedCodecVersion(t))
  {
    hide DecItems, DecFields;
    var x := [66, 68, 66, 1, 1, b];
    assert x[..3] == MAGIC && x[4..5] == [1] && x[5..6] == [b];
    var y := [66, 68, 66, 1, 0];
    assert y[..3] == MAGIC && y[4..5] == [0];
    var z := [66, 68, 66, 1, t] + rest;
    assert z[..3] == MAGIC && z[4..5] == [t];
    var w := [t, 68, 66, 1] + rest;
    assert w[..3][0] == t && MAGIC[0] == 66;
    var q := [66, t, 66, 1] + rest;
    assert q[..3][1] == t && MAGIC[1] == 68;
    var u := [66, 68, 66, t] + rest;
    assert u[..3] == MAGIC && u[3] == t;
  }

  /** Nil inside arrays and objects, as `shape` says, outermost first. */
  function Wrapped(shape: seq<bool>): Value {
    if shape == [] then Null
    else if shape[0] then Array([Wrapped(shape[1..])])
    else Object([Field([], Wrapped(shape[1..]))])
  }

  lemma {:induction false} WrappedFacts(shape: seq<bool>)
    ensures Typed(Wrapped(shape)) && Height(Wrapped(shape)) == |shape|
    ensures CountsOk(Wrapped(shape)) && KeysFloatsOk(Wrapped(shape))
  {
    if shape != [] {
      WrappedFacts(shape[1..]);
      var inner := Wrapped(shape[1..]);
      OneItem(inner);
      hide Height, HeightItems, HeightFields;
    }
  }

  lemma OneItem(v: Value)
    ensures Height(Array([v])) == 1 + Height(v) && Height(Object([Field([], v)])) == 1 + Height(v)
  {
    assert [v][1..] == [] && [Field([], v)][1..] == [];
    assert HeightItems([v]) == Max(1 + Height([v][0]), HeightItems([v][1..]));
    assert HeightFields([Field([], v)]) == Max(1 + Height([Field([], v)][0].val), HeightFields([Field([], v)][1..]));
  }

  /** The limits in numbers: 64 levels, 16 MiB of text or bytes, a million elements, a hundred
      thousand entries (`EntriesFit`) and keys of 256 bytes. */
  lemma {:induction false} LimitsInNumbers(shape: seq<bool>, s: Buf, items: seq<Value>, key: Buf)
    ensures Typed(Wrapped(shape)) && (Encode(Wrapped(shape)).Ok? <==> |shape| <= 64)
    ensures ValidUtf8(s) ==> (Encode(Str(s)).Ok? <==> |s| <= 16_777_216)
    ensures Encode(Blob(s)).Ok? <==> |s| <= 16_777_216
    ensures (forall k :: 0 <= k < |items| ==> items[k] == Null) ==>
      (Encode(Array(items)).Ok? <==> |items| <= 1_000_000)
    ensures ValidUtf8(key) ==> (Encode(Object([Field(key, Null)])).Ok? <==> |key| <= 256)
  {
    hide Encode, ValidUtf8, Wrapped;
    WrappedFacts(shape);
    EncodeSucceedsExactly(Wrapped(shape));
    if ValidUtf8(s) { EncodeSucceedsExactly(Str(s)); }
    EncodeSucceedsExactly(Blob(s));
    if forall k :: 0 <= k < |items| ==> items[k] == Null { NullsFit(items); }
    if ValidUtf8(key) {
      var fs := [Field(key, Null)];
      EntriesFit(fs);
      assert fs[0].key == key;
    }
  }

  lemma {:induction false} NullsFit(items: seq<Value>)
    requires forall k :: 0 <= k < |items| ==> items[k] == Null
    ensures Encode(Array(items)).Ok? <==> |items| <= 1_000_000
  {
    hide Encode;
    EncodeSucceedsExactly(Array(items));
    HeightItemsBound(items, 64);
    assert Height(Null) == 0 && CountsOk(Null) && KeysFloatsOk(Null);
    hide HeightItems;
    assert Height(Array(items)) == HeightItems(items);
  }

  lemma {:induction false} EntriesFit(fs: seq<Field>)
    requires forall k :: 0 <= k < |fs| ==> fs[k].val == Null && ValidUtf8(fs[k].key)
    ensures Encode(Object(fs)).Ok? <==> |fs| <= 100_000 && forall k :: 0 <= k < |fs| ==> |fs[k].key| <= 256
  {
    hide Encode, ValidUtf8;
    EncodeSucceedsExactly(Object(fs));
    HeightFieldsBound(fs, 64);
    assert Height(Null) == 0 && CountsOk(Null) && KeysFloatsOk(Null);
    hide HeightFields;
    assert Height(Object(fs)) == HeightFields(fs);
  }

  /** What decoding accepts: depth at most 64, a size that falls short of the input exactly when
      some object of the input repeats a key, and re-encoding that can fail only on keys and floats. */
  lemma {:induction false} DecodeAccepts(bytes: Buf)
    requires Decode(bytes).Ok?
    ensures var v := Decode(bytes).value;
      && Typed(v) && Canonical(v)
      && Height(v) <= MAX_NESTING_DEPTH
      && HEADER_SIZE + Size(v) <= |bytes|
      && (HEADER_SIZE + Size(v) == |bytes| <==> NoRepeats(DecodeWritten(bytes).value))
      && (Encode(v).Ok? <==> KeysFloatsOk(v))
  {
    var w := DecodeWritten(bytes).value;
    DecFacts(bytes, HEADER_SIZE, 0);
    CollapseFacts(w);
    CollapseWithin(w, MAX_NESTING_DEPTH);
    EncodeSucceedsExactly(Collapse(w));
  }
}
