/**
 The codec as it runs: one growing buffer, one moving offset, loops over
 elements and entries, and the ordered map filled entry by entry.
 */
module BinaryCodec {
  import opened Bytes
  import opened Text
  import opened Value
  import opened Codec
  import opened CodecLaws

  /** `acc` in front of what is still to be encoded. */
  function Prepend(acc: Buf, r: Result<Buf>): Result<Buf> {
    if r.Ok? then Ok(acc + r.value) else r
  }

  lemma {:induction false} PrependLaws(a: Buf, b: Buf, r: Result<Buf>)
    ensures Prepend([], r) == r
    ensures Prepend(a, Prepend(b, r)) == Prepend(a + b, r)
  {
    if r.Ok? {
      assert [] + r.value == r.value;
      assert a + (b + r.value) == (a + b) + r.value;
    }
  }

  lemma {:induction false} EncItemsStep(items: seq<Value>, i: nat, depth: nat)
    requires i < |items| && forall k :: 0 <= k < |items| ==> Typed(items[k])
    ensures Enc(items[i], depth).Err? ==> EncItems(items[i..], depth) == Err(Enc(items[i], depth).error)
    ensures Enc(items[i], depth).Ok? ==>
      EncItems(items[i..], depth) == Prepend(Enc(items[i], depth).value, EncItems(items[i + 1..], depth))
  {
    assert items[i..][1..] == items[i + 1..];
  }

  lemma {:induction false} EncFieldsStep(fs: seq<Field>, i: nat, depth: nat)
    requires i < |fs| && forall k :: 0 <= k < |fs| ==> ValidUtf8(fs[k].key) && Typed(fs[k].val)
    requires |fs[i].key| <= MAX_KEY_SIZE
    ensures Enc(fs[i].val, depth).Err? ==> EncFields(fs[i..], depth) == Err(Enc(fs[i].val, depth).error)
    ensures Enc(fs[i].val, depth).Ok? ==>
      EncFields(fs[i..], depth) ==
      Prepend(U32Bytes(|fs[i].key|) + fs[i].key + Enc(fs[i].val, depth).value, EncFields(fs[i + 1..], depth))
  {
    assert fs[i..][1..] == fs[i + 1..];
  }

  /** The encoding of `v` is appended to `buf`, or the first limit it breaks is reported. */
  method EncodeValue(v: Value, buf: Buf, depth: nat) returns (out: Buf, err: Option<DocError>)
    requires Typed(v)
    ensures err.None? ==> Enc(v, depth).Ok? && out == buf + Enc(v, depth).value
    ensures err.Some? ==> Enc(v, depth) == Err(err.value)
    decreases v
  {
    hide EncItems, EncFields, ToBE, ValidUtf8;
    if depth > MAX_NESTING_DEPTH {
      return buf, Some(NestingDepthExceeded(depth));
    }
    if v.Array? {
      if |v.items| > MAX_ARRAY_ELEMENTS {
        return buf + [Tag(v)], Some(ArrayTooLarge(|v.items|));
      }
      out, err := EncodeItems(v.items, buf + ([Tag(v)] + U32Bytes(|v.items|)), depth + 1);
    } else if v.Object? {
      if |v.fields| > MAX_OBJECT_KEYS {
        return buf + [Tag(v)], Some(ObjectTooManyKeys(|v.fields|));
      }
      out, err := EncodeFields(v.fields, buf + ([Tag(v)] + U32Bytes(|v.fields|)), depth + 1);
    } else {
      out, err := EncodeScalar(v, buf);
    }
  }

  method EncodeScalar(v: Value, buf: Buf) returns (out: Buf, err: Option<DocError>)
    requires Typed(v) && !v.Array? && !v.Object?
    ensures err.None? ==> EncScalar(v).Ok? && out == buf + EncScalar(v).value
    ensures err.Some? ==> EncScalar(v) == Err(err.value)
  {
    hide ToBE, Finite, ValidUtf8, I64Bytes, U32Bytes;
    out := buf + [Tag(v)];
    err := None;
    match v {
      case Null =>
      case Bool(b) => out := out + [if b then 1 else 0];
      case Int(i) => out := out + I64Bytes(i);
      case Float(bits) =>
        if !Finite(bits) {
          return out, Some(NonFiniteFloat(bits));
        }
        out := out + ToBE(bits, 8);
      case Str(s) =>
        if |s| > MAX_STRING_BLOB_SIZE {
          return out, Some(ValueTooLarge(|s|));
        }
        out := out + U32Bytes(|s|) + s;
        assert out == buf + ([Tag(v)] + U32Bytes(|s|) + s);
      case Blob(d) =>
        if |d| > MAX_STRING_BLOB_SIZE {
          return out, Some(ValueTooLarge(|d|));
        }
        out := out + U32Bytes(|d|) + d;
        assert out == buf + ([Tag(v)] + U32Bytes(|d|) + d);
    }
  }

  method EncodeItems(items: seq<Value>, buf: Buf, depth: nat) returns (out: Buf, err: Option<DocError>)
    requires forall k :: 0 <= k < |items| ==> Typed(items[k])
    ensures err.None? ==> EncItems(items, depth).Ok? && out == buf + EncItems(items, depth).value
    ensures err.Some? ==> EncItems(items, depth) == Err(err.value)
    decreases items
  {
    out := buf;
    ghost var acc: Buf := [];
    assert items[0..] == items;
    PrependLaws([], [], EncItems(items, depth));
    for i := 0 to |items|
      invariant out == buf + acc
      invariant EncItems(items, depth) == Prepend(acc, EncItems(items[i..], depth))
    {
      EncItemsStep(items, i, depth);
      out, err := EncodeValue(items[i], out, depth);
      if err.Some? {
        return;
      }
      ghost var e := Enc(items[i], depth).value;
      PrependLaws(acc, e, EncItems(items[i + 1..], depth));
      acc := acc + e;
    }
    err := None;
  }

  method EncodeFields(fs: seq<Field>, buf: Buf, depth: nat) returns (out: Buf, err: Option<DocError>)
    requires forall k :: 0 <= k < |fs| ==> ValidUtf8(fs[k].key) && Typed(fs[k].val)
    ensures err.None? ==> EncFields(fs, depth).Ok? && out == buf + EncFields(fs, depth).value
    ensures err.Some? ==> EncFields(fs, depth) == Err(err.value)
    decreases fs
  {
    hide ValidUtf8, Enc, ToBE, Typed;
    out := buf;
    ghost var acc: Buf := [];
    assert fs[0..] == fs;
    PrependLaws([], [], EncFields(fs, depth));
    for i := 0 to |fs|
      invariant out == buf + acc
      invariant EncFields(fs, depth) == Prepend(acc, EncFields(fs[i..], depth))
    {
      if |fs[i].key| > MAX_KEY_SIZE {
        return out, Some(KeyTooLarge(|fs[i].key|));
      }
      EncFieldsStep(fs, i, depth);
      var head := U32Bytes(|fs[i].key|) + fs[i].key;
      out, err := EncodeValue(fs[i].val, out + head, depth);
      if err.Some? {
        return;
      }
      ghost var e := head + Enc(fs[i].val, depth).value;
      PrependLaws(acc, e, EncFields(fs[i + 1..], depth));
      acc := acc + e;
    }
    err := None;
  }

  /** The whole encoder: the written buffer satisfies the size law and decodes back. */
  method EncodeDocument(v: Value) returns (r: Result<Buf>)
    requires Typed(v) && Canonical(v)
    ensures r == Encode(v)
    ensures r.Ok? ==> |r.value| == HEADER_SIZE + Size(v) && Decode(r.value) == Ok(v)
  {
    var buf, err := EncodeValue(v, MAGIC + [VERSION], 0);
    if err.Some? {
      return Err(err.value);
    }
    r := Ok(buf);
    EncodeThenDecode(v, []);
  }

  method ReadBytes(bytes: Buf, offset: nat, n: nat) returns (r: Result<Buf>, off: nat)
    ensures r == Take(bytes, offset, n)
    ensures off == if r.Ok? then offset + n else offset
  {
    if offset + n > |bytes| {
      return Err(UnexpectedEof(offset)), offset;
    }
    return Ok(bytes[offset..offset + n]), offset + n;
  }

  method ReadU32(bytes: Buf, offset: nat) returns (r: Result<nat>, off: nat)
    ensures r == TakeU32(bytes, offset)
    ensures off == if r.Ok? then offset + 4 else offset
  {
    var b, o := ReadBytes(bytes, offset, 4);
    if b.Err? {
      return Err(b.error), o;
    }
    return Ok(FromBE(b.value)), o;
  }

  /** The result the decoder builds from what is written: repeated keys keep the last value. */
  function Read(w: Result<(Value, nat)>): Result<(Value, nat)> {
    if w.Ok? then Ok((Collapse(w.value.0), w.value.1)) else w
  }

  method DecodeValue(bytes: Buf, offset: nat, depth: nat) returns (r: Result<(Value, nat)>)
    ensures r == Read(Dec(bytes, offset, depth))
    decreases |bytes| - offset, 0
  {
    hide DecItems, DecFields, DecScalar, CollapseItems, InsertAll;
    if depth > MAX_NESTING_DEPTH {
      return Err(NestingDepthExceeded(depth));
    }
    var t, off := ReadBytes(bytes, offset, 1);
    if t.Err? {
      return Err(t.error);
    }
    var tag := t.value[0];
    if tag == 6 || tag == 7 {
      var n, start := ReadU32(bytes, off);
      if n.Err? { return Err(n.error); }
      if tag == 6 {
        if n.value > MAX_ARRAY_ELEMENTS {
          return Err(ArrayTooLarge(n.value));
        }
        var items := DecodeItems(bytes, start, n.value, depth + 1);
        if items.Err? { return Err(items.error); }
        return Ok((Array(items.value.0), items.value.1));
      } else {
        if n.value > MAX_OBJECT_KEYS {
          return Err(ObjectTooManyKeys(n.value));
        }
        var fs := DecodeFields(bytes, start, n.value, depth + 1);
        if fs.Err? { return Err(fs.error); }
        return Ok((Object(fs.value.0), fs.value.1));
      }
    }
    r := DecodeScalar(bytes, off, tag);
    ScalarUnchanged(bytes, off, tag);
  }

  lemma ScalarUnchanged(bytes: Buf, off: nat, tag: byte)
    requires off <= |bytes| && tag != 6 && tag != 7
    ensures Read(DecScalar(bytes, off, tag)) == DecScalar(bytes, off, tag)
  {
    hide ValidUtf8;
  }

  method DecodeScalar(bytes: Buf, offset: nat, tag: byte) returns (r: Result<(Value, nat)>)
    requires offset <= |bytes| && tag != 6 && tag != 7
    ensures r == DecScalar(bytes, offset, tag)
  {
    if tag == 0 {
      return Ok((Null, offset));
    } else if tag == 1 {
      var b, o := ReadBytes(bytes, offset, 1);
      if b.Err? { return Err(b.error); }
      return Ok((Bool(b.value[0] != 0), o));
    } else if tag == 2 {
      var b, o := ReadBytes(bytes, offset, 8);
      if b.Err? { return Err(b.error); }
      return Ok((Int(I64FromBytes(b.value)), o));
    } else if tag == 3 {
      var b, o := ReadBytes(bytes, offset, 8);
      if b.Err? { return Err(b.error); }
      Pow256Values();
      return Ok((Float(FromBE(b.value)), o));
    } else if tag > 7 {
      return Err(UnknownTypeTag(tag));
    }
    var n, start := ReadU32(bytes, offset);
    if n.Err? { return Err(n.error); }
    if n.value > MAX_STRING_BLOB_SIZE {
      return Err(ValueTooLarge(n.value));
    }
    var d, o := ReadBytes(bytes, start, n.value);
    if d.Err? { return Err(d.error); }
    if tag == 5 {
      return Ok((Blob(d.value), o));
    }
    if !ValidUtf8(d.value) {
      return Err(InvalidUtf8(o - n.value));
    }
    return Ok((Str(d.value), o));
  }

  /** `items` read so far and `left` still to come make up `whole`. */
  ghost predicate ItemsLeft(items: seq<Value>, left: Result<(seq<Value>, nat)>, whole: Result<(seq<Value>, nat)>) {
    if whole.Err? then left == whole
    else
      && left.Ok? && left.value.1 == whole.value.1
      && items + CollapseItems(left.value.0) == CollapseItems(whole.value.0)
  }

  lemma {:induction false} ItemsStep(bytes: Buf, off: nat, n: nat, depth: nat, items: seq<Value>,
          whole: Result<(seq<Value>, nat)>)
    requires off <= |bytes| && n > 0 && ItemsLeft(items, DecItems(bytes, off, n, depth), whole)
    ensures var v := Dec(bytes, off, depth);
      if v.Err? then whole == Err(v.error)
      else ItemsLeft(items + [Collapse(v.value.0)], DecItems(bytes, v.value.1, n - 1, depth), whole)
  {
    hide Dec;
    var v := Dec(bytes, off, depth);
    if v.Ok? {
      var left, next := DecItems(bytes, off, n, depth), DecItems(bytes, v.value.1, n - 1, depth);
      if next.Ok? {
        assert left.value.0[1..] == next.value.0;
        assert CollapseItems(left.value.0) == [Collapse(v.value.0)] + CollapseItems(next.value.0);
      }
    }
  }

  method DecodeItems(bytes: Buf, offset: nat, count: nat, depth: nat) returns (r: Result<(seq<Value>, nat)>)
    requires offset <= |bytes|
    ensures var w := DecItems(bytes, offset, count, depth);
      r == if w.Ok? then Ok((CollapseItems(w.value.0), w.value.1)) else Err(w.error)
    decreases |bytes| - offset, 1
  {
    hide Dec;
    var items: seq<Value>, off := [], offset;
    ghost var whole := DecItems(bytes, offset, count, depth);
    for i := 0 to count
      invariant offset <= off <= |bytes|
      invariant ItemsLeft(items, DecItems(bytes, off, count - i, depth), whole)
    {
      ItemsStep(bytes, off, count - i, depth, items, whole);
      var v := DecodeValue(bytes, off, depth);
      if v.Err? { return Err(v.error); }
      items, off := items + [v.value.0], v.value.1;
    }
    assert items + CollapseItems([]) == items;
    r := Ok((items, off));
  }

  ghost predicate FieldsLeft(m: seq<Field>, left: Result<(seq<Field>, nat)>, whole: Result<(seq<Field>, nat)>) {
    if whole.Err? then left == whole
    else left.Ok? && left.value.1 == whole.value.1 && InsertAll(m, left.value.0) == InsertAll([], whole.value.0)
  }

  lemma {:induction false} FieldsStep(bytes: Buf, off: nat, n: nat, depth: nat, m: seq<Field>,
          whole: Result<(seq<Field>, nat)>)
    requires off <= |bytes| && n > 0 && FieldsLeft(m, DecFields(bytes, off, n, depth), whole)
    ensures var key := DecKey(bytes, off);
      if key.Err? then whole == Err(key.error) else
      var v := Dec(bytes, key.value.1, depth);
      if v.Err? then whole == Err(v.error)
      else FieldsLeft(Insert(m, key.value.0, Collapse(v.value.0)), DecFields(bytes, v.value.1, n - 1, depth), whole)
  {
    hide Dec, DecKey, ValidUtf8;
    var key := DecKey(bytes, off);
    if key.Ok? {
      var v := Dec(bytes, key.value.1, depth);
      if v.Ok? {
        var left, next := DecFields(bytes, off, n, depth), DecFields(bytes, v.value.1, n - 1, depth);
        if left.Ok? {
          assert left.value.0[1..] == next.value.0;
        }
      }
    }
  }

  method ReadKey(bytes: Buf, offset: nat) returns (r: Result<(Buf, nat)>)
    ensures r == DecKey(bytes, offset)
  {
    var n, keyAt := ReadU32(bytes, offset);
    if n.Err? { return Err(n.error); }
    var key, valAt := ReadBytes(bytes, keyAt, n.value);
    if key.Err? { return Err(key.error); }
    if !ValidUtf8(key.value) {
      return Err(InvalidUtf8(valAt - n.value));
    }
    return Ok((key.value, valAt));
  }

  method DecodeFields(bytes: Buf, offset: nat, count: nat, depth: nat) returns (r: Result<(seq<Field>, nat)>)
    requires offset <= |bytes|
    ensures var w := DecFields(bytes, offset, count, depth);
      r == if w.Ok? then Ok((InsertAll([], w.value.0), w.value.1)) else Err(w.error)
    decreases |bytes| - offset, 1
  {
    hide Dec, DecKey, ValidUtf8, Collapse, Insert;
    var m: seq<Field>, off := [], offset;
    ghost var whole := DecFields(bytes, offset, count, depth);
    for i := 0 to count
      invariant offset <= off <= |bytes|
      invariant FieldsLeft(m, DecFields(bytes, off, count - i, depth), whole)
    {
      FieldsStep(bytes, off, count - i, depth, m, whole);
      var key := ReadKey(bytes, off);
      if key.Err? { return Err(key.error); }
      var v := DecodeValue(bytes, key.value.1, depth);
      if v.Err? { return Err(v.error); }
      m, off := Insert(m, key.value.0, v.value.0), v.value.1;
    }
    r := Ok((m, off));
  }

  /** The whole decoder: what it accepts nests at most 64 levels and is no larger than its input. */
  method DecodeDocument(bytes: Buf) returns (r: Result<Value>)
    ensures r == Decode(bytes)
    ensures r.Ok? ==> Canonical(r.value) && Height(r.value) <= MAX_NESTING_DEPTH
    ensures r.Ok? ==> HEADER_SIZE + Size(r.value) <= |bytes|
  {
    if |bytes| < HEADER_SIZE {
      return Err(UnexpectedEof(0));
    }
    if bytes[..3] != MAGIC {
      return Err(UnknownTypeTag(bytes[0]));
    }
    if bytes[3] != VERSION {
      return Err(UnsupportedCodecVersion(bytes[3]));
    }
    var v := DecodeValue(bytes, HEADER_SIZE, 0);
    if v.Err? {
      return Err(v.error);
    }
    if v.value.1 < |bytes| {
      return Err(TrailingBytes(v.value.1, |bytes| - v.value.1));
    }
    r := Ok(v.value.0);
    DecodeAccepts(bytes);
  }
}
