/**
 The tagged, length-prefixed binary codec: encoder and decoder, and what
 each promises of the other.
 */
module Codec {
  import opened Bytes
  import opened Text
  import opened Value

  datatype DocError =
    | UnexpectedEof(offset: nat)
    | UnknownTypeTag(tag: byte)
    | UnsupportedCodecVersion(version: byte)
    | TrailingBytes(at: nat, count: nat)
    | NestingDepthExceeded(depth: nat)
    | ValueTooLarge(size: nat)
    | ArrayTooLarge(items: nat)
    | ObjectTooManyKeys(keys: nat)
    | KeyTooLarge(len: nat)
    | NonFiniteFloat(bits: u64)
    | InvalidUtf8(start: nat)

  datatype Result<+T> = Ok(value: T) | Err(error: DocError) {
    predicate IsFailure() { Err? }
    function PropagateFailure<U>(): Result<U> requires Err? { Err(error) }
    function Extract(): T requires Ok? { value }
  }

  const MAGIC: Buf := [66, 68, 66]
  const VERSION: byte := 1
  const HEADER_SIZE := 4

  // ---------------------------------------------------------------------
  // The format
  // ---------------------------------------------------------------------

  function Tag(v: Value): byte {
    match v
    case Null => 0
    case Bool(_) => 1
    case Int(_) => 2
    case Float(_) => 3
    case Str(_) => 4
    case Blob(_) => 5
    case Array(_) => 6
    case Object(_) => 7
  }

  /** Two's complement in eight bytes. */
  function I64Bytes(i: int): Buf
    requires I64_MIN <= i <= I64_MAX
  {
    ToBE(if i < 0 then i + 0x1_0000_0000_0000_0000 else i, 8)
  }

  function I64FromBytes(s: Buf): int
    requires |s| == 8
  {
    var n := FromBE(s);
    if n > I64_MAX then n - 0x1_0000_0000_0000_0000 else n
  }

  function U32Bytes(n: nat): Buf { ToBE(n, 4) }

  /** Payload of a value that holds no other value. */
  function EncScalar(v: Value): Result<Buf>
    requires Typed(v) && !v.Array? && !v.Object?
  {
    match v
    case Null => Ok([0])
    case Bool(b) => Ok([1, if b then 1 else 0])
    case Int(i) => Ok([2] + I64Bytes(i))
    case Float(bits) => if Finite(bits) then Ok([3] + ToBE(bits, 8)) else Err(NonFiniteFloat(bits))
    case Str(s) =>
      if |s| > MAX_STRING_BLOB_SIZE then Err(ValueTooLarge(|s|)) else Ok([4] + U32Bytes(|s|) + s)
    case Blob(d) =>
      if |d| > MAX_STRING_BLOB_SIZE then Err(ValueTooLarge(|d|)) else Ok([5] + U32Bytes(|d|) + d)
  }

  /** Payload of a value at nesting level `depth`, or the first limit it breaks. */
  function Enc(v: Value, depth: nat): Result<Buf>
    requires Typed(v)
    decreases v, 1
  {
    if depth > MAX_NESTING_DEPTH then Err(NestingDepthExceeded(depth))
    else if v.Array? then
      if |v.items| > MAX_ARRAY_ELEMENTS then Err(ArrayTooLarge(|v.items|))
      else
        var body :- EncItems(v.items, depth + 1);
        Ok([6] + U32Bytes(|v.items|) + body)
    else if v.Object? then
      if |v.fields| > MAX_OBJECT_KEYS then Err(ObjectTooManyKeys(|v.fields|))
      else
        var body :- EncFields(v.fields, depth + 1);
        Ok([7] + U32Bytes(|v.fields|) + body)
    else EncScalar(v)
  }

  function EncItems(items: seq<Value>, depth: nat): Result<Buf>
    requires forall k :: 0 <= k < |items| ==> Typed(items[k])
    decreases items, 0
  {
    if items == [] then Ok([])
    else
      var e :- Enc(items[0], depth);
      var es :- EncItems(items[1..], depth);
      Ok(e + es)
  }

  function EncFields(fs: seq<Field>, depth: nat): Result<Buf>
    requires forall k :: 0 <= k < |fs| ==> ValidUtf8(fs[k].key) && Typed(fs[k].val)
    decreases fs, 0
  {
    if fs == [] then Ok([])
    else if |fs[0].key| > MAX_KEY_SIZE then Err(KeyTooLarge(|fs[0].key|))
    else
      var e :- Enc(fs[0].val, depth);
      var es :- EncFields(fs[1..], depth);
      Ok(U32Bytes(|fs[0].key|) + fs[0].key + e + es)
  }

  function Encode(v: Value): Result<Buf>
    requires Typed(v)
  {
    var body :- Enc(v, 0);
    Ok(MAGIC + [VERSION] + body)
  }

  /** The next `n` bytes. */
  function Take(bytes: Buf, off: nat, n: nat): (r: Result<Buf>)
    ensures r.Ok? <==> off + n <= |bytes|
    ensures r.Ok? ==> |r.value| == n
  {
    if off + n > |bytes| then Err(UnexpectedEof(off)) else Ok(bytes[off..off + n])
  }

  function TakeU32(bytes: Buf, off: nat): (r: Result<nat>)
    ensures r.Ok? <==> off + 4 <= |bytes|
  {
    var b :- Take(bytes, off, 4);
    Ok(FromBE(b))
  }

  /** A length-prefixed UTF-8 key and where it ends. */
  function DecKey(bytes: Buf, off: nat): (r: Result<(Buf, nat)>)
    ensures r.Ok? ==> r.value.1 == off + 4 + |r.value.0| <= |bytes| && ValidUtf8(r.value.0)
  {
    var len :- TakeU32(bytes, off);
    var key :- Take(bytes, off + 4, len);
    if ValidUtf8(key) then Ok((key, off + 4 + len)) else Err(InvalidUtf8(off + 4))
  }

  /** A value of tag 0 to 5 whose payload starts at `off`, and where it ends. */
  function DecScalar(bytes: Buf, off: nat, tag: byte): (r: Result<(Value, nat)>)
    requires off <= |bytes| && tag != 6 && tag != 7
    ensures r.Ok? ==> off <= r.value.1 <= |bytes|
  {
    if tag == 0 then Ok((Null, off))
    else if tag == 1 then
      var b :- Take(bytes, off, 1);
      Ok((Bool(b[0] != 0), off + 1))
    else if tag == 2 then
      var b :- Take(bytes, off, 8);
      Ok((Int(I64FromBytes(b)), off + 8))
    else if tag == 3 then
      var b :- Take(bytes, off, 8);
      Pow256Values();
      Ok((Float(FromBE(b)), off + 8))
    else if tag == 4 || tag == 5 then
      var len :- TakeU32(bytes, off);
      if len > MAX_STRING_BLOB_SIZE then Err(ValueTooLarge(len))
      else
        var d :- Take(bytes, off + 4, len);
        if tag == 5 then Ok((Blob(d), off + 4 + len))
        else if ValidUtf8(d) then Ok((Str(d), off + 4 + len))
        else Err(InvalidUtf8(off + 4))
    else Err(UnknownTypeTag(tag))
  }

  /** The value written at `off`, with its entries as written, and where it ends. */
  function Dec(bytes: Buf, off: nat, depth: nat): (r: Result<(Value, nat)>)
    ensures r.Ok? ==> off < r.value.1 <= |bytes|
    decreases |bytes| - off, 0
  {
    if depth > MAX_NESTING_DEPTH then Err(NestingDepthExceeded(depth))
    else
      var t :- Take(bytes, off, 1);
      if t[0] == 6 then
        var count :- TakeU32(bytes, off + 1);
        if count > MAX_ARRAY_ELEMENTS then Err(ArrayTooLarge(count))
        else
          var (items, end) :- DecItems(bytes, off + 5, count, depth + 1);
          Ok((Array(items), end))
      else if t[0] == 7 then
        var count :- TakeU32(bytes, off + 1);
        if count > MAX_OBJECT_KEYS then Err(ObjectTooManyKeys(count))
        else
          var (fs, end) :- DecFields(bytes, off + 5, count, depth + 1);
          Ok((Object(fs), end))
      else DecScalar(bytes, off + 1, t[0])
  }

  function DecItems(bytes: Buf, off: nat, count: nat, depth: nat): (r: Result<(seq<Value>, nat)>)
    requires off <= |bytes|
    ensures r.Ok? ==> off <= r.value.1 <= |bytes|
    decreases |bytes| - off, 1
  {
    if count == 0 then Ok(([], off))
    else
      var (v, o) :- Dec(bytes, off, depth);
      var (vs, end) :- DecItems(bytes, o, count - 1, depth);
      Ok(([v] + vs, end))
  }

  function DecFields(bytes: Buf, off: nat, count: nat, depth: nat): (r: Result<(seq<Field>, nat)>)
    requires off <= |bytes|
    ensures r.Ok? ==> off <= r.value.1 <= |bytes|
    decreases |bytes| - off, 1
  {
    if count == 0 then Ok(([], off))
    else
      var (key, at) :- DecKey(bytes, off);
      var (v, o) :- Dec(bytes, at, depth);
      var (fs, end) :- DecFields(bytes, o, count - 1, depth);
      Ok(([Field(key, v)] + fs, end))
  }

  /** A whole buffer: header, one value, nothing after it. */
  function DecodeWritten(bytes: Buf): Result<Value> {
    if |bytes| < HEADER_SIZE then Err(UnexpectedEof(0))
    else if bytes[..3] != MAGIC then Err(UnknownTypeTag(bytes[0]))
    else if bytes[3] != VERSION then Err(UnsupportedCodecVersion(bytes[3]))
    else
      var (v, end) :- Dec(bytes, HEADER_SIZE, 0);
      if end < |bytes| then Err(TrailingBytes(end, |bytes| - end)) else Ok(v)
  }

  /** The value in memory that a buffer stands for. */
  function Decode(bytes: Buf): Result<Value> {
    var v :- DecodeWritten(bytes);
    Ok(Collapse(v))
  }
}
