/**
 The wire protocol: how a response is written, and how frames are read from
 an unsplit byte stream.
 */
module Resp {
  import opened Bytes
  import opened Text

  const MAX_NESTING_DEPTH := 8
  const CR: byte := 13
  const LF: byte := 10
  const CRLF: Buf := [13, 10]
  /** "_warning " */
  const WARNING: Buf := [95, 119, 97, 114, 110, 105, 110, 103, 32]

  datatype Frame =
    | SimpleString(text: Buf)
    | Error(text: Buf)
    | Integer(n: int)
    | Bulk(data: Option<Buf>)
    | Array(elements: Option<seq<Frame>>)
    | Warning(text: Buf)

  datatype Response =
    | SendSimple(text: Buf)
    | SendError(text: Buf)
    | SendInteger(n: int)
    | SendBulk(data: Option<Buf>)
    | SendArray(items: seq<Response>)
    | SendWarning(text: Buf)

  /** The kind of a protocol error; `Panic` is the failed string slice of a header
      whose first character takes several bytes. */
  datatype Kind =
    | LineTooLong
    | BulkTooLarge(len: nat)
    | Malformed
    | UnexpectedEof
    | NestingTooDeep
    | UnknownType(b: byte)
    | Panic

  datatype Limits = Limits(line: nat, bulk: nat)

  // ---------------------------------------------------------------------
  // Writing
  // ---------------------------------------------------------------------

  function Ser(r: Response): Buf
    decreases r, 1
  {
    match r
    case SendSimple(s) => [43] + s + CRLF
    case SendError(s) => [45] + s + CRLF
    case SendInteger(n) => [58] + PrintInt(n) + CRLF
    case SendBulk(None) => [36] + PrintInt(-1) + CRLF
    case SendBulk(Some(d)) => [36] + PrintInt(|d|) + CRLF + (d + CRLF)
    case SendArray(items) => [42] + PrintInt(|items|) + CRLF + SerAll(items)
    case SendWarning(s) => [43] + (WARNING + s) + CRLF
  }

  function SerAll(rs: seq<Response>): Buf
    decreases rs, 0
  {
    if rs == [] then [] else Ser(rs[0]) + SerAll(rs[1..])
  }

  // ---------------------------------------------------------------------
  // Reading
  // ---------------------------------------------------------------------

  datatype Line = Line(text: Buf, rest: Buf) | LineEof | LineFail(kind: Kind)

  /** A line without its terminator. */
  function Strip(s: Buf): Buf {
    if |s| >= 2 && s[|s| - 2..] == CRLF then s[..|s| - 2]
    else if |s| >= 1 && s[|s| - 1] == LF then s[..|s| - 1]
    else s
  }

  /** The first line of a stream, at most `max` bytes and a terminator long. */
  function ReadLine(s: Buf, max: nat): (r: Line)
    ensures r.Line? ==> |r.rest| < |s| && ValidUtf8(r.text)
  {
    var i := Find(s, LF);
    var seen := if i < |s| then i + 1 else i;
    if seen > max + 2 then LineFail(LineTooLong)
    else if s == [] then LineEof
    else if i == |s| then LineFail(UnexpectedEof)
    else
      var text := Strip(s[..i + 1]);
      if ValidUtf8(text) then Line(text, s[i + 1..]) else LineFail(Malformed)
  }

  datatype Parsed = Got(frame: Frame, rest: Buf) | Eof | Fail(kind: Kind)

  datatype ParsedMany = GotMany(frames: seq<Frame>, rest: Buf) | FailMany(kind: Kind)

  function ParseText(type_: byte, payload: Buf): Frame {
    if type_ == 45 then Error(payload)
    else if WARNING <= payload then Warning(payload[|WARNING|..])
    else SimpleString(payload)
  }

  function ParseBulk(payload: Buf, rest: Buf, lim: Limits): (r: Parsed)
    ensures r.Got? ==> |r.rest| <= |rest|
    ensures !r.Eof?
  {
    match ParseI64(payload)
    case None => Fail(Malformed)
    case Some(n) =>
      if n < 0 then Got(Bulk(None), rest)
      else if n > lim.bulk then Fail(BulkTooLarge(n))
      else if |rest| < n + 2 then Fail(UnexpectedEof)
      else if rest[n..n + 2] != CRLF then Fail(Malformed)
      else Got(Bulk(Some(rest[..n])), rest[n + 2..])
  }

  /** One frame at nesting level `depth`. */
  function Parse(s: Buf, lim: Limits, depth: nat): (r: Parsed)
    ensures r.Got? ==> |r.rest| < |s|
    decreases |s|, 0, 0
  {
    if depth > MAX_NESTING_DEPTH then Fail(NestingTooDeep)
    else match ReadLine(s, lim.line)
      case LineEof => Eof
      case LineFail(k) => Fail(k)
      case Line(header, rest) =>
        if header == [] then Fail(Malformed)
        else if header[0] >= 0x80 then Fail(Panic)
        else ParseBody(header[0], header[1..], rest, lim, depth)
  }

  /** The frame after its header line. */
  function ParseBody(t: byte, payload: Buf, rest: Buf, lim: Limits, depth: nat): (r: Parsed)
    ensures r.Got? ==> |r.rest| <= |rest|
    ensures !r.Eof?
    decreases |rest|, 2, 0
  {
    if t == 43 || t == 45 then Got(ParseText(t, payload), rest)
    else if t == 58 then
      match ParseI64(payload) {
        case None => Fail(Malformed)
        case Some(n) => Got(Integer(n), rest)
      }
    else if t == 36 then ParseBulk(payload, rest, lim)
    else if t == 42 then
      match ParseI64(payload) {
        case None => Fail(Malformed)
        case Some(n) =>
          if n < 0 then Got(Array(None), rest)
          else match ParseMany(rest, n, lim, depth + 1)
            case FailMany(k) => Fail(k)
            case GotMany(fs, after) => Got(Array(Some(fs)), after)
      }
    else Fail(UnknownType(t))
  }

  function ParseMany(s: Buf, count: nat, lim: Limits, depth: nat): (r: ParsedMany)
    ensures r.GotMany? ==> |r.rest| <= |s| && |r.frames| == count
    decreases |s|, 1, count
  {
    if count == 0 then GotMany([], s)
    else match Parse(s, lim, depth)
      case Eof => FailMany(UnexpectedEof)
      case Fail(k) => FailMany(k)
      case Got(f, rest) =>
        match ParseMany(rest, count - 1, lim, depth)
        case FailMany(k) => FailMany(k)
        case GotMany(fs, after) => GotMany([f] + fs, after)
  }

  /** Every frame up to the clean end of the stream. */
  function ParseStream(s: Buf, lim: Limits): (r: ParsedMany)
    decreases |s|
  {
    match Parse(s, lim, 0)
    case Eof => GotMany([], s)
    case Fail(k) => FailMany(k)
    case Got(f, rest) =>
      match ParseStream(rest, lim)
      case FailMany(k) => FailMany(k)
      case GotMany(fs, after) => GotMany([f] + fs, after)
  }

  // ---------------------------------------------------------------------
  // Responses that survive the wire
  // ---------------------------------------------------------------------

  function ToFrame(r: Response): Frame
    decreases r, 1
  {
    match r
    case SendSimple(s) => SimpleString(s)
    case SendError(s) => Error(s)
    case SendInteger(n) => Integer(n)
    case SendBulk(d) => Bulk(d)
    case SendArray(items) => Array(Some(ToFrames(items)))
    case SendWarning(s) => Warning(s)
  }

  function ToFrames(rs: seq<Response>): (fs: seq<Frame>)
    ensures |fs| == |rs|
    decreases rs, 0
  {
    if rs == [] then [] else [ToFrame(rs[0])] + ToFrames(rs[1..])
  }

  /** What the host types guarantee: UTF-8 text, 64-bit integers and lengths. */
  predicate Typed(r: Response) {
    match r
    case SendSimple(s) => ValidUtf8(s)
    case SendError(s) => ValidUtf8(s)
    case SendInteger(n) => I64_MIN <= n <= I64_MAX
    case SendBulk(d) => d.Some? ==> |d.value| <= I64_MAX
    case SendArray(items) => |items| <= I64_MAX && forall k :: 0 <= k < |items| ==> Typed(items[k])
    case SendWarning(s) => ValidUtf8(s)
  }

  /** Within the limits at level `depth`, no line feed in text, no simple string that looks like a warning. */
  predicate Fits(r: Response, lim: Limits, depth: nat) {
    && depth <= MAX_NESTING_DEPTH
    && match r
       case SendSimple(s) => 1 + |s| <= lim.line && LF !in s && !(WARNING <= s)
       case SendError(s) => 1 + |s| <= lim.line && LF !in s
       case SendInteger(n) => 1 + |PrintInt(n)| <= lim.line
       case SendBulk(None) => 3 <= lim.line
       case SendBulk(Some(d)) => 1 + |PrintInt(|d|)| <= lim.line && |d| <= lim.bulk
       case SendArray(items) =>
         && 1 + |PrintInt(|items|)| <= lim.line
         && forall k :: 0 <= k < |items| ==> Fits(items[k], lim, depth + 1)
       case SendWarning(s) => 1 + |WARNING| + |s| <= lim.line && LF !in s
  }
}
