/**
 Frames on a stream that is still arriving: what is settled by the bytes so
 far, and when reading a frame panics.
 */
module RespStream {
  import opened Bytes
  import opened Text
  import opened Resp

  // ---------------------------------------------------------------------
  // Settled by a prefix
  // ---------------------------------------------------------------------

  /** `now` is what a stream gives, `later` what it gives once `more` has arrived: a frame stays the
      frame, and an error other than the end of the input stays the error. */
  ghost predicate Settles(now: Parsed, later: Parsed, more: Buf) {
    match now
    case Got(f, rest) => later == Got(f, rest + more)
    case Fail(k) => k != UnexpectedEof ==> later == Fail(k)
    case Eof => true
  }

  ghost predicate SettlesMany(now: ParsedMany, later: ParsedMany, more: Buf) {
    match now
    case GotMany(fs, rest) => later == GotMany(fs, rest + more)
    case FailMany(k) => k != UnexpectedEof ==> later == FailMany(k)
  }

  lemma {:induction false} LineSettles(s: Buf, more: Buf, max: nat)
    ensures match ReadLine(s, max)
            case Line(text, rest) => ReadLine(s + more, max) == Line(text, rest + more)
            case LineFail(k) => k != UnexpectedEof ==> ReadLine(s + more, max) == LineFail(k)
            case LineEof => s == []
  {
    hide ValidUtf8, Strip;
    var i := Find(s, LF);
    if i < |s| {
      assert s == s[..i] + [LF] + s[i + 1..];
      assert s + more == s[..i] + [LF] + (s[i + 1..] + more);
      FindFirst(s[..i], LF, s[i + 1..] + more);
      assert (s + more)[..i + 1] == s[..i + 1] && (s + more)[i + 1..] == s[i + 1..] + more;
    } else {
      assert forall j :: 0 <= j < |s| ==> (s + more)[j] == s[j];
      assert Find(s + more, LF) >= |s|;
    }
  }

  lemma {:induction false} BulkSettles(payload: Buf, rest: Buf, more: Buf, lim: Limits)
    ensures Settles(ParseBulk(payload, rest, lim), ParseBulk(payload, rest + more, lim), more)
  {
    hide ParseI64;
    var n := ParseI64(payload);
    if n.Some? && 0 <= n.value && n.value + 2 <= |rest| {
      assert (rest + more)[n.value..n.value + 2] == rest[n.value..n.value + 2];
      assert (rest + more)[..n.value] == rest[..n.value];
      assert (rest + more)[n.value + 2..] == rest[n.value + 2..] + more;
    }
  }

  /** Whatever arrives later, the bytes so far settle a frame and every error but the end of the input. */
  lemma {:induction false} FrameSettles(s: Buf, more: Buf, lim: Limits, depth: nat)
    ensures Settles(Parse(s, lim, depth), Parse(s + more, lim, depth), more)
    decreases |s|, 0, 0
  {
    hide ReadLine, ParseBody;
    LineSettles(s, more, lim.line);
    match ReadLine(s, lim.line)
    case Line(header, rest) =>
      if depth <= MAX_NESTING_DEPTH && header != [] && header[0] < 0x80 {
        BodySettles(header[0], header[1..], rest, more, lim, depth);
      }
    case _ =>
  }

  lemma {:induction false} BodySettles(t: byte, payload: Buf, rest: Buf, more: Buf, lim: Limits, depth: nat)
    ensures Settles(ParseBody(t, payload, rest, lim, depth), ParseBody(t, payload, rest + more, lim, depth), more)
    decreases |rest|, 2, 0
  {
    hide ParseI64, ParseBulk, ParseMany, ParseText;
    BulkSettles(payload, rest, more, lim);
    var n := ParseI64(payload);
    if n.Some? && n.value >= 0 {
      ManySettle(rest, n.value, more, lim, depth + 1);
    }
  }

  lemma {:induction false} ManySettle(s: Buf, count: nat, more: Buf, lim: Limits, depth: nat)
    ensures SettlesMany(ParseMany(s, count, lim, depth), ParseMany(s + more, count, lim, depth), more)
    decreases |s|, 1, count
  {
    hide Parse;
    if count > 0 {
      FrameSettles(s, more, lim, depth);
      match Parse(s, lim, depth)
      case Got(f, rest) => ManySettle(rest, count - 1, more, lim, depth);
      case _ =>
    }
  }

  // ---------------------------------------------------------------------
  // Panics
  // ---------------------------------------------------------------------

  /** The first line is complete, within the limit and UTF-8, and its first character takes several bytes. */
  predicate WideHeader(s: Buf, lim: Limits) {
    var line := ReadLine(s, lim.line);
    line.Line? && line.text != [] && line.text[0] >= 0x80
  }

  /** The number of elements the first line announces, if it is the header of an array. */
  function Announced(s: Buf, lim: Limits): Option<nat> {
    match ReadLine(s, lim.line)
    case Line(text, _) =>
      if text == [] || text[0] != 42 then None
      else (match ParseI64(text[1..])
            case Some(n) => if n >= 0 then Some(n) else None
            case None => None)
    case _ => None
  }

  /** Element number `i` of an array is reached and panics. */
  ghost predicate ElementPanics(s: Buf, i: nat, lim: Limits, depth: nat) {
    var before := ParseMany(s, i, lim, depth);
    before.GotMany? && Parse(before.rest, lim, depth) == Fail(Panic)
  }

  ghost predicate SomeElementPanics(s: Buf, count: nat, lim: Limits, depth: nat) {
    exists i: nat :: i < count && ElementPanics(s, i, lim, depth)
  }

  lemma {:induction false} ManyPanicExactly(s: Buf, count: nat, lim: Limits, depth: nat)
    ensures ParseMany(s, count, lim, depth) == FailMany(Panic) <==> SomeElementPanics(s, count, lim, depth)
    decreases count
  {
    hide Parse;
    assert ParseMany(s, 0, lim, depth) == GotMany([], s);
    if count > 0 {
      match Parse(s, lim, depth)
      case Got(f, rest) =>
        ManyPanicExactly(rest, count - 1, lim, depth);
        forall i: nat ensures ElementPanics(s, i + 1, lim, depth) <==> ElementPanics(rest, i, lim, depth) {}
        if i: nat :| i < count && ElementPanics(s, i, lim, depth) {
          assert i > 0;
          assert ElementPanics(s, i - 1 + 1, lim, depth) && ElementPanics(rest, i - 1, lim, depth);
        }
        if i: nat :| i < count - 1 && ElementPanics(rest, i, lim, depth) {
          assert ElementPanics(s, i + 1, lim, depth);
        }
      case Fail(k) =>
        assert ElementPanics(s, 0, lim, depth) <==> k == Panic;
        forall i: nat | i > 0 ensures !ElementPanics(s, i, lim, depth) {}
      case Eof =>
        forall i: nat ensures !ElementPanics(s, i, lim, depth) {}
    }
  }

  /** One level: the header itself, or an element that is reached. */
  lemma {:induction false} PanicsHere(s: Buf, lim: Limits, depth: nat)
    ensures Parse(s, lim, depth) == Fail(Panic) <==>
      && depth <= MAX_NESTING_DEPTH
      && (|| WideHeader(s, lim)
          || (&& Announced(s, lim).Some?
              && SomeElementPanics(ReadLine(s, lim.line).rest, Announced(s, lim).value, lim, depth + 1)))
  {
    hide ParseI64, ParseMany, SomeElementPanics, ReadLine;
    LineNeverPanics(s, lim.line);
    if Announced(s, lim).Some? {
      ManyPanicExactly(ReadLine(s, lim.line).rest, Announced(s, lim).value, lim, depth + 1);
    }
  }

  /** Where element number `i` of the array that starts here begins: its header announces it, and the
      elements before it are frames. */
  function ElementAt(s: Buf, i: nat, lim: Limits, depth: nat): (r: Option<Buf>)
    ensures r.Some? ==> |r.value| < |s|
  {
    var n := Announced(s, lim);
    if n.None? || i >= n.value then None
    else
      match ParseMany(ReadLine(s, lim.line).rest, i, lim, depth + 1)
      case GotMany(_, rest) => Some(rest)
      case FailMany(_) => None
  }

  /** Where the frame at the end of a path begins: the path gives, level by level, the number of an element. */
  function Descend(s: Buf, path: seq<nat>, lim: Limits, depth: nat): Option<Buf>
    decreases |path|
  {
    if path == [] then Some(s)
    else
      match ElementAt(s, path[0], lim, depth)
      case Some(t) => Descend(t, path[1..], lim, depth + 1)
      case None => None
  }

  /** Along the path, within the nesting limit, there is a header line that starts with a character of
      several bytes. */
  predicate WideAt(s: Buf, path: seq<nat>, lim: Limits, depth: nat) {
    && depth + |path| <= MAX_NESTING_DEPTH
    && Descend(s, path, lim, depth).Some?
    && WideHeader(Descend(s, path, lim, depth).value, lim)
  }

  lemma {:induction false} WideDeeper(s: Buf, i: nat, path: seq<nat>, lim: Limits, depth: nat)
    requires ElementAt(s, i, lim, depth).Some? && WideAt(ElementAt(s, i, lim, depth).value, path, lim, depth + 1)
    ensures WideAt(s, [i] + path, lim, depth)
  {
    hide ElementAt, WideHeader;
    assert ([i] + path)[1..] == path;
  }

  lemma {:induction false} WideIsPanic(s: Buf, path: seq<nat>, lim: Limits, depth: nat)
    requires WideAt(s, path, lim, depth)
    ensures Parse(s, lim, depth) == Fail(Panic)
    decreases |path|
  {
    hide Parse, WideHeader, ParseMany, ReadLine, ParseI64;
    PanicsHere(s, lim, depth);
    if path != [] {
      var t := ElementAt(s, path[0], lim, depth).value;
      WideIsPanic(t, path[1..], lim, depth + 1);
      assert ElementPanics(ReadLine(s, lim.line).rest, path[0], lim, depth + 1);
    }
  }

  lemma {:induction false} PanicIsWide(s: Buf, lim: Limits, depth: nat) returns (path: seq<nat>)
    requires Parse(s, lim, depth) == Fail(Panic)
    ensures WideAt(s, path, lim, depth)
    decreases |s|
  {
    hide Parse, WideHeader, ParseMany, ReadLine, ParseI64;
    PanicsHere(s, lim, depth);
    if WideHeader(s, lim) {
      path := [];
    } else {
      var i: nat :| i < Announced(s, lim).value && ElementPanics(ReadLine(s, lim.line).rest, i, lim, depth + 1);
      var rest := PanicIsWide(ElementAt(s, i, lim, depth).value, lim, depth + 1);
      WideDeeper(s, i, rest, lim, depth);
      path := [i] + rest;
    }
  }

  /** Reading a frame panics exactly when, at some place that the announced counts lead to through
      frames that can be read, and within the nesting limit, a header line starts with a character of
      several bytes. */
  lemma {:induction false} PanicsExactly(s: Buf, lim: Limits, depth: nat)
    ensures Parse(s, lim, depth) == Fail(Panic) <==> exists path :: WideAt(s, path, lim, depth)
  {
    hide Parse, WideAt;
    if Parse(s, lim, depth) == Fail(Panic) {
      var path := PanicIsWide(s, lim, depth);
    }
    if path :| WideAt(s, path, lim, depth) { WideIsPanic(s, path, lim, depth); }
  }

  lemma LineNeverPanics(s: Buf, max: nat)
    ensures ReadLine(s, max) != LineFail(Panic)
  {
    hide ValidUtf8, Strip;
  }

  /** The line "é" makes the parser panic, whatever follows. */
  lemma {:induction false} PanicExample(rest: Buf, lim: Limits)
    requires lim.line >= 2
    ensures Parse([0xC3, 0xA9, CR, LF] + rest, lim, 0) == Fail(Panic)
  {
    var s := [0xC3, 0xA9, CR, LF] + rest;
    assert s == [0xC3, 0xA9, CR] + [LF] + rest;
    FindFirst([0xC3, 0xA9, CR], LF, rest);
    var line := s[..4];
    assert line[2..] == CRLF && line[..2] == [0xC3, 0xA9];
    assert ValidUtf8([0xC3, 0xA9]) by { assert [0xC3, 0xA9][2..] == []; assert ValidUtf8([]); }
  }

  /** A stream of ASCII bytes never makes it panic. */
  lemma {:induction false} AsciiNeverPanics(s: Buf, lim: Limits, depth: nat)
    requires forall b :: b in s ==> b < 0x80
    ensures Parse(s, lim, depth) != Fail(Panic)
    ensures var r := Parse(s, lim, depth); r.Got? ==> forall b :: b in r.rest ==> b in s
    decreases |s|, 0, 0
  {
    hide ParseBody, ReadLine;
    LineFrom(s, lim.line);
    match ReadLine(s, lim.line)
    case Line(header, rest) =>
      if header != [] {
        assert header[0] in header;
        AsciiBody(header[0], header[1..], rest, lim, depth);
      }
    case _ =>
  }

  lemma {:induction false} LineFrom(s: Buf, max: nat)
    ensures var r := ReadLine(s, max);
      && (r.Line? ==> (forall b :: b in r.text ==> b in s) && (forall b :: b in r.rest ==> b in s))
      && r != LineFail(Panic)
  {
    hide ValidUtf8;
  }

  lemma {:induction false} AsciiBody(t: byte, payload: Buf, rest: Buf, lim: Limits, depth: nat)
    requires forall b :: b in rest ==> b < 0x80
    ensures ParseBody(t, payload, rest, lim, depth) != Fail(Panic)
    ensures var r := ParseBody(t, payload, rest, lim, depth); r.Got? ==> forall b :: b in r.rest ==> b in rest
    decreases |rest|, 2, 0
  {
    hide ParseI64, ParseMany, ParseText;
    var n := ParseI64(payload);
    if n.Some? && n.value >= 0 {
      AsciiMany(rest, n.value, lim, depth + 1);
    }
  }

  lemma {:induction false} AsciiMany(s: Buf, count: nat, lim: Limits, depth: nat)
    requires forall b :: b in s ==> b < 0x80
    ensures ParseMany(s, count, lim, depth) != FailMany(Panic)
    ensures var r := ParseMany(s, count, lim, depth); r.GotMany? ==> forall b :: b in r.rest ==> b in s
    decreases |s|, 1, count
  {
    hide Parse;
    if count > 0 {
      AsciiNeverPanics(s, lim, depth);
      match Parse(s, lim, depth)
      case Got(f, rest) => AsciiMany(rest, count - 1, lim, depth);
      case _ =>
    }
  }
}
