/**
 Parsing inverts serialization, exactly on the responses that fit.
 */
module RespLaws {
  import opened Bytes
  import opened Text
  import opened Resp

  // ---------------------------------------------------------------------
  // One header line
  // ---------------------------------------------------------------------

  /** A type byte and a payload on one line, then `tail`. */
  function Written(t: byte, p: Buf, tail: Buf): Buf { [t] + p + CRLF + tail }

  lemma {:induction false} WrittenFind(t: byte, p: Buf, tail: Buf)
    requires t != LF
    ensures LF !in p ==> Find(Written(t, p, tail), LF) == |p| + 2
    ensures LF in p ==> Find(Written(t, p, tail), LF) <= |p|
  {
    var s := Written(t, p, tail);
    if LF !in p {
      var a := [t] + p + [CR];
      assert s == a + [LF] + tail;
      assert LF !in a;
      FindFirst(a, LF, tail);
    } else {
      var j :| 0 <= j < |p| && p[j] == LF;
      assert s[1 + j] == LF;
    }
  }

  /** A line that fits is read whole. */
  lemma {:induction false} ReadWritten(t: byte, p: Buf, tail: Buf, max: nat)
    requires t < 0x80 && t != LF && ValidUtf8(p) && LF !in p && 1 + |p| <= max
    ensures ReadLine(Written(t, p, tail), max) == Line([t] + p, tail)
  {
    hide ValidUtf8;
    var s := Written(t, p, tail);
    WrittenFind(t, p, tail);
    var line := s[..|p| + 3];
    assert line == [t] + p + CRLF;
    assert line[|line| - 2..] == CRLF && line[..|line| - 2] == [t] + p;
    assert s[|p| + 3..] == tail;
    AsciiThenUtf8([t], p);
  }

  /** A line that is too long is refused. */
  lemma {:induction false} ReadTooLong(t: byte, p: Buf, tail: Buf, max: nat)
    requires t != LF && LF !in p && 1 + |p| > max
    ensures ReadLine(Written(t, p, tail), max) == LineFail(LineTooLong)
  {
    hide ValidUtf8;
    WrittenFind(t, p, tail);
  }

  /** A line feed in the payload cuts the line short. */
  lemma {:induction false} ReadCut(t: byte, p: Buf, tail: Buf, max: nat)
    requires t != LF && LF in p
    ensures var r := ReadLine(Written(t, p, tail), max);
      r.Line? ==> |r.text| <= |p|
  {
    hide ValidUtf8;
    WrittenFind(t, p, tail);
  }

  lemma {:induction false} ParseWritten(t: byte, p: Buf, tail: Buf, lim: Limits, depth: nat)
    requires t < 0x80 && t != LF && ValidUtf8(p) && LF !in p && depth <= MAX_NESTING_DEPTH
    ensures 1 + |p| <= lim.line ==> Parse(Written(t, p, tail), lim, depth) == ParseBody(t, p, tail, lim, depth)
    ensures 1 + |p| > lim.line ==> Parse(Written(t, p, tail), lim, depth) == Fail(LineTooLong)
  {
    hide ValidUtf8, ReadLine, ParseBody;
    if 1 + |p| <= lim.line {
      ReadWritten(t, p, tail, lim.line);
      assert ([t] + p)[1..] == p;
    } else {
      ReadTooLong(t, p, tail, lim.line);
    }
  }

  lemma {:induction false} ParseCut(t: byte, p: Buf, tail: Buf, lim: Limits, depth: nat)
    requires (t == 43 || t == 45) && LF in p
    ensures var r := Parse(Written(t, p, tail), lim, depth);
      r.Got? ==>
        || (r.frame.SimpleString? && |r.frame.text| < |p|)
        || (r.frame.Warning? && |WARNING| + |r.frame.text| < |p|)
        || (r.frame.Error? && |r.frame.text| < |p|)
        || (r.frame.Integer? || r.frame.Bulk? || r.frame.Array?)
  {
    hide ValidUtf8, ReadLine;
    ReadCut(t, p, tail, lim.line);
  }

  /** Any line at all: what stands before the line feed, without a carriage return at its end, if that is
      UTF-8 and not longer than allowed. */
  lemma {:induction false} ReadAnyLine(a: Buf, rest: Buf, max: nat)
    requires LF !in a
    ensures var text := if a != [] && a[|a| - 1] == CR then a[..|a| - 1] else a;
      ReadLine(a + [LF] + rest, max) ==
        if |a| > max + 1 then LineFail(LineTooLong)
        else if ValidUtf8(text) then Line(text, rest) else LineFail(Malformed)
  {
    hide ValidUtf8;
    FindFirst(a, LF, rest);
    var s := a + [LF] + rest;
    assert s[..|a| + 1] == a + [LF] && s[|a| + 1..] == rest;
    StripLine(a);
  }

  lemma {:induction false} StripLine(a: Buf)
    ensures Strip(a + [LF]) == if a != [] && a[|a| - 1] == CR then a[..|a| - 1] else a
  {
    var s := a + [LF];
    if a != [] {
      assert s[|s| - 2..] == [a[|a| - 1], LF];
      if a[|a| - 1] == CR { assert s[..|s| - 2] == a[..|a| - 1]; }
    }
    assert s[..|s| - 1] == a;
  }

  /** A negative count is a null bulk string or a null array, whatever follows. */
  lemma {:induction false} NegativeCounts(n: int, rest: Buf, lim: Limits, depth: nat)
    requires I64_MIN <= n < 0 && depth <= 8 && 1 + |PrintInt(n)| <= lim.line
    ensures Parse(['$' as int] + PrintInt(n) + CRLF + rest, lim, depth) == Got(Bulk(None), rest)
    ensures Parse(['*' as int] + PrintInt(n) + CRLF + rest, lim, depth) == Got(Array(None), rest)
  {
    hide ReadLine, ValidUtf8, ParseMany, PrintInt, ParseI64;
    var p := PrintInt(n);
    I64RoundTrip(n);
    PrintedIsAscii(n);
    ReadWritten(36, p, rest, lim.line);
    ReadWritten(42, p, rest, lim.line);
    assert ([36] + p)[1..] == p && ([42] + p)[1..] == p;
    assert [36] + p + CRLF + rest == Written(36, p, rest) && [42] + p + CRLF + rest == Written(42, p, rest);
  }

  /** After its header, a bulk string of any bytes is read if it is not too large and CR and LF follow it. */
  lemma {:induction false} BulkEnds(d: Buf, tail: Buf, lim: Limits, depth: nat)
    requires |d| <= I64_MAX && depth <= 8 && 1 + |PrintInt(|d|)| <= lim.line
    ensures Parse(['$' as int] + PrintInt(|d|) + CRLF + (d + tail), lim, depth) ==
      if |d| > lim.bulk then Fail(BulkTooLarge(|d|))
      else if |tail| < 2 then Fail(UnexpectedEof)
      else if tail[0] != 13 || tail[1] != 10 then Fail(Malformed)
      else Got(Bulk(Some(d)), tail[2..])
  {
    hide ReadLine, ValidUtf8, ParseMany, PrintInt, ParseI64;
    var n := |d|;
    var p := PrintInt(n);
    I64RoundTrip(n);
    PrintedIsAscii(n);
    ReadWritten(36, p, d + tail, lim.line);
    assert ([36] + p)[1..] == p && [36] + p + CRLF + (d + tail) == Written(36, p, d + tail);
    if |tail| >= 2 {
      assert (d + tail)[n..n + 2] == [tail[0], tail[1]] && (d + tail)[..n] == d && (d + tail)[n + 2..] == tail[2..];
    }
  }

  /** Headers that are none: an empty line, a type that does not exist, a count or integer that is no number. */
  lemma {:induction false} BadHeaders(t: byte, p: Buf, rest: Buf, lim: Limits, depth: nat)
    requires t < 0x80 && t != LF && ValidUtf8(p) && LF !in p && 1 + |p| <= lim.line && depth <= 8
    ensures Parse(CRLF + rest, lim, depth) == Fail(Malformed)
    ensures t !in {'+' as int, '-' as int, ':' as int, '$' as int, '*' as int} ==>
      Parse([t] + p + CRLF + rest, lim, depth) == Fail(UnknownType(t))
    ensures t in {':' as int, '$' as int, '*' as int} && ParseI64(p).None? ==>
      Parse([t] + p + CRLF + rest, lim, depth) == Fail(Malformed)
  {
    hide ReadLine, ValidUtf8, ParseMany, ParseI64;
    EmptyLine(rest, lim.line);
    ReadWritten(t, p, rest, lim.line);
    assert ([t] + p)[1..] == p && [t] + p + CRLF + rest == Written(t, p, rest);
  }

  lemma {:induction false} EmptyLine(rest: Buf, max: nat)
    ensures ReadLine(CRLF + rest, max) == Line([], rest)
  {
    hide ReadLine;
    ReadAnyLine([CR], rest, max);
    assert [CR][..0] == [] && [CR] + [LF] + rest == CRLF + rest && LF !in [CR];
  }

  // ---------------------------------------------------------------------
  // One response
  // ---------------------------------------------------------------------

  /** The byte that each kind of response starts with, and the text of the simple ones. */
  lemma {:induction false} WireTypes(r: Response)
    ensures Ser(r) != [] && match r
      case SendSimple(s) => Ser(r) == ['+' as int] + s + [13, 10]
      case SendWarning(s) =>
        Ser(r) == ['+' as int, '_' as int, 'w' as int, 'a' as int, 'r' as int, 'n' as int, 'i' as int, 'n' as int,
                   'g' as int, ' ' as int] + s + [13, 10]
      case SendError(s) => Ser(r) == ['-' as int] + s + [13, 10]
      case SendInteger(n) => Ser(r)[0] == ':' as int
      case SendBulk(_) => Ser(r)[0] == '$' as int
      case SendArray(_) => Ser(r)[0] == '*' as int
  {
    hide SerAll, PrintInt;
    if r.SendWarning? { assert [43] + (WARNING + r.text) == [43] + WARNING + r.text; }
  }

  /** An integer inside `d` arrays. */
  function Boxed(d: nat): Response { if d == 0 then SendInteger(0) else SendArray([Boxed(d - 1)]) }

  lemma {:induction false} BoxedFits(d: nat, lim: Limits, depth: nat)
    requires lim.line >= 2
    ensures Resp.Typed(Boxed(d)) && (Fits(Boxed(d), lim, depth) <==> depth + d <= 8)
    decreases d
  {
    assert PrintInt(0) == [48] && PrintInt(1) == [49];
    if d > 0 {
      BoxedFits(d - 1, lim, depth + 1);
      var items := [Boxed(d - 1)];
      assert |items| == 1 && items[0] == Boxed(d - 1);
    }
  }

  /** Eight levels of arrays are read back, and nine are not. */
  lemma {:induction false} EightLevels(d: nat, rest: Buf, lim: Limits)
    requires lim.line >= 2
    ensures Parse(Ser(Boxed(d)) + rest, lim, 0) == Got(ToFrame(Boxed(d)), rest) <==> d <= 8
  {
    hide Parse, Ser, Boxed, ToFrame, Fits;
    BoxedFits(d, lim, 0);
    ParseSer(Boxed(d), rest, lim, 0);
  }

  lemma {:induction false} PrintedIsAscii(n: int)
    ensures LF !in PrintInt(n) && ValidUtf8(PrintInt(n))
  {
    AsciiThenUtf8(PrintInt(n), []);
    assert PrintInt(n) + [] == PrintInt(n);
  }

  /** Simple strings, errors and warnings. */
  lemma {:induction false} TextSurvives(r: Response, rest: Buf, lim: Limits, depth: nat)
    requires r.SendSimple? || r.SendError? || r.SendWarning?
    requires Resp.Typed(r) && depth <= MAX_NESTING_DEPTH
    ensures Fits(r, lim, depth) ==> Parse(Ser(r) + rest, lim, depth) == Got(ToFrame(r), rest)
    ensures Parse(Ser(r) + rest, lim, depth).Got? && Parse(Ser(r) + rest, lim, depth).frame == ToFrame(r) ==>
      Fits(r, lim, depth)
  {
    var t: byte := if r.SendError? then 45 else 43;
    var p := if r.SendWarning? then WARNING + r.text else r.text;
    TextWritten(r, rest);
    hide ValidUtf8, Parse, Ser, Written;
    if LF in p {
      ParseCut(t, p, rest, lim, depth);
    } else {
      ParseWritten(t, p, rest, lim, depth);
      if r.SendWarning? { assert p[|WARNING|..] == r.text; }
    }
  }

  lemma {:induction false} TextWritten(r: Response, rest: Buf)
    requires (r.SendSimple? || r.SendError? || r.SendWarning?) && Resp.Typed(r)
    ensures var t: byte := if r.SendError? then 45 else 43;
      var p := if r.SendWarning? then WARNING + r.text else r.text;
      && Ser(r) + rest == Written(t, p, rest)
      && ValidUtf8(p)
      && (LF in p <==> LF in r.text)
  {
    if r.SendWarning? { AsciiThenUtf8(WARNING, r.text); }
    hide ValidUtf8;
  }

  lemma {:induction false} NumberSurvives(n: int, rest: Buf, lim: Limits, depth: nat)
    requires I64_MIN <= n <= I64_MAX && depth <= MAX_NESTING_DEPTH
    ensures 1 + |PrintInt(n)| <= lim.line ==>
      Parse(Written(58, PrintInt(n), rest), lim, depth) == Got(Integer(n), rest)
    ensures 1 + |PrintInt(n)| > lim.line ==>
      Parse(Written(58, PrintInt(n), rest), lim, depth) == Fail(LineTooLong)
  {
    hide Parse, ParseI64, PrintInt;
    PrintedIsAscii(n);
    I64RoundTrip(n);
    ParseWritten(58, PrintInt(n), rest, lim, depth);
  }

  lemma {:induction false} BulkSurvives(d: Buf, rest: Buf, lim: Limits, depth: nat)
    requires |d| <= I64_MAX && depth <= MAX_NESTING_DEPTH
    ensures var s := Written(36, PrintInt(|d|), d + CRLF + rest);
      if 1 + |PrintInt(|d|)| <= lim.line && |d| <= lim.bulk then
        Parse(s, lim, depth) == Got(Bulk(Some(d)), rest)
      else Parse(s, lim, depth).Fail?
  {
    var tail := d + CRLF + rest;
    hide Parse, ParseI64, PrintInt;
    PrintedIsAscii(|d|);
    I64RoundTrip(|d|);
    ParseWritten(36, PrintInt(|d|), tail, lim, depth);
    assert tail[..|d|] == d && tail[|d|..|d| + 2] == CRLF && tail[|d| + 2..] == rest;
  }

  lemma {:induction false} NullBulkSurvives(rest: Buf, lim: Limits, depth: nat)
    requires depth <= MAX_NESTING_DEPTH
    ensures var s := Written(36, PrintInt(-1), rest);
      if 3 <= lim.line then Parse(s, lim, depth) == Got(Bulk(None), rest)
      else Parse(s, lim, depth).Fail?
  {
    assert PrintInt(-1) == [45, 49];
    hide Parse, ParseI64, PrintInt;
    PrintedIsAscii(-1);
    I64RoundTrip(-1);
    ParseWritten(36, PrintInt(-1), rest, lim, depth);
  }

  lemma {:induction false} IntegerSurvives(n: int, rest: Buf, lim: Limits, depth: nat)
    requires Resp.Typed(SendInteger(n)) && depth <= MAX_NESTING_DEPTH
    ensures Fits(SendInteger(n), lim, depth) ==>
      Parse(Ser(SendInteger(n)) + rest, lim, depth) == Got(ToFrame(SendInteger(n)), rest)
    ensures Parse(Ser(SendInteger(n)) + rest, lim, depth).Got? ==> Fits(SendInteger(n), lim, depth)
  {
    hide Parse, PrintInt;
    assert Ser(SendInteger(n)) + rest == Written(58, PrintInt(n), rest);
    NumberSurvives(n, rest, lim, depth);
  }

  lemma {:induction false} BulksSurvive(d: Option<Buf>, rest: Buf, lim: Limits, depth: nat)
    requires Resp.Typed(SendBulk(d)) && depth <= MAX_NESTING_DEPTH
    ensures Fits(SendBulk(d), lim, depth) ==>
      Parse(Ser(SendBulk(d)) + rest, lim, depth) == Got(ToFrame(SendBulk(d)), rest)
    ensures Parse(Ser(SendBulk(d)) + rest, lim, depth).Got? ==> Fits(SendBulk(d), lim, depth)
  {
    hide Parse, PrintInt;
    match d
    case None =>
      assert Ser(SendBulk(d)) + rest == Written(36, PrintInt(-1), rest);
      NullBulkSurvives(rest, lim, depth);
    case Some(x) =>
      assert Ser(SendBulk(d)) + rest == Written(36, PrintInt(|x|), x + CRLF + rest);
      BulkSurvives(x, rest, lim, depth);
  }

  lemma {:induction false} ScalarSurvives(r: Response, rest: Buf, lim: Limits, depth: nat)
    requires !r.SendArray? && Resp.Typed(r) && depth <= MAX_NESTING_DEPTH
    ensures Fits(r, lim, depth) ==> Parse(Ser(r) + rest, lim, depth) == Got(ToFrame(r), rest)
    ensures Parse(Ser(r) + rest, lim, depth).Got? && Parse(Ser(r) + rest, lim, depth).frame == ToFrame(r) ==>
      Fits(r, lim, depth)
  {
    hide *;
    match r
    case SendInteger(n) => IntegerSurvives(n, rest, lim, depth);
    case SendBulk(d) => BulksSurvive(d, rest, lim, depth);
    case _ => TextSurvives(r, rest, lim, depth);
  }

  /** What an array header leaves to its elements. */
  lemma {:induction false} ArrayHeader(items: seq<Response>, rest: Buf, lim: Limits, depth: nat)
    requires |items| <= I64_MAX && depth <= MAX_NESTING_DEPTH
    ensures var s := Ser(SendArray(items)) + rest;
      if 1 + |PrintInt(|items|)| > lim.line then Parse(s, lim, depth).Fail?
      else match ParseMany(SerAll(items) + rest, |items|, lim, depth + 1)
        case FailMany(k) => Parse(s, lim, depth) == Fail(k)
        case GotMany(fs, after) => Parse(s, lim, depth) == Got(Array(Some(fs)), after)
  {
    hide Parse, ParseI64, PrintInt, SerAll, ParseMany, ValidUtf8;
    PrintedIsAscii(|items|);
    I64RoundTrip(|items|);
    var tail := SerAll(items) + rest;
    assert Ser(SendArray(items)) + rest == Written(42, PrintInt(|items|), tail);
    ParseWritten(42, PrintInt(|items|), tail, lim, depth);
  }

  /** A response followed by anything is read back as its own frame, with that rest left
      over, exactly when it fits. */
  lemma {:induction false} ParseSer(r: Response, rest: Buf, lim: Limits, depth: nat)
    requires Resp.Typed(r)
    ensures Fits(r, lim, depth) ==> Parse(Ser(r) + rest, lim, depth) == Got(ToFrame(r), rest)
    ensures Parse(Ser(r) + rest, lim, depth).Got? && Parse(Ser(r) + rest, lim, depth).frame == ToFrame(r) ==>
      Fits(r, lim, depth)
    decreases r, 1
  {
    if depth > MAX_NESTING_DEPTH {
    } else if r.SendArray? {
      hide Parse, Ser, ParseMany;
      ArrayHeader(r.items, rest, lim, depth);
      ParseSerAll(r.items, rest, lim, depth + 1);
    } else {
      hide *;
      ScalarSurvives(r, rest, lim, depth);
    }
  }

  lemma {:induction false} ParseSerAll(rs: seq<Response>, rest: Buf, lim: Limits, depth: nat)
    requires forall k :: 0 <= k < |rs| ==> Resp.Typed(rs[k])
    ensures (forall k :: 0 <= k < |rs| ==> Fits(rs[k], lim, depth)) ==>
      ParseMany(SerAll(rs) + rest, |rs|, lim, depth) == GotMany(ToFrames(rs), rest)
    ensures var r := ParseMany(SerAll(rs) + rest, |rs|, lim, depth);
      r.GotMany? && r.frames == ToFrames(rs) ==> forall k :: 0 <= k < |rs| ==> Fits(rs[k], lim, depth)
    decreases rs, 0
  {
    hide *;
    if rs == [] {
      NoneWritten(rest, lim, depth);
    } else {
      var tail := rs[1..];
      var more := SerAll(tail) + rest;
      assert forall k :: 0 < k < |rs| ==> rs[k] == tail[k - 1];
      ParseSer(rs[0], more, lim, depth);
      ParseSerAll(tail, rest, lim, depth);
      SerSplits(rs, rest);
      ManyStep(Ser(rs[0]) + more, |rs|, lim, depth);
    }
  }

  lemma {:induction false} NoneWritten(rest: Buf, lim: Limits, depth: nat)
    ensures SerAll([]) + rest == rest && ToFrames([]) == []
    ensures ParseMany(rest, 0, lim, depth) == GotMany([], rest)
  {
    assert [] + rest == rest;
  }

  lemma {:induction false} SerSplits(rs: seq<Response>, rest: Buf)
    requires rs != []
    ensures SerAll(rs) + rest == Ser(rs[0]) + (SerAll(rs[1..]) + rest)
    ensures ToFrames(rs) == [ToFrame(rs[0])] + ToFrames(rs[1..])
    ensures ToFrames(rs)[0] == ToFrame(rs[0]) && ToFrames(rs)[1..] == ToFrames(rs[1..])
  {
    hide Ser, ToFrame;
    assert Ser(rs[0]) + SerAll(rs[1..]) + rest == Ser(rs[0]) + (SerAll(rs[1..]) + rest);
  }

  /** An array's elements: the first, then the others. */
  lemma {:induction false} ManyStep(s: Buf, n: nat, lim: Limits, depth: nat)
    requires n > 0
    ensures var r := ParseMany(s, n, lim, depth);
      match Parse(s, lim, depth)
      case Got(f, after) =>
        var rs := ParseMany(after, n - 1, lim, depth);
        && (rs.GotMany? ==> r == GotMany([f] + rs.frames, rs.rest))
        && (r.GotMany? ==> rs.GotMany? && r.frames[0] == f && r.frames[1..] == rs.frames && r.rest == rs.rest)
      case _ => r.FailMany?
  {
    hide Parse;
  }

  // ---------------------------------------------------------------------
  // A whole connection
  // ---------------------------------------------------------------------

  /** A connection: the first frame, then the others. */
  lemma {:induction false} FirstOfStream(s: Buf, lim: Limits)
    ensures var r := ParseStream(s, lim);
      match Parse(s, lim, 0)
      case Eof => r == GotMany([], s)
      case Fail(_) => r.FailMany?
      case Got(f, after) =>
        var rs := ParseStream(after, lim);
        && (rs.GotMany? ==> r == GotMany([f] + rs.frames, rs.rest))
        && (r.GotMany? ==> rs.GotMany? && r.frames[0] == f && r.frames[1..] == rs.frames && r.rest == rs.rest)
  {
    hide Parse;
  }

  lemma StreamNone(lim: Limits)
    ensures ParseStream(SerAll([]), lim) == GotMany(ToFrames([]), [])
  {
    assert Parse([], lim, 0) == Eof;
  }

  /** Any list of responses written one after the other is read back as exactly their
      frames, in order and with nothing left, exactly when each of them fits. */
  lemma {:induction false} StreamRoundTrip(rs: seq<Response>, lim: Limits)
    requires forall k :: 0 <= k < |rs| ==> Resp.Typed(rs[k])
    ensures ParseStream(SerAll(rs), lim) == GotMany(ToFrames(rs), [])
       <==> forall k :: 0 <= k < |rs| ==> Fits(rs[k], lim, 0)
  {
    hide *;
    if rs == [] {
      StreamNone(lim);
    } else {
      var tail := rs[1..];
      assert forall k :: 0 < k < |rs| ==> rs[k] == tail[k - 1];
      ParseSer(rs[0], SerAll(tail), lim, 0);
      StreamRoundTrip(tail, lim);
      SerSplits(rs, []);
      assert SerAll(rs) + [] == SerAll(rs) && SerAll(tail) + [] == SerAll(tail);
      FirstOfStream(SerAll(rs), lim);
    }
  }
}
