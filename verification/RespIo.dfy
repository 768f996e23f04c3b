/**
 The parser and the serializer as they run: a reader that hands out the
 stream chunk by chunk, and a growing output buffer.
 */
module RespIo {
  import opened Bytes
  import opened Text
  import opened Resp
  import opened RespLaws

  function Join(chunks: seq<Buf>): Buf {
    if chunks == [] then [] else chunks[0] + Join(chunks[1..])
  }

  datatype LineResult = GotLine(text: Buf) | NoLine | BadLine(kind: Kind)

  datatype FrameResult = GotFrame(frame: Frame) | NoFrame | BadFrame(kind: Kind)

  /** What is still to come on a connection, in the non-empty pieces it will arrive in. */
  class Reader {
    var chunks: seq<Buf>

    predicate Valid()
      reads this
    {
      forall i :: 0 <= i < |chunks| ==> chunks[i] != []
    }

    function Rest(): Buf
      reads this
    {
      Join(chunks)
    }

    constructor (pieces: seq<Buf>)
      requires forall i :: 0 <= i < |pieces| ==> pieces[i] != []
      ensures Valid() && chunks == pieces
    {
      chunks := pieces;
    }

    /** The piece at hand; empty only at the end of the stream. */
    method FillBuf() returns (available: Buf)
      requires Valid()
      ensures available <= Rest()
      ensures available == [] <==> Rest() == []
      ensures available == if chunks == [] then [] else chunks[0]
    {
      if chunks == [] {
        return [];
      }
      available := chunks[0];
    }

    method Consume(n: nat)
      requires Valid() && chunks != [] && n <= |chunks[0]|
      modifies this
      ensures Valid()
      ensures old(Rest()) == old(chunks[0])[..n] + Rest()
      ensures n == |old(chunks[0])| ==> |chunks| < |old(chunks)|
    {
      if n == |chunks[0]| {
        chunks := chunks[1..];
      } else {
        ghost var rest := Join(chunks[1..]);
        assert chunks[0] == chunks[0][..n] + chunks[0][n..];
        chunks := [chunks[0][n..]] + chunks[1..];
        assert chunks[1..] == old(chunks[1..]);
      }
    }

    /** The next `n` bytes, or nothing if the stream ends before. */
    method ReadExact(n: nat) returns (r: Option<Buf>)
      requires Valid()
      modifies this
      ensures Valid()
      ensures r.Some? <==> n <= |old(Rest())|
      ensures r.Some? ==> r.value == old(Rest())[..n] && Rest() == old(Rest())[n..]
    {
      var data: Buf := [];
      while |data| < n
        invariant Valid() && |data| <= n
        invariant data + Rest() == old(Rest())
        decreases n - |data|
      {
        var available := FillBuf();
        if available == [] {
          return None;
        }
        var k := if |available| < n - |data| then |available| else n - |data|;
        Consume(k);
        data := data + available[..k];
      }
      r := Some(data);
    }

    /** The limited line reader gives, for every split of the stream, what it gives unsplit. */
    method ReadLineLimited(max: nat) returns (r: LineResult)
      requires Valid()
      modifies this
      ensures Valid()
      ensures match ReadLine(old(Rest()), max)
              case Line(text, rest) => r == GotLine(text) && Rest() == rest
              case LineEof => r == NoLine && Rest() == []
              case LineFail(k) => r == BadLine(k)
    {
      hide ValidUtf8, ReadLine, Join, Strip;
      var buf: Buf := [];
      ghost var all := Rest();
      while true
        invariant Valid()
        invariant buf + Rest() == all && LF !in buf && |buf| <= max + 2
        decreases |chunks|
      {
        var available := FillBuf();
        if available == [] {
          assert all == buf;
          LineEnds(buf, max);
          return if buf == [] then NoLine else BadLine(UnexpectedEof);
        }
        var pos := Find(available, LF);
        var found := pos < |available|;
        var end := if found then pos + 1 else pos;
        Consume(end);
        assert all == buf + available[..end] + Rest();
        if found {
          LineDone(buf, available, pos, Rest(), max);
        } else {
          assert available[..end] == available;
          LineGoesOn(buf, available, Rest(), max);
        }
        if |buf| + end > max + 2 {
          return BadLine(LineTooLong);
        }
        buf := buf + available[..end];
        if found {
          var text := Strip(buf);
          return if ValidUtf8(text) then GotLine(text) else BadLine(Malformed);
        }
      }
    }

    /** One frame, at every split of the stream: the frame and the bytes left over are
        those of the unsplit stream, or the error is of the same kind. */
    method ParseFrameInner(lim: Limits, depth: nat) returns (r: FrameResult)
      requires Valid()
      modifies this
      ensures Valid()
      ensures match Parse(old(Rest()), lim, depth)
              case Got(f, rest) => r == GotFrame(f) && Rest() == rest
              case Eof => r == NoFrame && Rest() == []
              case Fail(k) => r == BadFrame(k)
      decreases |Rest()|, 0
    {
      hide ReadLine, ParseBody, ValidUtf8;
      if depth > MAX_NESTING_DEPTH {
        return BadFrame(NestingTooDeep);
      }
      ghost var all := Rest();
      var line := ReadLineLimited(lim.line);
      match line {
        case NoLine => return NoFrame;
        case BadLine(k) => return BadFrame(k);
        case GotLine(header) =>
          if header == [] {
            return BadFrame(Malformed);
          }
          if header[0] >= 0x80 {
            return BadFrame(Panic);
          }
          r := ParsePayload(header[0], header[1..], lim, depth);
      }
    }

    method ParsePayload(t: byte, payload: Buf, lim: Limits, depth: nat) returns (r: FrameResult)
      requires Valid()
      modifies this
      ensures Valid()
      ensures match ParseBody(t, payload, old(Rest()), lim, depth)
              case Got(f, rest) => r == GotFrame(f) && Rest() == rest
              case Eof => false
              case Fail(k) => r == BadFrame(k)
      decreases |Rest()|, 2
    {
      hide ParseMany, ParseI64;
      if t == 43 || t == 45 {
        return GotFrame(ParseText(t, payload));
      }
      if t != 58 && t != 36 && t != 42 {
        return BadFrame(UnknownType(t));
      }
      var n := ParseI64(payload);
      if n.None? {
        return BadFrame(Malformed);
      }
      if t == 58 {
        return GotFrame(Integer(n.value));
      }
      if t == 36 {
        r := ReadBulk(n.value, payload, lim);
        return;
      }
      if n.value < 0 {
        return GotFrame(Array(None));
      }
      var elements, err := ParseElements(n.value, lim, depth + 1);
      return if err.Some? then BadFrame(err.value) else GotFrame(Array(Some(elements)));
    }

    method ReadBulk(len: int, ghost payload: Buf, lim: Limits) returns (r: FrameResult)
      requires Valid() && ParseI64(payload) == Some(len)
      modifies this
      ensures Valid()
      ensures match ParseBulk(payload, old(Rest()), lim)
              case Got(f, rest) => r == GotFrame(f) && Rest() == rest
              case Eof => false
              case Fail(k) => r == BadFrame(k)
    {
      hide ParseI64;
      ghost var all := Rest();
      if len < 0 {
        return GotFrame(Bulk(None));
      }
      if len > lim.bulk {
        return BadFrame(BulkTooLarge(len));
      }
      var data := ReadExact(len);
      if data.None? {
        return BadFrame(UnexpectedEof);
      }
      var crlf := ReadExact(2);
      if crlf.None? {
        return BadFrame(UnexpectedEof);
      }
      assert crlf.value == all[len..len + 2] && Rest() == all[len + 2..];
      return if crlf.value == CRLF then GotFrame(Bulk(data)) else BadFrame(Malformed);
    }

    method ParseElements(count: nat, lim: Limits, depth: nat) returns (elements: seq<Frame>, err: Option<Kind>)
      requires Valid()
      modifies this
      ensures Valid()
      ensures match ParseMany(old(Rest()), count, lim, depth)
              case GotMany(fs, rest) => err.None? && elements == fs && Rest() == rest
              case FailMany(k) => err == Some(k)
      decreases |Rest()|, 1
    {
      elements, err := [], None;
      ghost var whole := ParseMany(Rest(), count, lim, depth);
      for i := 0 to count
        invariant Valid() && |Rest()| <= |old(Rest())|
        invariant Left(elements, ParseMany(Rest(), count - i, lim, depth), whole)
      {
        LeftStep(Rest(), count - i, lim, depth, elements, whole);
        var f := ParseFrameInner(lim, depth);
        match f {
          case NoFrame => return elements, Some(UnexpectedEof);
          case BadFrame(k) => return elements, Some(k);
          case GotFrame(frame) => elements := elements + [frame];
        }
      }
    }

    /** Frame after frame to the end of the stream: at every split, what the unsplit stream gives. */
    method ReadFrames(lim: Limits) returns (frames: seq<Frame>, err: Option<Kind>)
      requires Valid()
      modifies this
      ensures Valid()
      ensures match ParseStream(old(Rest()), lim)
              case GotMany(fs, rest) => err.None? && frames == fs && Rest() == rest == []
              case FailMany(k) => err == Some(k)
    {
      hide Parse;
      frames, err := [], None;
      ghost var whole := ParseStream(Rest(), lim);
      var more := true;
      while more
        invariant Valid()
        invariant if more then Left(frames, ParseStream(Rest(), lim), whole)
                  else whole == GotMany(frames, []) && Rest() == []
        decreases if more then |Rest()| + 1 else 0
      {
        hide ParseStream;
        StreamStep(Rest(), lim, frames, whole);
        var f := ParseFrameInner(lim, 0);
        match f {
          case NoFrame => more := false;
          case BadFrame(k) => return frames, Some(k);
          case GotFrame(frame) => frames := frames + [frame];
        }
      }
    }

    /** Whatever pieces a batch of responses arrives in, it is read back as exactly its frames, with
        nothing left, exactly when each response fits. */
    method ReadBack(lim: Limits, ghost rs: seq<Response>) returns (frames: seq<Frame>, err: Option<Kind>)
      requires Valid() && Rest() == SerAll(rs) && forall k :: 0 <= k < |rs| ==> Resp.Typed(rs[k])
      modifies this
      ensures Valid()
      ensures err.None? && frames == ToFrames(rs) && Rest() == [] <==> forall k :: 0 <= k < |rs| ==> Fits(rs[k], lim, 0)
    {
      hide ParseStream, Fits, ToFrames;
      StreamRoundTrip(rs, lim);
      frames, err := ReadFrames(lim);
    }
  }

  lemma EofAtEnd(s: Buf, lim: Limits)
    ensures Parse(s, lim, 0).Eof? ==> s == []
  {
  }

  lemma {:induction false} StreamStep(s: Buf, lim: Limits, frames: seq<Frame>, whole: ParsedMany)
    requires Left(frames, ParseStream(s, lim), whole)
    ensures match Parse(s, lim, 0)
            case Eof => s == [] && whole == GotMany(frames, s)
            case Fail(k) => whole == FailMany(k)
            case Got(f, rest) => Left(frames + [f], ParseStream(rest, lim), whole)
  {
    EofAtEnd(s, lim);
    hide Parse;
    match Parse(s, lim, 0)
    case Got(f, rest) =>
      var r := ParseStream(rest, lim);
      if r.GotMany? { assert frames + ([f] + r.frames) == frames + [f] + r.frames; }
    case _ =>
  }

  lemma LineEnds(buf: Buf, max: nat)
    requires LF !in buf && |buf| <= max + 2
    ensures ReadLine(buf, max) == if buf == [] then LineEof else LineFail(UnexpectedEof)
  {
    hide ValidUtf8, Strip;
  }

  /** No line feed yet: the line is at least this long. */
  lemma {:induction false} LineGoesOn(buf: Buf, available: Buf, rest: Buf, max: nat)
    requires LF !in buf && Find(available, LF) == |available|
    ensures LF !in buf + available
    ensures |buf| + |available| > max + 2 ==> ReadLine(buf + available + rest, max) == LineFail(LineTooLong)
  {
    hide ValidUtf8, Strip;
    var a := buf + available;
    assert LF !in available;
    forall j | 0 <= j < |a| ensures (a + rest)[j] != LF { assert a[j] in a; }
  }

  /** The first line feed is in the piece at hand. */
  lemma {:induction false} LineDone(buf: Buf, available: Buf, pos: nat, rest: Buf, max: nat)
    requires LF !in buf && pos < |available| && Find(available, LF) == pos
    ensures var line := buf + available[..pos + 1];
      ReadLine(line + rest, max) ==
      if |line| > max + 2 then LineFail(LineTooLong)
      else if ValidUtf8(Strip(line)) then Line(Strip(line), rest) else LineFail(Malformed)
  {
    hide ValidUtf8, Strip;
    var a := buf + available[..pos];
    var line := buf + available[..pos + 1];
    assert LF !in available[..pos];
    assert line == a + [LF];
    assert line + rest == a + [LF] + rest;
    FindFirst(a, LF, rest);
    assert (line + rest)[..|line|] == line && (line + rest)[|line|..] == rest;
  }

  /** `done` and what is `left` make up `whole`. */
  ghost predicate Left(done: seq<Frame>, left: ParsedMany, whole: ParsedMany) {
    match whole
    case FailMany(_) => left == whole
    case GotMany(fs, rest) => left.GotMany? && done + left.frames == fs && left.rest == rest
  }

  lemma LeftStep(s: Buf, n: nat, lim: Limits, depth: nat, done: seq<Frame>, whole: ParsedMany)
    requires n > 0 && Left(done, ParseMany(s, n, lim, depth), whole)
    ensures match Parse(s, lim, depth)
            case Eof => whole == FailMany(UnexpectedEof)
            case Fail(k) => whole == FailMany(k)
            case Got(f, rest) => Left(done + [f], ParseMany(rest, n - 1, lim, depth), whole)
  {
    hide Parse;
  }

  // ---------------------------------------------------------------------
  // The serializer
  // ---------------------------------------------------------------------

  /** Appends one response; nothing already written changes. */
  method WriteToBuf(resp: Response, buf: Buf) returns (out: Buf)
    ensures out == buf + Ser(resp)
    decreases resp
  {
    hide PrintInt;
    match resp {
      case SendSimple(s) => out := buf + ([43] + s + CRLF);
      case SendError(s) => out := buf + ([45] + s + CRLF);
      case SendInteger(n) => out := buf + ([58] + PrintInt(n) + CRLF);
      case SendBulk(None) => out := buf + ([36] + PrintInt(-1) + CRLF);
      case SendBulk(Some(d)) => out := buf + ([36] + PrintInt(|d|) + CRLF + (d + CRLF));
      case SendWarning(s) => out := buf + ([43] + (WARNING + s) + CRLF);
      case SendArray(items) =>
        var head := [42] + PrintInt(|items|) + CRLF;
        out := WriteItems(items, buf + head);
        assert Ser(resp) == head + SerAll(items);
    }
  }

  method WriteItems(items: seq<Response>, buf: Buf) returns (out: Buf)
    ensures out == buf + SerAll(items)
    decreases items
  {
    out := buf;
    for i := 0 to |items|
      invariant out + SerAll(items[i..]) == buf + SerAll(items)
    {
      out := WriteToBuf(items[i], out);
      assert items[i..][1..] == items[i + 1..];
    }
  }

  /** A batch of responses in one buffer reads back as the same frames in the same order exactly
      when each of them fits. */
  method SerializeAll(rs: seq<Response>, lim: Limits) returns (out: Buf)
    requires forall k :: 0 <= k < |rs| ==> Resp.Typed(rs[k])
    ensures out == SerAll(rs)
    ensures (forall k :: 0 <= k < |rs| ==> Fits(rs[k], lim, 0)) <==>
      ParseStream(out, lim) == GotMany(ToFrames(rs), [])
  {
    out := WriteItems(rs, []);
    StreamRoundTrip(rs, lim);
  }
}
