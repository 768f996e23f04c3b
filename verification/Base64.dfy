/**
 The URL-safe base64 alphabet without padding (section 5 of RFC 4648).
 */
module Base64 {
  import opened Bytes
  import opened Text

  type sextet = n: int | 0 <= n < 64

  function Symbol(n: sextet): byte {
    if n < 26 then 65 + n
    else if n < 52 then 71 + n
    else if n < 62 then n - 4
    else if n == 62 then 45
    else 95
  }

  function Value(b: byte): Option<sextet> {
    if 65 <= b <= 90 then Some(b - 65)
    else if 97 <= b <= 122 then Some(b - 71)
    else if 48 <= b <= 57 then Some(b + 4)
    else if b == 45 then Some(62)
    else if b == 95 then Some(63)
    else None
  }

  /** Three bytes as four symbols. */
  function Quad(x: byte, y: byte, z: byte): (q: Buf)
    ensures |q| == 4
  {
    [Symbol(x / 4), Symbol(x % 4 * 16 + y / 16), Symbol(y % 16 * 4 + z / 64), Symbol(z % 64)]
  }

  function Encode(s: Buf): Buf {
    if s == [] then []
    else if |s| == 1 then Quad(s[0], 0, 0)[..2]
    else if |s| == 2 then Quad(s[0], s[1], 0)[..3]
    else Quad(s[0], s[1], s[2]) + Encode(s[3..])
  }

  /** Reads the symbols of one group back. */
  function Group(a: sextet, b: sextet, c: sextet, d: sextet): Buf {
    [a * 4 + b / 16, b % 16 * 16 + c / 4, c % 4 * 64 + d]
  }

  function Decode(t: Buf): Option<Buf> {
    if t == [] then Some([])
    else if |t| == 1 || Value(t[0]).None? || Value(t[1]).None? then None
    else
      var a, b := Value(t[0]).value, Value(t[1]).value;
      if |t| == 2 then Some(Group(a, b, 0, 0)[..1])
      else if Value(t[2]).None? then None
      else
        var c := Value(t[2]).value;
        if |t| == 3 then Some(Group(a, b, c, 0)[..2])
        else if Value(t[3]).None? then None
        else
          match Decode(t[4..])
          case None => None
          case Some(rest) => Some(Group(a, b, c, Value(t[3]).value) + rest)
  }

  /** The symbols are those of table 2 of RFC 4648: letters, digits, minus and underscore. */
  lemma SymbolsOfTable(n: sextet)
    ensures 0 <= n <= 25 ==> Symbol(n) == 'A' as int + n
    ensures 26 <= n <= 51 ==> Symbol(n) == 'a' as int + n - 26
    ensures 52 <= n <= 61 ==> Symbol(n) == '0' as int + n - 52
    ensures Symbol(62) == '-' as int && Symbol(63) == '_' as int
  {
  }

  /** Three bytes and the four sextets that stand for them are the same number. */
  lemma {:induction false} SameNumber(x: byte, y: byte, z: byte)
    ensures var q := Quad(x, y, z);
      && (forall i :: 0 <= i < 4 ==> Value(q[i]).Some?)
      && ((Value(q[0]).value * 64 + Value(q[1]).value) * 64 + Value(q[2]).value) * 64 + Value(q[3]).value ==
           (x * 256 + y) * 256 + z
  {
    hide Symbol, Value;
    SymbolValue(x / 4);
    SymbolValue(x % 4 * 16 + y / 16);
    SymbolValue(y % 16 * 4 + z / 64);
    SymbolValue(z % 64);
  }

  lemma SymbolValue(n: sextet)
    ensures Value(Symbol(n)) == Some(n) && Symbol(n) != SLASH
  {
  }

  lemma Split16(q: nat, m: nat)
    requires m < 16
    ensures (q * 16 + m) / 16 == q && (q * 16 + m) % 16 == m
  {
  }

  lemma Split4(q: nat, m: nat)
    requires m < 4
    ensures (q * 4 + m) / 4 == q && (q * 4 + m) % 4 == m
  {
  }

  lemma {:induction false} Regroup(x: byte, y: byte, z: byte)
    ensures Group(x / 4, x % 4 * 16 + y / 16, y % 16 * 4 + z / 64, z % 64) == [x, y, z]
  {
    Split16(x % 4, y / 16);
    Split4(y % 16, z / 64);
  }

  /** The four symbols are legal, none is a slash, and they read back. */
  lemma {:induction false} QuadFacts(x: byte, y: byte, z: byte)
    ensures var q := Quad(x, y, z);
      && (forall i :: 0 <= i < 4 ==> q[i] != SLASH && Value(q[i]).Some?)
      && Group(Value(q[0]).value, Value(q[1]).value, Value(q[2]).value, Value(q[3]).value) == [x, y, z]
  {
    SymbolValue(x / 4);
    SymbolValue(x % 4 * 16 + y / 16);
    SymbolValue(y % 16 * 4 + z / 64);
    SymbolValue(z % 64);
    Regroup(x, y, z);
    hide Symbol, Value, Group;
  }

  /** With nothing in the later bytes, the later symbols are zero. */
  lemma {:induction false} QuadEnds(x: byte, y: byte)
    ensures Value(Quad(x, y, 0)[3]) == Some(0) && Value(Quad(x, 0, 0)[2]) == Some(0)
  {
    SymbolValue(0);
  }

  lemma {:induction false} EncodeShort(s: Buf)
    requires |s| <= 2
    ensures Decode(Encode(s)) == Some(s) && SLASH !in Encode(s)
  {
    hide Quad, Value, Group;
    if |s| == 1 {
      QuadFacts(s[0], 0, 0);
      QuadEnds(s[0], 0);
      assert [s[0], 0, 0][..1] == s;
    } else if |s| == 2 {
      QuadFacts(s[0], s[1], 0);
      QuadEnds(s[0], s[1]);
      assert [s[0], s[1], 0][..2] == s;
    }
  }

  /** Encoded text reads back and has no slash in it. */
  lemma {:induction false} EncodeRoundTrip(s: Buf)
    ensures Decode(Encode(s)) == Some(s)
    ensures SLASH !in Encode(s)
    decreases |s|
  {
    hide Quad, Value, Group;
    if |s| <= 2 {
      EncodeShort(s);
    } else {
      QuadFacts(s[0], s[1], s[2]);
      EncodeRoundTrip(s[3..]);
      assert Encode(s)[4..] == Encode(s[3..]);
      assert [s[0], s[1], s[2]] + s[3..] == s;
    }
  }
}
