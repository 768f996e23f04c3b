/**
 Byte strings: big-endian integers, lexicographic order and UTF-8 validity.
 */
module Bytes {

  type byte = b: int | 0 <= b < 256

  type Buf = seq<byte>

  // ---------------------------------------------------------------------
  // Big-endian unsigned integers
  // ---------------------------------------------------------------------

  function Pow256(w: nat): (p: nat)
    ensures p >= 1
  {
    if w == 0 then 1 else 256 * Pow256(w - 1)
  }

  /** The low `w` bytes of `n`, most significant first. */
  function ToBE(n: nat, w: nat): (s: Buf)
    ensures |s| == w
  {
    if w == 0 then [] else ToBE(n / 256, w - 1) + [n % 256]
  }

  function FromBE(s: Buf): (n: nat)
    ensures n < Pow256(|s|)
  {
    if s == [] then 0 else
      var hi := FromBE(s[..|s| - 1]);
      assert hi + 1 <= Pow256(|s| - 1);
      256 * hi + s[|s| - 1]
  }

  lemma {:induction false} FromToBE(n: nat, w: nat)
    requires n < Pow256(w)
    ensures FromBE(ToBE(n, w)) == n
  {
    if w > 0 {
      FromToBE(n / 256, w - 1);
      var s := ToBE(n, w);
      assert s[..|s| - 1] == ToBE(n / 256, w - 1);
    }
  }

  lemma {:induction false} Pow256Values()
    ensures Pow256(4) == 0x1_0000_0000
    ensures Pow256(8) == 0x1_0000_0000_0000_0000
  {
    assert Pow256(1) == 256;
    assert Pow256(2) == 0x1_0000;
    assert Pow256(3) == 0x100_0000;
    assert Pow256(4) == 0x1_0000_0000;
    assert Pow256(5) == 0x100_0000_0000;
    assert Pow256(6) == 0x1_0000_0000_0000;
    assert Pow256(7) == 0x100_0000_0000_0000;
  }

  // ---------------------------------------------------------------------
  // Lexicographic order, as a BTreeMap keyed by bytes uses it
  // ---------------------------------------------------------------------

  predicate Less(a: Buf, b: Buf) {
    b != [] && (a == [] || a[0] < b[0] || (a[0] == b[0] && Less(a[1..], b[1..])))
  }

  lemma {:induction false} LessTotal(a: Buf, b: Buf)
    ensures Less(a, b) || a == b || Less(b, a)
    ensures !(Less(a, b) && Less(b, a)) && !Less(a, a)
    decreases |a|
  {
    if a != [] {
      LessTotal(a[1..], a[1..]);
      if b != [] && a[0] == b[0] {
        LessTotal(a[1..], b[1..]);
        assert a == [a[0]] + a[1..] && b == [b[0]] + b[1..];
      }
    }
  }

  lemma {:induction false} LessTransitive(a: Buf, b: Buf, c: Buf)
    requires Less(a, b) && Less(b, c)
    ensures Less(a, c)
    decreases |a|
  {
    if a != [] && a[0] == b[0] == c[0] {
      LessTransitive(a[1..], b[1..], c[1..]);
    }
  }

  /** Keys between `p` and `p ++ [0xFF]` are the extensions of `p` that do not go on with 0xFF. */
  lemma {:induction false} PrefixRange(p: Buf, k: Buf)
    ensures (!Less(k, p) && Less(k, p + [0xFF]))
       <==> (p <= k && (|k| == |p| || k[|p|] != 0xFF))
    decreases |p|
  {
    var end := p + [0xFF];
    if p == [] {
    } else if k != [] && k[0] == p[0] {
      PrefixRange(p[1..], k[1..]);
      assert end[1..] == p[1..] + [0xFF];
      assert p <= k <==> p[1..] <= k[1..];
      assert |k| > |p| ==> k[|p|] == k[1..][|p[1..]|];
    } else {
      assert end[0] == p[0];
    }
  }

  // ---------------------------------------------------------------------
  // UTF-8 (section 3 and section 4 of RFC 3629)
  // ---------------------------------------------------------------------

  predicate Tail(b: byte) { 0x80 <= b <= 0xBF }

  /** Length of the well-formed UTF-8 sequence at the front of `s`, or 0 if there is none. */
  function CharLen(s: Buf): (n: nat)
    ensures n <= 4 && n <= |s|
  {
    if s == [] then 0
    else if s[0] < 0x80 then 1
    else if |s| >= 2 && 0xC2 <= s[0] <= 0xDF && Tail(s[1]) then 2
    else if |s| >= 3 && Tail(s[1]) && Tail(s[2]) &&
            ((s[0] == 0xE0 && s[1] >= 0xA0) || (0xE1 <= s[0] <= 0xEC) ||
             (s[0] == 0xED && s[1] <= 0x9F) || (0xEE <= s[0] <= 0xEF)) then 3
    else if |s| >= 4 && Tail(s[1]) && Tail(s[2]) && Tail(s[3]) &&
            ((s[0] == 0xF0 && s[1] >= 0x90) || (0xF1 <= s[0] <= 0xF3) ||
             (s[0] == 0xF4 && s[1] <= 0x8F)) then 4
    else 0
  }

  predicate ValidUtf8(s: Buf) {
    s == [] || (CharLen(s) > 0 && ValidUtf8(s[CharLen(s)..]))
  }

  /** A Unicode scalar value: a code point that is not a surrogate. */
  predicate Scalar(c: nat) { c <= 0x10FFFF && !(0xD800 <= c <= 0xDFFF) }

  /** The table of section 3 of RFC 3629. */
  function Utf8(c: nat): (s: Buf)
    requires Scalar(c)
    ensures 1 <= |s| <= 4
  {
    if c < 0x80 then [c]
    else
      var a, b, d := c / 64, c / 64 / 64, c / 64 / 64 / 64;
      if c < 0x800 then [0xC0 + a, 0x80 + c % 64]
      else if c < 0x1_0000 then [0xE0 + b, 0x80 + a % 64, 0x80 + c % 64]
      else [0xF0 + d, 0x80 + b % 64, 0x80 + a % 64, 0x80 + c % 64]
  }

  /** Six more bits. */
  function More(n: int, b: int): int { 64 * n + b - 0x80 }

  lemma SixBits(n: nat, b: byte)
    requires Tail(b)
    ensures More(n, b) >= 0 && More(n, b) / 64 == n && 0x80 + More(n, b) % 64 == b
  {
  }

  /** The character that a well-formed sequence stands for. */
  function Code(s: Buf): int
    requires CharLen(s) > 0
  {
    match CharLen(s)
    case 1 => s[0]
    case 2 => More(s[0] - 0xC0, s[1])
    case 3 => More(More(s[0] - 0xE0, s[1]), s[2])
    case _ => More(More(More(s[0] - 0xF0, s[1]), s[2]), s[3])
  }

  lemma {:induction false} CodeIsScalar(s: Buf)
    requires CharLen(s) > 0
    ensures Code(s) >= 0 && Scalar(Code(s)) && Utf8(Code(s)) == s[..CharLen(s)]
  {
    match CharLen(s)
    case 1 =>
    case 2 => TwoBytes(s);
    case 3 => ThreeBytes(s);
    case _ => FourBytes(s);
  }

  lemma {:induction false} TwoBytes(s: Buf)
    requires CharLen(s) == 2
    ensures Code(s) >= 0 && Scalar(Code(s)) && Utf8(Code(s)) == s[..2]
  {
    SixBits(s[0] - 0xC0, s[1]);
  }

  lemma {:induction false} ThreeBytes(s: Buf)
    requires CharLen(s) == 3
    ensures Code(s) >= 0 && Scalar(Code(s)) && Utf8(Code(s)) == s[..3]
  {
    SixBits(s[0] - 0xE0, s[1]);
    SixBits(More(s[0] - 0xE0, s[1]), s[2]);
  }

  lemma {:induction false} FourBytes(s: Buf)
    requires CharLen(s) == 4
    ensures Code(s) >= 0 && Scalar(Code(s)) && Utf8(Code(s)) == s[..4]
  {
    SixBits(s[0] - 0xF0, s[1]);
    SixBits(More(s[0] - 0xF0, s[1]), s[2]);
    SixBits(More(More(s[0] - 0xF0, s[1]), s[2]), s[3]);
  }

  lemma {:induction false} ScalarIsChar(c: nat, s: Buf)
    requires Scalar(c) && Utf8(c) <= s
    ensures CharLen(s) == |Utf8(c)|
  {
    var u := Utf8(c);
    assert forall i :: 0 <= i < |u| ==> s[i] == u[i];
  }

  function Utf8All(cs: seq<nat>): Buf
    requires forall i :: 0 <= i < |cs| ==> Scalar(cs[i])
  {
    if cs == [] then [] else Utf8(cs[0]) + Utf8All(cs[1..])
  }

  /** Valid UTF-8 is exactly the encodings of sequences of Unicode scalar values. */
  lemma {:induction false} Utf8Exactly(s: Buf)
    ensures ValidUtf8(s) <==>
      exists cs: seq<nat> :: (forall i :: 0 <= i < |cs| ==> Scalar(cs[i])) && s == Utf8All(cs)
  {
    hide ValidUtf8, Utf8All, Scalar;
    if ValidUtf8(s) { var cs := Scalars(s); }
    if cs: seq<nat> :| (forall i :: 0 <= i < |cs| ==> Scalar(cs[i])) && s == Utf8All(cs) { Utf8AllValid(cs); }
  }

  lemma {:induction false} Scalars(s: Buf) returns (cs: seq<nat>)
    requires ValidUtf8(s)
    ensures (forall i :: 0 <= i < |cs| ==> Scalar(cs[i])) && s == Utf8All(cs)
    decreases |s|
  {
    hide CharLen, Code, Utf8, Scalar;
    if s == [] {
      cs := [];
    } else {
      var n := CharLen(s);
      CodeIsScalar(s);
      var rest := Scalars(s[n..]);
      cs := [Code(s)] + rest;
      assert cs[1..] == rest && s == s[..n] + s[n..];
    }
  }

  lemma {:induction false} Utf8AllValid(cs: seq<nat>)
    requires forall i :: 0 <= i < |cs| ==> Scalar(cs[i])
    ensures ValidUtf8(Utf8All(cs))
    decreases |cs|
  {
    hide CharLen, Utf8, Scalar;
    if cs != [] {
      var u, rest := Utf8(cs[0]), Utf8All(cs[1..]);
      ScalarIsChar(cs[0], u + rest);
      Utf8AllValid(cs[1..]);
      assert (u + rest)[|u|..] == rest;
    }
  }

  lemma {:induction false} Utf8NoFF(s: Buf, i: nat)
    requires ValidUtf8(s) && i < |s|
    ensures s[i] != 0xFF
    decreases |s|
  {
    var n := CharLen(s);
    if i >= n {
      Utf8NoFF(s[n..], i - n);
      assert s[n..][i - n] == s[i];
    }
  }

  /** U+FFFD. */
  const REPLACEMENT: Buf := [0xEF, 0xBF, 0xBD]

  /** Length of the bytes at the front of `s` that a lossy reading replaces as a whole: the longest
      beginning of a well-formed sequence, or one byte. */
  function BadLen(s: Buf): (n: nat)
    requires s != [] && CharLen(s) == 0
    ensures 1 <= n <= |s|
  {
    if |s| < 2 then 1
    else if (s[0] == 0xE0 && 0xA0 <= s[1] <= 0xBF) || (0xE1 <= s[0] <= 0xEC && Tail(s[1])) ||
            (s[0] == 0xED && 0x80 <= s[1] <= 0x9F) || (0xEE <= s[0] <= 0xEF && Tail(s[1])) then 2
    else if (s[0] == 0xF0 && 0x90 <= s[1] <= 0xBF) || (0xF1 <= s[0] <= 0xF3 && Tail(s[1])) ||
            (s[0] == 0xF4 && 0x80 <= s[1] <= 0x8F) then (if |s| >= 3 && Tail(s[2]) then 3 else 2)
    else 1
  }

  /** The bytes begin a well-formed sequence and do not complete it. */
  ghost predicate Begins(p: Buf) { p != [] && exists t: Buf :: t != [] && CharLen(p + t) == |p| + |t| }

  /** What is replaced as a whole is the longest beginning of a character, or a single byte. */
  lemma {:induction false} BadLenExactly(s: Buf, m: nat)
    requires s != [] && CharLen(s) == 0
    ensures BadLen(s) > 1 ==> Begins(s[..BadLen(s)])
    ensures BadLen(s) < m <= |s| ==> !Begins(s[..m])
  {
    var n := BadLen(s);
    if n == 2 {
      var p := s[..2];
      var t: Buf := if s[0] < 0xF0 then [0x80] else [0x80, 0x80];
      var c := p + t;
      assert c[0] == s[0] && c[1] == s[1];
      assert CharLen(c) == |p| + |t|;
    } else if n == 3 {
      var p := s[..3];
      var c := p + [0x80];
      assert c[0] == s[0] && c[1] == s[1] && c[2] == s[2];
      assert CharLen(c) == |p| + 1;
    }
    if n < m <= |s| {
      forall t: Buf | t != [] ensures CharLen(s[..m] + t) != m + |t| { NoLonger(s, m, t); }
    }
  }

  lemma {:induction false} NoLonger(s: Buf, m: nat, t: Buf)
    requires s != [] && CharLen(s) == 0 && BadLen(s) < m <= |s| && t != []
    ensures CharLen(s[..m] + t) != m + |t|
  {
    var c := s[..m] + t;
    assert c[0] == s[0] && (m > 1 ==> c[1] == s[1]) && (m > 2 ==> c[2] == s[2]);
  }

  /** Bytes read as text, with what is not UTF-8 replaced. */
  function Lossy(s: Buf): Buf {
    if s == [] then []
    else if CharLen(s) > 0 then s[..CharLen(s)] + Lossy(s[CharLen(s)..])
    else REPLACEMENT + Lossy(s[BadLen(s)..])
  }

  lemma {:induction false} LossyValid(s: Buf)
    requires ValidUtf8(s)
    ensures Lossy(s) == s
    decreases |s|
  {
    if s != [] { LossyValid(s[CharLen(s)..]); }
  }

  predicate Ascii(s: Buf) { forall i :: 0 <= i < |s| ==> s[i] < 0x80 }

  lemma {:induction false} AsciiThenUtf8(a: Buf, s: Buf)
    requires Ascii(a)
    ensures ValidUtf8(a + s) <==> ValidUtf8(s)
    decreases |a|
  {
    if a == [] {
      assert a + s == s;
    } else {
      AsciiThenUtf8(a[1..], s);
      assert (a + s)[1..] == a[1..] + s;
      assert CharLen(a + s) == 1;
    }
  }
}
