/**
 Text fragments shared by the wire protocol and the storage keys: decimal
 integers, hyphenated UUIDs and splitting at a separator.
 */
module Text {
  import opened Bytes

  datatype Option<+T> = None | Some(value: T)

  function Lookup<K, V>(m: map<K, V>, k: K): Option<V> { if k in m then Some(m[k]) else None }

  predicate Increasing(at: seq<nat>) { forall k, l :: 0 <= k < l < |at| ==> at[k] < at[l] }

  lemma {:induction false} IncreasingNext(at: seq<nat>, m: nat)
    requires Increasing(at) && forall i: nat :: i in at ==> i < m
    ensures Increasing(at + [m]) && forall i: nat :: i in at + [m] <==> i in at || i == m
    ensures (at + [m])[|at|] == m && forall k :: 0 <= k < |at| ==> (at + [m])[k] == at[k]
  {
    assert forall k :: 0 <= k < |at| ==> at[k] in at;
  }

  const I64_MIN: int := -0x8000_0000_0000_0000
  const I64_MAX: int := 0x7FFF_FFFF_FFFF_FFFF
  const U64_MAX: int := 0xFFFF_FFFF_FFFF_FFFF

  type u64 = n: int | 0 <= n <= U64_MAX

  // ---------------------------------------------------------------------
  // Decimal integers
  // ---------------------------------------------------------------------

  predicate IsDigit(b: byte) { 48 <= b <= 57 }

  /** Decimal digits without leading zeros. */
  function Digits(n: nat): (s: Buf)
    ensures s != [] && forall i :: 0 <= i < |s| ==> IsDigit(s[i])
  {
    if n < 10 then [48 + n] else Digits(n / 10) + [48 + n % 10]
  }

  /** Value of a non-empty string of digits. */
  function ParseNat(s: Buf): Option<nat> {
    if s == [] || !IsDigit(s[|s| - 1]) then None
    else if |s| == 1 then Some(s[0] - 48)
    else match ParseNat(s[..|s| - 1])
      case None => None
      case Some(hi) => Some(10 * hi + (s[|s| - 1] - 48))
  }

  function PrintInt(n: int): (s: Buf)
    ensures s != [] && forall i :: 0 <= i < |s| ==> IsDigit(s[i]) || s[i] == 45
  {
    if n < 0 then [45] + Digits(-n) else Digits(n)
  }

  /** An optional sign and at least one digit, within the signed 64-bit range. */
  function ParseI64(s: Buf): (r: Option<int>)
    ensures r.Some? ==> I64_MIN <= r.value <= I64_MAX
  {
    var neg := s != [] && s[0] == 45;
    var body := if neg || (s != [] && s[0] == 43) then s[1..] else s;
    match ParseNat(body)
    case None => None
    case Some(m) =>
      var n := if neg then 0 - m else m;
      if I64_MIN <= n <= I64_MAX then Some(n) else None
  }

  /** An optional plus sign and at least one digit, within the unsigned 64-bit range. */
  function ParseU64(s: Buf): (r: Option<u64>) {
    var body := if s != [] && s[0] == 43 then s[1..] else s;
    match ParseNat(body)
    case None => None
    case Some(m) => if m <= U64_MAX then Some(m) else None
  }

  lemma {:induction false} ParseDigits(n: nat)
    ensures ParseNat(Digits(n)) == Some(n)
  {
    if n >= 10 {
      ParseDigits(n / 10);
      var s := Digits(n);
      assert s[..|s| - 1] == Digits(n / 10);
    }
  }

  function Pow10(i: nat): (p: nat)
    ensures p >= 1
  {
    if i == 0 then 1 else 10 * Pow10(i - 1)
  }

  /** Counted from the right, the digits are those of the number in base ten; there are no more of
      them than it needs. */
  lemma {:induction false} DigitAt(n: nat, i: nat)
    requires i < |Digits(n)|
    ensures Digits(n)[|Digits(n)| - 1 - i] == '0' as int + n / Pow10(i) % 10
    ensures |Digits(n)| > 1 ==> n >= Pow10(|Digits(n)| - 1)
    decreases n
  {
    if n >= 10 {
      var s, t := Digits(n), Digits(n / 10);
      assert s == t + [48 + n % 10];
      DigitAt(n / 10, if i > 0 then i - 1 else 0);
      if i > 0 { DivTwice(n, Pow10(i - 1)); }
    }
  }

  lemma {:induction false} DivTwice(n: nat, m: nat)
    requires m >= 1
    ensures n / 10 / m == n / (10 * m)
  {
    var q := n / 10 / m;
    var r := n / 10 - q * m;
    assert n / 10 == q * m + r && 0 <= r < m;
    assert n == 10 * (n / 10) + n % 10;
    assert n == q * (10 * m) + (10 * r + n % 10) && 0 <= 10 * r + n % 10 < 10 * m;
    Quotient(n, 10 * m, q, 10 * r + n % 10);
  }

  lemma {:induction false} Quotient(n: nat, d: nat, q: nat, r: nat)
    requires d >= 1 && n == q * d + r && r < d
    ensures n / d == q
  {
    var k := n / d - q;
    assert k * d == r - n % d;
    Multiples(k, d);
  }

  lemma Multiples(k: int, d: nat)
    ensures k >= 1 ==> k * d >= d
    ensures k <= -1 ==> k * d <= 0 - d
  {
  }

  /** Reading back what was printed fails exactly outside the signed 64-bit range; a plus sign and
      leading zeros are allowed in front. */
  lemma {:induction false} ParsePrinted(n: int)
    ensures ParseI64(PrintInt(n)) ==
      if -9_223_372_036_854_775_808 <= n <= 9_223_372_036_854_775_807 then Some(n) else None
    ensures n >= 0 ==> ParseI64(['+' as int] + PrintInt(n)) == ParseI64(PrintInt(n))
    ensures n >= 0 ==> ParseI64(['0' as int] + PrintInt(n)) == ParseI64(PrintInt(n))
  {
    hide ParseNat, Digits;
    ParseDigits(if n < 0 then -n else n);
    if n < 0 {
      assert PrintInt(n)[1..] == Digits(-n);
    } else {
      var s := Digits(n);
      assert IsDigit(s[0]);
      assert ([43] + s)[1..] == s && ([43] + s)[0] == 43;
      ZeroInFront(s);
      assert ([48] + s)[0] == 48;
    }
  }

  lemma {:induction false} ZeroInFront(s: Buf)
    requires s != [] && ParseNat(s).Some?
    ensures ParseNat([48] + s) == ParseNat(s)
    decreases |s|
  {
    var m := |s| - 1;
    var t := [48] + s;
    assert t[..|t| - 1] == [48] + s[..m];
    if m > 0 {
      ZeroInFront(s[..m]);
    } else {
      assert s[..m] == [] && t[..1] == [48] && [48] + s[..m] == [48];
      assert ParseNat([48]) == Some(0);
    }
  }

  /** Nothing but an optional sign and digits is a number. */
  lemma {:induction false} OnlyDigits(s: Buf, i: nat)
    requires ParseNat(s).Some? && i < |s|
    ensures IsDigit(s[i])
    decreases |s|
  {
    if i < |s| - 1 { OnlyDigits(s[..|s| - 1], i); }
  }

  lemma {:induction false} I64RoundTrip(n: int)
    requires I64_MIN <= n <= I64_MAX
    ensures ParseI64(PrintInt(n)) == Some(n)
  {
    ParseDigits(if n < 0 then -n else n);
    if n < 0 {
      assert PrintInt(n)[1..] == Digits(-n);
    } else {
      assert IsDigit(PrintInt(n)[0]);
    }
  }

  lemma {:induction false} U64RoundTrip(n: u64)
    ensures ParseU64(Digits(n)) == Some(n)
  {
    ParseDigits(n);
    assert IsDigit(Digits(n)[0]);
  }

  /** The unsigned reading fails exactly above 2^64 - 1; a plus sign is allowed in front, a minus is not. */
  lemma {:induction false} ParsePrintedU64(n: nat)
    ensures ParseU64(Digits(n)) == if n <= 18_446_744_073_709_551_615 then Some(n) else None
    ensures ParseU64(['+' as int] + Digits(n)) == ParseU64(Digits(n)) && ParseU64(['-' as int] + Digits(n)) == None
  {
    hide Digits, ParseNat;
    ParseDigits(n);
    var s := Digits(n);
    assert IsDigit(s[0]);
    assert ([43] + s)[1..] == s && ([43] + s)[0] == 43 && ([45] + s)[0] == 45;
    if ParseNat([45] + s).Some? { OnlyDigits([45] + s, 0); }
  }

  // ---------------------------------------------------------------------
  // Splitting at the first separator
  // ---------------------------------------------------------------------

  const SLASH: byte := 47

  /** Index of the first `b` in `s`, or |s|. */
  function Find(s: Buf, b: byte): (i: nat)
    ensures i <= |s|
    ensures i < |s| ==> s[i] == b
    ensures forall j :: 0 <= j < i ==> s[j] != b
  {
    if s == [] then 0 else if s[0] == b then 0 else 1 + Find(s[1..], b)
  }

  lemma {:induction false} FindFirst(a: Buf, b: byte, rest: Buf)
    requires b !in a
    ensures Find(a + [b] + rest, b) == |a|
  {
    var s := a + [b] + rest;
    assert s[|a|] == b;
    assert forall j :: 0 <= j < |a| ==> s[j] == a[j] && a[j] in a;
  }

  /** The text before and after the first slash, as a two-way split gives them. */
  function SplitSlash(s: Buf): Option<(Buf, Buf)> {
    var i := Find(s, SLASH);
    if i == |s| then None else Some((s[..i], s[i + 1..]))
  }

  lemma {:induction false} SplitJoined(a: Buf, rest: Buf)
    requires SLASH !in a
    ensures SplitSlash(a + [SLASH] + rest) == Some((a, rest))
  {
    FindFirst(a, SLASH, rest);
    var s := a + [SLASH] + rest;
    assert s[..|a|] == a && s[|a| + 1..] == rest;
  }

  // ---------------------------------------------------------------------
  // UUIDs: 128 bits, shown as 8-4-4-4-12 lower-case hexadecimal digits
  // ---------------------------------------------------------------------

  type Uuid = u: int | 0 <= u < 0x1_0000_0000_0000_0000_0000_0000_0000_0000

  function HexDigit(n: int): (b: byte)
    requires 0 <= n < 16
  {
    if n < 10 then 48 + n else 87 + n
  }

  function HexValue(b: byte): Option<int> {
    if IsDigit(b) then Some(b - 48)
    else if 97 <= b <= 102 then Some(b - 87)
    else if 65 <= b <= 70 then Some(b - 55)
    else None
  }

  function Hex(s: Buf): (h: Buf)
    ensures |h| == 2 * |s|
  {
    if s == [] then [] else [HexDigit(s[0] / 16), HexDigit(s[0] % 16)] + Hex(s[1..])
  }

  function UnHex(h: Buf): (r: Option<Buf>)
    ensures r.Some? ==> 2 * |r.value| == |h|
  {
    if h == [] then Some([])
    else if |h| == 1 then None
    else match (HexValue(h[0]), HexValue(h[1]), UnHex(h[2..]))
      case (Some(a), Some(b), Some(rest)) => Some([16 * a + b] + rest)
      case _ => None
  }

  const HYPHEN: byte := 45

  function ShowUuid(u: Uuid): (s: Buf)
    ensures |s| == 36
  {
    ShowBytes(ToBE(u, 16))
  }

  function ShowBytes(u: Buf): (s: Buf)
    requires |u| == 16
    ensures |s| == 36
  {
    Hex(u[0..4]) + [HYPHEN] + Hex(u[4..6]) + [HYPHEN] + Hex(u[6..8]) + [HYPHEN] +
    Hex(u[8..10]) + [HYPHEN] + Hex(u[10..16])
  }

  function ParseUuid(s: Buf): Option<Uuid> {
    if |s| == 36 && s[8] == s[13] == s[18] == s[23] == HYPHEN then
      match UnHex(s[0..8] + s[9..13] + s[14..18] + s[19..23] + s[24..36])
      case None => None
      case Some(u) => Pow256Sixteen(); Some(FromBE(u))
    else None
  }

  lemma {:induction false} Pow256Sixteen()
    ensures Pow256(16) == 0x1_0000_0000_0000_0000_0000_0000_0000_0000
  {
    Pow256Values();
    assert Pow256(10) == 0x1_0000 * Pow256(8);
    assert Pow256(12) == 0x1_0000 * Pow256(10);
    assert Pow256(14) == 0x1_0000 * Pow256(12);
    assert Pow256(16) == 0x1_0000 * Pow256(14);
  }

  /** Two lower-case hexadecimal digits for each byte, the higher one first. */
  lemma {:induction false} HexText(s: Buf, i: nat)
    requires i < |s|
    ensures var hi, lo := s[i] / 16, s[i] % 16;
      && Hex(s)[2 * i] == (if hi < 10 then '0' as int + hi else 'a' as int + hi - 10)
      && Hex(s)[2 * i + 1] == if lo < 10 then '0' as int + lo else 'a' as int + lo - 10
  {
    if i > 0 { HexText(s[1..], i - 1); }
  }

  /** Hexadecimal digits are read in either case. */
  lemma HexValues(n: int)
    requires 0 <= n < 16
    ensures HexValue(HexDigit(n)) == Some(n)
    ensures n >= 10 ==> HexValue('A' as int + n - 10) == Some(n) && HexValue('a' as int + n - 10) == Some(n)
    ensures n < 10 ==> HexValue('0' as int + n) == Some(n)
  {
  }

  lemma {:induction false} HexDistributes(a: Buf, b: Buf)
    ensures Hex(a + b) == Hex(a) + Hex(b)
  {
    if a == [] {
      assert a + b == b && Hex(a) + Hex(b) == Hex(b);
    } else {
      HexDistributes(a[1..], b);
      assert (a + b)[1..] == a[1..] + b;
    }
  }

  lemma {:induction false} UnHexHex(s: Buf)
    ensures UnHex(Hex(s)) == Some(s)
  {
    if s != [] {
      UnHexHex(s[1..]);
      assert Hex(s)[2..] == Hex(s[1..]);
      assert 16 * (s[0] / 16) + s[0] % 16 == s[0];
      assert s == [s[0]] + s[1..];
    }
  }

  lemma {:induction false} HexNoSlash(s: Buf)
    ensures SLASH !in Hex(s)
  {
    if s != [] { HexNoSlash(s[1..]); }
  }

  /** The five groups are five consecutive stretches of one hexadecimal string. */
  lemma {:induction false} HexGroups(u: Buf)
    requires |u| == 16
    ensures Hex(u[0..4]) + Hex(u[4..6]) + Hex(u[6..8]) + Hex(u[8..10]) + Hex(u[10..16]) == Hex(u)
  {
    hide Hex;
    HexDistributes(u[0..4], u[4..6]);
    HexDistributes(u[0..6], u[6..8]);
    HexDistributes(u[0..8], u[8..10]);
    HexDistributes(u[0..10], u[10..16]);
    assert u[0..4] + u[4..6] == u[0..6] && u[0..6] + u[6..8] == u[0..8];
    assert u[0..8] + u[8..10] == u[0..10] && u[0..10] + u[10..16] == u;
  }

  lemma Grouped(a: Buf, b: Buf, c: Buf, d: Buf, e: Buf)
    requires |a| == 8 && |b| == |c| == |d| == 4 && |e| == 12
    ensures var s := a + [HYPHEN] + b + [HYPHEN] + c + [HYPHEN] + d + [HYPHEN] + e;
      && s[8] == s[13] == s[18] == s[23] == HYPHEN
      && s[0..8] == a && s[9..13] == b && s[14..18] == c && s[19..23] == d && s[24..36] == e
  {
  }

  lemma {:induction false} ShownBytes(u: Buf)
    requires |u| == 16
    ensures var s := ShowBytes(u);
      && s[8] == s[13] == s[18] == s[23] == HYPHEN
      && s[0..8] + s[9..13] + s[14..18] + s[19..23] + s[24..36] == Hex(u)
  {
    hide Hex;
    Grouped(Hex(u[0..4]), Hex(u[4..6]), Hex(u[6..8]), Hex(u[8..10]), Hex(u[10..16]));
    HexGroups(u);
  }

  lemma {:induction false} ShownNoSlash(u: Buf)
    requires |u| == 16
    ensures SLASH !in ShowBytes(u)
  {
    hide Hex;
    HexNoSlash(u[0..4]); HexNoSlash(u[4..6]); HexNoSlash(u[6..8]);
    HexNoSlash(u[8..10]); HexNoSlash(u[10..16]);
  }

  lemma {:induction false} UuidRoundTrip(u: Uuid)
    ensures ParseUuid(ShowUuid(u)) == Some(u)
    ensures SLASH !in ShowUuid(u)
  {
    hide Hex, UnHex, ShowBytes, Pow256, ToBE, FromBE;
    ShownBytes(ToBE(u, 16));
    ShownNoSlash(ToBE(u, 16));
    UnHexHex(ToBE(u, 16));
    Pow256Sixteen();
    FromToBE(u, 16);
  }
}
