/**
  The compact form of targets (src/arith_uint256.cpp): a sign, an exponent of base 256 and a 23-bit mantissa.
  What a compact number denotes, and how close the encoder's choice is.
 */
module Compact {
  import opened Prelude
  import opened Powers

  const MANTISSA: nat := 0x80_0000
  const BYTE3: nat := 0x100_0000

  type compact = n: nat | n < 0x1_0000_0000

  /** 2^256. */
  function Two256(): (m: nat)
    ensures m > 0
  {
    Pow(256, 32)
  }

  function Size(c: compact): (s: nat)
    ensures s < 256
  {
    c / BYTE3
  }

  function Word(c: compact): (w: nat)
    ensures w < MANTISSA
  {
    c % MANTISSA
  }

  /** The magnitude a mantissa and a size denote: mantissa * 256^(size-3), rounded down. */
  function Magnitude(w: nat, s: nat): (x: nat)
  {
    w * Pow(256, s) / BYTE3
  }

  /** The magnitude a compact number denotes, however large. */
  function Denoted(c: compact): (x: nat) { Magnitude(Word(c), Size(c)) }

  predicate SignBit(c: compact) { (c / MANTISSA) % 2 == 1 }

  predicate Negative(c: compact) { SignBit(c) && (if Size(c) <= 3 then Denoted(c) else Word(c)) != 0 }

  /** The overflow flag as SetCompact computes it. */
  predicate Overflow(c: compact)
  {
    (if Size(c) <= 3 then Denoted(c) else Word(c)) != 0 &&
    (Size(c) > 34 || (Word(c) > 0xff && Size(c) > 33) || (Word(c) > 0xffff && Size(c) > 32))
  }

  // ---------------------------------------------------------------- scaling

  lemma Cubed()
    ensures Pow(256, 3) == BYTE3 && Pow(256, 2) == 0x1_0000 && Pow(256, 1) == 256 && Pow(256, 0) == 1
  {
    PowAdd(256, 1, 1);
    PowAdd(256, 2, 1);
  }

  /** Small sizes drop low mantissa bytes, large ones append zero bytes. */
  lemma MagnitudeIs(w: nat, s: nat)
    ensures s <= 3 ==> Magnitude(w, s) == w / Pow(256, 3 - s)
    ensures s >= 3 ==> Magnitude(w, s) == w * Pow(256, s - 3) && w * Pow(256, s) == Magnitude(w, s) * BYTE3
  {
    Cubed();
    if s <= 3 {
      PowAdd(256, s, 3 - s);
      CancelPower(w, Pow(256, s), Pow(256, 3 - s));
    }
    if s >= 3 {
      PowAdd(256, s - 3, 3);
      MulAssoc(w, Pow(256, s - 3), BYTE3);
      DivUnique(w * Pow(256, s), BYTE3, w * Pow(256, s - 3), 0);
    }
  }

  lemma CancelPower(w: int, p: int, q: int)
    requires p > 0 && q > 0
    ensures (w * p) / (p * q) == w / q
  {
    var d, r := w / q, w % q;
    assert w == d * q + r;
    MulAssoc(d, q, p);
    assert q * p == p * q;
    assert w * p == d * (p * q) + r * p;
    MulMonotone(r + 1, q, p);
    MulMonotone(0, r, p);
    Difference1(r, p);
    DivUnique(w * p, p * q, d, r * p);
  }

  lemma Difference1(r: int, p: int)
    ensures (r + 1) * p == r * p + p
  {}

  /** The overflow flag is true exactly when the denoted magnitude needs more than 256 bits. */
  lemma OverflowExact(c: compact)
    ensures Overflow(c) <==> Denoted(c) >= Two256()
  {
    var w, s := Word(c), Size(c);
    MagnitudeIs(w, s);
    Cubed();
    if s <= 3 {
      PowMonotone(256, 3, 32);
      Quotient(w, Pow(256, 3 - s));
    } else if s <= 32 {
      SmallDenoted(w, s);
    } else if s == 33 {
      PowAdd(256, 30, 2);
      Threshold(w, 0x1_0000, Pow(256, 30));
    } else if s == 34 {
      PowAdd(256, 31, 1);
      Threshold(w, 256, Pow(256, 31));
    } else {
      PowMonotone(256, 32, s - 3);
      Threshold(w, 1, Pow(256, s - 3));
    }
  }

  lemma SmallDenoted(w: nat, s: nat)
    requires w < MANTISSA && 3 <= s <= 32
    ensures w * Pow(256, s - 3) < Two256()
  {
    Cubed();
    PowMonotone(256, s - 3, 29);
    PowAdd(256, 29, 3);
    MulMonotone(w, MANTISSA, Pow(256, s - 3));
    MulMonotone(Pow(256, s - 3), Pow(256, 29), MANTISSA);
  }

  lemma Quotient(a: nat, q: nat)
    requires q > 0
    ensures 0 <= a / q <= a
  {
    var d := a / q;
    if d > a { MulMonotone(1, q, d); }
  }

  lemma Threshold(w: int, t: int, p: int)
    requires p > 0
    ensures w * p >= p * t <==> w >= t
  {
    if w >= t { MulMonotone(t, w, p); } else { MulStrict(w, t, p); }
  }

  // ---------------------------------------------------------------- encoding

  /** The number of bytes. */
  function ByteLength(x: nat): (n: nat)
    ensures x < Pow(256, n) && (n > 0 ==> Pow(256, n - 1) <= x)
  {
    if x == 0 then 0
    else
      var n := ByteLength(x / 256);
      assert Pow(256, n + 1) == 256 * Pow(256, n);
      assert n > 0 ==> Pow(256, n) == 256 * Pow(256, n - 1);
      n + 1
  }

  lemma ByteLengthIs(x: nat, n: nat)
    requires x < Pow(256, n) && (n > 0 ==> Pow(256, n - 1) <= x)
    ensures ByteLength(x) == n
  {
    var k := ByteLength(x);
    if k < n { PowMonotone(256, k, n - 1); }
    if n < k { PowMonotone(256, n, k - 1); }
  }

  /** The size GetCompact chooses: the sign bit of the mantissa must stay clear. */
  function SizeOf(x: nat): (s: nat) { ByteLength(2 * x) }

  /** The highest three bytes of x at a size. */
  function WordOf(x: nat, s: nat): (w: nat) { x * BYTE3 / Pow(256, s) }

  lemma WordFits(x: nat)
    ensures WordOf(x, SizeOf(x)) < MANTISSA
    ensures x > 0 ==> WordOf(x, SizeOf(x)) >= 0x8000 && SizeOf(x) > 0
  {
    var s := SizeOf(x);
    var p := Pow(256, s);
    assert x * BYTE3 == (2 * x) * MANTISSA;
    MulStrict(2 * x, p, MANTISSA);
    QuotientBelow(x * BYTE3, MANTISSA, p);
    if x > 0 {
      assert p == 256 * Pow(256, s - 1);
      MulMonotone(Pow(256, s - 1), 2 * x, MANTISSA);
      QuotientAtLeast(x * BYTE3, 0x8000, p);
    }
  }

  lemma QuotientBelow(a: int, b: int, p: int)
    requires p > 0 && a < p * b
    ensures a / p < b
  {
    var d := a / p;
    if d >= b { MulMonotone(b, d, p); }
  }

  lemma QuotientAtLeast(a: int, b: int, p: int)
    requires p > 0 && a >= b * p
    ensures a / p >= b
  {
    var d := a / p;
    Difference1(d, p);
    if d < b { MulMonotone(d + 1, b, p); }
  }

  lemma SizeBound(x: nat)
    requires x < Two256()
    ensures SizeOf(x) <= 33
  {
    assert Pow(256, 33) == 256 * Pow(256, 32);
    if SizeOf(x) > 33 { PowMonotone(256, 33, SizeOf(x) - 1); }
  }

  /** GetCompact. */
  function GetCompact(x: nat, fNegative: bool): (c: compact)
    requires x < Two256()
    ensures Size(c) == SizeOf(x) && Word(c) == WordOf(x, SizeOf(x))
    ensures SignBit(c) <==> fNegative && x > 0
  {
    WordFits(x);
    SizeBound(x);
    Fields(SizeOf(x), WordOf(x, SizeOf(x)), fNegative && x > 0);
    SizeOf(x) * BYTE3 + (if fNegative && WordOf(x, SizeOf(x)) != 0 then MANTISSA else 0) + WordOf(x, SizeOf(x))
  }

  lemma Fields(s: nat, w: nat, sign: bool)
    requires s < 256 && w < MANTISSA
    ensures var c := s * BYTE3 + (if sign then MANTISSA else 0) + w;
      c < 0x1_0000_0000 && c / BYTE3 == s && c % MANTISSA == w && ((c / MANTISSA) % 2 == 1 <==> sign)
  {}

  /** What remains of x after encoding and decoding. */
  function Rounded(x: nat): (r: nat) { Magnitude(WordOf(x, SizeOf(x)), SizeOf(x)) }

  /** The decoded form of an encoded number carries its sign and no overflow. */
  lemma FlagsKept(x: nat, fNegative: bool)
    requires x < Two256()
    ensures var c := GetCompact(x, fNegative);
      Denoted(c) == Rounded(x) && !Overflow(c) && (Negative(c) <==> fNegative && x > 0)
  {
    RoundedBelow(x);
    WordFits(x);
    OverflowExact(GetCompact(x, fNegative));
  }

  /** Up to size 3 the encoding is exact. */
  lemma SmallExact(x: nat)
    requires SizeOf(x) <= 3
    ensures Rounded(x) == x && x * BYTE3 == WordOf(x, SizeOf(x)) * Pow(256, SizeOf(x))
  {
    var s := SizeOf(x);
    Cubed();
    PowAdd(256, s, 3 - s);
    var p, q := Pow(256, s), Pow(256, 3 - s);
    assert x * (p * q) == (x * q) * p;
    DivUnique(x * BYTE3, p, x * q, 0);
    DivUnique(x * BYTE3, BYTE3, x, 0);
  }

  /** The rounded value never exceeds the number, and misses it by less than one unit of the mantissa. */
  lemma RoundedBelow(x: nat)
    ensures Rounded(x) <= x
    ensures SizeOf(x) <= 3 ==> Rounded(x) == x
    ensures SizeOf(x) > 3 ==> x - Rounded(x) < Pow(256, SizeOf(x) - 3)
  {
    var s := SizeOf(x);
    if s <= 3 {
      SmallExact(x);
    } else {
      var w := WordOf(x, s);
      MagnitudeIs(w, s);
      Cubed();
      PowAdd(256, s - 3, 3);
      BelowUnit(x, w, Pow(256, s), Pow(256, s - 3), Rounded(x));
    }
  }

  lemma BelowUnit(x: int, w: int, p: int, u: int, r: int)
    requires u > 0 && p == u * BYTE3 && w == x * BYTE3 / p && r == w * u
    ensures r <= x < r + u
  {
    assert x * BYTE3 == w * p + x * BYTE3 % p;
    MulAssoc(w, u, BYTE3);
    assert w * p == r * BYTE3;
  }

  /** Encoding is monotone, also as an unsigned number. */
  lemma CompactMonotone(x: nat, y: nat)
    requires x <= y < Two256()
    ensures GetCompact(x, false) <= GetCompact(y, false)
  {
    SizeMonotone(x, y);
    WordFits(x);
    WordFits(y);
    if SizeOf(x) == SizeOf(y) {
      DivMonotone(x * BYTE3, y * BYTE3, Pow(256, SizeOf(x)));
    }
  }

  lemma SizeMonotone(x: nat, y: nat)
    requires x <= y
    ensures SizeOf(x) <= SizeOf(y)
  {
    if SizeOf(y) < SizeOf(x) { PowMonotone(256, SizeOf(y), SizeOf(x) - 1); }
  }

  lemma DivMonotone(a: int, b: int, p: int)
    requires a <= b && p > 0
    ensures a / p <= b / p
  {
    var d, e := a / p, b / p;
    Difference1(e, p);
    if d > e { MulMonotone(e + 1, d, p); }
  }

  /** The rounded number still has the leading byte of the original. */
  lemma RoundedAtLeast(x: nat)
    requires x > 0
    ensures 2 * Rounded(x) >= Pow(256, SizeOf(x) - 1)
  {
    var s := SizeOf(x);
    WordFits(x);
    if s <= 3 {
      SmallExact(x);
    } else {
      var w := WordOf(x, s);
      MagnitudeIs(w, s);
      Cubed();
      PowAdd(256, s - 3, 2);
      MulMonotone(0x8000, w, Pow(256, s - 3));
      assert s - 3 + 2 == s - 1;
    }
  }

  lemma RoundedMonotone(x: nat, y: nat)
    requires x <= y
    ensures Rounded(x) <= Rounded(y)
  {
    SizeMonotone(x, y);
    var s := SizeOf(x);
    if s == SizeOf(y) {
      DivMonotone(x * BYTE3, y * BYTE3, Pow(256, s));
      MulMonotone(WordOf(x, s), WordOf(y, s), Pow(256, s));
      DivMonotone(WordOf(x, s) * Pow(256, s), WordOf(y, s) * Pow(256, s), BYTE3);
    } else {
      RoundedBelow(x);
      RoundedAtLeast(y);
      PowMonotone(256, s, SizeOf(y) - 1);
    }
  }

  /** Encoding a decoded encoding changes nothing. */
  lemma CompactIdempotent(x: nat)
    requires x < Two256()
    ensures Rounded(x) < Two256() && GetCompact(Rounded(x), false) == GetCompact(x, false)
    ensures Rounded(Rounded(x)) == Rounded(x)
  {
    RoundedBelow(x);
    var s, z := SizeOf(x), Rounded(x);
    if s <= 3 {
      SmallExact(x);
    } else {
      RoundedAtLeast(x);
      ByteLengthIs(2 * z, s);
      MagnitudeIs(WordOf(x, s), s);
      DivUnique(z * BYTE3, Pow(256, s), WordOf(x, s), 0);
    }
  }
}
