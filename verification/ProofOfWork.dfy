/**
  Targets, block work and retargeting: SetCompact and GetCompact of src/arith_uint256.cpp, GetBlockProof of
  src/chain.cpp, and src/pow.cpp, computed with the limb arithmetic of base_uint.
 */
module ProofOfWork {
  import opened Prelude
  import opened Powers
  import opened Limbs
  import opened LimbShifts
  import opened ArithUint
  import opened Compact

  // ---------------------------------------------------------------- bytes, bits and limbs

  lemma FourBytes()
    ensures Pow(256, 4) == BASE && Modulus(8) == Two256()
  {
    PowAdd(256, 2, 2);
    Cubed();
    PowPow(256, 4, 8);
  }

  lemma EightBits(k: nat)
    ensures Pow(2, 8 * k) == Pow(256, k)
  {
    assert Pow(2, 4) == 16;
    PowAdd(2, 4, 4);
    PowPow(2, 8, k);
  }

  /** A 256-bit number. */
  ghost predicate Is256(x: base_uint) { x.pn.Length == 8 }

  lemma Below256(x: base_uint)
    requires Is256(x)
    ensures x.Value() < Two256()
  {
    NumBound(x.pn[..]);
    FourBytes();
  }

  // ---------------------------------------------------------------- compact numbers

  method SetCompact(x: base_uint, nCompact: compact) returns (fNegative: bool, fOverflow: bool)
    requires Is256(x)
    modifies x.pn
    ensures x.Value() == Denoted(nCompact) % Two256()
    ensures fNegative == Negative(nCompact) && fOverflow == Overflow(nCompact)
  {
    var nSize := nCompact / BYTE3;
    var nWord := SetMagnitude(x, nCompact % MANTISSA, nSize);
    fNegative := nWord != 0 && (nCompact / MANTISSA) % 2 == 1;
    fOverflow := nWord != 0 && (nSize > 34 || (nWord > 0xff && nSize > 33) || (nWord > 0xffff && nSize > 32));
  }

  /** The value part of SetCompact; also the mantissa, which small sizes shift to the right. */
  method SetMagnitude(x: base_uint, word: nat, nSize: nat) returns (nWord: nat)
    requires Is256(x) && word < MANTISSA
    modifies x.pn
    ensures x.Value() == Magnitude(word, nSize) % Two256()
    ensures nWord == if nSize <= 3 then Magnitude(word, nSize) else word
  {
    nWord := word;
    MagnitudeIs(nWord, nSize);
    FourBytes();
    if nSize <= 3 {
      EightBits(3 - nSize);
      Compact.Quotient(nWord, Pow(256, 3 - nSize));
      nWord := nWord / Pow(2, 8 * (3 - nSize));
      x.Assign(nWord);
      SmallMagnitude(nWord);
    } else {
      EightBits(nSize - 3);
      x.Assign(nWord);
      x.ShiftLeft(8 * (nSize - 3));
    }
  }

  lemma SmallMagnitude(w: nat)
    requires w < BYTE3
    ensures w % Two256() == w
  {
    Cubed();
    PowMonotone(256, 3, 32);
    DivUnique(w, Two256(), 0, w);
  }

  /** The byte length from the bit length. */
  lemma BytesOfBits(x: nat, bits: nat)
    requires IsBits(x, bits)
    ensures ByteLength(x) == (bits + 7) / 8
  {
    var n := (bits + 7) / 8;
    EightBits(n);
    PowMonotone(2, bits, 8 * n);
    if n > 0 {
      EightBits(n - 1);
      PowMonotone(2, 8 * (n - 1), bits - 1);
    }
    ByteLengthIs(x, n);
  }

  /** The first attempt at the mantissa, before looking at its sign bit. */
  lemma RawWord(x: nat, n: nat)
    requires n == ByteLength(x)
    ensures WordOf(x, n) < BYTE3
    ensures n <= 3 ==> WordOf(x, n) == x * Pow(256, 3 - n)
    ensures n > 3 ==> WordOf(x, n) == x / Pow(256, n - 3)
  {
    MulMonotone(x + 1, Pow(256, n), BYTE3);
    QuotientBelow(x * BYTE3, BYTE3, Pow(256, n));
    Cubed();
    if n <= 3 {
      PowAdd(256, n, 3 - n);
      ExactWord(x, Pow(256, n), Pow(256, 3 - n));
    } else {
      PowAdd(256, n - 3, 3);
      CancelPower(x, BYTE3, Pow(256, n - 3));
      MulCommutes(BYTE3, Pow(256, n - 3));
    }
  }

  lemma ExactWord(x: int, p: int, q: int)
    requires p > 0 && p * q == BYTE3
    ensures x * BYTE3 / p == x * q
  {
    assert x * (p * q) == (x * q) * p;
    DivUnique(x * BYTE3, p, x * q, 0);
  }

  /** The correction for a set sign bit leads to the chosen size. */
  lemma SignCorrected(x: nat, n: nat)
    requires n == ByteLength(x)
    ensures var raw := WordOf(x, n);
      if raw < MANTISSA then SizeOf(x) == n else SizeOf(x) == n + 1 && WordOf(x, n + 1) == raw / 256
  {
    var raw, p := WordOf(x, n), Pow(256, n);
    if raw < MANTISSA {
      if 2 * x >= p {
        MulMonotone(p, 2 * x, MANTISSA);
        QuotientAtLeast(x * BYTE3, MANTISSA, p);
      }
      if n > 0 { ByteLengthIs(2 * x, n); }
    } else {
      if 2 * x < p {
        MulStrict(2 * x, p, MANTISSA);
        QuotientBelow(x * BYTE3, MANTISSA, p);
      }
      assert Pow(256, n + 1) == 256 * p;
      ByteLengthIs(2 * x, n + 1);
      Nested(x * BYTE3, p);
    }
  }

  lemma Nested(a: int, p: int)
    requires p > 0
    ensures a / (256 * p) == (a / p) / 256
  {
    var d := a / p;
    var e := d / 256;
    assert a == d * p + a % p && d == e * 256 + d % 256;
    assert d * p == (e * 256) * p + (d % 256) * p;
    MulAssoc(e, 256, p);
    MulMonotone(d % 256, 255, p);
    MulMonotone(0, d % 256, p);
    DivUnique(a, 256 * p, e, (d % 256) * p + a % p);
  }

  lemma SignBitOf(word: nat)
    requires word < BYTE3
    ensures (word / MANTISSA) % 2 == 1 <==> word >= MANTISSA
  {}

  /** GetCompact; its two asserts hold. */
  method GetCompact(x: base_uint, fNegative: bool) returns (nCompact: compact)
    requires Is256(x)
    ensures x.Value() < Two256() && nCompact == Compact.GetCompact(x.Value(), fNegative)
  {
    ghost var v := x.Value();
    Below256(x);
    WordFits(v);
    SizeBound(v);
    var bits := x.Bits();
    var nSize: nat := (bits + 7) / 8;
    BytesOfBits(v, bits);
    RawWord(v, nSize);
    SignCorrected(v, nSize);
    var word := LeadingBytes(x, nSize);
    SignBitOf(word);
    if (word / MANTISSA) % 2 == 1 {
      word := word / 256;
      nSize := nSize + 1;
    }
    assert word < MANTISSA;
    assert nSize < 256;
    Fields(nSize, word, fNegative && word != 0);
    nCompact := nSize * BYTE3 + (if fNegative && word != 0 then MANTISSA else 0) + word;
  }

  lemma Untouched(v: nat, m: nat)
    requires v < m
    ensures v % m == v
  {
    DivUnique(v, m, 0, v);
  }

  /** The mantissa bytes of a number of nSize bytes, as a 32-bit value. */
  method LeadingBytes(x: base_uint, nSize: nat) returns (word: nat)
    requires Is256(x) && nSize == ByteLength(x.Value())
    ensures word == WordOf(x.Value(), nSize)
  {
    ghost var v := x.Value();
    RawWord(v, nSize);
    Cubed();
    if nSize <= 3 {
      EightBits(3 - nSize);
      PowMonotone(256, nSize, 3);
      var low := x.GetLow64();
      Untouched(v, BASE * BASE);
      word := (low * Pow(2, 8 * (3 - nSize))) % BASE;
      Untouched(WordOf(v, nSize), BASE);
    } else {
      EightBits(nSize - 3);
      var bn := new base_uint.Copy(x);
      bn.ShiftRight(8 * (nSize - 3));
      Untouched(WordOf(v, nSize), BASE * BASE);
      var low := bn.GetLow64();
      word := low % BASE;
      Untouched(WordOf(v, nSize), BASE);
    }
  }

  // ---------------------------------------------------------------- block work

  /** The work of a block: 2^256 / (target + 1), zero for a target that is no target. */
  function BlockProof(nBits: compact): (work: nat)
  {
    if Negative(nBits) || Overflow(nBits) || Denoted(nBits) == 0 then 0
    else Two256() / (Denoted(nBits) + 1)
  }

  /** A target in range leaves room for one more: the mantissa has 23 bits only. */
  lemma TargetRoom(nBits: compact)
    requires !Overflow(nBits)
    ensures Denoted(nBits) + 1 < Two256()
  {
    OverflowExact(nBits);
    var w, s := Word(nBits), Size(nBits);
    MagnitudeIs(w, s);
    Cubed();
    if s > 3 {
      EvenMagnitude(w, s);
    } else {
      Compact.Quotient(w, Pow(256, 3 - s));
      PowMonotone(256, 3, 32);
    }
  }

  lemma EvenMagnitude(w: nat, s: nat)
    requires s > 3
    ensures (w * Pow(256, s - 3)) % 2 == 0 && Two256() % 2 == 0
  {
    assert Pow(256, s - 3) == 256 * Pow(256, s - 4);
    EvenProduct(w, Pow(256, s - 4));
    assert Two256() == 256 * Pow(256, 31);
    EvenProduct(1, Pow(256, 31));
  }

  lemma EvenProduct(w: int, p: int)
    ensures (w * (256 * p)) % 2 == 0
  {
    assert w * (256 * p) == 2 * (w * (128 * p));
  }

  /** ~t / (t + 1) + 1 is 2^256 / (t + 1) without leaving 256 bits. */
  lemma WorkFormula(m: int, t: int)
    requires 0 < t && t + 1 < m
    ensures (m - 1 - t) / (t + 1) + 1 == m / (t + 1) && m / (t + 1) < m
  {
    var d := t + 1;
    var q, r := (m - d) / d, (m - d) % d;
    assert m - d == q * d + r;
    DivUnique(m, d, q + 1, r);
    if m / d >= m { MulMonotone(m, m / d, d); MulStrict(1, d, m); }
  }

  /** Work is the floor of 2^256 / (target + 1), for targets that are targets, and falls as the target grows. */
  lemma BlockProofExactly(nBits: compact, other: compact)
    ensures Negative(nBits) || Overflow(nBits) || Denoted(nBits) == 0 ==> BlockProof(nBits) == 0
    ensures !Negative(nBits) && !Overflow(nBits) && Denoted(nBits) > 0 ==>
      var (work, t) := (BlockProof(nBits), Denoted(nBits));
      work >= 1 && work * (t + 1) <= Two256() < (work + 1) * (t + 1)
    ensures !Negative(nBits) && !Overflow(nBits) && !Negative(other) && !Overflow(other) && 0 < Denoted(nBits) <= Denoted(other)
      ==> BlockProof(other) <= BlockProof(nBits)
  {
    hide Denoted, Two256, Overflow, Negative;
    if !Overflow(nBits) { TargetRoom(nBits); }
    FloorOf(Two256(), Denoted(nBits) + 1);
    FloorOf(Two256(), Denoted(other) + 1);
    if 0 < Denoted(nBits) <= Denoted(other) {
      FloorFalls(Two256(), Denoted(nBits) + 1, Denoted(other) + 1);
    }
  }

  lemma FloorOf(m: int, d: int)
    requires m >= 0 && d > 0
    ensures m / d * d <= m < (m / d + 1) * d
    ensures d <= m ==> m / d >= 1
  {
    assert m == m / d * d + m % d;
    assert (m / d + 1) * d == m / d * d + d;
    if d <= m { AtLeastOne(m, d); }
  }

  lemma FloorFalls(m: int, d: int, e: int)
    requires m >= 0 && 0 < d <= e
    ensures m / e <= m / d
  {
    FloorOf(m, e);
    Compact.Quotient(m, e);
    MulMonotone(d, e, m / e);
    MulCommutes(d, m / e);
    MulCommutes(e, m / e);
    QuotientAtLeast(m, m / e, d);
  }

  /** GetBlockProof is exact for every block. */
  method GetBlockProof(nBits: compact) returns (work: base_uint)
    ensures Is256(work) && fresh(work) && fresh(work.pn) && work.Value() == BlockProof(nBits)
  {
    var bnTarget := new base_uint(8);
    var fNegative, fOverflow := SetCompact(bnTarget, nBits);
    var isZero := bnTarget.EqualTo(0);
    FourBytes();
    OverflowExact(nBits);
    if fNegative || fOverflow {
      work := new base_uint(8);
      return;
    }
    Untouched(Denoted(nBits), Two256());
    if isZero {
      work := new base_uint(8);
      return;
    }
    TargetRoom(nBits);
    work := WorkOf(bnTarget);
  }

  /** ~t / (t + 1) + 1. */
  method WorkOf(bnTarget: base_uint) returns (work: base_uint)
    requires Is256(bnTarget) && 0 < bnTarget.Value() && bnTarget.Value() + 1 < Two256()
    modifies bnTarget.pn
    ensures Is256(work) && fresh(work) && fresh(work.pn)
    ensures work.Value() == Two256() / (old(bnTarget.Value()) + 1)
  {
    ghost var t := bnTarget.Value();
    FourBytes();
    work := bnTarget.Complement();
    bnTarget.Increment();
    Untouched(t + 1, Two256());
    WorkFormula(Two256(), t);
    var divided := work.Divide(bnTarget);
    work.Increment();
    Untouched(Two256() / (t + 1), Two256());
  }

  // ---------------------------------------------------------------- retargeting

  lemma AtLeastOne(a: int, b: int)
    requires 0 < b <= a
    ensures a / b >= 1
  {
    QuotientAtLeast(a, 1, b);
  }

  datatype Params = Params(nPowTargetTimespan: int, nPowTargetSpacing: int, fPowAllowMinDifficultyBlocks: bool,
                           fPowNoRetargeting: bool)
  {
    predicate Valid() { 0 < nPowTargetSpacing <= nPowTargetTimespan < 0x8000_0000_0000_0000 }

    function DifficultyAdjustmentInterval(): (n: int)
      requires Valid()
      ensures n > 0
    {
      AtLeastOne(nPowTargetTimespan, nPowTargetSpacing);
      nPowTargetTimespan / nPowTargetSpacing
    }
  }

  /** The measured timespan within a quarter and four times the target. */
  function ClampedSpan(params: Params, span: int): (r: int)
  {
    var low := if span < params.nPowTargetTimespan / 4 then params.nPowTargetTimespan / 4 else span;
    if low > params.nPowTargetTimespan * 4 then params.nPowTargetTimespan * 4 else low
  }

  /** The target CalculateNextWorkRequired encodes: the timespan is cut to 32 bits, the product to 256. */
  function NewTarget(nBits: compact, span: int, params: Params, powLimit: nat): (t: nat)
    requires params.Valid() && powLimit < Two256()
    ensures t <= powLimit < Two256()
  {
    var old_ := Denoted(nBits) % Two256();
    var product := (old_ * (ClampedSpan(params, span) % BASE)) % Two256();
    Compact.Quotient(product, params.nPowTargetTimespan);
    Min(product / params.nPowTargetTimespan, powLimit)
  }

  /** What the comment in the source calls for: the old target scaled by the timespan, at most the limit. */
  function IdealTarget(nBits: compact, span: int, params: Params, powLimit: nat): (t: int)
    requires params.Valid()
  {
    Min(Denoted(nBits) * ClampedSpan(params, span) / params.nPowTargetTimespan, powLimit)
  }

  method CalculateNextWorkRequired(nBits: compact, nLastBlockTime: int, nFirstBlockTime: int, params: Params, powLimit: base_uint)
    returns (nNew: compact)
    requires params.Valid() && Is256(powLimit)
    ensures powLimit.Value() < Two256()
    ensures nNew == if params.fPowNoRetargeting then nBits
      else Compact.GetCompact(NewTarget(nBits, nLastBlockTime - nFirstBlockTime, params, powLimit.Value()), false)
  {
    hide Denoted, Two256, Compact.GetCompact;
    Below256(powLimit);
    if params.fPowNoRetargeting {
      return nBits;
    }
    var nActualTimespan := nLastBlockTime - nFirstBlockTime;
    if nActualTimespan < params.nPowTargetTimespan / 4 {
      nActualTimespan := params.nPowTargetTimespan / 4;
    }
    if nActualTimespan > params.nPowTargetTimespan * 4 {
      nActualTimespan := params.nPowTargetTimespan * 4;
    }
    var bnNew := ScaledTarget(nBits, nActualTimespan, params.nPowTargetTimespan);
    var c := bnNew.CompareTo(powLimit);
    if c > 0 {
      nNew := GetCompact(powLimit, false);
    } else {
      nNew := GetCompact(bnNew, false);
    }
  }

  /** The old target times the timespan, cut to 32 bits, over the intended one, in 256 bits. */
  method ScaledTarget(nBits: compact, span: int, timespan: int) returns (bnNew: base_uint)
    requires 0 < timespan < 0x8000_0000_0000_0000
    ensures Is256(bnNew) && fresh(bnNew) && fresh(bnNew.pn)
    ensures bnNew.Value() == (((Denoted(nBits) % Two256()) * (span % BASE)) % Two256()) / timespan
  {
    FourBytes();
    bnNew := new base_uint(8);
    var fNegative, fOverflow := SetCompact(bnNew, nBits);
    bnNew.MultiplySmall(span % BASE);
    var divisor := new base_uint(8);
    divisor.Assign(timespan);
    var divided := bnNew.Divide(divisor);
  }

  /** Whatever the old bits and times, the new target is non-negative, in range and at most the limit. */
  lemma RetargetInRange(nBits: compact, span: int, params: Params, powLimit: nat)
    requires params.Valid() && powLimit < Two256()
    ensures var c := Compact.GetCompact(NewTarget(nBits, span, params, powLimit), false);
      !Negative(c) && !Overflow(c) && Denoted(c) <= powLimit
  {
    var t := NewTarget(nBits, span, params, powLimit);
    FlagsKept(t, false);
    RoundedBelow(t);
  }

  /** The computed target is the ideal one exactly when the product fits 256 bits, or the wrapped product
      still reaches the limit. */
  lemma RetargetExact(nBits: compact, span: int, params: Params, powLimit: nat)
    requires params.Valid() && powLimit < Two256() && !Overflow(nBits) && params.nPowTargetTimespan * 4 < BASE
    ensures var product := Denoted(nBits) * ClampedSpan(params, span);
      NewTarget(nBits, span, params, powLimit) == IdealTarget(nBits, span, params, powLimit)
      <==> product < Two256() || (product % Two256()) / params.nPowTargetTimespan >= powLimit
  {
    OverflowExact(nBits);
    Untouched(Denoted(nBits), Two256());
    var clamped := ClampedSpan(params, span);
    Untouched(clamped, BASE);
    MulMonotone(0, Denoted(nBits), clamped);
    LargeModulus();
    WrapMatters(Denoted(nBits) * clamped, Two256(), params.nPowTargetTimespan, powLimit);
  }

  lemma LargeModulus()
    ensures Two256() >= BASE
  {
    FourBytes();
    PowMonotone(256, 4, 32);
  }

  lemma WrapMatters(p: int, m: int, t: int, limit: int)
    requires 0 <= p && 0 < t <= m && 0 <= limit < m
    ensures Min((p % m) / t, limit) == Min(p / t, limit) <==> p < m || (p % m) / t >= limit
  {
    if p < m {
      DivUnique(p, m, 0, p);
    } else {
      var q, r := p / m, p % m;
      assert p == q * m + r;
      if q <= 0 { MulMonotone(q, 0, m); }
      MulMonotone(1, q, m);
      var e := r / t;
      assert r == e * t + r % t;
      Difference1(e, t);
      QuotientAtLeast(p, e + 1, t);
    }
  }

  /** At the lowest main network difficulty, blocks four times too slow wrap the product, and the new target
      falls far below the limit it should stay at. */
  lemma RetargetWraps(params: Params, powLimit: nat)
    requires params == Params(172800, 600, false, false) && powLimit == 0x8_0000 * Pow(256, 28) - 1
    ensures powLimit < Two256()
    ensures 50 * NewTarget(0x1f07ffff, 691200, params, powLimit) < powLimit
    ensures IdealTarget(0x1f07ffff, 691200, params, powLimit) == powLimit
  {
    LowestDifficulty();
    WrapsAt(params, powLimit, Pow(256, 28), Denoted(0x1f07ffff), Two256());
    TargetIs(0x1f07ffff, 691200, params, powLimit, Denoted(0x1f07ffff), 691200, 172800);
  }

  lemma WrapsAt(params: Params, powLimit: nat, u: nat, denoted: nat, m: nat)
    requires params == Params(172800, 600, false, false) && u > 0 && m == BASE * u
    requires powLimit == 0x8_0000 * u - 1 && denoted == 0x7ffff * u
    ensures powLimit < m && denoted % m == denoted && ClampedSpan(params, 691200) == 691200
    ensures 50 * Min(((denoted * 691200) % m) / 172800, powLimit) < powLimit
    ensures Min(denoted * 691200 / 172800, powLimit) == powLimit
  {
    WrappedProduct(u, m);
  }

  lemma TargetIs(nBits: compact, span: int, params: Params, powLimit: nat, old_: nat, clamped: nat, timespan: nat)
    requires params.Valid() && powLimit < Two256() && old_ == Denoted(nBits) % Two256()
    requires clamped == ClampedSpan(params, span) % BASE && timespan == params.nPowTargetTimespan
    ensures NewTarget(nBits, span, params, powLimit) == Min(((old_ * clamped) % Two256()) / timespan, powLimit)
  {}

  lemma LowestDifficulty()
    ensures Denoted(0x1f07ffff) == 0x7ffff * Pow(256, 28) && Two256() == BASE * Pow(256, 28)
  {
    MagnitudeIs(0x7ffff, 31);
    FourBytes();
    PowAdd(256, 28, 4);
  }

  lemma WrappedProduct(u: int, m: int)
    requires u > 0 && m == BASE * u
    ensures (0x8_0000 * u - 1) < m && (0x7ffff * u) % m == 0x7ffff * u
    ensures 50 * Min((((0x7ffff * u) * 691200) % m) / 172800, 0x8_0000 * u - 1) < 0x8_0000 * u - 1
    ensures Min(((0x7ffff * u) * 691200) / 172800, 0x8_0000 * u - 1) == 0x8_0000 * u - 1
  {
    DivUnique(0x7ffff * u, m, 0, 0x7ffff * u);
    DivUnique((0x7ffff * u) * 691200, m, 84, 1609921536 * u);
    DivUnique((0x7ffff * u) * 691200, 172800, 0x1ffffc * u, 0);
    QuotientBelow(1609921536 * u, 9317 * u, 172800);
  }

  // ---------------------------------------------------------------- the proof-of-work check

  /** The range check and the comparison: the hash is at most the denoted target, which is positive, in range
      and at most the limit. */
  method CheckProofOfWork(hash: base_uint, nBits: compact, powLimit: base_uint) returns (ok: bool)
    requires Is256(hash) && Is256(powLimit)
    ensures ok <==> !Negative(nBits) && 0 < Denoted(nBits) <= powLimit.Value() && hash.Value() <= Denoted(nBits)
  {
    var bnTarget := new base_uint(8);
    var fNegative, fOverflow := SetCompact(bnTarget, nBits);
    Below256(powLimit);
    OverflowExact(nBits);
    if fOverflow {
      return false;
    }
    Untouched(Denoted(nBits), Two256());
    var isZero := bnTarget.EqualTo(0);
    var c := bnTarget.CompareTo(powLimit);
    if fNegative || isZero || c > 0 {
      return false;
    }
    c := hash.CompareTo(bnTarget);
    ok := c <= 0;
  }

  // ---------------------------------------------------------------- the next block's bits

  datatype Block = Block(nBits: compact, nTime: int)

  /** Walking back over special minimum-difficulty blocks: the height where the walk stops. */
  function LastRegular(blocks: seq<Block>, h: nat, interval: int, limitBits: compact): (r: nat)
    requires h < |blocks| && interval > 0
    ensures r <= h
    ensures r == 0 || r % interval == 0 || blocks[r].nBits != limitBits
    ensures forall k :: r < k <= h ==> k % interval != 0 && blocks[k].nBits == limitBits
  {
    if h > 0 && h % interval != 0 && blocks[h].nBits == limitBits then LastRegular(blocks, h - 1, interval, limitBits) else h
  }

  /** The bits of a block that starts a new interval: retargeted over the interval that ends. */
  function Retargeted(blocks: seq<Block>, params: Params, powLimit: nat): (nBits: compact)
    requires |blocks| > 0 && params.Valid() && powLimit < Two256()
    requires |blocks| % params.DifficultyAdjustmentInterval() == 0
  {
    WholeInterval(|blocks|, params.DifficultyAdjustmentInterval());
    var last := blocks[|blocks| - 1];
    var first := blocks[|blocks| - params.DifficultyAdjustmentInterval()];
    if params.fPowNoRetargeting then last.nBits
    else Compact.GetCompact(NewTarget(last.nBits, last.nTime - first.nTime, params, powLimit), false)
  }

  /** The bits of any other block. */
  function Continued(blocks: seq<Block>, nBlockTime: int, params: Params, limitBits: compact): (nBits: compact)
    requires |blocks| > 0 && params.Valid()
  {
    var last := |blocks| - 1;
    if !params.fPowAllowMinDifficultyBlocks then blocks[last].nBits
    else if nBlockTime > blocks[last].nTime + params.nPowTargetSpacing * 2 then limitBits
    else blocks[LastRegular(blocks, last, params.DifficultyAdjustmentInterval(), limitBits)].nBits
  }

  /** GetNextWorkRequired on the chain from the genesis block to pindexLast. Its assert holds. */
  method GetNextWorkRequired(blocks: seq<Block>, nBlockTime: int, params: Params, powLimit: base_uint) returns (nBits: compact)
    requires |blocks| > 0 && params.Valid() && Is256(powLimit)
    ensures powLimit.Value() < Two256()
    ensures nBits ==
      if |blocks| % params.DifficultyAdjustmentInterval() == 0 then Retargeted(blocks, params, powLimit.Value())
      else Continued(blocks, nBlockTime, params, Compact.GetCompact(powLimit.Value(), false))
  {
    hide Compact.GetCompact, NewTarget, Denoted, Two256, Params.DifficultyAdjustmentInterval;
    var nProofOfWorkLimit := GetCompact(powLimit, false);
    var interval := params.DifficultyAdjustmentInterval();
    var nHeight := |blocks| - 1;
    if (nHeight + 1) % interval != 0 {
      if params.fPowAllowMinDifficultyBlocks {
        if nBlockTime > blocks[nHeight].nTime + params.nPowTargetSpacing * 2 {
          return nProofOfWorkLimit;
        }
        var h := nHeight;
        while h > 0 && h % interval != 0 && blocks[h].nBits == nProofOfWorkLimit
          invariant 0 <= h <= nHeight
          invariant LastRegular(blocks, h, interval, nProofOfWorkLimit) == LastRegular(blocks, nHeight, interval, nProofOfWorkLimit)
        {
          h := h - 1;
        }
        return blocks[h].nBits;
      }
      return blocks[nHeight].nBits;
    }
    var nHeightFirst := nHeight - (interval - 1);
    WholeInterval(nHeight + 1, interval);
    assert nHeightFirst >= 0;
    nBits := CalculateNextWorkRequired(blocks[nHeight].nBits, blocks[nHeight].nTime, blocks[nHeightFirst].nTime, params, powLimit);
  }

  lemma WholeInterval(n: int, interval: int)
    requires n > 0 && interval > 0 && n % interval == 0
    ensures n >= interval
  {
    if n < interval { DivUnique(n, interval, 0, n); }
  }
}
