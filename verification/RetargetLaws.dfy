/**
  What the next block's bits depend on (src/pow.cpp), in terms of block times and targets alone.
 */
module RetargetLaws {
  import opened Prelude
  import opened Powers
  import opened Limbs
  import opened Compact
  import opened ProofOfWork

  lemma IntervalLength(params: Params)
    requires params.Valid()
    ensures var n := params.DifficultyAdjustmentInterval();
      n * params.nPowTargetSpacing <= params.nPowTargetTimespan < (n + 1) * params.nPowTargetSpacing
  {
    Divided(params.nPowTargetTimespan, params.nPowTargetSpacing);
  }

  lemma Divided(a: int, b: int)
    requires b > 0
    ensures a / b * b <= a < (a / b + 1) * b
  {
    assert a == a / b * b + a % b;
    Difference1(a / b, b);
  }

  /** At the end of an interval only the blocks of that interval matter; without retargeting only the last. */
  lemma SameInterval(a: seq<Block>, b: seq<Block>, params: Params, powLimit: nat)
    requires params.Valid() && powLimit < Two256()
    requires var n := params.DifficultyAdjustmentInterval();
      |a| >= n && |b| >= n && |a| % n == 0 && |b| % n == 0 && a[|a| - n..] == b[|b| - n..]
    ensures Retargeted(a, params, powLimit) == Retargeted(b, params, powLimit)
    ensures params.fPowNoRetargeting ==> Retargeted(a, params, powLimit) == a[|a| - 1].nBits
  {
    hide NewTarget, Compact.GetCompact;
    var n := params.DifficultyAdjustmentInterval();
    assert a[|a| - n..][0] == a[|a| - n] && a[|a| - n..][n - 1] == a[|a| - 1];
    assert b[|b| - n..][0] == b[|b| - n] && b[|b| - n..][n - 1] == b[|b| - 1];
  }

  /** The product of the old target and a span, cut to 32 bits, does not wrap. */
  lemma WithoutWrap(old_: nat, span: int)
    requires 0 <= span < BASE && old_ * span < Two256()
    ensures ((old_ % Two256()) * (span % BASE)) % Two256() == old_ * span
  {
    hide Compact.Two256;
    Untouched(span, BASE);
    if span > 0 {
      MulMonotone(1, span, old_);
      Untouched(old_, Two256());
    }
    Untouched(old_ * span, Two256());
  }

  /** old * used / timespan, rounded down and cut at the limit. */
  function Scaled(old_: nat, used: nat, timespan: nat, limit: nat): (r: nat)
    requires timespan > 0
  {
    Compact.Quotient(old_ * used, timespan);
    Min(old_ * used / timespan, limit)
  }

  lemma FourFold(old_: nat, timespan: nat, limit: nat)
    requires timespan > 0
    ensures Scaled(old_, timespan * 4, timespan, limit) == Min(4 * old_, limit)
    ensures Scaled(old_, timespan, timespan, limit) == Min(old_, limit)
  {
    MulAssoc(old_, 4, timespan);
    MulCommutes(4, timespan);
    DivUnique(old_ * (timespan * 4), timespan, old_ * 4, 0);
    DivUnique(old_ * timespan, timespan, old_, 0);
  }

  lemma UsedSpan(nBits: compact, span: int, params: Params, powLimit: nat, used: nat)
    requires params.Valid() && powLimit < Two256() && used < BASE
    requires used == if span < params.nPowTargetTimespan / 4 then params.nPowTargetTimespan / 4
                     else if span > params.nPowTargetTimespan * 4 then params.nPowTargetTimespan * 4 else span
    requires Denoted(nBits) * used < Two256()
    ensures NewTarget(nBits, span, params, powLimit) == Scaled(Denoted(nBits), used, params.nPowTargetTimespan, powLimit)
  {
    hide Compact.Denoted, Compact.Two256;
    assert used == ClampedSpan(params, span);
    WithoutWrap(Denoted(nBits), used);
  }

  /** Without a wrap the target is scaled by the time from the first to the last block of the interval, within
      a quarter and four times the intended time, and cut at the limit. */
  lemma ScaledByTime(blocks: seq<Block>, params: Params, powLimit: nat)
    requires params.Valid() && !params.fPowNoRetargeting && powLimit < Two256()
    requires |blocks| >= params.DifficultyAdjustmentInterval() && |blocks| % params.DifficultyAdjustmentInterval() == 0
    ensures var (last, first) := (blocks[|blocks| - 1], blocks[|blocks| - params.DifficultyAdjustmentInterval()]);
      var (old_, span, timespan) := (Denoted(last.nBits), last.nTime - first.nTime, params.nPowTargetTimespan);
      var bits := Retargeted(blocks, params, powLimit);
      && (timespan / 4 <= span <= timespan * 4 && span < BASE && old_ * span < Two256() ==>
            bits == Compact.GetCompact(Scaled(old_, span, timespan, powLimit), false))
      && (span < timespan / 4 < BASE && old_ * (timespan / 4) < Two256() ==>
            bits == Compact.GetCompact(Scaled(old_, timespan / 4, timespan, powLimit), false))
      && (span > timespan * 4 && timespan * 4 < BASE && old_ * (timespan * 4) < Two256() ==>
            bits == Compact.GetCompact(Min(4 * old_, powLimit), false))
  {
    hide Compact.Denoted, Compact.Two256, NewTarget, Compact.GetCompact, Scaled;
    var (last, first) := (blocks[|blocks| - 1], blocks[|blocks| - params.DifficultyAdjustmentInterval()]);
    var (old_, span, timespan) := (Denoted(last.nBits), last.nTime - first.nTime, params.nPowTargetTimespan);
    var used := if span < timespan / 4 then timespan / 4 else if span > timespan * 4 then timespan * 4 else span;
    if used < BASE && old_ * used < Two256() { UsedSpan(last.nBits, span, params, powLimit, used); }
    FourFold(old_, timespan, powLimit);
  }

  /** An interval that took exactly the intended time keeps the target, re-encoded and cut at the limit; bits
      that already are their target's encoding stay as they are. */
  lemma OnSchedule(blocks: seq<Block>, params: Params, powLimit: nat)
    requires params.Valid() && !params.fPowNoRetargeting && powLimit < Two256() && params.nPowTargetTimespan < BASE
    requires |blocks| >= params.DifficultyAdjustmentInterval() && |blocks| % params.DifficultyAdjustmentInterval() == 0
    requires blocks[|blocks| - 1].nTime
      == blocks[|blocks| - params.DifficultyAdjustmentInterval()].nTime + params.nPowTargetTimespan
    requires Denoted(blocks[|blocks| - 1].nBits) * params.nPowTargetTimespan < Two256()
    ensures var (bits, old_) := (Retargeted(blocks, params, powLimit), Denoted(blocks[|blocks| - 1].nBits));
      && bits == Compact.GetCompact(Min(old_, powLimit), false)
      && (old_ <= powLimit && blocks[|blocks| - 1].nBits == Compact.GetCompact(old_, false) ==>
            bits == blocks[|blocks| - 1].nBits)
  {
    hide Compact.Denoted, Compact.Two256, Retargeted, Compact.GetCompact, Scaled;
    ScaledByTime(blocks, params, powLimit);
    FourFold(Denoted(blocks[|blocks| - 1].nBits), params.nPowTargetTimespan, powLimit);
  }

  /** Whatever the times, without a wrap the target at most quadruples, and unless it is cut at the limit it falls
      at most to a quarter, rounded down. */
  lemma WithinFour(nBits: compact, span: int, params: Params, powLimit: nat)
    requires params.Valid() && powLimit < Two256() && params.nPowTargetTimespan * 4 < BASE
    requires Denoted(nBits) * (params.nPowTargetTimespan * 4) < Two256()
    ensures var (old_, timespan, t) := (Denoted(nBits), params.nPowTargetTimespan, NewTarget(nBits, span, params, powLimit));
      && t <= 4 * old_
      && (t == powLimit || old_ * (timespan / 4) < (t + 1) * timespan)
      && (timespan % 4 == 0 ==> t == powLimit || old_ < 4 * (t + 1))
  {
    hide Compact.Denoted, Compact.Two256, NewTarget;
    var (old_, timespan) := (Denoted(nBits), params.nPowTargetTimespan);
    var used := if span < timespan / 4 then timespan / 4 else if span > timespan * 4 then timespan * 4 else span;
    Larger(old_, used, timespan * 4);
    UsedSpan(nBits, span, params, powLimit, used);
    Spread(old_, used, timespan, old_ * used / timespan);
  }

  lemma Larger(x: nat, y: nat, z: nat)
    requires y <= z
    ensures x * y <= x * z
  {
    MulMonotone(y, z, x);
    MulCommutes(x, y);
    MulCommutes(x, z);
  }

  lemma Spread(old_: nat, used: nat, timespan: nat, t: int)
    requires timespan > 0 && timespan / 4 <= used <= timespan * 4 && t == old_ * used / timespan
    ensures 0 <= t <= 4 * old_
    ensures old_ * (timespan / 4) < (t + 1) * timespan
    ensures timespan % 4 == 0 ==> old_ < 4 * (t + 1)
  {
    Compact.Quotient(old_ * used, timespan);
    Divided(old_ * used, timespan);
    Larger(old_, used, timespan * 4);
    Larger(old_, timespan / 4, used);
    AtMostFour(old_, timespan, t);
    if timespan % 4 == 0 { Cancel(old_, t + 1, timespan / 4); }
  }

  lemma AtMostFour(old_: nat, timespan: nat, t: nat)
    requires timespan > 0 && t * timespan <= old_ * (timespan * 4)
    ensures t <= 4 * old_
  {
    if t > 4 * old_ {
      MulMonotone(4 * old_ + 1, t, timespan);
      FourTimes(old_, timespan);
    }
  }

  lemma FourTimes(old_: nat, timespan: nat)
    ensures (4 * old_ + 1) * timespan == old_ * (timespan * 4) + timespan
  {}

  lemma Cancel(x: nat, y: nat, q: nat)
    requires q > 0 && x * q < y * (4 * q)
    ensures x < 4 * y
  {
    assert y * (4 * q) == (4 * y) * q;
    if x >= 4 * y { MulMonotone(4 * y, x, q); }
  }

  /** Within an interval: the last block's bits; where minimum-difficulty blocks are allowed, the limit when the
      block comes more than two spacings late, otherwise the bits of the latest block that starts an interval or
      is not such a block. */
  lemma WithinInterval(blocks: seq<Block>, nBlockTime: int, params: Params, limitBits: compact) returns (h: nat)
    requires |blocks| > 0 && params.Valid()
    ensures var (last, n, bits) := (|blocks| - 1, params.DifficultyAdjustmentInterval(),
                                    Continued(blocks, nBlockTime, params, limitBits));
      && (!params.fPowAllowMinDifficultyBlocks ==> bits == blocks[last].nBits)
      && (params.fPowAllowMinDifficultyBlocks && nBlockTime - blocks[last].nTime > 2 * params.nPowTargetSpacing ==>
            bits == limitBits)
      && (params.fPowAllowMinDifficultyBlocks && nBlockTime - blocks[last].nTime <= 2 * params.nPowTargetSpacing ==>
            && h <= last && bits == blocks[h].nBits
            && (h == 0 || h % n == 0 || blocks[h].nBits != limitBits)
            && forall k :: h < k <= last ==> k % n != 0 && blocks[k].nBits == limitBits)
  {
    h := LastRegular(blocks, |blocks| - 1, params.DifficultyAdjustmentInterval(), limitBits);
  }

  // ---------------------------------------------------------------- the vectors of the unit tests

  lemma MagnitudeVector(c: compact, w: nat, s: nat, x: nat)
    requires w < MANTISSA && s < 256 && (c == s * BYTE3 + w || c == s * BYTE3 + MANTISSA + w)
    requires s >= 3 ==> x == w * Pow(256, s - 3)
    requires s < 3 ==> x == w / Pow(256, 3 - s)
    ensures Denoted(c) == x && Size(c) == s && Word(c) == w && (SignBit(c) <==> c == s * BYTE3 + MANTISSA + w)
  {
    Compact.Fields(s, w, false);
    Compact.Fields(s, w, true);
    MagnitudeIs(w, s);
  }

  lemma LowPowers()
    ensures Pow(256, 0) == 1 && Pow(256, 1) == 256 && Pow(256, 2) == 0x1_0000 && Pow(256, 3) == BYTE3
    ensures Pow(256, 4) == 0x1_0000_0000
  {
    Cubed();
    PowAdd(256, 2, 2);
  }

  lemma EncodedVector(x: nat, s: nat, w: nat, fNegative: bool)
    requires 0 < x < Two256() && 0 < s < 256 && Pow(256, s - 1) <= 2 * x < Pow(256, s) && w == x * BYTE3 / Pow(256, s)
    ensures w < MANTISSA && Compact.GetCompact(x, fNegative) == s * BYTE3 + (if fNegative then MANTISSA else 0) + w
  {
    ByteLengthIs(2 * x, s);
    WordFits(x);
  }

  /** What SetCompact reads from the compact numbers of src/test/arith_uint256_tests.cpp. */
  lemma SetCompactVectors()
    ensures Denoted(0x00123456) == 0 && Denoted(0x01003456) == 0 && Denoted(0x02000056) == 0
    ensures Denoted(0x01123456) == 0x12 && Denoted(0x02123456) == 0x1234 && Denoted(0x03123456) == 0x123456
    ensures Denoted(0x04123456) == 0x12345600 && Denoted(0x05009234) == 0x92340000
    ensures Denoted(0x20123456) == 0x123456 * Pow(256, 29)
    ensures Denoted(0x01fedcba) == 0x7e && Negative(0x01fedcba) && Denoted(0x04923456) == 0x12345600 && Negative(0x04923456)
    ensures !Negative(0x01803456) && !Negative(0x03800000) && !Negative(0x04123456)
    ensures Overflow(0xff123456) && !Overflow(0x20123456)
  {
    LowPowers();
    MagnitudeVector(0x00123456, 0x123456, 0, 0);
    MagnitudeVector(0x01003456, 0x003456, 1, 0);
    MagnitudeVector(0x02000056, 0x000056, 2, 0);
    MagnitudeVector(0x01123456, 0x123456, 1, 0x12);
    MagnitudeVector(0x02123456, 0x123456, 2, 0x1234);
    MagnitudeVector(0x03123456, 0x123456, 3, 0x123456);
    MagnitudeVector(0x04123456, 0x123456, 4, 0x12345600);
    MagnitudeVector(0x05009234, 0x009234, 5, 0x92340000);
    MagnitudeVector(0x20123456, 0x123456, 32, 0x123456 * Pow(256, 29));
    MagnitudeVector(0x01fedcba, 0x7edcba, 1, 0x7e);
    MagnitudeVector(0x04923456, 0x123456, 4, 0x12345600);
    MagnitudeVector(0x01803456, 0x003456, 1, 0);
    MagnitudeVector(0x03800000, 0, 3, 0);
    MagnitudeVector(0xff123456, 0x123456, 255, 0x123456 * Pow(256, 252));
  }

  /** What GetCompact writes for the numbers of the same tests. */
  lemma GetCompactVectors()
    ensures Two256() > 0x1_0000_0000
    ensures Compact.GetCompact(0x12, false) == 0x01120000 && Compact.GetCompact(0x80, false) == 0x02008000
    ensures Compact.GetCompact(0x7e, true) == 0x01fe0000 && Compact.GetCompact(0x1234, false) == 0x02123400
    ensures Compact.GetCompact(0x12345600, false) == 0x04123456 && Compact.GetCompact(0x12345600, true) == 0x04923456
  {
    hide Compact.GetCompact, Pow;
    FiveBytesFit();
    SmallVectors();
    FourByteVector(false);
    FourByteVector(true);
  }

  lemma FourByteVector(fNegative: bool)
    requires Two256() > 0x1_0000_0000
    ensures Compact.GetCompact(0x12345600, fNegative) == if fNegative then 0x04923456 else 0x04123456
  {
    hide Compact.GetCompact;
    LowPowers();
    EncodedVector(0x12345600, 4, 0x123456, fNegative);
  }

  lemma SmallVectors()
    requires Two256() > 0x1_0000_0000
    ensures Compact.GetCompact(0x12, false) == 0x01120000 && Compact.GetCompact(0x80, false) == 0x02008000
    ensures Compact.GetCompact(0x7e, true) == 0x01fe0000 && Compact.GetCompact(0x1234, false) == 0x02123400
  {
    hide Compact.GetCompact;
    LowPowers();
    EncodedVector(0x12, 1, 0x120000, false);
    EncodedVector(0x80, 2, 0x008000, false);
    EncodedVector(0x7e, 1, 0x7e0000, true);
    EncodedVector(0x1234, 2, 0x123400, false);
  }

  lemma FiveBytesFit()
    ensures Two256() > 0x1_0000_0000
  {
    LowPowers();
    PowMonotone(256, 5, 32);
    assert Pow(256, 5) == 256 * Pow(256, 4);
  }
}
