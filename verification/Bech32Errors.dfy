/**
  Two wrong symbols in a Bech32 string (src/bech32.cpp, section "Checksum" of BIP 173): the code is XOR-linear, so it
  is enough to follow every nonzero symbol through as many steps as lie between the two.
 */
module Bech32Errors {
  import opened LinearFold
  import opened Bech32Code
  import opened Bech32

  /** Every symbol of a word times the generator of GF(32): shifted, and reduced where a bit leaves. */
  function Double(c: word): (r: word)
  {
    ((c & 0x1ef7bdef) << 1) ^ ((c >> 4) & 0x2108421) ^ (((c >> 4) & 0x2108421) << 3)
  }

  /** A single symbol as a word. */
  function Single(e: bv5): (r: word) { e as bv32 }

  function If(b: bool, c: word): (r: word) { if b then c else 0 }

  /** The words for the symbols 1, 2, 4, 8 and 16 after the same number of steps. */
  datatype Basis = Basis(w1: word, w2: word, w4: word, w8: word, w16: word)

  function BasisOf(c: word): (b: Basis)
  {
    var (c2, c4) := (Double(c), Double(Double(c)));
    Basis(c, c2, c4, Double(c4), Double(Double(c4)))
  }

  function NextBasis(b: Basis): (r: Basis)
  {
    Basis(Step(b.w1, 0), Step(b.w2, 0), Step(b.w4, 0), Step(b.w8, 0), Step(b.w16, 0))
  }

  /** The word for the symbol e. */
  function Combine(e: bv5, b: Basis): (r: word)
  {
    XorWord(If(e & 1 != 0, b.w1), XorWord(If(e & 2 != 0, b.w2), XorWord(If(e & 4 != 0, b.w4),
      XorWord(If(e & 8 != 0, b.w8), If(e & 16 != 0, b.w16)))))
  }

  // ---------------------------------------------------------------- steps without input

  function ZeroSteps(n: nat, c: word): (r: word)
  {
    if n == 0 then c else Step(ZeroSteps(n - 1, c), 0)
  }

  /** The table word w stands for all symbols after n steps. */
  ghost predicate Reaches(n: nat, w: word)
  {
    forall e: bv5 :: ZeroSteps(n, Single(e)) == Combine(e, BasisOf(w))
  }

  /** No nonzero symbol is a single symbol again after n steps. */
  ghost predicate LargeAfter(n: nat)
  {
    forall e: bv5 :: e != 0 ==> ZeroSteps(n, Single(e)) > 31
  }

  /** next follows c, and combines to no single symbol. */
  ghost predicate Follows(c: word, next: word)
  {
    && NextBasis(BasisOf(c)) == BasisOf(next)
    && forall e: bv5 {:trigger Combine(e, BasisOf(next))} :: e != 0 ==> Combine(e, BasisOf(next)) > 31
  }

  lemma ReachesStart()
    ensures Reaches(0, 1)
  {
    forall e: bv5 ensures Single(e) == Combine(e, BasisOf(1)) {}
  }

  lemma StepSum(a: word, b: word)
    ensures Step(XorWord(a, b), 0) == XorWord(Step(a, 0), Step(b, 0))
  {
    assert XorSymbol(0, 0) == 0;
    assert Step(XorWord(a, b), XorSymbol(0, 0)) == XorWord(Step(a, 0), Step(b, 0)) by { StepLinear(); }
  }

  lemma StepIf(b: bool, c: word)
    ensures Step(If(b, c), 0) == If(b, Step(c, 0))
  {}

  lemma StepFive(x1: word, x2: word, x4: word, x8: word, x16: word)
    ensures Step(XorWord(x1, XorWord(x2, XorWord(x4, XorWord(x8, x16)))), 0)
         == XorWord(Step(x1, 0), XorWord(Step(x2, 0), XorWord(Step(x4, 0), XorWord(Step(x8, 0), Step(x16, 0)))))
  {
    StepSum(x8, x16);
    StepSum(x4, XorWord(x8, x16));
    StepSum(x2, XorWord(x4, XorWord(x8, x16)));
    StepSum(x1, XorWord(x2, XorWord(x4, XorWord(x8, x16))));
  }

  lemma StepCombine(e: bv5, b: Basis)
    ensures Step(Combine(e, b), 0) == Combine(e, NextBasis(b))
  {
    StepIf(e & 1 != 0, b.w1);
    StepIf(e & 2 != 0, b.w2);
    StepIf(e & 4 != 0, b.w4);
    StepIf(e & 8 != 0, b.w8);
    StepIf(e & 16 != 0, b.w16);
    StepFive(If(e & 1 != 0, b.w1), If(e & 2 != 0, b.w2), If(e & 4 != 0, b.w4), If(e & 8 != 0, b.w8), If(e & 16 != 0, b.w16));
  }

  lemma OneStep(n: nat, c: word, next: word)
    requires Reaches(n, c) && Follows(c, next)
    ensures Reaches(n + 1, next) && LargeAfter(n + 1)
  {
    forall e: bv5 ensures ZeroSteps(n + 1, Single(e)) == Combine(e, BasisOf(next)) {
      StepCombine(e, BasisOf(c));
      assert ZeroSteps(n, Single(e)) == Combine(e, BasisOf(c));
    }
    forall e: bv5 | e != 0 ensures ZeroSteps(n + 1, Single(e)) > 31 {
      assert ZeroSteps(n + 1, Single(e)) == Combine(e, BasisOf(next));
    }
  }

  lemma FourSteps(n: nat, c0: word, c1: word, c2: word, c3: word, c4: word)
    requires Reaches(n, c0) && Follows(c0, c1) && Follows(c1, c2) && Follows(c2, c3) && Follows(c3, c4)
    ensures Reaches(n + 4, c4) && forall m :: n < m <= n + 4 ==> LargeAfter(m)
  {
    OneStep(n, c0, c1);
    OneStep(n + 1, c1, c2);
    OneStep(n + 2, c2, c3);
    OneStep(n + 3, c3, c4);
  }

  // ---------------------------------------------------------------- the powers of x, four steps a row

  lemma Row0()
    ensures Follows(0x1, 0x20) && Follows(0x20, 0x400)
    ensures Follows(0x400, 0x8000) && Follows(0x8000, 0x100000)
  {}

  lemma Row1()
    ensures Follows(0x100000, 0x2000000) && Follows(0x2000000, 0x3b6a57b2)
    ensures Follows(0x3b6a57b2, 0x1fd7e966) && Follows(0x1fd7e966, 0x424df38)
  {}

  lemma Row2()
    ensures Follows(0x424df38, 0x22cb696d) && Follows(0x22cb696d, 0x81318a1)
    ensures Follows(0x81318a1, 0x1cc20dda) && Follows(0x1cc20dda, 0x1df21f0a)
  {}

  lemma Row3()
    ensures Follows(0x1df21f0a, 0x3bf0450a) && Follows(0x3bf0450a, 0xc95be66)
    ensures Follows(0xc95be66, 0x2a465b57) && Follows(0x2a465b57, 0x714461b)
  {}

  lemma Row4()
    ensures Follows(0x714461b, 0x3fb21abf) && Follows(0x3fb21abf, 0x228ec6ab)
    ensures Follows(0x228ec6ab, 0xa6e061) && Follows(0xa6e061, 0x14dc0c20)
  {}

  lemma Row5()
    ensures Follows(0x14dc0c20, 0x9339b0) && Follows(0x9339b0, 0x12673600)
    ensures Follows(0x12673600, 0xacea46f) && Follows(0xacea46f, 0x3c1fc3a8)
  {}

  lemma Row6()
    ensures Follows(0x3c1fc3a8, 0x2c5fb3f9) && Follows(0x2c5fb3f9, 0x19138a04)
    ensures Follows(0x19138a04, 0x1926aa7) && Follows(0x1926aa7, 0x324d54e0)
  {}

  lemma Row7()
    ensures Follows(0x324d54e0, 0x25969adc) && Follows(0x25969adc, 0x3e97b75e)
    ensures Follows(0x3e97b75e, 0x63b7a8b) && Follows(0x63b7a8b, 0x1a5588bf)
  {}

  lemma Row8()
    ensures Follows(0x1a5588bf, 0x12386a75) && Follows(0x12386a75, 0x1252acf)
    ensures Follows(0x1252acf, 0x24a559e0) && Follows(0x24a559e0, 0x18efd0de)
  {}

  lemma Row9()
    ensures Follows(0x18efd0de, 0x3e1931e7) && Follows(0x3e1931e7, 0x17ebadab)
    ensures Follows(0x17ebadab, 0x1d0d5f62) && Follows(0x1d0d5f62, 0x2418480a)
  {}

  lemma Row10()
    ensures Follows(0x2418480a, 0xf4ded9e) && Follows(0xf4ded9e, 0x2a2673e5)
    ensures Follows(0x2a2673e5, 0xb11505b) && Follows(0xb11505b, 0x7e14528)
  {}

  lemma Row11()
    ensures Follows(0x7e14528, 0x21127cdf) && Follows(0x21127cdf, 0x85bf953)
    ensures Follows(0x85bf953, 0x15de339a) && Follows(0x15de339a, 0x20d4cef0)
  {}

  lemma Row12()
    ensures Follows(0x20d4cef0, 0x308dbcb3) && Follows(0x308dbcb3, 0x6e1c70e)
    ensures Follows(0x6e1c70e, 0x102381f) && Follows(0x102381f, 0x204703e0)
  {}

  lemma Row13()
    ensures Follows(0x204703e0, 0x22f41eb3) && Follows(0x22f41eb3, 0xffde361)
    ensures Follows(0xffde361, 0x3c27ac05) && Follows(0x3c27ac05, 0x2b524659)
  {}

  lemma Row14()
    ensures Follows(0x2b524659, 0x2597e7db) && Follows(0x2597e7db, 0x3eb817be)
    ensures Follows(0x3eb817be, 0x3cf668b) && Follows(0x3cf668b, 0x28686d2)
  {}

  lemma Row15()
    ensures Follows(0x28686d2, 0x2bba8df2) && Follows(0x2bba8df2, 0x388e92bb)
    ensures Follows(0x388e92bb, 0x18251ff4) && Follows(0x18251ff4, 0x2740d4a7)
  {}

  lemma Row16()
    ensures Follows(0x2740d4a7, 0x1f342f8c) && Follows(0x1f342f8c, 0x185c0278)
    ensures Follows(0x185c0278, 0x28636527) && Follows(0x28636527, 0x38d9dfa9)
  {}

  lemma Row17()
    ensures Follows(0x38d9dfa9, 0x12ccbdb4) && Follows(0x12ccbdb4, 0x1fbfd2ef)
    ensures Follows(0x1fbfd2ef, 0x923ae18) && Follows(0x923ae18, 0x3ad4dafa)
  {}

  lemma Row18()
    ensures Follows(0x3ad4dafa, 0x28064066) && Follows(0x28064066, 0x347d7789)
    ensures Follows(0x347d7789, 0x3ea82e23) && Follows(0x3ea82e23, 0x1c8552b)
  {}

  lemma Row19()
    ensures Follows(0x1c8552b, 0x390aa560) && Follows(0x390aa560, 0x28a3e494)
    ensures Follows(0x28a3e494, 0x20c9e9c9) && Follows(0x20c9e9c9, 0x33295b93)
  {}

  lemma Row20()
    ensures Follows(0x33295b93, 0x91774bc) && Follows(0x91774bc, 0x3c4f8e7a)
    ensures Follows(0x3c4f8e7a, 0x265609b9) && Follows(0x265609b9, 0x3def8c4c)
  {}

  lemma Row21()
    ensures Follows(0x3def8c4c, 0x12564f79) && Follows(0x12564f79, 0xce18b4f)
    ensures Follows(0xce18b4f, 0x24c0fe77) && Follows(0x24c0fe77, 0x145b223e)
  {}

  lemma Part0(n: nat)
    requires Reaches(n, 0x1)
    ensures Reaches(n + 24, 0x3c1fc3a8) && forall m :: n < m <= n + 24 ==> LargeAfter(m)
  {
    Row0(); FourSteps(n, 0x1, 0x20, 0x400, 0x8000, 0x100000);
    Row1(); FourSteps(n + 4, 0x100000, 0x2000000, 0x3b6a57b2, 0x1fd7e966, 0x424df38);
    Row2(); FourSteps(n + 8, 0x424df38, 0x22cb696d, 0x81318a1, 0x1cc20dda, 0x1df21f0a);
    Row3(); FourSteps(n + 12, 0x1df21f0a, 0x3bf0450a, 0xc95be66, 0x2a465b57, 0x714461b);
    Row4(); FourSteps(n + 16, 0x714461b, 0x3fb21abf, 0x228ec6ab, 0xa6e061, 0x14dc0c20);
    Row5(); FourSteps(n + 20, 0x14dc0c20, 0x9339b0, 0x12673600, 0xacea46f, 0x3c1fc3a8);
  }

  lemma Part1(n: nat)
    requires Reaches(n, 0x3c1fc3a8)
    ensures Reaches(n + 24, 0x20d4cef0) && forall m :: n < m <= n + 24 ==> LargeAfter(m)
  {
    Row6(); FourSteps(n, 0x3c1fc3a8, 0x2c5fb3f9, 0x19138a04, 0x1926aa7, 0x324d54e0);
    Row7(); FourSteps(n + 4, 0x324d54e0, 0x25969adc, 0x3e97b75e, 0x63b7a8b, 0x1a5588bf);
    Row8(); FourSteps(n + 8, 0x1a5588bf, 0x12386a75, 0x1252acf, 0x24a559e0, 0x18efd0de);
    Row9(); FourSteps(n + 12, 0x18efd0de, 0x3e1931e7, 0x17ebadab, 0x1d0d5f62, 0x2418480a);
    Row10(); FourSteps(n + 16, 0x2418480a, 0xf4ded9e, 0x2a2673e5, 0xb11505b, 0x7e14528);
    Row11(); FourSteps(n + 20, 0x7e14528, 0x21127cdf, 0x85bf953, 0x15de339a, 0x20d4cef0);
  }

  lemma Part2(n: nat)
    requires Reaches(n, 0x20d4cef0)
    ensures Reaches(n + 24, 0x3ad4dafa) && forall m :: n < m <= n + 24 ==> LargeAfter(m)
  {
    Row12(); FourSteps(n, 0x20d4cef0, 0x308dbcb3, 0x6e1c70e, 0x102381f, 0x204703e0);
    Row13(); FourSteps(n + 4, 0x204703e0, 0x22f41eb3, 0xffde361, 0x3c27ac05, 0x2b524659);
    Row14(); FourSteps(n + 8, 0x2b524659, 0x2597e7db, 0x3eb817be, 0x3cf668b, 0x28686d2);
    Row15(); FourSteps(n + 12, 0x28686d2, 0x2bba8df2, 0x388e92bb, 0x18251ff4, 0x2740d4a7);
    Row16(); FourSteps(n + 16, 0x2740d4a7, 0x1f342f8c, 0x185c0278, 0x28636527, 0x38d9dfa9);
    Row17(); FourSteps(n + 20, 0x38d9dfa9, 0x12ccbdb4, 0x1fbfd2ef, 0x923ae18, 0x3ad4dafa);
  }

  lemma Part3(n: nat)
    requires Reaches(n, 0x3ad4dafa)
    ensures Reaches(n + 16, 0x145b223e) && forall m :: n < m <= n + 16 ==> LargeAfter(m)
  {
    Row18(); FourSteps(n, 0x3ad4dafa, 0x28064066, 0x347d7789, 0x3ea82e23, 0x1c8552b);
    Row19(); FourSteps(n + 4, 0x1c8552b, 0x390aa560, 0x28a3e494, 0x20c9e9c9, 0x33295b93);
    Row20(); FourSteps(n + 8, 0x33295b93, 0x91774bc, 0x3c4f8e7a, 0x265609b9, 0x3def8c4c);
    Row21(); FourSteps(n + 12, 0x3def8c4c, 0x12564f79, 0xce18b4f, 0x24c0fe77, 0x145b223e);
  }

  lemma LargeFrom(z: nat, n: nat)
    requires Reaches(z, 1) && z < n <= z + 88
    ensures LargeAfter(n)
  {
    Part0(z);
    Part1(z + 24);
    Part2(z + 48);
    Part3(z + 72);
  }

  /** Up to 88 steps no nonzero symbol is a single symbol again. */
  lemma LargeUpTo88(n: nat)
    requires 1 <= n <= 88
    ensures LargeAfter(n)
  {
    ReachesStart();
    LargeFrom(0, n);
  }

  // ---------------------------------------------------------------- two errors

  lemma ZeroStepsFold(n: nat, c: word)
    ensures Poly(c, Zeros(n)) == ZeroSteps(n, c)
  {
    if n > 0 {
      ZeroStepsFold(n - 1, c);
      assert Zeros(n)[..n - 1] == Zeros(n - 1);
    }
  }

  function Zeros(n: nat): (z: data) { seq(n, _ => 0) }

  lemma StepFrom(c: word, v: bv5)
    ensures Step(c, v) == XorWord(Step(c, 0), Single(v)) && Step(0, v) == Single(v)
  {}

  lemma XorEnds(c: word, d: word)
    requires XorWord(c, d) == 0
    ensures c == d
  {}

  lemma {:induction false} ZeroStaysZero(n: nat)
    ensures ZeroSteps(n, 0) == 0
  {
    if n > 0 {
      ZeroStaysZero(n - 1);
      StepFrom(0, 0);
    }
  }

  /** Two symbols at most 88 places apart never cancel. */
  lemma TwoSymbols(a: bv5, n: nat, b: bv5)
    requires 1 <= n <= 88 && Poly(0, [a] + Zeros(n - 1) + [b]) == 0
    ensures a == 0 && b == 0
  {
    FoldAppend(Step, 0, [a] + Zeros(n - 1), [b]);
    FoldAppend(Step, 0, [a], Zeros(n - 1));
    StepFrom(0, a);
    assert Poly(0, [a]) == Single(a);
    ZeroStepsFold(n - 1, Single(a));
    var c := ZeroSteps(n - 1, Single(a));
    assert Step(c, b) == 0;
    StepFrom(c, b);
    XorEnds(Step(c, 0), Single(b));
    assert ZeroSteps(n, Single(a)) == Single(b) <= 31;
    LargeUpTo88(n);
    ZeroStaysZero(n);
  }

  /** Two parts that agree outside [i, k) and both verify differ by a word of the code. */
  lemma DifferenceIsZero(hrp: string, u: data, v: data, i: nat, k: nat)
    requires DifferWithin(u, v, i, k) && VerifyChecksum(hrp, u) && VerifyChecksum(hrp, v)
    ensures Poly(0, Xor(u[i..k], v[i..k])) == 0
  {
    var e, front, back := ExpandHRP(hrp), u[..i], u[k..];
    assert v[..i] == front && v[k..] == back;
    assert u == front + u[i..k] + back && v == front + v[i..k] + back;
    ThreeParts(e, front, u[i..k], back);
    ThreeParts(e, front, v[i..k], back);
    var c := Poly(PolyMod(e), front);
    PolyInjective(Poly(c, u[i..k]), Poly(c, v[i..k]), back);
    PolyLinear(c, c, u[i..k], v[i..k]);
    XorCancels(Poly(c, u[i..k]), 0);
    XorCancels(c, 0);
  }

  /** The difference of two parts that agree except at their ends. */
  lemma EndsDiffer(u: data, v: data, n: nat)
    requires |u| == |v| == n + 1 > 1 && forall k :: 0 < k < n ==> u[k] == v[k]
    ensures Xor(u, v) == [XorSymbol(u[0], v[0])] + Zeros(n - 1) + [XorSymbol(u[n], v[n])]
  {
    var d := Xor(u, v);
    EqualSymbols(u, v, d);
    assert |d| == n + 1;
  }

  /** Any two wrong symbols in a data part of up to 89 symbols are detected. */
  lemma TwoErrorsDetected(hrp: string, u: data, v: data, i: nat, j: nat)
    requires |u| == |v| <= 89 && i < j < |u| && forall k :: 0 <= k < |u| && k != i && k != j ==> u[k] == v[k]
    requires VerifyChecksum(hrp, u) && VerifyChecksum(hrp, v)
    ensures u == v
  {
    DifferenceIsZero(hrp, u, v, i, j + 1);
    EndsDiffer(u[i..j + 1], v[i..j + 1], j - i);
    TwoSymbols(XorSymbol(u[i], v[i]), j - i, XorSymbol(u[j], v[j]));
    SymbolsCancel(u[i], v[i]);
    SymbolsCancel(u[j], v[j]);
  }

  lemma EqualSymbols(u: data, v: data, d: data)
    requires |u| == |v| && d == Xor(u, v)
    ensures |d| == |u| && forall k :: 0 <= k < |u| ==> d[k] == XorSymbol(u[k], v[k]) && (u[k] == v[k] ==> d[k] == 0)
  {
    forall k | 0 <= k < |u| && u[k] == v[k] ensures XorSymbol(u[k], v[k]) == 0 { SameCancels(u[k]); }
  }

  lemma SameCancels(a: bv5)
    ensures XorSymbol(a, a) == 0
  {}
}
