/**
  The expanded prefix, and the test vectors of BIP 173 in src/test/bech32_tests.cpp, which pin the character
  table, the start word and the final constant of the checksum.
 */
module Bech32Vectors {
  import opened Prelude
  import opened LinearFold
  import opened Bech32Code
  import opened Bech32
  import opened Bech32Strings

  // ---------------------------------------------------------------- the expanded prefix

  lemma FiveBits(n: nat)
    requires n < 32
    ensures (n as bv5) as int == n
  {}

  lemma HighLow(c: char)
    requires Printable(c)
    ensures High(c) as int * 32 + Low(c) as int == c as int && High(c) as int < 4
  {
    FiveBits(c as int / 32);
    FiveBits(c as int % 32);
  }

  /** The high bits of each character in order, a zero, and the low bits. */
  lemma ExpandedPrefix(hrp: string, i: nat)
    requires i < |hrp| && AllPrintable(hrp)
    ensures var r := ExpandHRP(hrp);
      && |r| == 2 * |hrp| + 1 && r[|hrp|] == 0
      && r[i] as int * 32 + r[|hrp| + 1 + i] as int == hrp[i] as int && r[i] as int < 4
  {
    HighLow(hrp[i]);
  }

  // ---------------------------------------------------------------- computing a checksum

  lemma Round(v: data, c: word, x: bv5, d: word)
    requires Poly(1, v) == c && Step(c, x) == d
    ensures Poly(1, v + [x]) == d
  {
    hide Step;
    assert (v + [x])[..|v|] == v;
  }

  lemma Rounds(v: data, c0: word, x: bv5, c1: word, y: bv5, c2: word, z: bv5, c3: word)
    requires Poly(1, v) == c0 && Step(c0, x) == c1 && Step(c1, y) == c2 && Step(c2, z) == c3
    ensures Poly(1, v + [x, y, z]) == c3
  {
    hide Step, Fold;
    Round(v, c0, x, c1);
    Round(v + [x], c1, y, c2);
    Round(v + [x] + [y], c2, z, c3);
    assert v + [x] + [y] + [z] == v + [x, y, z];
  }

  lemma Nothing()
    ensures Poly(1, []) == 1
  {}

  lemma Joined(u: data, v: data, w: data, all: data)
    requires v + w == all
    ensures u + v + w == u + all
  {}

  lemma ShortRow0()
    ensures Step(0x1, 3) == 0x23 && Step(0x23, 0) == 0x460
    ensures Step(0x460, 1) == 0x8c01
  {}

  lemma ShortPart0(u: data)
    requires Poly(1, u) == 1
    ensures Poly(1, u + [3, 0, 1]) == 0x8c01
  {
    hide Step, Fold;
    ShortRow0();
    Rounds(u, 0x1, 3, 0x23, 0, 0x460, 1, 0x8c01);
  }

  lemma ShortRow1()
    ensures Step(0x8c01, 10) == 0x11802a && Step(0x11802a, 28) == 0x230055c
    ensures Step(0x230055c, 25) == 0x3d6afc2b
  {}

  lemma ShortRow2()
    ensures Step(0x3d6afc2b, 31) == 0x2f84386 && Step(0x2f84386, 20) == 0x24622766
    ensures Step(0x24622766, 31) == 0x1
  {}

  lemma ShortPart1(u: data)
    requires Poly(1, u) == 0x8c01
    ensures Poly(1, u + [10, 28, 25, 31, 20, 31]) == 1
  {
    hide Step, Fold;
    ShortRow1();
    Rounds(u, 0x8c01, 10, 0x11802a, 28, 0x230055c, 25, 0x3d6afc2b);
    ShortRow2();
    Rounds(u + [10, 28, 25], 0x3d6afc2b, 31, 0x2f84386, 20, 0x24622766, 31, 0x1);
    Joined(u, [10, 28, 25], [31, 20, 31], [10, 28, 25, 31, 20, 31]);
  }

  /** The expanded prefix "a" and the checksum "2uel5l". */
  lemma ShortWord()
    ensures PolyMod([3, 0, 1] + [10, 28, 25, 31, 20, 31]) == 1
  {
    hide Step, Fold;
    Nothing();
    ShortPart0([]);
    Joined([], [], [3, 0, 1], [3, 0, 1]);
    ShortPart1([3, 0, 1]);
  }

  lemma LongRow0()
    ensures Step(0x1, 3) == 0x23 && Step(0x23, 3) == 0x463
    ensures Step(0x463, 3) == 0x8c63
  {}

  lemma LongRow1()
    ensures Step(0x8c63, 3) == 0x118c63 && Step(0x118c63, 3) == 0x2318c63
    ensures Step(0x2318c63, 3) == 0x3d5bdbd1
  {}

  lemma LongRow2()
    ensures Step(0x3d5bdbd1, 0) == 0x4dcbcd9 && Step(0x4dcbcd9, 1) == 0x3dc7154c
    ensures Step(0x3dc7154c, 2) == 0x17456f7b
  {}

  lemma LongRow3()
    ensures Step(0x17456f7b, 3) == 0x8d50561 && Step(0x8d50561, 4) == 0x401b5de
    ensures Step(0x401b5de, 5) == 0x266635a8
  {}

  lemma LongRow4()
    ensures Step(0x266635a8, 6) == 0x3be80e6a
  {}

  lemma LongPart0(u: data)
    requires Poly(1, u) == 1
    ensures Poly(1, u + [3, 3, 3, 3, 3, 3, 0, 1, 2, 3, 4, 5, 6]) == 0x3be80e6a
  {
    hide Step, Fold;
    LongRow0();
    Rounds(u, 0x1, 3, 0x23, 3, 0x463, 3, 0x8c63);
    LongRow1();
    Rounds(u + [3, 3, 3], 0x8c63, 3, 0x118c63, 3, 0x2318c63, 3, 0x3d5bdbd1);
    Joined(u, [3, 3, 3], [3, 3, 3], [3, 3, 3, 3, 3, 3]);
    LongRow2();
    Rounds(u + [3, 3, 3, 3, 3, 3], 0x3d5bdbd1, 0, 0x4dcbcd9, 1, 0x3dc7154c, 2, 0x17456f7b);
    Joined(u, [3, 3, 3, 3, 3, 3], [0, 1, 2], [3, 3, 3, 3, 3, 3, 0, 1, 2]);
    LongRow3();
    Rounds(u + [3, 3, 3, 3, 3, 3, 0, 1, 2], 0x17456f7b, 3, 0x8d50561, 4, 0x401b5de, 5, 0x266635a8);
    Joined(u, [3, 3, 3, 3, 3, 3, 0, 1, 2], [3, 4, 5], [3, 3, 3, 3, 3, 3, 0, 1, 2, 3, 4, 5]);
    LongRow4();
    Round(u + [3, 3, 3, 3, 3, 3, 0, 1, 2, 3, 4, 5], 0x266635a8, 6, 0x3be80e6a);
    Joined(u, [3, 3, 3, 3, 3, 3, 0, 1, 2, 3, 4, 5], [6], [3, 3, 3, 3, 3, 3, 0, 1, 2, 3, 4, 5, 6]);
  }

  lemma LongRow5()
    ensures Step(0x3be80e6a, 0) == 0xf9cd266 && Step(0xf9cd266, 1) == 0x30018ce4
    ensures Step(0x30018ce4, 2) == 0x1767cdec
  {}

  lemma LongRow6()
    ensures Step(0x1767cdec, 3) == 0xc815781 && Step(0xc815781, 4) == 0x28db67b3
    ensures Step(0x28db67b3, 5) == 0x2fd98d2c
  {}

  lemma LongRow7()
    ensures Step(0x2fd98d2c, 6) == 0x12be0710 && Step(0x12be0710, 7) == 0x11e88668
    ensures Step(0x11e88668, 8) == 0x52fed5
  {}

  lemma LongRow8()
    ensures Step(0x52fed5, 9) == 0xa5fdaa9 && Step(0xa5fdaa9, 10) == 0x2e301b62
    ensures Step(0x2e301b62, 11) == 0x2f8ccedd
  {}

  lemma LongRow9()
    ensures Step(0x2f8ccedd, 12) == 0x1816793a && Step(0x1816793a, 13) == 0x212c0d6a
    ensures Step(0x212c0d6a, 14) == 0xf95cffd
  {}

  lemma LongRow10()
    ensures Step(0xf95cffd, 15) == 0x31223f8a
  {}

  lemma LongPart1(u: data)
    requires Poly(1, u) == 0x3be80e6a
    ensures Poly(1, u + [0, 1, 2, 3, 4, 5, 6, 7, 8, 9, 10, 11, 12, 13, 14, 15]) == 0x31223f8a
  {
    hide Step, Fold;
    LongRow5();
    Rounds(u, 0x3be80e6a, 0, 0xf9cd266, 1, 0x30018ce4, 2, 0x1767cdec);
    LongRow6();
    Rounds(u + [0, 1, 2], 0x1767cdec, 3, 0xc815781, 4, 0x28db67b3, 5, 0x2fd98d2c);
    Joined(u, [0, 1, 2], [3, 4, 5], [0, 1, 2, 3, 4, 5]);
    LongRow7();
    Rounds(u + [0, 1, 2, 3, 4, 5], 0x2fd98d2c, 6, 0x12be0710, 7, 0x11e88668, 8, 0x52fed5);
    Joined(u, [0, 1, 2, 3, 4, 5], [6, 7, 8], [0, 1, 2, 3, 4, 5, 6, 7, 8]);
    LongRow8();
    Rounds(u + [0, 1, 2, 3, 4, 5, 6, 7, 8], 0x52fed5, 9, 0xa5fdaa9, 10, 0x2e301b62, 11, 0x2f8ccedd);
    Joined(u, [0, 1, 2, 3, 4, 5, 6, 7, 8], [9, 10, 11], [0, 1, 2, 3, 4, 5, 6, 7, 8, 9, 10, 11]);
    LongRow9();
    Rounds(u + [0, 1, 2, 3, 4, 5, 6, 7, 8, 9, 10, 11], 0x2f8ccedd, 12, 0x1816793a, 13, 0x212c0d6a, 14, 0xf95cffd);
    Joined(u, [0, 1, 2, 3, 4, 5, 6, 7, 8, 9, 10, 11], [12, 13, 14], [0, 1, 2, 3, 4, 5, 6, 7, 8, 9, 10, 11, 12, 13, 14]);
    LongRow10();
    Round(u + [0, 1, 2, 3, 4, 5, 6, 7, 8, 9, 10, 11, 12, 13, 14], 0xf95cffd, 15, 0x31223f8a);
    Joined(u, [0, 1, 2, 3, 4, 5, 6, 7, 8, 9, 10, 11, 12, 13, 14], [15],
        [0, 1, 2, 3, 4, 5, 6, 7, 8, 9, 10, 11, 12, 13, 14, 15]);
  }

  lemma LongRow11()
    ensures Step(0x31223f8a, 16) == 0x3311a03e && Step(0x3311a03e, 17) == 0xe08010d
    ensures Step(0xe08010d, 18) == 0x29be197
  {}

  lemma LongRow12()
    ensures Step(0x29be197, 19) == 0x28166541 && Step(0x28166541, 20) == 0x3679d37d
    ensures Step(0x3679d37d, 21) == 0x556e704
  {}

  lemma LongRow13()
    ensures Step(0x556e704, 22) == 0xc8c6efb && Step(0xc8c6efb, 23) == 0x297c48e0
    ensures Step(0x297c48e0, 24) == 0x1b3c6751
  {}

  lemma LongRow14()
    ensures Step(0x1b3c6751, 25) == 0x3f0597ac && Step(0x3f0597ac, 26) == 0x347f64d1
    ensures Step(0x347f64d1, 27) == 0x3eea4538
  {}

  lemma LongRow15()
    ensures Step(0x3eea4538, 28) == 0x9853657 && Step(0x9853657, 29) == 0x2e07d307
    ensures Step(0x2e07d307, 30) == 0x2975c268
  {}

  lemma LongRow16()
    ensures Step(0x2975c268, 31) == 0x1a0d3656
  {}

  lemma LongPart2(u: data)
    requires Poly(1, u) == 0x31223f8a
    ensures Poly(1, u + [16, 17, 18, 19, 20, 21, 22, 23, 24, 25, 26, 27, 28, 29, 30, 31]) == 0x1a0d3656
  {
    hide Step, Fold;
    LongRow11();
    Rounds(u, 0x31223f8a, 16, 0x3311a03e, 17, 0xe08010d, 18, 0x29be197);
    LongRow12();
    Rounds(u + [16, 17, 18], 0x29be197, 19, 0x28166541, 20, 0x3679d37d, 21, 0x556e704);
    Joined(u, [16, 17, 18], [19, 20, 21], [16, 17, 18, 19, 20, 21]);
    LongRow13();
    Rounds(u + [16, 17, 18, 19, 20, 21], 0x556e704, 22, 0xc8c6efb, 23, 0x297c48e0, 24, 0x1b3c6751);
    Joined(u, [16, 17, 18, 19, 20, 21], [22, 23, 24], [16, 17, 18, 19, 20, 21, 22, 23, 24]);
    LongRow14();
    Rounds(u + [16, 17, 18, 19, 20, 21, 22, 23, 24], 0x1b3c6751, 25, 0x3f0597ac, 26, 0x347f64d1, 27, 0x3eea4538);
    Joined(u, [16, 17, 18, 19, 20, 21, 22, 23, 24], [25, 26, 27], [16, 17, 18, 19, 20, 21, 22, 23, 24, 25, 26, 27]);
    LongRow15();
    Rounds(u + [16, 17, 18, 19, 20, 21, 22, 23, 24, 25, 26, 27], 0x3eea4538, 28, 0x9853657, 29, 0x2e07d307, 30, 0x2975c268);
    Joined(u, [16, 17, 18, 19, 20, 21, 22, 23, 24, 25, 26, 27], [28, 29, 30],
        [16, 17, 18, 19, 20, 21, 22, 23, 24, 25, 26, 27, 28, 29, 30]);
    LongRow16();
    Round(u + [16, 17, 18, 19, 20, 21, 22, 23, 24, 25, 26, 27, 28, 29, 30], 0x2975c268, 31, 0x1a0d3656);
    Joined(u, [16, 17, 18, 19, 20, 21, 22, 23, 24, 25, 26, 27, 28, 29, 30], [31],
        [16, 17, 18, 19, 20, 21, 22, 23, 24, 25, 26, 27, 28, 29, 30, 31]);
  }

  lemma LongRow17()
    ensures Step(0x1a0d3656, 27) == 0x192fb74e && Step(0x192fb74e, 0) == 0x615c3e7
    ensures Step(0x615c3e7, 0) == 0x1f82a53f
  {}

  lemma LongRow18()
    ensures Step(0x1f82a53f, 0) == 0xe8d5418 && Step(0xe8d5418, 6) == 0x12314323
    ensures Step(0x12314323, 14) == 0x1
  {}

  lemma LongPart3(u: data)
    requires Poly(1, u) == 0x1a0d3656
    ensures Poly(1, u + [27, 0, 0, 0, 6, 14]) == 1
  {
    hide Step, Fold;
    LongRow17();
    Rounds(u, 0x1a0d3656, 27, 0x192fb74e, 0, 0x615c3e7, 0, 0x1f82a53f);
    LongRow18();
    Rounds(u + [27, 0, 0], 0x1f82a53f, 0, 0xe8d5418, 6, 0x12314323, 14, 0x1);
    Joined(u, [27, 0, 0], [0, 6, 14], [27, 0, 0, 0, 6, 14]);
  }

  /** The expanded prefix "abcdef", all symbols in order and the checksum "mqqqxw". */
  lemma LongWord()
    ensures PolyMod([3, 3, 3, 3, 3, 3, 0, 1, 2, 3, 4, 5, 6]
        + [0, 1, 2, 3, 4, 5, 6, 7, 8, 9, 10, 11, 12, 13, 14, 15]
        + [16, 17, 18, 19, 20, 21, 22, 23, 24, 25, 26, 27, 28, 29, 30, 31] + [27, 0, 0, 0, 6, 14]) == 1
  {
    hide Step, Fold;
    Nothing();
    LongPart0([]);
    Joined([], [], [3, 3, 3, 3, 3, 3, 0, 1, 2, 3, 4, 5, 6], [3, 3, 3, 3, 3, 3, 0, 1, 2, 3, 4, 5, 6]);
    LongPart1([3, 3, 3, 3, 3, 3, 0, 1, 2, 3, 4, 5, 6]);
    LongPart2([3, 3, 3, 3, 3, 3, 0, 1, 2, 3, 4, 5, 6] + [0, 1, 2, 3, 4, 5, 6, 7, 8, 9, 10, 11, 12, 13, 14, 15]);
    LongPart3([3, 3, 3, 3, 3, 3, 0, 1, 2, 3, 4, 5, 6] + [0, 1, 2, 3, 4, 5, 6, 7, 8, 9, 10, 11, 12, 13, 14, 15]
        + [16, 17, 18, 19, 20, 21, 22, 23, 24, 25, 26, 27, 28, 29, 30, 31]);
  }

  lemma WrongRow0()
    ensures Step(0x1, 3) == 0x23 && Step(0x23, 0) == 0x460
    ensures Step(0x460, 1) == 0x8c01
  {}

  lemma WrongPart0(u: data)
    requires Poly(1, u) == 1
    ensures Poly(1, u + [3, 0, 1]) == 0x8c01
  {
    hide Step, Fold;
    WrongRow0();
    Rounds(u, 0x1, 3, 0x23, 0, 0x460, 1, 0x8c01);
  }

  lemma WrongRow1()
    ensures Step(0x8c01, 8) == 0x118028 && Step(0x118028, 30) == 0x230051e
    ensures Step(0x230051e, 16) == 0x3d6af462
  {}

  lemma WrongRow2()
    ensures Step(0x3d6af462, 8) == 0x2f94ab1 && Step(0x2f94ab1, 13) == 0x2443019f
    ensures Step(0x2443019f, 7) == 0x424df39
  {}

  lemma WrongPart1(u: data)
    requires Poly(1, u) == 0x8c01
    ensures Poly(1, u + [8, 30, 16, 8, 13, 7]) == 0x424df39
  {
    hide Step, Fold;
    WrongRow1();
    Rounds(u, 0x8c01, 8, 0x118028, 30, 0x230051e, 16, 0x3d6af462);
    WrongRow2();
    Rounds(u + [8, 30, 16], 0x3d6af462, 8, 0x2f94ab1, 13, 0x2443019f, 7, 0x424df39);
    Joined(u, [8, 30, 16], [8, 13, 7], [8, 30, 16, 8, 13, 7]);
  }

  /** The expanded prefix "a" and the symbols of "g7sgd8". */
  lemma WrongWord()
    ensures PolyMod([3, 0, 1] + [8, 30, 16, 8, 13, 7]) == 0x424df39
  {
    hide Step, Fold;
    Nothing();
    WrongPart0([]);
    Joined([], [], [3, 0, 1], [3, 0, 1]);
    WrongPart1([3, 0, 1]);
  }

  // ---------------------------------------------------------------- the vectors

  lemma SeparatorAt(s: string, pos: nat)
    requires pos < |s| && s[pos] == '1' && forall j :: pos < j < |s| ==> s[j] != '1'
    ensures LastOne(s) == pos
  {}

  lemma NoSeparator(s: string)
    requires forall j :: 0 <= j < |s| ==> s[j] != '1'
    ensures LastOne(s) == -1
  {}

  lemma LowerPlain(s: string)
    requires Plain(s)
    ensures Lower(s) == s
  {}

  lemma OneIsNoSymbol()
    ensures Reverse('1') == -1
  {}

  /** A string of a prefix without capitals, the separator and lower-case symbols that verify. */
  lemma VectorHolds(hrp: string, tail: string, values: data, w: data)
    requires Plain(hrp) && Plain(tail) && |hrp| + |tail| < 90 && hrp != "" && |w| == 6
    requires AllSymbols(tail) && Values(tail) == values + w && VerifyChecksum(hrp, values + w)
    ensures Decode(hrp + "1" + tail) == Some((hrp, values)) && Encode(hrp, values) == hrp + "1" + tail
  {
    hide VerifyChecksum, Encode, CreateChecksum, Reverse;
    var s := hrp + "1" + tail;
    OneIsNoSymbol();
    forall j | |hrp| < j < |s| ensures s[j] != '1' { assert s[j] == tail[j - |hrp| - 1]; }
    SeparatorAt(s, |hrp|);
    assert s[..|hrp|] == hrp && s[|hrp| + 1..] == tail && Plain(s);
    LowerPlain(s);
    LowerPlain(hrp);
    assert (values + w)[..|values + w| - 6] == values;
    DecodeSound(s);
  }

  lemma Expanded(hrp: string, high: data, low: data)
    requires |high| == |low| == |hrp| && forall i :: 0 <= i < |hrp| ==> high[i] == High(hrp[i]) && low[i] == Low(hrp[i])
    ensures ExpandHRP(hrp) == high + [0] + low
  {}

  /** Reading symbols one after the other. */
  lemma SymbolsAre(s: string, values: data)
    requires |s| == |values| && forall i :: 0 <= i < |s| ==> Reverse(s[i]) >= 0 && Reverse(s[i]) as bv5 == values[i]
    ensures AllSymbols(s) && Values(s) == values
  {}

  lemma PlainTail()
    ensures Plain("2uel5l") && Plain("mqqqxw") && Plain("a") && Plain("abcdef")
  {}

  lemma ShortTail()
    ensures AllSymbols("2uel5l") && Values("2uel5l") == [10, 28, 25, 31, 20, 31]
  {
    SymbolsAre("2uel5l", [10, 28, 25, 31, 20, 31]);
  }

  lemma ShortPrefix()
    ensures ExpandHRP("a") == [3, 0, 1]
  {
    Expanded("a", [3], [1]);
  }

  /** The shortest string: a prefix and nothing else. */
  lemma ShortVector()
    ensures Decode("a12uel5l") == Some(("a", [])) && Encode("a", []) == "a12uel5l"
  {
    hide *;
    PlainTail();
    ShortTail();
    ShortPrefix();
    ShortWord();
    Verifies("a", [10, 28, 25, 31, 20, 31], [3, 0, 1]);
    Joined([], [], [10, 28, 25, 31, 20, 31], [10, 28, 25, 31, 20, 31]);
    VectorHolds("a", "2uel5l", [], [10, 28, 25, 31, 20, 31]);
    assert "a" + "1" + "2uel5l" == "a12uel5l";
  }

  const SYMBOLS_IN_ORDER: data :=
    [0, 1, 2, 3, 4, 5, 6, 7, 8, 9, 10, 11, 12, 13, 14, 15]
        + [16, 17, 18, 19, 20, 21, 22, 23, 24, 25, 26, 27, 28, 29, 30, 31]

  lemma InOrder(i: nat)
    requires i < 32
    ensures |SYMBOLS_IN_ORDER| == 32 && i as bv5 == SYMBOLS_IN_ORDER[i]
  {
    if i < 8 {} else if i < 16 {} else if i < 24 {} else {}
  }

  lemma OneSymbol(i: nat)
    requires i < 32
    ensures |CHARSET| == 32 && |SYMBOLS_IN_ORDER| == 32 && Printable(CHARSET[i]) && !IsUpper(CHARSET[i])
    ensures Reverse(CHARSET[i]) == i && i as bv5 == SYMBOLS_IN_ORDER[i]
  {
    hide *;
    CharsetFacts(i);
    ReverseOfCharset(i);
    InOrder(i);
  }

  lemma LongSymbols()
    ensures AllSymbols(CHARSET) && Values(CHARSET) == SYMBOLS_IN_ORDER && Plain(CHARSET)
  {
    hide Reverse, CHARSET, SYMBOLS_IN_ORDER, Printable, IsUpper;
    OneSymbol(0);
    forall i | 0 <= i < 32
      ensures Reverse(CHARSET[i]) == i && i as bv5 == SYMBOLS_IN_ORDER[i] && Printable(CHARSET[i]) && !IsUpper(CHARSET[i])
    {
      OneSymbol(i);
    }
    SymbolsAre(CHARSET, SYMBOLS_IN_ORDER);
  }

  lemma LongTail()
    ensures AllSymbols("mqqqxw") && Values("mqqqxw") == [27, 0, 0, 0, 6, 14]
  {
    SymbolsAre("mqqqxw", [27, 0, 0, 0, 6, 14]);
  }

  lemma LongPrefix()
    ensures ExpandHRP("abcdef") == [3, 3, 3, 3, 3, 3, 0, 1, 2, 3, 4, 5, 6]
  {
    Expanded("abcdef", [3, 3, 3, 3, 3, 3], [1, 2, 3, 4, 5, 6]);
    hide *;
    Joined([3, 3, 3, 3, 3, 3], [0], [1, 2, 3, 4, 5, 6], [0, 1, 2, 3, 4, 5, 6]);
  }

  lemma BothTails(s: string, t: string)
    requires AllSymbols(s) && AllSymbols(t) && Plain(s) && Plain(t)
    ensures AllSymbols(s + t) && Values(s + t) == Values(s) + Values(t) && Plain(s + t)
  {}

  /** Every symbol once, in order. */
  lemma LongVector()
    ensures var s := "abcdef1" + ("qpzry9x8gf2tvdw0" + "s3jn54khce6mua7l") + "mqqqxw";
      Decode(s) == Some(("abcdef", SYMBOLS_IN_ORDER)) && Encode("abcdef", SYMBOLS_IN_ORDER) == s
  {
    hide *;
    PlainTail();
    LongTail();
    LongSymbols();
    LongPrefix();
    BothTails(CHARSET, "mqqqxw");
    LongWord();
    var w: data := [27, 0, 0, 0, 6, 14];
    LongSplit([3, 3, 3, 3, 3, 3, 0, 1, 2, 3, 4, 5, 6], w);
    Verifies("abcdef", SYMBOLS_IN_ORDER + w, [3, 3, 3, 3, 3, 3, 0, 1, 2, 3, 4, 5, 6]);
    InOrder(0);
    CharsetFacts(0);
    VectorHolds("abcdef", CHARSET + "mqqqxw", SYMBOLS_IN_ORDER, w);
    LongString();
  }

  lemma LongSplit(prefix: data, w: data)
    ensures prefix + (SYMBOLS_IN_ORDER + w)
      == prefix + [0, 1, 2, 3, 4, 5, 6, 7, 8, 9, 10, 11, 12, 13, 14, 15]
         + [16, 17, 18, 19, 20, 21, 22, 23, 24, 25, 26, 27, 28, 29, 30, 31] + w
  {}

  lemma LongString()
    ensures "abcdef" + "1" + (CHARSET + "mqqqxw") == "abcdef1" + ("qpzry9x8gf2tvdw0" + "s3jn54khce6mua7l") + "mqqqxw"
  {
    assert CHARSET == "qpzry9x8gf2tvdw0" + "s3jn54khce6mua7l";
    Regroup("abcdef", "1", CHARSET, "mqqqxw", "abcdef1");
  }

  lemma Regroup(a: string, b: string, c: string, d: string, ab: string)
    requires a + b == ab
    ensures a + b + (c + d) == ab + c + d
  {}

  // Strings that are refused: a character below or above the printable range, no separator, an empty prefix, a
  // character that is no symbol, a checksum that is too short, and one computed with a capital prefix.

  lemma RefusedVectors()
    ensures Decode(" 1nwldj5") == None && Decode(['\U{7f}'] + "1axkwrx") == None
    ensures Decode("pzry9x0s0muk") == None && Decode("1pzry9x0s0muk") == None && Decode("10a06t8") == None
    ensures Decode("li1dgmt3") == None
  {
    hide Reverse, VerifyChecksum;
    assert !Printable(" 1nwldj5"[0]) && !Printable((['\U{7f}'] + "1axkwrx")[0]);
    NoSeparator("pzry9x0s0muk");
    SeparatorAt("1pzry9x0s0muk", 0);
    SeparatorAt("10a06t8", 0);
    SeparatorAt("li1dgmt3", 2);
  }

  lemma NoSymbolVector()
    ensures Decode("x1b4n0q5v") == None
  {
    hide VerifyChecksum;
    SeparatorAt("x1b4n0q5v", 1);
    assert "x1b4n0q5v"[2..][0] == 'b' && Reverse('b') == -1;
  }

  lemma WrongTail()
    ensures AllSymbols("G7SGD8") && Values("G7SGD8") == [8, 30, 16, 8, 13, 7]
  {
    SymbolsAre("G7SGD8", [8, 30, 16, 8, 13, 7]);
  }

  lemma CapitalVector()
    ensures Decode("A1G7SGD8") == None
  {
    hide Fold, Step, VerifyChecksum, Reverse, ExpandHRP;
    var s := "A1G7SGD8";
    SeparatorAt(s, 1);
    assert s[2..] == "G7SGD8" && Lower(s[..1]) == "a";
    WrongTail();
    ShortPrefix();
    WrongWord();
    Verifies("a", [8, 30, 16, 8, 13, 7], [3, 0, 1]);
  }

  lemma Verifies(hrp: string, values: data, prefix: data)
    requires ExpandHRP(hrp) == prefix
    ensures VerifyChecksum(hrp, values) <==> PolyMod(prefix + values) == 1
  {}
}
