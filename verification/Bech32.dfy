/**
  Bech32 strings (src/bech32.cpp): the checksum's guarantees, and printing and parsing as functions that are
  inverse to each other in Bech32Strings.
 */
module Bech32 {
  import opened Prelude
  import opened LinearFold
  import opened Bech32Code

  const CHARSET: string := "qpzry9x8gf2tvdw0" + "s3jn54khce6mua7l"

  /** The reverse table, sixteen character codes a row. */
  const CHARSET_REV: seq<seq<int>> := [
    [-1, -1, -1, -1, -1, -1, -1, -1, -1, -1, -1, -1, -1, -1, -1, -1],
    [-1, -1, -1, -1, -1, -1, -1, -1, -1, -1, -1, -1, -1, -1, -1, -1],
    [-1, -1, -1, -1, -1, -1, -1, -1, -1, -1, -1, -1, -1, -1, -1, -1],
    [15, -1, 10, 17, 21, 20, 26, 30,  7,  5, -1, -1, -1, -1, -1, -1],
    [-1, 29, -1, 24, 13, 25,  9,  8, 23, -1, 18, 22, 31, 27, 19, -1],
    [ 1,  0,  3, 16, 11, 28, 12, 14,  6,  4,  2, -1, -1, -1, -1, -1],
    [-1, 29, -1, 24, 13, 25,  9,  8, 23, -1, 18, 22, 31, 27, 19, -1],
    [ 1,  0,  3, 16, 11, 28, 12, 14,  6,  4,  2, -1, -1, -1, -1, -1]
  ]

  // ---------------------------------------------------------------- the checksum

  function High(c: char): (r: bv5) { (c as int / 32 % 32) as bv5 }

  function Low(c: char): (r: bv5) { (c as int % 32) as bv5 }

  /** The prefix as symbols: high bits, a zero, low bits. */
  function ExpandHRP(hrp: string): (r: data)
    ensures |r| == 2 * |hrp| + 1
  {
    seq(|hrp|, i requires 0 <= i < |hrp| => High(hrp[i])) + [0] + seq(|hrp|, i requires 0 <= i < |hrp| => Low(hrp[i]))
  }

  predicate VerifyChecksum(hrp: string, values: data)
  {
    PolyMod(ExpandHRP(hrp) + values) == 1
  }

  const ZEROS: data := [0, 0, 0, 0, 0, 0]

  function Group(mod: word, i: nat): (g: bv5)
    requires i < 6
  {
    var shifted := if i == 0 then mod >> 25 else if i == 1 then mod >> 20 else if i == 2 then mod >> 15
      else if i == 3 then mod >> 10 else if i == 4 then mod >> 5 else mod;
    (shifted & 31) as bv5
  }

  /** The 5-bit groups of a word, high ones first. */
  function Groups(mod: word): (r: data)
    ensures |r| == 6
  {
    [Group(mod, 0), Group(mod, 1), Group(mod, 2), Group(mod, 3), Group(mod, 4), Group(mod, 5)]
  }

  function CreateChecksum(hrp: string, values: data): (r: data)
    ensures |r| == 6
  {
    Groups(XorWord(PolyMod(ExpandHRP(hrp) + values + ZEROS), 1))
  }

  lemma PackPrefix(w: data, k: nat)
    requires k < |w|
    ensures Pack(w[..k + 1]) == PackOne(Pack(w[..k]), w[k])
  {
    assert w[..k + 1][..k] == w[..k];
  }

  lemma HighGroups(mod: word)
    ensures PackOne(0, Group(mod, 0)) == mod >> 25
    ensures PackOne(mod >> 25, Group(mod, 1)) == mod >> 20
  {}

  lemma MiddleGroups(mod: word)
    ensures PackOne(mod >> 20, Group(mod, 2)) == mod >> 15
    ensures PackOne(mod >> 15, Group(mod, 3)) == mod >> 10
  {}

  lemma LowGroups(mod: word)
    ensures PackOne(mod >> 10, Group(mod, 4)) == mod >> 5
    ensures PackOne(mod >> 5, Group(mod, 5)) == mod
  {}

  lemma PackGroups(mod: word)
    ensures Pack(Groups(mod)) == mod
  {
    var w := Groups(mod);
    HighGroups(mod);
    MiddleGroups(mod);
    LowGroups(mod);
    PackPrefix(w, 0);
    PackPrefix(w, 1);
    PackPrefix(w, 2);
    PackPrefix(w, 3);
    PackPrefix(w, 4);
    PackPrefix(w, 5);
    assert w[..0] == [] && w[..6] == w;
  }

  lemma XorZeros(w: data)
    requires |w| == 6
    ensures Xor(ZEROS, w) == w
  {
    forall i | 0 <= i < 6 ensures XorSymbol(ZEROS[i], w[i]) == w[i] {}
  }

  lemma XorOne(p: word)
    ensures XorWord(p, XorWord(p, 1)) == 1 && XorWord(p, 0) == p
  {}

  /** Six symbols in place of zeros add themselves, packed, to the remainder. */
  lemma EndSymbols(c: word, w: data)
    requires |w| == 6
    ensures Poly(c, w) == XorWord(Poly(c, ZEROS), Pack(w))
  {
    PolyLinear(c, 0, ZEROS, w);
    XorZeros(w);
    PolyPacks(w);
    XorOne(c);
  }

  /** Every created checksum verifies. */
  lemma ChecksumVerifies(hrp: string, values: data)
    ensures VerifyChecksum(hrp, values + CreateChecksum(hrp, values))
  {
    var e, w := ExpandHRP(hrp) + values, CreateChecksum(hrp, values);
    var c := PolyMod(e);
    FoldAppend(Step, 1, e, ZEROS);
    FoldAppend(Step, 1, e, w);
    EndSymbols(c, w);
    PackGroups(XorWord(Poly(c, ZEROS), 1));
    XorOne(Poly(c, ZEROS));
    assert ExpandHRP(hrp) + (values + w) == e + w;
  }

  /** The two parts differ in no position outside [lo, hi). */
  predicate DifferWithin(u: data, v: data, lo: nat, hi: nat)
  {
    |u| == |v| && lo <= hi <= |u| && forall k :: 0 <= k < |u| && !(lo <= k < hi) ==> u[k] == v[k]
  }

  lemma Differences(c: word, u: data, v: data)
    requires |u| == |v| <= 6 && Poly(c, u) == Poly(c, v)
    ensures u == v
  {
    PolyLinear(c, c, u, v);
    XorCancels(Poly(c, u), 0);
    XorCancels(c, 0);
    PolyPacks(Xor(u, v));
    PackZero(Xor(u, v));
    forall i | 0 <= i < |u| ensures u[i] == v[i] {
      assert Xor(u, v)[i] == XorSymbol(u[i], v[i]);
      SymbolsCancel(u[i], v[i]);
    }
  }

  lemma SymbolsCancel(a: bv5, b: bv5)
    requires XorSymbol(a, b) == 0
    ensures a == b
  {}

  /** Errors confined to a window of six symbols are always detected: two data parts that differ only there
      never both verify under one prefix. */
  lemma WindowDetected(hrp: string, u: data, v: data, lo: nat, hi: nat)
    requires DifferWithin(u, v, lo, hi) && hi - lo <= 6 && VerifyChecksum(hrp, u) && VerifyChecksum(hrp, v)
    ensures u == v
  {
    var e := ExpandHRP(hrp);
    var front, back := u[..lo], u[hi..];
    assert v[..lo] == front && v[hi..] == back;
    assert u == front + u[lo..hi] + back && v == front + v[lo..hi] + back;
    ThreeParts(e, front, u[lo..hi], back);
    ThreeParts(e, front, v[lo..hi], back);
    var c := Poly(PolyMod(e), front);
    PolyInjective(Poly(c, u[lo..hi]), Poly(c, v[lo..hi]), back);
    Differences(c, u[lo..hi], v[lo..hi]);
  }

  lemma ThreeParts(e: data, a: data, b: data, c: data)
    ensures PolyMod(e + (a + b + c)) == Poly(Poly(Poly(PolyMod(e), a), b), c)
  {
    FoldAppend(Step, 1, e, a + b + c);
    FoldAppend(Step, PolyMod(e), a + b, c);
    FoldAppend(Step, PolyMod(e), a, b);
  }

  /** The checksum is the only one: whatever else verifies carries it. */
  lemma ChecksumUnique(hrp: string, values: data, w: data)
    requires |w| == 6 && VerifyChecksum(hrp, values + w)
    ensures w == CreateChecksum(hrp, values)
  {
    ChecksumVerifies(hrp, values);
    var u, v := values + w, values + CreateChecksum(hrp, values);
    WindowDetected(hrp, u, v, |values|, |values| + 6);
    assert u[|values|..] == w && v[|values|..] == CreateChecksum(hrp, values);
  }

  // ---------------------------------------------------------------- symbols

  function Symbol(v: bv5): (c: char)
  {
    CHARSET[v as nat]
  }

  predicate Printable(c: char) { 33 <= c as int <= 126 }

  predicate IsLower(c: char) { 97 <= c as int <= 122 }

  predicate IsUpper(c: char) { 65 <= c as int <= 90 }

  function LowerCase(c: char): (r: char)
  {
    if IsUpper(c) then (c as int + 32) as char else c
  }

  lemma TableShape(r: nat, c: nat)
    requires r < 8 && c < 16
    ensures |CHARSET_REV| == 8 && |CHARSET_REV[r]| == 16 && -1 <= CHARSET_REV[r][c] < 32
  {}

  /** The value of a character, -1 when it has none. */
  function Reverse(c: char): (rev: int)
    ensures -1 <= rev < 32
  {
    if !Printable(c) then -1
    else
      TableShape(c as int / 16, c as int % 16);
      CHARSET_REV[c as int / 16][c as int % 16]
  }

  lemma CharsetFacts(i: nat)
    requires i < 32
    ensures |CHARSET| == 32 && Printable(CHARSET[i]) && !IsUpper(CHARSET[i]) && CHARSET[i] != '1'
  {}

  lemma ReverseOfCharset(i: nat)
    requires i < 32
    ensures |CHARSET| == 32 && Reverse(CHARSET[i]) == i
  {
    CharsetFacts(i);
    if i < 8 {} else if i < 16 {} else if i < 24 {} else {}
  }

  lemma CharsetOfReverse(c: char)
    requires Reverse(c) >= 0
    ensures |CHARSET| == 32 && CHARSET[Reverse(c)] == LowerCase(c)
  {
    CharsetFacts(0);
  }
}
