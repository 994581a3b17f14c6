/**
  The alphabet of Base58, and vectors of src/test/data/base58_encode_decode.json and src/test/base58_tests.cpp, which
  pin the order of digits, the role of leading zeros and the spaces that are skipped.
 */
module Base58Vectors {
  import opened Prelude
  import opened Powers
  import opened Base58

  /** The symbols are the digits and letters without 0, O, I and l, in the order of their character codes. */
  lemma AlphabetExactly(c: char, i: nat, j: nat)
    requires i < j < 58
    ensures IsSymbol(c) <==>
      && ('0' <= c <= '9' || 'A' <= c <= 'Z' || 'a' <= c <= 'z')
      && c != '0' && c != 'O' && c != 'I' && c != 'l'
    ensures Symbol(i) < Symbol(j) && IsSymbol(Symbol(i)) && Digit(Symbol(i)) == i
  {
    SymbolDigit(i);
    SymbolDigit(j);
  }

  lemma NoDigits(base: nat)
    ensures Value(base, []) == 0
  {}

  lemma NextDigit(base: nat, s: seq<nat>, d: nat, t: seq<nat>, v: nat)
    requires s + [d] == t && v == Value(base, s) * base + d
    ensures Value(base, t) == v
  {
    AppendDigit(base, s, d);
  }

  /** Zeros in front and a rest with the same value as the digits. */
  lemma Printed(z: nat, rest: seq<byte>, digits: seq<nat>, vch: seq<byte>, s: string)
    requires |vch| == z + |rest| && (forall i :: 0 <= i < z ==> vch[i] == 0) && vch[z..] == rest && (rest != [] ==> rest[0] != 0)
    requires Digits(58, digits) && Canonical(digits) && Value(256, rest) == Value(58, digits)
    requires |s| == z + |digits| && (forall i :: 0 <= i < z ==> s[i] == '1')
    requires forall i :: 0 <= i < |digits| ==> s[z + i] == Symbol(digits[i])
    ensures EncodeBase58(vch) == s
  {
    hide Value, Numeral;
    LeadingIs(vch, 0, z);
    ValueNumeral(58, digits);
    assert Spell(digits) == s[z..] && Repeat('1', z) == s[..z];
  }

  lemma OneByte()
    ensures EncodeBase58([97]) == "2g"
  {
    hide Value, Numeral, EncodeBase58, Leading;
    NoDigits(256);
    NoDigits(58);
    NextDigit(256, [], 97, [97], 97);
    NextDigit(58, [], 1, [1], 1);
    NextDigit(58, [1], 39, [1, 39], 97);
    Printed(0, [97], [1, 39], [97], "2g");
  }

  lemma ThreeBytes()
    ensures EncodeBase58([98, 98, 98]) == "a3gV"
  {
    hide Value, Numeral, EncodeBase58, Leading;
    NoDigits(256);
    NoDigits(58);
    NextDigit(256, [], 98, [98], 98);
    NextDigit(256, [98], 98, [98, 98], 25186);
    NextDigit(256, [98, 98], 98, [98, 98, 98], 6447714);
    NextDigit(58, [], 33, [33], 33);
    NextDigit(58, [33], 2, [33, 2], 1916);
    NextDigit(58, [33, 2], 39, [33, 2, 39], 111167);
    NextDigit(58, [33, 2, 39], 28, [33, 2, 39, 28], 6447714);
    Printed(0, [98, 98, 98], [33, 2, 39, 28], [98, 98, 98], "a3gV");
  }

  lemma FiveBytes()
    ensures EncodeBase58([81, 107, 111, 205, 15]) == "ABnLTmg"
  {
    hide Value, Numeral, EncodeBase58, Leading;
    NoDigits(256);
    NoDigits(58);
    NextDigit(256, [], 81, [81], 81);
    NextDigit(256, [81], 107, [81, 107], 20843);
    NextDigit(256, [81, 107], 111, [81, 107, 111], 5335919);
    NextDigit(256, [81, 107, 111], 205, [81, 107, 111, 205], 1365995469);
    NextDigit(256, [81, 107, 111, 205], 15, [81, 107, 111, 205, 15], 349694840079);
    NextDigit(58, [], 9, [9], 9);
    NextDigit(58, [9], 10, [9, 10], 532);
    NextDigit(58, [9, 10], 45, [9, 10, 45], 30901);
    NextDigit(58, [9, 10, 45], 19, [9, 10, 45, 19], 1792277);
    NextDigit(58, [9, 10, 45, 19], 26, [9, 10, 45, 19, 26], 103952092);
    NextDigit(58, [9, 10, 45, 19, 26], 44, [9, 10, 45, 19, 26, 44], 6029221380);
    NextDigit(58, [9, 10, 45, 19, 26, 44], 39, [9, 10, 45, 19, 26, 44, 39], 349694840079);
    Printed(0, [81, 107, 111, 205, 15], [9, 10, 45, 19, 26, 44, 39], [81, 107, 111, 205, 15], "ABnLTmg");
  }

  /** Each zero byte in front is a 1. */
  lemma TenZeros()
    ensures EncodeBase58([0, 0, 0, 0, 0, 0, 0, 0, 0, 0]) == "1111111111"
  {
    hide Value, Numeral, EncodeBase58, Leading;
    NoDigits(256);
    NoDigits(58);
    Printed(10, [], [], [0, 0, 0, 0, 0, 0, 0, 0, 0, 0], "1111111111");
  }

  lemma SkipBytes()
    ensures EncodeBase58([151, 26, 85]) == "skip"
  {
    hide Value, Numeral, EncodeBase58, Leading;
    NoDigits(256);
    NoDigits(58);
    NextDigit(256, [], 151, [151], 151);
    NextDigit(256, [151], 26, [151, 26], 38682);
    NextDigit(256, [151, 26], 85, [151, 26, 85], 9902677);
    NextDigit(58, [], 50, [50], 50);
    NextDigit(58, [50], 43, [50, 43], 2943);
    NextDigit(58, [50, 43], 41, [50, 43, 41], 170735);
    NextDigit(58, [50, 43, 41], 47, [50, 43, 41, 47], 9902677);
    Printed(0, [151, 26, 85], [50, 43, 41, 47], [151, 26, 85], "skip");
  }

  /** Spaces on both sides are skipped: blank, tab, line feed, vertical tab, form feed and carriage return. */
  lemma SkipDecoded()
    ensures var (front, back) := (" \t\n\U{b}\U{c}\r ", " \r\U{c}\U{b}\n\t ");
      DecodeBase58(front + "skip" + back) == Some([0x97, 0x1a, 0x55])
  {
    hide EncodeBase58, DecodeBase58;
    SkipBytes();
    DecodeEncode(" \t\n\U{b}\U{c}\r ", [0x97, 0x1a, 0x55], " \r\U{c}\U{b}\n\t ");
  }
}
