/**
  Base58 (src/base58.cpp) as functions: what the printer and the parser compute, and that they are inverse
  to each other. Base58Buffers shows that the in-place digit buffers compute the same.
 */
module Base58 {
  import opened Prelude
  import opened Powers

  type byte = n: nat | n < 256

  /** The alphabet, one run of consecutive characters at a time. */
  const ALPHABET: string :=
    "123456789" + "ABCDEFGH" + "JKLMN" + "PQRSTUVWXYZ" + "abcdefghijk" + "mnopqrstuvwxyz"

  // ---------------------------------------------------------------- numerals

  ghost predicate Digits(base: nat, s: seq<nat>)
  {
    forall i :: 0 <= i < |s| ==> s[i] < base
  }

  predicate Canonical(s: seq<nat>) { s != [] ==> s[0] != 0 }

  /** The number a big-endian digit sequence stands for. */
  function Value(base: nat, s: seq<nat>): (v: nat)
    decreases |s|
  {
    if s == [] then 0 else Value(base, s[..|s| - 1]) * base + s[|s| - 1]
  }

  /** The digits of a number without leading zeros. */
  function Numeral(base: nat, v: nat): (s: seq<nat>)
    requires base > 1
    ensures Digits(base, s) && Canonical(s) && (v > 0 ==> s != [])
    decreases v
  {
    if v == 0 then []
    else
      assert v / base < v by { Smaller(v, base); }
      Numeral(base, v / base) + [v % base]
  }

  lemma Smaller(v: nat, base: nat)
    requires v > 0 && base > 1
    ensures v / base < v
  {
    if v / base >= v { MulMonotone(v, v / base, base); MulStrict(1, base, v); }
  }

  lemma {:induction false} NumeralValue(base: nat, v: nat)
    requires base > 1
    ensures Value(base, Numeral(base, v)) == v
    decreases v
  {
    if v > 0 {
      Smaller(v, base);
      NumeralValue(base, v / base);
      AppendDigit(base, Numeral(base, v / base), v % base);
    }
  }

  lemma AppendDigit(base: nat, s: seq<nat>, d: nat)
    ensures Value(base, s + [d]) == Value(base, s) * base + d
  {
    assert (s + [d])[..|s|] == s;
  }

  lemma {:induction false} ValuePositive(base: nat, s: seq<nat>)
    requires base > 1 && s != [] && Canonical(s)
    ensures Value(base, s) > 0
    decreases |s|
  {
    if |s| > 1 {
      ValuePositive(base, s[..|s| - 1]);
      MulStrict(0, Value(base, s[..|s| - 1]), base);
    } else {
      assert Value(base, s[..0]) == 0;
    }
  }

  /** A canonical digit sequence is the numeral of its value. */
  lemma {:induction false} ValueNumeral(base: nat, s: seq<nat>)
    requires base > 1 && Digits(base, s) && Canonical(s)
    ensures Numeral(base, Value(base, s)) == s
    decreases |s|
  {
    if s != [] {
      var init, d := s[..|s| - 1], s[|s| - 1];
      ValueNumeral(base, init);
      ValuePositive(base, s);
      DivUnique(Value(base, s), base, Value(base, init), d);
      assert s == init + [d];
    }
  }

  lemma {:induction false} ValueSplit(base: nat, s: seq<nat>, t: seq<nat>)
    ensures Value(base, s + t) == Value(base, s) * Pow(base, |t|) + Value(base, t)
    decreases |t|
  {
    if t == [] {
      assert s + t == s;
    } else {
      var init, d := t[..|t| - 1], t[|t| - 1];
      ValueSplit(base, s, init);
      assert (s + t)[..|s + t| - 1] == s + init;
      SplitStep(Value(base, s), Pow(base, |init|), Value(base, init), base);
      MulCommutes(Pow(base, |init|), base);
    }
  }

  lemma SplitStep(v: nat, p: nat, w: nat, base: nat)
    ensures (v * p + w) * base == v * (p * base) + w * base
  {
    MulAssoc(v, p, base);
  }

  lemma {:induction false} ValueZeros(base: nat, s: seq<nat>)
    requires forall i :: 0 <= i < |s| ==> s[i] == 0
    ensures Value(base, s) == 0
    decreases |s|
  {
    if s != [] { ValueZeros(base, s[..|s| - 1]); }
  }

  /** Leading zeros do not count. */
  lemma ValueStripped(base: nat, s: seq<nat>, k: nat)
    requires k <= |s| && forall i :: 0 <= i < k ==> s[i] == 0
    ensures Value(base, s) == Value(base, s[k..])
  {
    ValueSplit(base, s[..k], s[k..]);
    assert s == s[..k] + s[k..];
    ValueZeros(base, s[..k]);
  }

  lemma {:induction false} ValueBound(base: nat, s: seq<nat>)
    requires base > 0 && Digits(base, s)
    ensures Value(base, s) < Pow(base, |s|)
    decreases |s|
  {
    if s != [] {
      ValueBound(base, s[..|s| - 1]);
      MulMonotone(Value(base, s[..|s| - 1]) + 1, Pow(base, |s| - 1), base);
      MulCommutes(Pow(base, |s| - 1), base);
      assert (Value(base, s[..|s| - 1]) + 1) * base == Value(base, s[..|s| - 1]) * base + base;
    }
  }

  // ---------------------------------------------------------------- symbols

  predicate IsSpace(c: char) { c == ' ' || 9 <= c as int <= 13 }

  predicate Spaces(s: string) { forall i :: 0 <= i < |s| ==> IsSpace(s[i]) }

  /** The i-th symbol of the alphabet. */
  function Symbol(i: nat): (c: char)
    requires i < 58
  {
    var code :=
      if i < 9 then 49 + i else if i < 17 then 56 + i else if i < 22 then 57 + i
      else if i < 33 then 58 + i else if i < 44 then 64 + i else 65 + i;
    code as char
  }

  /** The digit of a symbol, 58 for any other character. */
  function Digit(c: char): (i: nat)
    ensures i <= 58
  {
    var code := c as int;
    if 49 <= code < 58 then code - 49 else if 65 <= code < 73 then code - 56 else if 74 <= code < 79 then code - 57
    else if 80 <= code < 91 then code - 58 else if 97 <= code < 108 then code - 64 else if 109 <= code < 123 then code - 65
    else 58
  }

  predicate IsSymbol(c: char) { Digit(c) < 58 }

  predicate Symbols(s: string) { forall i :: 0 <= i < |s| ==> IsSymbol(s[i]) }

  lemma SymbolDigit(i: nat)
    requires i < 58
    ensures Digit(Symbol(i)) == i
  {}

  lemma DigitSymbol(c: char)
    requires IsSymbol(c)
    ensures Symbol(Digit(c)) == c
  {}

  /** The position strchr finds, or the length. */
  function Find(s: string, c: char): (i: nat)
    ensures i <= |s| && (i < |s| ==> s[i] == c) && forall j :: 0 <= j < i ==> s[j] != c
  {
    if s == [] || s[0] == c then 0 else 1 + Find(s[1..], c)
  }

  lemma AlphabetSpelled(i: nat)
    requires i < 58
    ensures |ALPHABET| == 58 && ALPHABET[i] == Symbol(i)
  {}

  /** Symbol and Digit are indexing and searching in the alphabet. */
  lemma DigitFound(c: char)
    ensures Find(ALPHABET, c) == Digit(c)
  {
    AlphabetSpelled(0);
    var k := Find(ALPHABET, c);
    if k < 58 {
      AlphabetSpelled(k);
      SymbolDigit(k);
    } else if IsSymbol(c) {
      AlphabetSpelled(Digit(c));
      DigitSymbol(c);
    }
  }

  /** Symbols are printable; only the first one is the digit '1'. */
  lemma SymbolFacts(c: char)
    requires IsSymbol(c)
    ensures !IsSpace(c) && c as int != 0 && (c == '1' <==> Digit(c) == 0)
  {}

  function Spell(digits: seq<nat>): (s: string)
    requires Digits(58, digits)
    ensures |s| == |digits| && forall i :: 0 <= i < |s| ==> s[i] == Symbol(digits[i])
  {
    seq(|digits|, i requires 0 <= i < |digits| => Symbol(digits[i]))
  }

  function Indices(s: string): (digits: seq<nat>)
    requires Symbols(s)
    ensures |digits| == |s| && Digits(58, digits) && forall i :: 0 <= i < |s| ==> digits[i] == Digit(s[i])
  {
    seq(|s|, i requires 0 <= i < |s| => Digit(s[i]))
  }

  lemma IndicesOfSpelled(digits: seq<nat>)
    requires Digits(58, digits)
    ensures Symbols(Spell(digits)) && Indices(Spell(digits)) == digits
  {
    forall i | 0 <= i < |digits| ensures IsSymbol(Spell(digits)[i]) && Digit(Spell(digits)[i]) == digits[i] {
      SymbolDigit(digits[i]);
    }
  }

  lemma SpelledIndices(s: string)
    requires Symbols(s)
    ensures Spell(Indices(s)) == s
  {
    forall i | 0 <= i < |s| ensures Symbol(Digit(s[i])) == s[i] { DigitSymbol(s[i]); }
  }

  // ---------------------------------------------------------------- the codec

  function Repeat<T>(x: T, n: nat): (s: seq<T>)
    ensures |s| == n && forall i :: 0 <= i < n ==> s[i] == x
  {
    seq(n, _ => x)
  }

  /** How many times x stands at the front. */
  function Leading<T(==)>(s: seq<T>, x: T): (n: nat)
    ensures n <= |s| && (forall i :: 0 <= i < n ==> s[i] == x) && (n < |s| ==> s[n] != x)
  {
    if s == [] || s[0] != x then 0 else 1 + Leading(s[1..], x)
  }

  /** The characters before the terminating NUL. */
  function CString(s: string): (r: string)
  {
    if s == [] || s[0] as int == 0 then [] else [s[0]] + CString(s[1..])
  }

  function LeadingSpaces(s: string): (n: nat)
    ensures n <= |s| && (forall i :: 0 <= i < n ==> IsSpace(s[i])) && (n < |s| ==> !IsSpace(s[n]))
  {
    if s == [] || !IsSpace(s[0]) then 0 else 1 + LeadingSpaces(s[1..])
  }

  /** The length of the token at the front. */
  function TokenLength(s: string): (n: nat)
    ensures n <= |s| && (forall i :: 0 <= i < n ==> !IsSpace(s[i])) && (n < |s| ==> IsSpace(s[n]))
  {
    if s == [] || IsSpace(s[0]) then 0 else 1 + TokenLength(s[1..])
  }

  function Bytes(s: seq<nat>): (r: seq<byte>)
    requires Digits(256, s)
    ensures r == s
  {
    seq(|s|, i requires 0 <= i < |s| => s[i])
  }

  /** z zero bytes and a number. */
  function Join(z: nat, v: nat): (vch: seq<byte>)
  {
    Repeat(0, z) + Bytes(Numeral(256, v))
  }

  /** z ones and a number. */
  function Print(z: nat, v: nat): (s: string)
  {
    Repeat('1', z) + Spell(Numeral(58, v))
  }

  function EncodeBase58(vch: seq<byte>): (str: string)
  {
    var zeroes := Leading(vch, 0);
    Print(zeroes, Value(256, vch[zeroes..]))
  }

  /** The parser behind the leading spaces and ones. */
  function DecodeToken(zeroes: nat, s: string): (r: Option<seq<byte>>)
  {
    var n := TokenLength(s);
    if !Symbols(s[..n]) then None
    else if n + LeadingSpaces(s[n..]) != |s| then None
    else Some(Join(zeroes, Value(58, Indices(s[..n]))))
  }

  function DecodeBase58(str: string): (r: Option<seq<byte>>)
  {
    var psz := CString(str);
    var s := psz[LeadingSpaces(psz)..];
    var zeroes := Leading(s, '1');
    DecodeToken(zeroes, s[zeroes..])
  }

  // ---------------------------------------------------------------- both sides are a count and a number

  lemma LeadingIs<T>(s: seq<T>, x: T, n: nat)
    requires n <= |s| && (forall i :: 0 <= i < n ==> s[i] == x) && (n < |s| ==> s[n] != x)
    ensures Leading(s, x) == n
  {}

  lemma JoinOfParts(vch: seq<byte>)
    ensures vch == Join(Leading(vch, 0), Value(256, vch[Leading(vch, 0)..]))
  {
    var z := Leading(vch, 0);
    ValueNumeral(256, vch[z..]);
    assert vch[..z] == Repeat(0, z);
    assert vch == vch[..z] + vch[z..];
  }

  lemma PartsOfJoin(z: nat, v: nat)
    ensures Leading(Join(z, v), 0) == z && Value(256, Join(z, v)[z..]) == v
  {
    var bytes := Bytes(Numeral(256, v));
    assert Join(z, v)[z..] == bytes;
    if bytes != [] { assert Join(z, v)[z] == bytes[0]; }
    LeadingIs(Join(z, v), 0, z);
    NumeralValue(256, v);
  }

  lemma PrintOfParts(s: string)
    requires Symbols(s)
    ensures s == Print(Leading(s, '1'), Value(58, Indices(s[Leading(s, '1')..])))
  {
    var z := Leading(s, '1');
    var digits := Indices(s[z..]);
    if digits != [] { SymbolFacts(s[z]); }
    ValueNumeral(58, digits);
    SpelledIndices(s[z..]);
    SplitOnes(s, z);
  }

  lemma SplitOnes(s: string, z: nat)
    requires z <= |s| && forall i :: 0 <= i < z ==> s[i] == '1'
    ensures s == Repeat('1', z) + s[z..]
  {}

  lemma PartsOfPrint(z: nat, v: nat)
    ensures Symbols(Print(z, v)) && Leading(Print(z, v), '1') == z && Value(58, Indices(Print(z, v)[z..])) == v
  {
    var digits := Numeral(58, v);
    IndicesOfSpelled(digits);
    assert IsSymbol('1');
    assert Print(z, v)[z..] == Spell(digits);
    if digits != [] {
      assert Print(z, v)[z] == Spell(digits)[0];
      SymbolFacts(Spell(digits)[0]);
    }
    LeadingIs(Print(z, v), '1', z);
    NumeralValue(58, v);
  }

  // ---------------------------------------------------------------- inverse

  lemma {:induction false} CStringIs(s: string)
    requires forall i :: 0 <= i < |s| ==> s[i] as int != 0
    ensures CString(s) == s
  {
    if s != [] { CStringIs(s[1..]); }
  }

  lemma {:induction false} CStringPlain(s: string)
    ensures forall i :: 0 <= i < |CString(s)| ==> CString(s)[i] as int != 0
  {
    if s != [] && s[0] as int != 0 {
      CStringPlain(s[1..]);
    }
  }

  lemma SymbolsPlain(s: string)
    requires Symbols(s)
    ensures forall i :: 0 <= i < |s| ==> !IsSpace(s[i]) && s[i] as int != 0
  {
    forall i | 0 <= i < |s| ensures !IsSpace(s[i]) && s[i] as int != 0 { SymbolFacts(s[i]); }
  }

  lemma LeadingSpacesIs(s: string, n: nat)
    requires n <= |s| && (forall i :: 0 <= i < n ==> IsSpace(s[i])) && (n < |s| ==> !IsSpace(s[n]))
    ensures LeadingSpaces(s) == n
  {}

  lemma TokenLengthIs(s: string, n: nat)
    requires n <= |s| && (forall i :: 0 <= i < n ==> !IsSpace(s[i])) && (n < |s| ==> IsSpace(s[n]))
    ensures TokenLength(s) == n
  {}

  /** What the parser makes of symbols between spaces. */
  lemma DecodeSpaced(front: string, s: string, back: string)
    requires Spaces(front) && Symbols(s) && Spaces(back)
    ensures DecodeBase58(front + s + back) == Some(Join(Leading(s, '1'), Value(58, Indices(s[Leading(s, '1')..]))))
  {
    var str := front + s + back;
    SymbolsPlain(s);
    CStringIs(str);
    var z := Leading(s, '1');
    if s == [] {
      DecodeNothing(str);
    } else {
      LeadingSpacesIs(str, |front|);
      assert str[|front|..] == s + back;
      DecodeOnes(s, back);
    }
  }

  lemma DecodeOnes(s: string, back: string)
    requires s != [] && Symbols(s) && Spaces(back)
    ensures Leading(s + back, '1') == Leading(s, '1')
    ensures DecodeToken(Leading(s, '1'), (s + back)[Leading(s, '1')..])
         == Some(Join(Leading(s, '1'), Value(58, Indices(s[Leading(s, '1')..]))))
  {
    var z := Leading(s, '1');
    LeadingIs(s + back, '1', z);
    assert (s + back)[z..] == s[z..] + back;
    DecodeTokenSpaced(z, s[z..], back);
  }

  lemma DecodeNothing(str: string)
    requires Spaces(str) && CString(str) == str
    ensures DecodeBase58(str) == Some(Join(0, Value(58, Indices([]))))
  {
    LeadingSpacesIs(str, |str|);
    assert str[|str|..] == [];
    LeadingIs("", '1', 0);
    DecodeTokenSpaced(0, "", "");
    assert "" + "" == "";
  }

  lemma DecodeTokenSpaced(zeroes: nat, s: string, back: string)
    requires Symbols(s) && Spaces(back)
    ensures DecodeToken(zeroes, s + back) == Some(Join(zeroes, Value(58, Indices(s))))
  {
    SymbolsPlain(s);
    TokenLengthIs(s + back, |s|);
    assert (s + back)[..|s|] == s && (s + back)[|s|..] == back;
    LeadingSpacesIs(back, |back|);
  }

  /** Parsing a printed byte string gives the bytes back, whatever they are and whatever spaces surround it. */
  lemma DecodeEncode(front: string, vch: seq<byte>, back: string)
    requires Spaces(front) && Spaces(back)
    ensures DecodeBase58(front + EncodeBase58(vch) + back) == Some(vch)
  {
    PartsOfPrint(Leading(vch, 0), Value(256, vch[Leading(vch, 0)..]));
    DecodeSpaced(front, EncodeBase58(vch), back);
    JoinOfParts(vch);
  }

  /** Printing a parsed symbol string gives the string back. */
  lemma EncodeParsed(s: string)
    requires Symbols(s)
    ensures EncodeBase58(Join(Leading(s, '1'), Value(58, Indices(s[Leading(s, '1')..])))) == s
  {
    PartsOfJoin(Leading(s, '1'), Value(58, Indices(s[Leading(s, '1')..])));
    PrintOfParts(s);
  }

  /** Every string over the alphabet parses, and prints back as it was. */
  lemma EncodeDecode(s: string)
    requires Symbols(s)
    ensures DecodeBase58(s).Some? && EncodeBase58(DecodeBase58(s).value) == s
  {
    DecodeSpaced("", s, "");
    assert "" + s + "" == s;
    EncodeParsed(s);
  }

  /** The accepted strings: symbols between spaces. */
  lemma DecodeAccepts(str: string) returns (front: string, s: string, back: string)
    requires DecodeBase58(str).Some?
    ensures CString(str) == front + s + back && Spaces(front) && Symbols(s) && Spaces(back)
  {
    var psz := CString(str);
    var a := LeadingSpaces(psz);
    front := psz[..a];
    s, back := OnesAccepted(psz[a..]);
    Rejoin(psz, a, s, back);
  }

  lemma Rejoin(psz: string, a: nat, s: string, back: string)
    requires a <= |psz| && psz[a..] == s + back
    ensures psz == psz[..a] + s + back
  {
    assert psz == psz[..a] + psz[a..];
  }

  lemma TokenAccepted(z: nat, u: string)
    requires DecodeToken(z, u).Some?
    ensures Symbols(u[..TokenLength(u)]) && Spaces(u[TokenLength(u)..])
  {
    hide Digit, Symbol, Join, Value, TokenLength, LeadingSpaces;
  }

  lemma OnesAccepted(t: string) returns (s: string, back: string)
    requires DecodeToken(Leading(t, '1'), t[Leading(t, '1')..]).Some?
    ensures t == s + back && Symbols(s) && Spaces(back)
  {
    hide DecodeToken, Symbols, Spaces, TokenLength;
    var z := Leading(t, '1');
    var u := t[z..];
    var n := TokenLength(u);
    s, back := t[..z + n], u[n..];
    assert back == t[z + n..];
    TokenAccepted(z, u);
    OnesAndSymbols(t, z, n);
  }

  lemma OnesAndSymbols(t: string, z: nat, n: nat)
    requires z + n <= |t| && (forall i :: 0 <= i < z ==> t[i] == '1') && Symbols(t[z..][..n])
    ensures Symbols(t[..z + n])
  {
    forall i | 0 <= i < z + n ensures IsSymbol(t[i]) {
      if i >= z { assert t[i] == t[z..][..n][i - z]; }
    }
  }

  ghost predicate Surrounds(str: string, s: string, front: string, back: string)
  {
    CString(str) == front + s + back && forall c :: c in front + back ==> c == ' ' || 9 <= c as int <= 13
  }

  /** str is s between spaces, up to its terminating NUL. */
  ghost predicate Holds(str: string, s: string)
  {
    exists front, back :: Surrounds(str, s, front, back)
  }

  lemma Blank(front: string, back: string)
    ensures Spaces(front) && Spaces(back) <==> forall c :: c in front + back ==> c == ' ' || 9 <= c as int <= 13
  {
    forall i | 0 <= i < |front| ensures front[i] in front + back {}
    forall i | 0 <= i < |back| ensures back[i] in front + back {}
  }

  lemma HeldWhenDecoded(str: string, vch: seq<byte>)
    requires DecodeBase58(str) == Some(vch)
    ensures Holds(str, EncodeBase58(vch))
  {
    hide DecodeBase58, EncodeBase58, CString, Spaces;
    var front, s, back := DecodeAccepts(str);
    SamePrefix(str);
    DecodeSpaced(front, s, back);
    EncodeParsed(s);
    Blank(front, back);
    assert Surrounds(str, EncodeBase58(vch), front, back);
  }

  /** The parser is exactly the inverse of the printer, up to surrounding spaces. */
  lemma DecodeExact(str: string, vch: seq<byte>)
    ensures DecodeBase58(str) == Some(vch) <==> Holds(str, EncodeBase58(vch))
  {
    hide DecodeBase58, EncodeBase58, CString, Spaces;
    if DecodeBase58(str) == Some(vch) {
      HeldWhenDecoded(str, vch);
    }
    if Holds(str, EncodeBase58(vch)) {
      var front, back :| Surrounds(str, EncodeBase58(vch), front, back);
      Blank(front, back);
      DecodeEncode(front, vch, back);
      SamePrefix(str);
    }
  }

  /** Only the characters before the NUL matter. */
  lemma SamePrefix(str: string)
    ensures DecodeBase58(CString(str)) == DecodeBase58(str)
  {
    CStringPlain(str);
    CStringIs(CString(str));
  }

  // ---------------------------------------------------------------- with checksum

  type Four = s: seq<byte> | |s| == 4 witness [0, 0, 0, 0]

  /** `sum` stands for the first four bytes of the double hash. */
  function EncodeBase58Check(sum: seq<byte> -> Four, vch: seq<byte>): (str: string)
  {
    EncodeBase58(vch + sum(vch))
  }

  function DecodeBase58Check(sum: seq<byte> -> Four, str: string): (r: Option<seq<byte>>)
  {
    var r := DecodeBase58(str);
    if r.None? || |r.value| < 4 then None
    else
      var n := |r.value| - 4;
      if sum(r.value[..n]) != r.value[n..] then None else Some(r.value[..n])
  }

  /** A payload is accepted exactly from its own printed form, spaces aside. */
  lemma DecodeCheckExact(sum: seq<byte> -> Four, str: string, vch: seq<byte>)
    ensures DecodeBase58Check(sum, str) == Some(vch) <==> Holds(str, EncodeBase58Check(sum, vch))
  {
    DecodeExact(str, vch + sum(vch));
    CheckSplits(sum, str, vch);
  }

  lemma CheckSplits(sum: seq<byte> -> Four, str: string, vch: seq<byte>)
    ensures DecodeBase58Check(sum, str) == Some(vch) <==> DecodeBase58(str) == Some(vch + sum(vch))
  {
    var r := DecodeBase58(str);
    if r.Some? && |r.value| >= 4 {
      var n := |r.value| - 4;
      assert r.value == r.value[..n] + r.value[n..];
    }
    assert (vch + sum(vch))[..|vch|] == vch && (vch + sum(vch))[|vch|..] == sum(vch);
  }
}
