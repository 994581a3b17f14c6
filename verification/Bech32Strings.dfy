/**
  Printing and parsing of Bech32 strings (src/bech32.cpp): exactly inverse to each other, up to the case of the
  letters. Bech32Loops carries out the loops of the C++ code.
 */
module Bech32Strings {
  import opened Prelude
  import opened LinearFold
  import opened Bech32Code
  import opened Bech32

  // ---------------------------------------------------------------- printing and parsing as functions

  function Spell(values: data): (s: string)
    ensures |s| == |values| && forall i :: 0 <= i < |s| ==> s[i] == Symbol(values[i])
  {
    seq(|values|, i requires 0 <= i < |values| => Symbol(values[i]))
  }

  function Encode(hrp: string, values: data): (s: string)
    ensures |s| == |hrp| + |values| + 7
  {
    hrp + "1" + Spell(values + CreateChecksum(hrp, values))
  }

  predicate AllPrintable(s: string) { forall i :: 0 <= i < |s| ==> Printable(s[i]) }

  predicate MixedCase(s: string)
  {
    (exists i :: 0 <= i < |s| && IsLower(s[i])) && (exists i :: 0 <= i < |s| && IsUpper(s[i]))
  }

  /** The last position of the separator; its absence is -1. */
  function LastOne(s: string): (pos: int)
    ensures -1 <= pos < |s| && (pos >= 0 ==> s[pos] == '1') && forall j :: pos < j < |s| ==> s[j] != '1'
    decreases |s|
  {
    if s == [] then -1 else if s[|s| - 1] == '1' then |s| - 1 else LastOne(s[..|s| - 1])
  }

  predicate AllSymbols(s: string) { forall i :: 0 <= i < |s| ==> Reverse(s[i]) >= 0 }

  function Values(s: string): (r: data)
    requires AllSymbols(s)
    ensures |r| == |s| && forall i :: 0 <= i < |r| ==> r[i] == Reverse(s[i]) as bv5
  {
    seq(|s|, i requires 0 <= i < |s| => Reverse(s[i]) as bv5)
  }

  function Lower(s: string): (r: string)
    ensures |r| == |s| && forall i :: 0 <= i < |r| ==> r[i] == LowerCase(s[i])
  {
    seq(|s|, i requires 0 <= i < |s| => LowerCase(s[i]))
  }

  /** The part of the parser behind the character and length checks. */
  function DecodeParts(hrp: string, tail: string): (r: Option<(string, data)>)
    requires |tail| >= 6
  {
    if !AllSymbols(tail) then None
    else
      var values := Values(tail);
      if !VerifyChecksum(hrp, values) then None else Some((hrp, values[..|values| - 6]))
  }

  /** Characters, case, length and separator are as they should be. */
  predicate WellFormed(s: string)
  {
    AllPrintable(s) && !MixedCase(s) && |s| <= 90 && LastOne(s) > 0 && LastOne(s) + 7 <= |s|
  }

  function Decode(s: string): (r: Option<(string, data)>)
  {
    if !WellFormed(s) then None
    else DecodeParts(Lower(s[..LastOne(s)]), s[LastOne(s) + 1..])
  }

  // ---------------------------------------------------------------- inverse

  lemma SymbolReverse(v: bv5)
    ensures Reverse(Symbol(v)) >= 0 && Reverse(Symbol(v)) as bv5 == v
    ensures Printable(Symbol(v)) && !IsUpper(Symbol(v)) && Symbol(v) != '1'
  {
    CharsetFacts(v as nat);
    ReverseOfCharset(v as nat);
  }

  lemma ReverseSymbol(c: char)
    requires Reverse(c) >= 0
    ensures Symbol(Reverse(c) as bv5) == LowerCase(c)
  {
    CharsetOfReverse(c);
    SymbolAt(Reverse(c));
  }

  lemma SymbolAt(i: nat)
    requires i < 32
    ensures (i as bv5) as nat == i && |CHARSET| == 32 && Symbol(i as bv5) == CHARSET[i]
  {
    CharsetFacts(i);
  }

  lemma ValuesOfSpelled(values: data)
    ensures AllSymbols(Spell(values)) && Values(Spell(values)) == values
  {
    forall i | 0 <= i < |values| ensures Reverse(Spell(values)[i]) >= 0 && Reverse(Spell(values)[i]) as bv5 == values[i] {
      SymbolReverse(values[i]);
    }
  }

  lemma SpelledValues(s: string)
    requires AllSymbols(s)
    ensures Spell(Values(s)) == Lower(s)
  {
    forall i | 0 <= i < |s| ensures Symbol(Values(s)[i]) == LowerCase(s[i]) { ReverseSymbol(s[i]); }
  }

  lemma SpelledPlain(values: data)
    ensures forall i :: 0 <= i < |values| ==>
      Printable(Spell(values)[i]) && !IsUpper(Spell(values)[i]) && Spell(values)[i] != '1'
  {
    forall i | 0 <= i < |values|
      ensures Printable(Spell(values)[i]) && !IsUpper(Spell(values)[i]) && Spell(values)[i] != '1'
    {
      SymbolReverse(values[i]);
    }
  }

  /** Printable without capitals. */
  predicate Plain(s: string) { forall i :: 0 <= i < |s| ==> Printable(s[i]) && !IsUpper(s[i]) }

  lemma LastOneIs(s: string, pos: nat)
    requires pos < |s| && s[pos] == '1' && forall j :: pos < j < |s| ==> s[j] != '1'
    ensures LastOne(s) == pos
  {}

  lemma EncodeParts(hrp: string, values: data)
    ensures LastOne(Encode(hrp, values)) == |hrp| && Encode(hrp, values)[..|hrp|] == hrp
    ensures Encode(hrp, values)[|hrp| + 1..] == Spell(values + CreateChecksum(hrp, values))
  {
    SpelledPlain(values + CreateChecksum(hrp, values));
    LastOneIs(Encode(hrp, values), |hrp|);
  }

  lemma LowerPlain(s: string)
    requires Plain(s)
    ensures Lower(s) == s && AllPrintable(s) && !MixedCase(s)
  {}

  lemma EncodedPlain(hrp: string, values: data)
    requires Plain(hrp)
    ensures Plain(Encode(hrp, values))
  {
    SpelledPlain(values + CreateChecksum(hrp, values));
    assert Printable('1') && !IsUpper('1');
  }

  /** Parsing what was printed. */
  lemma DecodeEncoded(hrp: string, values: data)
    requires Plain(hrp) && hrp != "" && |hrp| + |values| + 7 <= 90
    ensures Decode(Encode(hrp, values)) == Some((hrp, values))
  {
    EncodeParts(hrp, values);
    EncodedPlain(hrp, values);
    LowerPlain(Encode(hrp, values));
    LowerPlain(hrp);
    var all := values + CreateChecksum(hrp, values);
    ValuesOfSpelled(all);
    ChecksumVerifies(hrp, values);
    assert all[..|all| - 6] == values;
  }

  lemma LowerIsPlain(s: string)
    requires AllPrintable(s)
    ensures Plain(Lower(s))
  {}

  /** The parser returns what prints as the lower-cased input. */
  lemma DecodeSound(s: string)
    requires Decode(s).Some?
    ensures var (hrp, values) := Decode(s).value;
      Lower(s) == Encode(hrp, values) && Plain(hrp) && hrp != "" && |hrp| + |values| + 7 == |s| <= 90
  {
    hide Reverse, Printable, IsUpper, LowerCase, VerifyChecksum, Bech32.CreateChecksum, Spell, Values, LastOne;
    var pos := LastOne(s);
    var hrp, tail := Lower(s[..pos]), s[pos + 1..];
    var all := Values(tail);
    var values, w := all[..|all| - 6], all[|all| - 6..];
    assert all == values + w;
    ChecksumUnique(hrp, values, w);
    SpelledValues(tail);
    LowerIsPlain(s[..pos]);
    LowerPieces(s, pos);
  }

  lemma LowerPieces(s: string, pos: nat)
    requires pos < |s| && s[pos] == '1'
    ensures Lower(s) == Lower(s[..pos]) + "1" + Lower(s[pos + 1..])
    ensures Lower(s)[..pos] == Lower(s[..pos]) && Lower(s)[pos + 1..] == Lower(s[pos + 1..])
  {
    assert LowerCase('1') == '1';
  }

  /** The round trip succeeds exactly for nonempty printable prefixes without capitals that fit the length. */
  lemma RoundTripExact(hrp: string, values: data)
    ensures Decode(Encode(hrp, values)) == Some((hrp, values))
       <==> hrp != "" && Plain(hrp) && |hrp| + |values| + 7 <= 90
  {
    if Decode(Encode(hrp, values)) == Some((hrp, values)) {
      DecodeSound(Encode(hrp, values));
    }
    if hrp != "" && Plain(hrp) && |hrp| + |values| + 7 <= 90 {
      DecodeEncoded(hrp, values);
    }
  }

  lemma ReverseIgnoresCase(c: char)
    requires Printable(c)
    ensures Reverse(LowerCase(c)) == Reverse(c)
  {
    TableShape(c as int / 16, c as int % 16);
  }

  lemma ValuesIgnoreCase(s: string)
    requires AllPrintable(s)
    ensures AllSymbols(Lower(s)) == AllSymbols(s)
    ensures AllSymbols(s) ==> Values(Lower(s)) == Values(s)
  {
    forall i | 0 <= i < |s| ensures Reverse(Lower(s)[i]) == Reverse(s[i]) { ReverseIgnoresCase(s[i]); }
  }

  lemma LowerLastOne(s: string)
    ensures LastOne(Lower(s)) == LastOne(s)
  {
    forall i | 0 <= i < |s| ensures Lower(s)[i] == '1' <==> s[i] == '1' {}
    if LastOne(s) >= 0 { LastOneIs(Lower(s), LastOne(s)); }
  }

  /** A string in one case parses like its lower-case form. */
  lemma DecodeIgnoresCase(s: string)
    requires AllPrintable(s) && !MixedCase(s)
    ensures Decode(Lower(s)) == Decode(s)
  {
    LowerIsPlain(s);
    LowerPlain(Lower(s));
    LowerLastOne(s);
    if WellFormed(s) {
      PartsIgnoreCase(s, LastOne(s));
    }
  }

  lemma PartsIgnoreCase(s: string, pos: nat)
    requires AllPrintable(s) && pos + 7 <= |s| && s[pos] == '1'
    ensures DecodeParts(Lower(Lower(s)[..pos]), Lower(s)[pos + 1..]) == DecodeParts(Lower(s[..pos]), s[pos + 1..])
  {
    LowerPieces(s, pos);
    LowerIsPlain(s[..pos]);
    LowerPlain(Lower(s[..pos]));
    ValuesIgnoreCase(s[pos + 1..]);
  }

  /** The parser is the inverse of the printer: a string is accepted as (hrp, values) exactly when it is
      printable, in one case, at most 90 characters long, and reads like the printed pair. */
  lemma DecodeExact(s: string, hrp: string, values: data)
    ensures Decode(s) == Some((hrp, values)) <==>
      && (forall c :: c in s ==> 33 <= c as int <= 126)
      && !((exists c :: c in s && 'a' <= c <= 'z') && (exists c :: c in s && 'A' <= c <= 'Z'))
      && |hrp| + |values| + 7 == |s| <= 90 && hrp != ""
      && forall i :: 0 <= i < |s| ==>
           Encode(hrp, values)[i] as int == s[i] as int + if 'A' <= s[i] <= 'Z' then 32 else 0
  {
    hide Decode, Encode;
    DecodeByParts(s, hrp, values);
    CharactersExact(s);
    if AllPrintable(s) && |s| == |Encode(hrp, values)| { LowerExact(s, Encode(hrp, values)); }
  }

  lemma CharactersExact(s: string)
    ensures AllPrintable(s) <==> forall c :: c in s ==> 33 <= c as int <= 126
    ensures MixedCase(s) <==> (exists c :: c in s && 'a' <= c <= 'z') && (exists c :: c in s && 'A' <= c <= 'Z')
  {
    forall i | 0 <= i < |s| ensures s[i] in s {}
  }

  lemma LowerExact(s: string, t: string)
    requires AllPrintable(s) && |s| == |t|
    ensures Lower(s) == t <==> forall i :: 0 <= i < |s| ==> t[i] as int == s[i] as int + if 'A' <= s[i] <= 'Z' then 32 else 0
  {
    forall i | 0 <= i < |s|
      ensures t[i] == Lower(s)[i] <==> t[i] as int == s[i] as int + if 'A' <= s[i] <= 'Z' then 32 else 0
    {
      assert Printable(s[i]);
    }
  }

  lemma DecodeByParts(s: string, hrp: string, values: data)
    ensures Decode(s) == Some((hrp, values))
       <==> AllPrintable(s) && !MixedCase(s) && |s| <= 90 && hrp != "" && Lower(s) == Encode(hrp, values)
  {
    if Decode(s) == Some((hrp, values)) {
      DecodeSound(s);
    }
    if AllPrintable(s) && !MixedCase(s) && |s| <= 90 && hrp != "" && Lower(s) == Encode(hrp, values) {
      LowerIsPlain(s);
      EncodeParts(hrp, values);
      assert Plain(hrp) by {
        forall i | 0 <= i < |hrp| ensures Printable(hrp[i]) && !IsUpper(hrp[i]) { assert Lower(s)[i] == Lower(s)[..|hrp|][i]; }
      }
      DecodeEncoded(hrp, values);
      DecodeIgnoresCase(s);
    }
  }
}

/** The loops of src/bech32.cpp, each computing the function of the same name. */
module Bech32Loops {
  import opened Prelude
  import opened LinearFold
  import opened Bech32Code
  import opened Bech32
  import opened Bech32Strings

  method PolyMod(v: data) returns (c: word)
    ensures c == Bech32Code.PolyMod(v)
  {
    c := 1;
    for i := 0 to |v|
      invariant c == Poly(1, v[..i])
    {
      assert v[..i + 1][..i] == v[..i];
      c := Step(c, v[i]);
    }
    assert v[..|v|] == v;
  }

  method ExpandHRP(hrp: string) returns (ret: data)
    ensures ret == Bech32.ExpandHRP(hrp)
  {
    var a := new bv5[|hrp| * 2 + 1](_ => 0);
    for i := 0 to |hrp|
      invariant forall k :: 0 <= k < i ==> a[k] == High(hrp[k]) && a[k + |hrp| + 1] == Low(hrp[k])
    {
      var c := hrp[i];
      a[i] := High(c);
      a[i + |hrp| + 1] := Low(c);
    }
    a[|hrp|] := 0;
    ret := a[..];
    forall k | 0 <= k < |ret| ensures ret[k] == Bech32.ExpandHRP(hrp)[k] {
      if k > |hrp| { assert a[(k - |hrp| - 1) + |hrp| + 1] == Low(hrp[k - |hrp| - 1]); }
    }
  }

  method CreateChecksum(hrp: string, values: data) returns (ret: data)
    ensures ret == Bech32.CreateChecksum(hrp, values)
  {
    var expanded := ExpandHRP(hrp);
    var polymod := PolyMod(expanded + values + ZEROS);
    var mod := XorWord(polymod, 1);
    ret := [];
    for i := 0 to 6
      invariant ret == Groups(mod)[..i]
    {
      assert Groups(mod)[..i + 1] == Groups(mod)[..i] + [Groups(mod)[i]];
      ret := ret + [Group(mod, i)];
    }
    assert Groups(mod)[..6] == Groups(mod);
  }

  method VerifyChecksum(hrp: string, values: data) returns (ok: bool)
    ensures ok == Bech32.VerifyChecksum(hrp, values)
  {
    var expanded := ExpandHRP(hrp);
    var polymod := PolyMod(expanded + values);
    ok := polymod == 1;
  }

  method Encode(hrp: string, values: data) returns (ret: string)
    ensures ret == Bech32Strings.Encode(hrp, values)
  {
    var checksum := CreateChecksum(hrp, values);
    var combined := values + checksum;
    ret := hrp + "1";
    for i := 0 to |combined|
      invariant ret == hrp + "1" + Spell(combined)[..i]
    {
      assert Spell(combined)[..i + 1] == Spell(combined)[..i] + [Symbol(combined[i])];
      CharsetFacts(combined[i] as nat);
      ret := ret + [CHARSET[combined[i] as nat]];
    }
    assert Spell(combined)[..|combined|] == Spell(combined);
  }

  /** The first loop of Decode: the characters are printable and not in mixed case. */
  method CheckCharacters(str: string) returns (ok: bool)
    ensures ok == (AllPrintable(str) && !MixedCase(str))
  {
    var lower, upper := false, false;
    for i := 0 to |str|
      invariant forall k :: 0 <= k < i ==> Printable(str[k])
      invariant lower <==> exists k :: 0 <= k < i && IsLower(str[k])
      invariant upper <==> exists k :: 0 <= k < i && IsUpper(str[k])
    {
      var c := str[i];
      if c as int < 33 || c as int > 126 {
        return false;
      }
      if IsLower(c) {
        lower := true;
      }
      if IsUpper(c) {
        upper := true;
      }
    }
    ok := !(lower && upper);
  }

  lemma NextValue(s: string, c: char)
    requires AllSymbols(s) && Reverse(c) >= 0
    ensures AllSymbols(s + [c]) && Values(s + [c]) == Values(s) + [Reverse(c) as bv5]
  {}

  /** The second loop of Decode. */
  method ReverseAll(str: string) returns (r: Option<data>)
    ensures r == if AllSymbols(str) then Some(Values(str)) else None
  {
    var values: data := [];
    for i := 0 to |str|
      invariant AllSymbols(str[..i]) && values == Values(str[..i])
    {
      var rev := Reverse(str[i]);
      if rev == -1 {
        return None;
      }
      assert str[..i + 1] == str[..i] + [str[i]];
      NextValue(str[..i], str[i]);
      values := values + [rev as bv5];
    }
    assert str[..|str|] == str;
    r := Some(values);
  }

  /** The third loop of Decode. */
  method LowerAll(str: string) returns (hrp: string)
    ensures hrp == Lower(str)
  {
    hrp := "";
    for i := 0 to |str|
      invariant hrp == Lower(str)[..i]
    {
      hrp := hrp + [LowerCase(str[i])];
    }
  }

  /** Decode from the second loop on: the part before the separator and the part behind it. */
  method DecodeTail(front: string, tail: string) returns (r: Option<(string, data)>)
    requires |tail| >= 6
    ensures r == DecodeParts(Lower(front), tail)
  {
    var values := ReverseAll(tail);
    if values.None? {
      return None;
    }
    var hrp := LowerAll(front);
    var ok := VerifyChecksum(hrp, values.value);
    if !ok {
      return None;
    }
    r := Some((hrp, values.value[..|values.value| - 6]));
  }

  method Decode(str: string) returns (r: Option<(string, data)>)
    ensures r == Bech32Strings.Decode(str)
  {
    var ok := CheckCharacters(str);
    if !ok {
      return None;
    }
    var pos := LastOne(str);
    if |str| > 90 || pos == -1 || pos == 0 || pos + 7 > |str| {
      return None;
    }
    r := DecodeTail(str[..pos], str[pos + 1..]);
  }
}
