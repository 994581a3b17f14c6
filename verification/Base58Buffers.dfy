/**
  The in-place digit buffers of src/base58.cpp: both directions multiply a big-endian number by one base
  and add a digit in the other, in a buffer sized by a rational approximation of the logarithm.
 */
module Base58Buffers {
  import opened Prelude
  import opened Powers
  import opened Base58

  // ---------------------------------------------------------------- the buffers suffice

  lemma Squares58()
    ensures Pow(58, 2) == 3364 && Pow(58, 4) == 11316496 && Pow(58, 8) == 128063081718016
    ensures Pow(58, 16) == 16400152899115243850138976256
    ensures Pow(58, 32) == 268965015114358137726910587140455987105619365599731777536
  {
    PowAdd(58, 1, 1);
    PowAdd(58, 2, 2);
    PowAdd(58, 4, 4);
    PowAdd(58, 8, 8);
    PowAdd(58, 16, 16);
  }

  lemma Squares256()
    ensures Pow(256, 2) == 0x1_0000 && Pow(256, 4) == 0x1_0000_0000
    ensures Pow(256, 8) == 0x1_0000_0000_0000_0000
    ensures Pow(256, 16) == 0x1_0000_0000_0000_0000_0000_0000_0000_0000
  {
    PowAdd(256, 1, 1);
    PowAdd(256, 2, 2);
    PowAdd(256, 4, 4);
    PowAdd(256, 8, 8);
  }

  /** 19/26 of the logarithms. */
  lemma NineteenBytes()
    ensures Pow(256, 19) <= Pow(58, 26)
  {
    Squares58();
    Squares256();
    PowAdd(58, 16, 8);
    PowAdd(58, 24, 2);
    PowAdd(256, 16, 2);
    PowAdd(256, 18, 1);
  }

  lemma FortyThreeSymbols()
    ensures Pow(58, 43) == 6720533081161609950612561534326096425053356165724989121353049538245544640512
  {
    Squares58();
    PowAdd(58, 32, 8);
    assert Pow(58, 40) == 34444488709877454747081479018851205589883534409595458615323760395288576;
    PowAdd(58, 40, 2);
    assert Pow(58, 42) == 115871260020027757769182095419415455604368209753879122781949129969750769664;
    PowAdd(58, 42, 1);
  }

  lemma ThirtyOneBytes()
    ensures Pow(256, 31) == 452312848583266388373324160190187140051835877600158453279131187530910662656
  {
    Squares256();
    PowAdd(256, 16, 8);
    assert Pow(256, 24) == 6277101735386680763835789423207666416102355444464034512896;
    PowAdd(256, 24, 4);
    assert Pow(256, 28) == 26959946667150639794667015087019630673637144422540572481103610249216;
    PowAdd(256, 28, 2);
    assert Pow(256, 30) == 1766847064778384329583297500742918515827483896875618958121606201292619776;
    PowAdd(256, 30, 1);
  }

  /** 86/63 of the logarithms. */
  lemma EightySixSymbols()
    ensures Pow(58, 86) <= Pow(256, 63)
  {
    FortyThreeSymbols();
    ThirtyOneBytes();
    PowAdd(58, 43, 43);
    PowAdd(256, 31, 31);
    assert Pow(256, 62) == 204586912993508866875824356051724947013540127877691549342705710506008362275292159680204380770369009821930417757972504438076078534117837065833032974336;
    PowAdd(256, 62, 1);
  }

  /** No power of 256 is a multiple of 29, and every positive power of 58 is. */
  lemma {:induction false} NotBy29(n: nat)
    ensures Pow(256, n) % 29 != 0
  {
    if n > 0 {
      NotBy29(n - 1);
      Times256(Pow(256, n - 1));
    }
  }

  lemma Times256(x: nat)
    requires x % 29 != 0
    ensures 256 * x % 29 != 0
  {}

  lemma By29(n: nat)
    requires n > 0
    ensures Pow(58, n) % 29 == 0
  {
    Times58(Pow(58, n - 1));
  }

  lemma Times58(x: nat)
    ensures 58 * x % 29 == 0
  {
    assert 58 * x == 29 * (2 * x);
  }

  lemma EncodeBufferAtMost(n: nat)
    ensures Pow(256, n) <= Pow(58, n * 138 / 100 + 1)
  {
    NineteenBytes();
    var m := n * 138 / 100 + 1;
    RatioBound(256, 58, 19, 26, n, m, n * 19, 26 * n, m * 19);
  }

  lemma DecodeBufferAtMost(n: nat)
    ensures Pow(58, n) <= Pow(256, n * 733 / 1000 + 1)
  {
    EightySixSymbols();
    var m := n * 733 / 1000 + 1;
    RatioBound(58, 256, 86, 63, n, m, n * 86, 63 * n, m * 86);
  }

  lemma Apart(a: nat, b: nat)
    requires a <= b && (a % 29 == 0) != (b % 29 == 0)
    ensures a < b
  {}

  /** EncodeBase58's buffer of 138/100 n + 1 digits holds every number of n bytes. */
  lemma EncodeBufferSuffices(n: nat)
    ensures Pow(256, n) < Pow(58, n * 138 / 100 + 1)
  {
    var m := n * 138 / 100 + 1;
    EncodeBufferAtMost(n);
    NotBy29(n);
    By29(m);
    Apart(Pow(256, n), Pow(58, m));
  }

  /** DecodeBase58's buffer of 733/1000 n + 1 bytes holds every number of n symbols. */
  lemma DecodeBufferSuffices(n: nat)
    ensures Pow(58, n) < Pow(256, n * 733 / 1000 + 1)
  {
    var m := n * 733 / 1000 + 1;
    if n == 0 {
      assert Pow(256, 1) == 256 * Pow(256, 0);
    } else {
      DecodeBufferAtMost(n);
      NotBy29(m);
      By29(n);
      Apart(Pow(58, n), Pow(256, m));
    }
  }

  // ---------------------------------------------------------------- one round: buffer = buffer * from + digit

  /** The first digits, down to the used ones, are zero. */
  ghost predicate FreeBelow(s: seq<nat>, length: nat)
  {
    length <= |s| && forall i :: 0 <= i < |s| - length ==> s[i] == 0
  }

  lemma PrependDigit(base: nat, d: nat, s: seq<nat>)
    ensures Value(base, [d] + s) == d * Pow(base, |s|) + Value(base, s)
  {
    ValueSplit(base, [d], s);
    assert [d][..0] == [];
    assert Value(base, [d]) == d;
  }

  /** One step of the carry: d the old digit, p the weight of its place, c the carry with the digit added. */
  lemma CarryStep(from: int, to: int, digit: int, d: int, p: int, value: int, was: int, carry: int, c: int)
    requires to > 0 && value + carry * p == from * was + digit && c == carry + from * d
    ensures (c % to) * p + value + (c / to) * (to * p) == from * (d * p + was) + digit
  {
    assert c == (c / to) * to + c % to;
    MulAssoc(c / to, to, p);
    Distribute((c / to) * to, c % to, p);
    Distribute(carry, from * d, p);
    MulAssoc(from, d, p);
    Distribute2(from, d * p, was);
  }

  lemma Distribute(x: int, y: int, p: int)
    ensures (x + y) * p == x * p + y * p
  {}

  lemma Distribute2(x: int, y: int, z: int)
    ensures x * (y + z) == x * y + x * z
  {}

  lemma CarryStays(from: nat, to: nat, d: nat, carry: nat)
    requires to > 0
    ensures (carry + from * d) / to >= 0 && 0 <= (carry + from * d) % to < to
  {
    MulMonotone(0, from, d);
  }

  lemma CarryGone(carry: int, p: int, v: int, w: int, full: bool)
    requires carry >= 0 && v >= 0 && p > 0 && v + carry * p == w
    requires if full then w < p else carry == 0
    ensures carry == 0 && v == w
  {
    if carry > 0 { MulMonotone(1, carry, p); }
  }

  /** The loop invariant: the part already rewritten, with the carry on top, is the multiple of what was there. */
  ghost predicate Rewritten(from: nat, to: nat, digit: nat, was: seq<nat>, now: seq<nat>, i: nat, carry: int)
  {
    && |was| == |now| && i <= |was| && carry >= 0 && to > 0 && Digits(to, now)
    && now[..|now| - i] == was[..|was| - i]
    && Value(to, now[|now| - i..]) + carry * Pow(to, i) == from * Value(to, was[|was| - i..]) + digit
  }

  lemma RewriteStarts(from: nat, to: nat, digit: nat, was: seq<nat>)
    requires to > 0 && Digits(to, was)
    ensures Rewritten(from, to, digit, was, was, 0, digit)
  {
    assert was[|was|..] == [];
    assert from * 0 == 0;
  }

  lemma RewriteStep(from: nat, to: nat, digit: nat, was: seq<nat>, now: seq<nat>, i: nat, carry: int)
    requires Rewritten(from, to, digit, was, now, i, carry) && i < |was|
    ensures var j := |was| - 1 - i; var c := carry + from * now[j];
      0 <= c % to < to && Rewritten(from, to, digit, was, now[j := c % to], i + 1, c / to)
  {
    var j := |was| - 1 - i;
    assert now[j] == now[..j + 1][j] == was[j];
    CarryStays(from, to, now[j], carry);
    var c := carry + from * now[j];
    var next := now[j := c % to];
    PrependDigit(to, was[j], was[j + 1..]);
    PrependDigit(to, c % to, now[j + 1..]);
    assert next[j..] == [c % to] + now[j + 1..] && was[j..] == [was[j]] + was[j + 1..];
    assert next[..j] == was[..j] by { assert next[..j] == now[..j + 1][..j] && was[..j] == was[..j + 1][..j]; }
    CarryStep(from, to, digit, was[j], Pow(to, i), Value(to, now[j + 1..]), Value(to, was[j + 1..]), carry, c);
  }

  /** What a round leaves, seen from where it stopped. */
  lemma RoundDone(from: nat, to: nat, digit: nat, old_: seq<nat>, new_: seq<nat>, length: nat, i: nat, carry: int)
    requires Rewritten(from, to, digit, old_, new_, i, carry) && FreeBelow(old_, length)
    requires i == |old_| || (carry == 0 && i >= length)
    requires from * Value(to, old_) + digit < Pow(to, |old_|)
    ensures carry == 0 && Value(to, new_) == from * Value(to, old_) + digit && FreeBelow(new_, i)
  {
    var k := |old_| - i;
    if i < |old_| || i >= length {
      assert forall j :: 0 <= j < k ==> old_[..k][j] == old_[j] && new_[..k][j] == new_[j];
    }
    ValueStripped(to, new_, k);
    ValueStripped(to, old_, k);
    CarryGone(carry, Pow(to, i), Value(to, new_), from * Value(to, old_) + digit, i == |old_|);
  }

  /** The inner loop of both directions. The assert that no carry remains holds because the buffer is large
      enough for the new number. */
  method MulAdd(buf: array<byte>, from: nat, to: nat, length: nat, digit: nat) returns (newLength: nat)
    requires 1 < to <= 256 && Digits(to, buf[..]) && FreeBelow(buf[..], length)
    requires from * Value(to, buf[..]) + digit < Pow(to, buf.Length)
    modifies buf
    ensures Value(to, buf[..]) == from * Value(to, old(buf[..])) + digit
    ensures Digits(to, buf[..]) && FreeBelow(buf[..], newLength)
  {
    var size := buf.Length;
    ghost var was := buf[..];
    var carry: int, i := digit, 0;
    RewriteStarts(from, to, digit, was);
    while (carry != 0 || i < length) && i < size
      invariant i <= size && Rewritten(from, to, digit, was, buf[..], i, carry)
    {
      var j := size - 1 - i;
      ghost var now := buf[..];
      RewriteStep(from, to, digit, was, now, i, carry);
      carry := carry + from * buf[j];
      buf[j] := carry % to;
      carry := carry / to;
      assert buf[..] == now[j := buf[j]];
      i := i + 1;
    }
    RoundDone(from, to, digit, was, buf[..], length, i, carry);
    assert carry == 0;
    newLength := i;
  }

  // ---------------------------------------------------------------- skipping zeros

  /** The digits from the first one that is not zero on. */
  method StripZeros(buf: array<byte>, base: nat, length: nat) returns (digits: seq<byte>)
    requires base > 1 && Digits(base, buf[..]) && FreeBelow(buf[..], length)
    ensures digits == Numeral(base, Value(base, buf[..]))
  {
    var it := buf.Length - length;
    while it != buf.Length && buf[it] == 0
      invariant it <= buf.Length && forall i :: 0 <= i < it ==> buf[i] == 0
    {
      it := it + 1;
    }
    digits := buf[it..];
    ValueStripped(base, buf[..], it);
    assert buf[..][it..] == digits;
    ValueNumeral(base, digits);
  }

  /** All bytes but one are the number's higher part. */
  lemma NextDigit(base: nat, s: seq<nat>, k: nat)
    requires k < |s| && base > 0 && Digits(base, s)
    ensures Value(base, s[..k + 1]) == Value(base, s[..k]) * base + s[k]
    ensures Value(base, s[..k + 1]) < Pow(base, |s|)
  {
    assert s[..k + 1] == s[..k] + [s[k]];
    AppendDigit(base, s[..k], s[k]);
    ValueBound(base, s[..k + 1]);
    PowMonotone(base, k + 1, |s|);
  }

  // ---------------------------------------------------------------- printing

  method EncodeBase58(vch: seq<byte>) returns (str: string)
    ensures str == Base58.EncodeBase58(vch)
  {
    var zeroes := 0;
    while zeroes < |vch| && vch[zeroes] == 0
      invariant zeroes <= |vch| && forall i :: 0 <= i < zeroes ==> vch[i] == 0
    {
      zeroes := zeroes + 1;
    }
    LeadingIs(vch, 0, zeroes);
    var digits := EncodeDigits(vch[zeroes..]);
    str := Repeat('1', zeroes);
    ghost var ones := str;
    for i := 0 to |digits|
      invariant str == ones + Spell(digits)[..i]
    {
      AlphabetSpelled(digits[i]);
      str := str + [ALPHABET[digits[i]]];
      assert Spell(digits)[..i + 1] == Spell(digits)[..i] + [Symbol(digits[i])];
    }
    assert Spell(digits)[..|digits|] == Spell(digits);
  }

  method EncodeDigits(bytes: seq<byte>) returns (digits: seq<byte>)
    ensures digits == Numeral(58, Value(256, bytes))
  {
    var size := |bytes| * 138 / 100 + 1;
    var b58 := new byte[size](_ => 0);
    EncodeBufferSuffices(|bytes|);
    ValueZeros(58, b58[..]);
    var length := 0;
    for k := 0 to |bytes|
      invariant Digits(58, b58[..]) && FreeBelow(b58[..], length)
      invariant Value(58, b58[..]) == Value(256, bytes[..k])
    {
      NextDigit(256, bytes, k);
      length := MulAdd(b58, 256, 58, length, bytes[k]);
    }
    assert bytes[..|bytes|] == bytes;
    digits := StripZeros(b58, 58, length);
  }

  // ---------------------------------------------------------------- parsing

  /** The loop over the symbols up to a space; `end` is where it stopped. */
  method DecodeSymbols(psz: string) returns (ok: bool, end: nat, bytes: seq<byte>)
    ensures end <= |psz| && (ok ==> end == TokenLength(psz))
    ensures ok == Symbols(psz[..TokenLength(psz)])
    ensures ok ==> bytes == Numeral(256, Value(58, Indices(psz[..end])))
  {
    var size := |psz| * 733 / 1000 + 1;
    var b256 := new byte[size](_ => 0);
    ValueZeros(256, b256[..]);
    var length := 0;
    end := 0;
    while end < |psz| && !IsSpace(psz[end])
      invariant end <= TokenLength(psz) && Symbols(psz[..end])
      invariant FreeBelow(b256[..], length)
      invariant Value(256, b256[..]) == Value(58, Indices(psz[..end]))
    {
      var ch := Find(ALPHABET, psz[end]);
      DigitFound(psz[end]);
      AlphabetSpelled(0);
      if ch == |ALPHABET| {
        assert psz[..TokenLength(psz)][end] == psz[end];
        return false, end, [];
      }
      NextSymbol(psz, end);
      length := MulAdd(b256, 58, 256, length, ch);
      end := end + 1;
    }
    bytes := StripZeros(b256, 256, length);
    return true, end, bytes;
  }

  lemma NextSymbol(psz: string, k: nat)
    requires k < |psz| && Symbols(psz[..k]) && IsSymbol(psz[k])
    ensures Symbols(psz[..k + 1])
    ensures Value(58, Indices(psz[..k + 1])) == 58 * Value(58, Indices(psz[..k])) + Digit(psz[k])
    ensures Value(58, Indices(psz[..k + 1])) < Pow(256, |psz| * 733 / 1000 + 1)
  {
    var s, t := psz[..k], psz[..k + 1];
    assert t == s + [psz[k]];
    AppendSymbol(s, psz[k]);
    SymbolsFit(Indices(t), |psz|);
  }

  lemma AppendSymbol(s: string, c: char)
    requires Symbols(s) && IsSymbol(c)
    ensures Symbols(s + [c]) && Value(58, Indices(s + [c])) == 58 * Value(58, Indices(s)) + Digit(c)
  {
    assert Indices(s + [c]) == Indices(s) + [Digit(c)];
    AppendDigit(58, Indices(s), Digit(c));
  }

  lemma SymbolsFit(digits: seq<nat>, n: nat)
    requires Digits(58, digits) && |digits| <= n
    ensures Value(58, digits) < Pow(256, n * 733 / 1000 + 1)
  {
    ValueBound(58, digits);
    PowMonotone(58, |digits|, n);
    DecodeBufferSuffices(n);
  }

  method SkipSpaces(psz: string, from: nat) returns (end: nat)
    requires from <= |psz|
    ensures end == from + LeadingSpaces(psz[from..])
  {
    end := from;
    while end < |psz| && IsSpace(psz[end])
      invariant from <= end <= |psz| && forall i :: from <= i < end ==> IsSpace(psz[i])
    {
      end := end + 1;
    }
    LeadingSpacesIs(psz[from..], end - from);
  }

  method DecodeBase58(str: string) returns (r: Option<seq<byte>>)
    ensures r == Base58.DecodeBase58(str)
  {
    var psz := CString(str);
    var start := SkipSpaces(psz, 0);
    assert psz[0..] == psz;
    psz := psz[start..];
    var zeroes := 0;
    while zeroes < |psz| && psz[zeroes] == '1'
      invariant zeroes <= |psz| && forall i :: 0 <= i < zeroes ==> psz[i] == '1'
    {
      zeroes := zeroes + 1;
    }
    LeadingIs(psz, '1', zeroes);
    psz := psz[zeroes..];
    var ok, end, bytes := DecodeSymbols(psz);
    if !ok {
      return None;
    }
    end := SkipSpaces(psz, end);
    if end != |psz| {
      return None;
    }
    r := Some(Repeat(0, zeroes) + bytes);
  }

  // ---------------------------------------------------------------- with checksum

  method EncodeBase58Check(sum: seq<byte> -> Four, vchIn: seq<byte>) returns (str: string)
    ensures str == Base58.EncodeBase58Check(sum, vchIn)
  {
    var vch := vchIn + sum(vchIn);
    str := EncodeBase58(vch);
  }

  method DecodeBase58Check(sum: seq<byte> -> Four, str: string) returns (r: Option<seq<byte>>)
    ensures r == Base58.DecodeBase58Check(sum, str)
  {
    r := DecodeBase58(str);
    if r.None? || |r.value| < 4 {
      return None;
    }
    var n := |r.value| - 4;
    if sum(r.value[..n]) != r.value[n..] {
      return None;
    }
    r := Some(r.value[..n]);
  }

  /** What is printed with its checksum is what is read back. */
  method PrintAndParse(sum: seq<byte> -> Four, vch: seq<byte>) returns (r: Option<seq<byte>>)
    ensures r == Some(vch)
  {
    var str := EncodeBase58Check(sum, vch);
    PartsOfPrint(Leading(vch + sum(vch), 0), Value(256, (vch + sum(vch))[Leading(vch + sum(vch), 0)..]));
    SymbolsPlain(str);
    CStringIs(str);
    assert Surrounds(str, str, "", "");
    DecodeCheckExact(sum, str, vch);
    r := DecodeBase58Check(sum, str);
  }
}
