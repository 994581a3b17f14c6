/**
  base_uint of src/arith_uint256.h and src/arith_uint256.cpp: 256-bit numbers as eight limbs updated in place.
  Every operation is the operation on integers modulo 2^256.
 */
module ArithUint {
  import opened Prelude
  import opened Powers
  import opened Limbs
  import opened LimbShifts

  /** 2^(32 width). */
  function Modulus(width: nat): (m: nat)
    ensures m > 0
  {
    Pow(BASE, width)
  }

  // ---------------------------------------------------------------- carries

  function Times(x: int, y: int): (r: int) { x * y }

  function Scaled(a: int, v: int, p: int): (r: int) { a * v * p }

  /** One limb of a running sum: x replaces old_, the carry moves up. */
  lemma CarryUp(now: int, n: int, old_: int, carry: int, p: int, total: int)
    requires now + carry * p == total
    ensures (now + (n % BASE - old_) * p) + (n / BASE) * (BASE * p) == total + (n - carry - old_) * p
  {
    assert n == (n / BASE) * BASE + n % BASE;
    MulAssoc(n / BASE, BASE, p);
    Difference(n % BASE, old_, p);
    Difference(n, carry + old_, p);
    assert (carry + old_) * p == carry * p + old_ * p;
    assert ((n / BASE) * BASE + n % BASE) * p == ((n / BASE) * BASE) * p + (n % BASE) * p;
  }

  /** A number with a final carry is the total modulo the width. */
  lemma CarryOut(v: int, carry: int, m: int, total: int)
    requires m > 0 && 0 <= v < m && v + carry * m == total
    ensures v == total % m
  {
    DivUnique(total, m, carry, v);
  }

  /** The sum of two equally long prefixes. */
  lemma AddStep(now: seq<limb>, b: seq<limb>, i: nat, carry: int, total: int, n: int)
    requires i < |now| == |b| && Num(now) + carry * Pow(BASE, i) == total
    requires n == carry + now[i] + b[i] && 0 <= n
    ensures 0 <= n % BASE < BASE
    ensures Num(now[i := n % BASE]) + (n / BASE) * Pow(BASE, i + 1) == total + b[i] * Pow(BASE, i)
  {
    NumUpdate(now, i, n % BASE);
    CarryUp(Num(now), n, now[i], carry, Pow(BASE, i), total);
  }

  lemma MulStep(now: seq<limb>, i: nat, k: nat, carry: int, total: int, n: int, add: int)
    requires k < |now| && Num(now) + carry * Pow(BASE, k) == total
    requires n == carry + now[k] + add && 0 <= n
    ensures 0 <= n % BASE < BASE
    ensures Num(now[k := n % BASE]) + (n / BASE) * Pow(BASE, k + 1) == total + add * Pow(BASE, k)
  {
    NumUpdate(now, k, n % BASE);
    CarryUp(Num(now), n, now[k], carry, Pow(BASE, k), total);
  }

  /** The 64-bit product with a carry never overflows, and its high half is a limb again. */
  lemma ProductFits(x: limb, y: limb, c: limb, d: limb)
    ensures 0 <= c + d + x * y < BASE * BASE && (c + d + x * y) / BASE < BASE
  {
    MulMonotone(x, BASE - 1, y);
    MulMonotone(0, x, y);
    assert x * y <= (BASE - 1) * (BASE - 1);
  }

  /** The complement of every limb. */
  lemma {:induction false} NumComplement(s: seq<limb>, t: seq<limb>)
    requires |s| == |t| && forall i :: 0 <= i < |s| ==> t[i] == BASE - 1 - s[i]
    ensures Num(t) == Pow(BASE, |s|) - 1 - Num(s)
    decreases |s|
  {
    if s != [] {
      var n := |s| - 1;
      NumComplement(s[..n], t[..n]);
      Difference(BASE - 1, s[n], Pow(BASE, n));
      assert (BASE - 1) * Pow(BASE, n) == BASE * Pow(BASE, n) - Pow(BASE, n);
    }
  }

  /** Limbs that are all ones. */
  lemma {:induction false} NumOnes(s: seq<limb>)
    requires forall i :: 0 <= i < |s| ==> s[i] == BASE - 1
    ensures Num(s) == Pow(BASE, |s|) - 1
    decreases |s|
  {
    if s != [] {
      var n := |s| - 1;
      NumOnes(s[..n]);
      assert (BASE - 1) * Pow(BASE, n) == BASE * Pow(BASE, n) - Pow(BASE, n);
    }
  }

  /** Two sequences that agree from i on differ by their first i limbs. */
  lemma NumTail(s: seq<limb>, t: seq<limb>, i: nat)
    requires |s| == |t| && i <= |s| && forall k :: i <= k < |s| ==> s[k] == t[k]
    ensures Num(s) - Num(s[..i]) == Num(t) - Num(t[..i])
  {
    NumSplit(s, i);
    NumSplit(t, i);
    assert s[i..] == t[i..];
  }

  /** Incrementing: i all-ones limbs have become zero, the next one is one larger. */
  lemma IncrementDone(was: seq<limb>, now: seq<limb>, i: nat)
    requires |was| == |now| && i <= |was|
    requires forall k :: 0 <= k < i ==> was[k] == BASE - 1 && now[k] == 0
    requires forall k :: i < k < |was| ==> now[k] == was[k]
    requires i < |was| ==> now[i] as int == was[i] as int + 1
    ensures Num(now) == (Num(was) + 1) % Pow(BASE, |was|)
  {
    NumBound(now);
    if i < |was| {
      IncrementLimb(was, now, i);
      CarryOut(Num(now), 0, Pow(BASE, |was|), Num(was) + 1);
    } else {
      NumOnes(was);
      NumZero(now);
      CarryOut(Num(now), 1, Pow(BASE, |was|), Num(was) + 1);
    }
  }

  lemma IncrementLimb(was: seq<limb>, now: seq<limb>, i: nat)
    requires |was| == |now| && i < |was|
    requires forall k :: 0 <= k < i ==> was[k] == BASE - 1 && now[k] == 0
    requires forall k :: i < k < |was| ==> now[k] == was[k]
    requires now[i] as int == was[i] as int + 1
    ensures Num(now) == Num(was) + 1
  {
    NumOnes(was[..i]);
    NumZero(now[..i]);
    NumTail(was, now, i + 1);
    NumPrefix(was, i);
    NumPrefix(now, i);
    Difference(was[i], -1, Pow(BASE, i));
  }

  lemma DecrementDone(was: seq<limb>, now: seq<limb>, i: nat)
    requires |was| == |now| && i <= |was|
    requires forall k :: 0 <= k < i ==> was[k] == 0 && now[k] == BASE - 1
    requires forall k :: i < k < |was| ==> now[k] == was[k]
    requires i < |was| ==> now[i] as int == was[i] as int - 1
    ensures Num(now) == (Num(was) - 1) % Pow(BASE, |was|)
  {
    IncrementDone(now, was, i);
    NumBound(was);
    NumBound(now);
    Predecessor(Num(was), Num(now), Pow(BASE, |was|));
  }

  lemma Predecessor(a: int, b: int, m: int)
    requires 0 <= a < m && 0 <= b < m && a == (b + 1) % m
    ensures b == (a - 1) % m
  {
    if b + 1 == m {
      DivUnique(m, m, 1, 0);
      DivUnique(a - 1, m, -1, b);
    } else {
      DivUnique(b + 1, m, 0, b + 1);
      DivUnique(a - 1, m, 0, b);
    }
  }

  /** A number below the modulus plus the complement of another: subtraction. */
  lemma SubtractMod(a: int, b: int, m: int)
    requires m > 0 && 0 <= a < m && 0 <= b < m
    ensures (a + (m - b) % m) % m == (a - b) % m
  {
    if b == 0 {
      DivUnique(m, m, 1, 0);
    } else {
      DivUnique(m - b, m, 0, m - b);
      if a >= b {
        DivUnique(a + m - b, m, 1, a - b);
        DivUnique(a - b, m, 0, a - b);
      } else {
        DivUnique(a + m - b, m, 0, a + m - b);
        DivUnique(a - b, m, -1, a - b + m);
      }
    }
  }

  /** Dropping the high limbs of a factor does not show below the width. */
  lemma TruncatedRow(pre: int, a: int, low: int, high: int, y: int, p: int, q: int, v: int, carry: int, m: int)
    requires m > 0 && p * q == m && 0 <= v < m && y == low + high * q
    requires v + Times(carry, m) == pre + Scaled(a, low, p)
    ensures v == (pre + Scaled(a, y, p)) % m
  {
    TruncatedSum(a, low, high, y, p, q, carry, m);
    CarryOut(v, carry + a * high, m, pre + a * y * p);
  }

  lemma TruncatedSum(a: int, low: int, high: int, y: int, p: int, q: int, carry: int, m: int)
    requires p * q == m && y == low + high * q
    ensures (carry + a * high) * m == carry * m + (a * y * p - a * low * p)
  {
    assert y * p == low * p + high * (p * q);
    MulAssoc(a, y, p);
    MulAssoc(a, low, p);
    MulAssoc(a, high, m);
    assert a * (y * p) == a * (low * p) + a * (high * m);
    assert (carry + a * high) * m == carry * m + (a * high) * m;
  }

  lemma ModAdd(x: int, y: int, m: int)
    requires m > 0
    ensures (x % m + y) % m == (x + y) % m
  {
    var q := x / m;
    assert x == q * m + x % m;
    var r := (x % m + y) / m;
    assert x + y == (q + r) * m + (x % m + y) % m;
    DivUnique(x + y, m, q + r, (x % m + y) % m);
  }

  class base_uint {
    const pn: array<limb>

    /** The template's static assertion, and room for a 64-bit value. */
    ghost predicate Valid() { pn.Length >= 2 }

    function Value(): (v: nat)
      reads pn
    {
      Num(pn[..])
    }

    constructor (width: nat)
      requires width >= 2
      ensures Valid() && fresh(pn) && pn.Length == width && Value() == 0
    {
      pn := new limb[width](_ => 0);
      new;
      NumZero(pn[..]);
    }

    constructor Copy(b: base_uint)
      requires b.Valid()
      ensures Valid() && fresh(pn) && pn[..] == b.pn[..]
    {
      pn := new limb[b.pn.Length](i requires 0 <= i < b.pn.Length reads b.pn => b.pn[i]);
    }

    /** operator+=(const base_uint&). The argument may be the number itself. */
    method Add(b: base_uint)
      requires Valid() && b.pn.Length == pn.Length
      modifies pn
      ensures Value() == (old(Value()) + old(b.Value())) % Modulus(pn.Length)
    {
      ghost var x, y := pn[..], b.pn[..];
      var carry: int := 0;
      for i := 0 to pn.Length
        invariant 0 <= carry <= 1 && forall k :: i <= k < pn.Length ==> pn[k] == x[k] && b.pn[k] == y[k]
        invariant Num(pn[..]) + carry * Pow(BASE, i) == Num(x) + Num(y[..i])
      {
        var n := carry + pn[i] + b.pn[i];
        ghost var now := pn[..];
        AddStep(now, y, i, carry, Num(x) + Num(y[..i]), n);
        NumPrefix(y, i);
        pn[i] := n % BASE;
        assert pn[..] == now[i := pn[i]];
        carry := n / BASE;
      }
      assert y[..pn.Length] == y;
      NumBound(pn[..]);
      CarryOut(Num(pn[..]), carry, Modulus(pn.Length), Num(x) + Num(y));
    }

    /** Unary minus. */
    method Negate() returns (ret: base_uint)
      requires Valid()
      ensures ret.pn.Length == pn.Length && fresh(ret) && fresh(ret.pn)
      ensures ret.Value() == (Modulus(pn.Length) - Value()) % Modulus(pn.Length)
    {
      ret := Complement();
      ret.Increment();
    }

    /** operator~. */
    method Complement() returns (ret: base_uint)
      requires Valid()
      ensures ret.pn.Length == pn.Length && fresh(ret) && fresh(ret.pn)
      ensures ret.Value() == Modulus(pn.Length) - 1 - Value()
    {
      ret := new base_uint(pn.Length);
      for i := 0 to pn.Length
        invariant forall k :: 0 <= k < i ==> ret.pn[k] == BASE - 1 - pn[k]
      {
        ret.pn[i] := BASE - 1 - pn[i];
      }
      NumComplement(pn[..], ret.pn[..]);
    }

    /** Prefix ++. */
    method Increment()
      requires Valid()
      modifies pn
      ensures Value() == (old(Value()) + 1) % Modulus(pn.Length)
    {
      ghost var was := pn[..];
      var i := 0;
      while i < pn.Length && pn[i] == BASE - 1
        invariant i <= pn.Length && forall k :: 0 <= k < i ==> was[k] == BASE - 1 && pn[k] == 0
        invariant forall k :: i <= k < pn.Length ==> pn[k] == was[k]
      {
        pn[i] := 0;
        i := i + 1;
      }
      if i < pn.Length {
        pn[i] := pn[i] + 1;
      }
      IncrementDone(was, pn[..], i);
    }

    /** Prefix --. */
    method Decrement()
      requires Valid()
      modifies pn
      ensures Value() == (old(Value()) - 1) % Modulus(pn.Length)
    {
      ghost var was := pn[..];
      var i := 0;
      while i < pn.Length && pn[i] == 0
        invariant i <= pn.Length && forall k :: 0 <= k < i ==> was[k] == 0 && pn[k] == BASE - 1
        invariant forall k :: i <= k < pn.Length ==> pn[k] == was[k]
      {
        pn[i] := BASE - 1;
        i := i + 1;
      }
      if i < pn.Length {
        pn[i] := pn[i] - 1;
      }
      DecrementDone(was, pn[..], i);
    }

    /** operator-=. */
    method Subtract(b: base_uint)
      requires Valid() && b.pn.Length == pn.Length
      modifies pn
      ensures Value() == (old(Value()) - old(b.Value())) % Modulus(pn.Length)
    {
      ghost var v, w, m := Value(), b.Value(), Modulus(pn.Length);
      NumBound(pn[..]);
      NumBound(b.pn[..]);
      var negated := b.Negate();
      assert negated.Value() == (m - w) % m;
      Add(negated);
      SubtractMod(v, w, m);
    }

    /** operator*=(uint32_t). */
    method MultiplySmall(b32: limb)
      requires Valid()
      modifies pn
      ensures Value() == (old(Value()) * b32) % Modulus(pn.Length)
    {
      ghost var x := pn[..];
      var carry: limb := 0;
      for i := 0 to pn.Length
        invariant forall k :: i <= k < pn.Length ==> pn[k] == x[k]
        invariant Num(pn[..]) + carry * Pow(BASE, i) == Num(x) + (b32 - 1) * Num(x[..i])
      {
        ProductFits(b32, pn[i], carry, 0);
        var n := carry + b32 * pn[i];
        ghost var now := pn[..];
        SmallStep(now, x, i, b32, carry);
        NumPrefix(x, i);
        pn[i] := n % BASE;
        assert pn[..] == now[i := pn[i]];
        carry := n / BASE;
      }
      assert x[..pn.Length] == x;
      NumBound(pn[..]);
      assert Num(x) + (b32 - 1) * Num(x) == Num(x) * b32;
      CarryOut(Num(pn[..]), carry, Modulus(pn.Length), Num(x) * b32);
    }

    /** operator*=(const base_uint&). Multiplying a number by itself in place yields zero: the argument is
        cleared together with the result. operator* always passes distinct numbers. */
    method Multiply(b: base_uint)
      requires Valid() && b.pn.Length == pn.Length
      modifies pn
      ensures Value() == if b.pn == pn then 0 else (old(Value()) * old(b.Value())) % Modulus(pn.Length)
    {
      var a := new base_uint.Copy(this);
      ghost var x := a.pn[..];
      SetZero();
      ghost var y := b.pn[..];
      NumZero(y);
      NothingYet(Num(y), Modulus(pn.Length));
      for j := 0 to pn.Length
        invariant a.pn[..] == x && b.pn[..] == y
        invariant Value() == (Num(x[..j]) * Num(y)) % Modulus(pn.Length)
      {
        ghost var low := Num(x[..j]);
        MultiplyRow(a.pn[j], j, b);
        NumPrefix(x, j);
        RowAdds(low, x[j], Pow(BASE, j), Num(y), Modulus(pn.Length));
        assert b.pn == pn ==> Num(y) == 0 && Value() == 0 by { if b.pn == pn { NoProduct(Num(x[..j + 1])); } }
        if b.pn == pn { NumZero(pn[..]); }
      }
      assert x[..pn.Length] == x;
      if b.pn == pn { NoProduct(Num(x)); }
    }

    method SetZero()
      requires Valid()
      modifies pn
      ensures forall i :: 0 <= i < pn.Length ==> pn[i] == 0
      ensures Value() == 0
    {
      for i := 0 to pn.Length
        invariant forall k :: 0 <= k < i ==> pn[k] == 0
      {
        pn[i] := 0;
      }
      NumZero(pn[..]);
    }

    /** The inner loop: aj times the argument is added from limb j on. */
    method MultiplyRow(aj: limb, j: nat, b: base_uint)
      requires Valid() && b.pn.Length == pn.Length && j < pn.Length && (b.pn == pn ==> Value() == 0)
      modifies pn
      ensures Value() == (old(Value()) + Scaled(aj, old(b.Value()), Pow(BASE, j))) % Modulus(pn.Length)
      ensures b.pn[..] == old(b.pn[..])
    {
      ghost var pre, y := Value(), b.pn[..];
      NumZero(y);
      RowStart(aj, y, Pow(BASE, j));
      var carry: limb := 0;
      for i := 0 to pn.Length - j
        invariant b.pn[..] == y && (b.pn == pn ==> carry == 0)
        invariant Value() + Times(carry, Pow(BASE, i + j)) == pre + Scaled(aj, Num(y[..i]), Pow(BASE, j))
      {
        ghost var now := pn[..];
        RowStep(now, y, i, j, aj, carry, pre);
        var n := carry + pn[i + j] + aj * b.pn[i];
        pn[i + j] := n % BASE;
        assert pn[..] == now[i + j := pn[i + j]];
        carry := n / BASE;
      }
      RowDone(pn[..], y, j, pn.Length - j, aj, carry, pre);
    }

    /** operator<<=. */
    method ShiftLeft(shift: nat)
      requires Valid()
      modifies pn
      ensures Value() == (old(Value()) * Pow(2, shift)) % Modulus(pn.Length)
    {
      ghost var x := pn[..];
      var a := new base_uint.Copy(this);
      SetZero();
      var k, r := shift / 32, shift % 32;
      for i := 0 to pn.Length
        invariant a.pn[..] == x
        invariant LeftDone(pn[..], x, i, k, r)
      {
        ShiftLimbLeft(a, i, k, r);
      }
      LeftFinished(x, pn[..], k, r);
      LeftValue(x, pn[..], shift);
    }

    /** One round of operator<<=. */
    method ShiftLimbLeft(a: base_uint, i: nat, k: nat, r: nat)
      requires a.pn != pn && a.pn.Length == pn.Length && i < pn.Length && r < 32
      requires LeftDone(pn[..], a.pn[..], i, k, r)
      modifies pn
      ensures LeftDone(pn[..], a.pn[..], i + 1, k, r)
    {
      ghost var x := a.pn[..];
      if i + k + 1 < pn.Length && r != 0 {
        OrZero(High(x[i], r));
        pn[i + k + 1] := Or(pn[i + k + 1], High(a.pn[i], r));
      }
      if i + k < pn.Length {
        LeftFits(x, i, r);
        pn[i + k] := Or(pn[i + k], Low(a.pn[i], r));
      }
    }

    /** operator>>=. */
    method ShiftRight(shift: nat)
      requires Valid()
      modifies pn
      ensures Value() == old(Value()) / Pow(2, shift)
    {
      var a := new base_uint.Copy(this);
      ghost var x := a.pn[..];
      SetZero();
      var k, r := shift / 32, shift % 32;
      for i := 0 to pn.Length
        invariant a.pn[..] == x
        invariant RightDone(pn[..], x, i, k, r)
      {
        ShiftLimbRight(a, i, k, r);
      }
      RightFinished(x, pn[..], k, r);
      RightValue(x, pn[..], shift);
    }

    /** One round of operator>>=. */
    method ShiftLimbRight(a: base_uint, i: nat, k: nat, r: nat)
      requires a.pn != pn && a.pn.Length == pn.Length && i < pn.Length && r < 32
      requires RightDone(pn[..], a.pn[..], i, k, r)
      modifies pn
      ensures RightDone(pn[..], a.pn[..], i + 1, k, r)
    {
      ghost var x := a.pn[..];
      if i - k - 1 >= 0 && r != 0 {
        RightFits(x, i, r);
        pn[i - k - 1] := Or(pn[i - k - 1], Down(a.pn[..], i, r));
      }
      if i - k >= 0 {
        OrZero(Stay(x[i], r));
        pn[i - k] := Or(pn[i - k], Stay(a.pn[i], r));
      }
    }

    /** The sign of the difference. */
    method CompareTo(b: base_uint) returns (c: int)
      requires Valid() && b.pn.Length == pn.Length
      ensures c == if Value() < b.Value() then -1 else if Value() > b.Value() then 1 else 0
    {
      var i := pn.Length;
      while i > 0
        invariant 0 <= i <= pn.Length && pn[i..] == b.pn[i..]
      {
        i := i - 1;
        if pn[i] < b.pn[i] {
          NumLess(pn[..], b.pn[..], i);
          return -1;
        }
        if pn[i] > b.pn[i] {
          NumLess(b.pn[..], pn[..], i);
          return 1;
        }
        assert pn[i..] == [pn[i]] + pn[i + 1..] && b.pn[i..] == [b.pn[i]] + b.pn[i + 1..];
      }
      assert pn[..] == pn[0..] && b.pn[..] == b.pn[0..];
      c := 0;
    }

    /** Comparison with a 64-bit value. */
    method EqualTo(b: nat) returns (r: bool)
      requires Valid() && b < BASE * BASE
      ensures r == (Value() == b)
    {
      var i := pn.Length;
      while i > 2
        invariant 2 <= i <= pn.Length && forall k :: i <= k < pn.Length ==> pn[k] == 0
      {
        i := i - 1;
        if pn[i] != 0 {
          HighLimbLarge(pn[..], i);
          return false;
        }
      }
      TwoLimbs(pn[..]);
      if pn[1] as int != b / BASE {
        return false;
      }
      if pn[0] as int != b % BASE {
        return false;
      }
      r := true;
    }

    /** The position of the highest bit set plus one, or zero. */
    method Bits() returns (n: nat)
      requires Valid()
      ensures n <= 32 * pn.Length && IsBits(Value(), n)
    {
      var pos := pn.Length;
      while pos > 0
        invariant 0 <= pos <= pn.Length && forall k :: pos <= k < pn.Length ==> pn[k] == 0
      {
        pos := pos - 1;
        if pn[pos] != 0 {
          TopLimbBits(pn[..], pos);
          var nbits := 31;
          while nbits > 0
            invariant 0 <= nbits <= 31 && 0 < pn[pos] < Pow(2, nbits + 1)
          {
            if (pn[pos] / Pow(2, nbits)) % 2 == 1 {
              BitSet(pn[pos], nbits);
              TopBit(pn[..], pos, nbits);
              return 32 * pos + nbits + 1;
            }
            BitClear(pn[pos], nbits);
            nbits := nbits - 1;
          }
          TopBit(pn[..], pos, 0);
          return 32 * pos + 1;
        }
      }
      NumZero(pn[..]);
      return 0;
    }

    /** operator/=: shift-subtract division, false where the C++ throws. The quotient is cleared before. */
    method Divide(b: base_uint) returns (ok: bool)
      requires Valid() && b.pn.Length == pn.Length
      modifies pn
      ensures ok == (old(b.Value()) != 0)
      ensures Value() == if ok then old(Value()) / old(b.Value()) else 0
    {
      ghost var n, d := Value(), b.Value();
      var div := new base_uint.Copy(b);
      var num := new base_uint.Copy(this);
      SetZero();
      var num_bits := num.Bits();
      var div_bits := div.Bits();
      if div_bits == 0 {
        return false;
      }
      if div_bits > num_bits {
        SmallerByBits(n, d, num_bits, div_bits);
        return true;
      }
      AlignedFits(n, d, num_bits, div_bits, pn.Length);
      div.ShiftLeft(num_bits - div_bits);
      DivideAligned(num, div, num_bits - div_bits, n, d);
      return true;
    }

    /** The loop of the division, the divisor aligned with the dividend. */
    method DivideAligned(num: base_uint, div: base_uint, align: nat, ghost n: nat, ghost d: nat)
      requires Valid() && num.pn.Length == div.pn.Length == pn.Length && align < 32 * pn.Length
      requires num.pn != pn && div.pn != pn && num.pn != div.pn && d > 0
      requires Value() == 0 && div.Value() == d * Pow(2, align) && num.Value() == n < d * Pow(2, align + 1)
      modifies pn, num.pn, div.pn
      ensures Value() == n / d
    {
      var shift: int := align;
      ZerosClear(pn[..], shift / 32, shift % 32 + 1);
      assert 0 * d == 0;
      while shift >= 0
        invariant -1 <= shift <= align
        invariant shift >= 0 ==> div.Value() == d * Pow(2, shift) && LowClear(pn[..], shift / 32, shift % 32 + 1)
        invariant Value() * d + num.Value() == n && num.Value() < d * Pow(2, shift + 1)
      {
        DivideRound(num, div, shift, n, d);
        NextLower(pn[..], shift);
        HalfShift(d, shift);
        div.ShiftRight(1);
        shift := shift - 1;
      }
      DivisionDone(n, d, Value(), num.Value());
    }

    /** One round of the division at a bit position: subtract if possible and set the bit of the result. */
    method DivideRound(num: base_uint, div: base_uint, shift: nat, ghost n: nat, ghost d: nat)
      requires Valid() && num.pn.Length == div.pn.Length == pn.Length && shift < 32 * pn.Length
      requires num.pn != pn && div.pn != pn && num.pn != div.pn
      requires div.Value() == d * Pow(2, shift) && LowClear(pn[..], shift / 32, shift % 32 + 1)
      requires Value() * d + num.Value() == n && num.Value() < d * Pow(2, shift + 1)
      modifies pn, num.pn
      ensures Value() * d + num.Value() == n && num.Value() < d * Pow(2, shift)
      ensures LowClear(pn[..], shift / 32, shift % 32)
    {
      ghost var q, r, s := Value(), num.Value(), pn[..];
      DivideStep(n, d, q, r, Pow(2, shift), div.Value());
      ShiftPower(shift);
      var c := num.CompareTo(div);
      if c >= 0 {
        NumBound(num.pn[..]);
        NoBorrow(r, div.Value(), Modulus(pn.Length));
        num.Subtract(div);
        SetBit(s, shift / 32, shift % 32);
        pn[shift / 32] := Or(pn[shift / 32], Pow(2, shift % 32));
        assert pn[..] == s[shift / 32 := pn[shift / 32]];
        MulCommutes(Pow(2, shift % 32), Pow(BASE, shift / 32));
      } else {
        SkipBit(s, shift / 32, shift % 32);
      }
    }

    /** The low 64 bits. */
    method GetLow64() returns (r: nat)
      requires Valid()
      ensures r == Value() % (BASE * BASE)
    {
      LowLimbs(pn[..]);
      r := pn[0] + pn[1] * BASE;
    }

    /** operator=(uint64_t). */
    method Assign(b: nat)
      requires Valid() && b < BASE * BASE
      modifies pn
      ensures Value() == b
    {
      pn[0] := b % BASE;
      pn[1] := b / BASE;
      for i := 2 to pn.Length
        invariant pn[0] as int == b % BASE && pn[1] as int == b / BASE
        invariant forall k :: 2 <= k < i ==> pn[k] == 0
      {
        pn[i] := 0;
      }
      TwoLimbs(pn[..]);
    }
  }

  lemma TwoLimbs(s: seq<limb>)
    requires |s| >= 2 && forall k :: 2 <= k < |s| ==> s[k] == 0
    ensures Num(s) == s[0] + s[1] * BASE
  {
    HighZeros(s, 2);
    NumPrefix(s, 0);
    NumPrefix(s, 1);
  }

  lemma HighLimbLarge(s: seq<limb>, i: nat)
    requires 2 <= i < |s| && s[i] != 0
    ensures Num(s) >= BASE * BASE
  {
    NumSplit(s, 2);
    NumZero(s[2..]);
    assert s[2..][i - 2] == s[i];
    MulMonotone(1, Num(s[2..]), Pow(BASE, 2));
    assert Pow(BASE, 2) == BASE * BASE;
  }

  lemma LowLimbs(s: seq<limb>)
    requires |s| >= 2
    ensures s[0] + s[1] * BASE == Num(s) % (BASE * BASE)
  {
    NumSplit(s, 2);
    NumPrefix(s, 0);
    NumPrefix(s, 1);
    assert Pow(BASE, 2) == BASE * BASE;
    DivUnique(Num(s), BASE * BASE, Num(s[2..]), s[0] + s[1] * BASE);
  }

  // ---------------------------------------------------------------- shifting, limb by limb

  /** Limb j after the first i limbs of x have been or-ed in, shifting left by k limbs and r bits. */
  function LeftSoFar(x: seq<limb>, i: nat, j: nat, k: nat, r: nat): (result: int)
    requires i <= |x| && r < 32 && j < |x|
  {
    if j < k || j > i + k then 0
    else if j == i + k then From(x, i, r)
    else Low(x[j - k], r) + From(x, j - k, r)
  }

  ghost predicate LeftDone(now: seq<limb>, x: seq<limb>, i: nat, k: nat, r: nat)
    requires i <= |x| && r < 32
  {
    |now| == |x| && forall j :: 0 <= j < |now| ==> now[j] as int == LeftSoFar(x, i, j, k, r)
  }

  lemma LeftFinished(x: seq<limb>, now: seq<limb>, k: nat, r: nat)
    requires r < 32 && LeftDone(now, x, |x|, k, r)
    ensures IsLeft(x, now, k, r)
  {}

  lemma LeftFits(x: seq<limb>, i: nat, r: nat)
    requires i < |x| && r < 32
    ensures Or(From(x, i, r), Low(x[i], r)) == Low(x[i], r) + From(x, i, r) < BASE
  {
    WholeWord(r);
    ShiftedLeft(x[i], Pow(2, r), Pow(2, 32 - r));
    if i > 0 { ShiftedLeft(x[i - 1], Pow(2, r), Pow(2, 32 - r)); }
    OrAdds(From(x, i, r), Low(x[i], r), r, x[i] % Pow(2, 32 - r));
    Disjoint(From(x, i, r), x[i] % Pow(2, 32 - r), Pow(2, r), Pow(2, 32 - r));
  }

  lemma Disjoint(f: int, d: int, p: int, q: int)
    requires 0 <= f < p && 0 <= d < q && p * q == BASE
    ensures f + d * p < BASE
  {
    MulMonotone(d + 1, q, p);
    assert (d + 1) * p == d * p + p;
  }

  function RightSoFar(x: seq<limb>, i: nat, j: nat, k: nat, r: nat): (result: int)
    requires i <= |x| && r < 32 && j < |x|
  {
    if j + k >= i then 0
    else if j + k + 1 == i then Stay(x[j + k], r)
    else Stay(x[j + k], r) + Down(x, j + k + 1, r)
  }

  ghost predicate RightDone(now: seq<limb>, x: seq<limb>, i: nat, k: nat, r: nat)
    requires i <= |x| && r < 32
  {
    |now| == |x| && forall j :: 0 <= j < |now| ==> now[j] as int == RightSoFar(x, i, j, k, r)
  }

  lemma RightFinished(x: seq<limb>, now: seq<limb>, k: nat, r: nat)
    requires r < 32 && RightDone(now, x, |x|, k, r)
    ensures IsRight(x, now, k, r)
  {}

  lemma RightFits(x: seq<limb>, i: nat, r: nat)
    requires 0 < i < |x| && 0 < r < 32
    ensures Or(Stay(x[i - 1], r), Down(x, i, r)) == Stay(x[i - 1], r) + Down(x, i, r) < BASE
  {
    WholeWord(r);
    ShiftedLeft(x[i], Pow(2, 32 - r), Pow(2, r));
    ShiftedLeft(x[i - 1], Pow(2, 32 - r), Pow(2, r));
    OrAdds(Stay(x[i - 1], r), Down(x, i, r), 32 - r, x[i] % Pow(2, r));
    Disjoint(Stay(x[i - 1], r), x[i] % Pow(2, r), Pow(2, 32 - r), Pow(2, r));
  }

  // ---------------------------------------------------------------- division

  /** The limbs below k and the low r bits of limb k are clear. */
  predicate LowClear(s: seq<limb>, k: nat, r: nat)
  {
    && (forall j :: 0 <= j < k && j < |s| ==> s[j] == 0)
    && (k < |s| ==> s[k] % Pow(2, r) == 0)
  }

  lemma {:induction false} OrComm(x: nat, y: nat)
    ensures Or(x, y) == Or(y, x)
    decreases x + y
  {
    if x != 0 || y != 0 { OrComm(x / 2, y / 2); }
  }

  /** From one bit position to the one below. */
  lemma NextLower(s: seq<limb>, shift: nat)
    requires LowClear(s, shift / 32, shift % 32)
    ensures shift > 0 ==> LowClear(s, (shift - 1) / 32, (shift - 1) % 32 + 1)
  {
    if shift > 0 && shift % 32 == 0 {
      assert (shift - 1) / 32 == shift / 32 - 1;
      if shift / 32 - 1 < |s| { assert 0 % Pow(2, 32) == 0; }
    }
  }

  lemma ZerosClear(s: seq<limb>, k: nat, r: nat)
    requires Num(s) == 0
    ensures LowClear(s, k, r)
  {
    NumZero(s);
    DivUnique(0, Pow(2, r), 0, 0);
  }

  lemma HalfDivides(d: int, p: int)
    requires p > 0 && d % (2 * p) == 0
    ensures d % p == 0 && (d + p) % p == 0
  {
    var c := d / (2 * p);
    assert d == c * (2 * p);
    MulAssoc(c, 2, p);
    DivUnique(d, p, c * 2, 0);
    Difference(c * 2, -1, p);
    DivUnique(d + p, p, c * 2 + 1, 0);
  }

  lemma SkipBit(s: seq<limb>, k: nat, r: nat)
    requires k < |s| && LowClear(s, k, r + 1)
    ensures LowClear(s, k, r)
  {
    HalfDivides(s[k], Pow(2, r));
  }

  lemma SetBit(s: seq<limb>, k: nat, r: nat)
    requires k < |s| && r < 32 && LowClear(s, k, r + 1)
    ensures Or(s[k], Pow(2, r)) == s[k] + Pow(2, r) < BASE
    ensures var t := s[k := Or(s[k], Pow(2, r))];
      Num(t) == Num(s) + Pow(2, r) * Pow(BASE, k) && LowClear(t, k, r)
  {
    OrBit(s[k], r);
    HalfDivides(s[k], Pow(2, r));
    NumUpdate(s, k, s[k] + Pow(2, r));
  }

  lemma OrBit(d: limb, r: nat)
    requires r < 32 && d % Pow(2, r + 1) == 0
    ensures Or(d, Pow(2, r)) == d + Pow(2, r) < BASE
  {
    var c := d / Pow(2, r + 1);
    assert d == c * Pow(2, r + 1);
    OrAdds(Pow(2, r), d, r + 1, c);
    OrComm(Pow(2, r), d);
    WholeWord(r + 1);
    MulCommutes(Pow(2, r + 1), Pow(2, 32 - (r + 1)));
    BitRoom(d, c, Pow(2, r + 1), Pow(2, 32 - (r + 1)));
  }

  lemma BitRoom(d: int, c: int, p2: int, q: int)
    requires p2 > 0 && d == c * p2 < BASE == q * p2
    ensures d + p2 <= BASE
  {
    if c >= q { MulMonotone(q, c, p2); }
    MulMonotone(c + 1, q, p2);
    Difference(c, -1, p2);
  }

  lemma SmallerByBits(n: nat, d: nat, nb: nat, db: nat)
    requires IsBits(n, nb) && IsBits(d, db) && db > nb
    ensures d > n && n / d == 0
  {
    PowMonotone(2, nb, db - 1);
    DivUnique(n, d, 0, n);
  }

  /** Aligning the divisor with the dividend loses nothing. */
  lemma AlignedFits(n: nat, d: nat, nb: nat, db: nat, width: nat)
    requires IsBits(n, nb) && IsBits(d, db) && 0 < db <= nb <= 32 * width
    ensures var shift := nb - db;
      (d * Pow(2, shift)) % Modulus(width) == d * Pow(2, shift) && n < d * Pow(2, shift + 1)
  {
    var shift := nb - db;
    PowAdd(2, db, shift);
    PowAdd(2, db - 1, shift + 1);
    MulStrict(d, Pow(2, db), Pow(2, shift));
    MulMonotone(Pow(2, db - 1), d, Pow(2, shift + 1));
    assert db + shift == nb && db - 1 + (shift + 1) == nb;
    TwoTo32();
    PowPow(2, 32, width);
    PowMonotone(2, nb, 32 * width);
    DivUnique(d * Pow(2, shift), Modulus(width), 0, d * Pow(2, shift));
  }

  lemma DivideStep(n: int, d: int, q: int, r: int, p: int, dp: int)
    requires q * d + r == n && dp == d * p && r < d * (2 * p)
    ensures (q + p) * d + (r - dp) == n && r - dp < dp
  {
    assert (q + p) * d == q * d + p * d;
    assert p * d == d * p;
    assert d * (2 * p) == 2 * (d * p);
  }

  lemma NoBorrow(r: int, dp: int, m: int)
    requires 0 <= dp <= r < m
    ensures (r - dp) % m == r - dp
  {
    DivUnique(r - dp, m, 0, r - dp);
  }

  lemma HalfShift(d: nat, shift: nat)
    ensures shift >= 1 ==> (d * Pow(2, shift)) / Pow(2, 1) == d * Pow(2, shift - 1)
  {
    if shift >= 1 {
      assert Pow(2, 1) == 2 && Pow(2, shift) == 2 * Pow(2, shift - 1);
      MulAssoc(d, 2, Pow(2, shift - 1));
      assert d * Pow(2, shift) == 2 * (d * Pow(2, shift - 1));
    }
  }

  lemma DivisionDone(n: int, d: int, q: int, r: int)
    requires d > 0 && q * d + r == n && 0 <= r < d * Pow(2, 0)
    ensures q == n / d
  {
    DivUnique(n, d, q, r);
  }

  // ---------------------------------------------------------------- bit lengths

  predicate IsBits(v: nat, n: nat)
  {
    if v == 0 then n == 0 else n > 0 && Pow(2, n - 1) <= v < Pow(2, n)
  }

  /** All limbs above pos are zero. */
  lemma TopLimbBits(s: seq<limb>, pos: nat)
    requires pos < |s| && s[pos] != 0 && forall k :: pos < k < |s| ==> s[k] == 0
    ensures 0 <= Num(s) - s[pos] * Pow(BASE, pos) < Pow(BASE, pos) && s[pos] < Pow(2, 32)
  {
    HighZeros(s, pos + 1);
    NumPrefix(s, pos);
    NumBound(s[..pos]);
    TwoTo32();
  }

  lemma BitSet(d: limb, nbits: nat)
    requires (d / Pow(2, nbits)) % 2 == 1
    ensures d >= Pow(2, nbits)
  {
    if d < Pow(2, nbits) { DivUnique(d, Pow(2, nbits), 0, d); }
  }

  lemma BitClear(d: limb, nbits: nat)
    requires d < Pow(2, nbits + 1) && (d / Pow(2, nbits)) % 2 != 1
    ensures d < Pow(2, nbits)
  {
    if d >= Pow(2, nbits) {
      assert Pow(2, nbits + 1) == 2 * Pow(2, nbits);
      DivUnique(d, Pow(2, nbits), 1, d - Pow(2, nbits));
    }
  }

  lemma TopBit(s: seq<limb>, pos: nat, nbits: nat)
    requires pos < |s| && (forall k :: pos < k < |s| ==> s[k] == 0) && Pow(2, nbits) <= s[pos] < Pow(2, nbits + 1)
    ensures IsBits(Num(s), 32 * pos + nbits + 1)
  {
    TopLimbBits(s, pos);
    TwoTo32();
    PowPow(2, 32, pos);
    TopRange(s[pos], Num(s), Pow(BASE, pos), Pow(2, nbits), Pow(2, nbits + 1));
    PowAdd(2, nbits, 32 * pos);
    PowAdd(2, nbits + 1, 32 * pos);
    assert nbits + 32 * pos == 32 * pos + nbits + 1 - 1;
    assert nbits + 1 + 32 * pos == 32 * pos + nbits + 1;
  }

  lemma TopRange(d: int, v: int, b: int, p: int, p2: int)
    requires 0 <= v - d * b < b && 0 < p <= d < p2
    ensures 0 < p * b <= v < p2 * b
  {
    MulMonotone(p, d, b);
    MulMonotone(d + 1, p2, b);
    MulMonotone(1, p, b);
    Difference(d, -1, b);
  }

  lemma RowDone(now: seq<limb>, y: seq<limb>, j: nat, k: nat, aj: limb, carry: limb, pre: int)
    requires |now| == |y| == j + k
    requires Num(now) + Times(carry, Pow(BASE, j + k)) == pre + Scaled(aj, Num(y[..k]), Pow(BASE, j))
    ensures Num(now) == (pre + Scaled(aj, Num(y), Pow(BASE, j))) % Modulus(j + k)
  {
    NumBound(now);
    NumSplit(y, k);
    PowAdd(BASE, j, k);
    TruncatedRow(pre, aj, Num(y[..k]), Num(y[k..]), Num(y), Pow(BASE, j), Pow(BASE, k), Num(now), carry, Pow(BASE, j + k));
  }

  lemma NothingYet(y: int, m: int)
    requires m > 0
    ensures (0 * y) % m == 0
  {}

  lemma NoProduct(v: int)
    ensures v * 0 == 0
  {}

  lemma RowStart(aj: limb, y: seq<limb>, p: int)
    ensures Scaled(aj, Num(y[..0]), p) == 0 && Times(0, p) == 0
  {}

  lemma RowStep(now: seq<limb>, y: seq<limb>, i: nat, j: nat, aj: limb, carry: limb, pre: int)
    requires i + j < |now| && i < |y|
    requires Num(now) + Times(carry, Pow(BASE, i + j)) == pre + Scaled(aj, Num(y[..i]), Pow(BASE, j))
    ensures var n := carry + now[i + j] + aj * y[i];
      0 <= n < BASE * BASE && n / BASE < BASE && 0 <= n % BASE < BASE && (carry == 0 && now[i + j] == 0 && y[i] == 0 ==> n == 0)
      && Num(now[i + j := n % BASE]) + Times(n / BASE, Pow(BASE, i + 1 + j)) == pre + Scaled(aj, Num(y[..i + 1]), Pow(BASE, j))
  {
    var n := carry + now[i + j] + aj * y[i];
    ProductFits(aj, y[i], carry, now[i + j]);
    MulStep(now, i, i + j, carry, pre + aj * Num(y[..i]) * Pow(BASE, j), n, aj * y[i]);
    NumPrefix(y, i);
    PowAdd(BASE, i, j);
    RowProduct(aj, Num(y[..i]), y[i], Pow(BASE, i), Pow(BASE, j));
  }

  lemma RowProduct(a: int, v: int, d: int, p: int, q: int)
    ensures a * (v + d * p) * q == a * v * q + a * d * (p * q)
  {
    assert a * (v + d * p) == a * v + a * (d * p);
    MulAssoc(a, d, p);
    MulAssoc(a * d, p, q);
    assert (a * v + (a * d) * p) * q == a * v * q + ((a * d) * p) * q;
  }

  /** One more row of the product, modulo m. */
  lemma RowAdds(low: int, d: int, p: int, y: int, m: int)
    requires m > 0
    ensures ((low * y) % m + Scaled(d, y, p)) % m == ((low + d * p) * y) % m
  {
    ModAdd(low * y, d * y * p, m);
    MulAssoc(d, y, p);
    MulAssoc(d, p, y);
    assert y * p == p * y;
    assert (low + d * p) * y == low * y + (d * p) * y;
  }

  lemma SmallStep(now: seq<limb>, x: seq<limb>, i: nat, b32: limb, carry: limb)
    requires i < |now| == |x| && now[i] == x[i]
    requires Num(now) + carry * Pow(BASE, i) == Num(x) + (b32 - 1) * Num(x[..i])
    requires 0 <= carry + b32 * x[i]
    ensures var n := carry + b32 * x[i];
      0 <= n % BASE < BASE
      && Num(now[i := n % BASE]) + (n / BASE) * Pow(BASE, i + 1) == Num(x) + (b32 - 1) * Num(x[..i + 1])
  {
    var n := carry + b32 * x[i];
    var add := (b32 - 1) * x[i];
    assert n == carry + now[i] + add;
    MulStep(now, i, i, carry, Num(x) + (b32 - 1) * Num(x[..i]), n, add);
    NumPrefix(x, i);
    MulAssoc(b32 - 1, x[i], Pow(BASE, i));
    assert (b32 - 1) * (Num(x[..i]) + x[i] * Pow(BASE, i)) == (b32 - 1) * Num(x[..i]) + (b32 - 1) * (x[i] * Pow(BASE, i));
  }
}
