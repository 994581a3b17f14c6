/** Little-endian numbers in 32-bit limbs, the representation of base_uint in src/arith_uint256.h. */
module Limbs {
  import opened Powers

  const BASE: nat := 0x1_0000_0000

  type limb = n: nat | n < 0x1_0000_0000

  /** The number a sequence of limbs stands for. */
  function Num(s: seq<limb>): (v: nat)
    decreases |s|
  {
    if s == [] then 0 else Num(s[..|s| - 1]) + s[|s| - 1] * Pow(BASE, |s| - 1)
  }

  lemma NumPrefix(s: seq<limb>, i: nat)
    requires i < |s|
    ensures Num(s[..i + 1]) == Num(s[..i]) + s[i] * Pow(BASE, i)
  {
    assert s[..i + 1][..i] == s[..i];
  }

  lemma {:induction false} NumBound(s: seq<limb>)
    ensures Num(s) < Pow(BASE, |s|)
    decreases |s|
  {
    if s != [] {
      var n := |s| - 1;
      NumBound(s[..n]);
      TopLimb(Num(s[..n]), s[n], Pow(BASE, n));
    }
  }

  lemma TopLimb(v: int, d: int, p: int)
    requires v < p && 0 <= d < BASE && p > 0
    ensures v + d * p < BASE * p
  {
    MulMonotone(d + 1, BASE, p);
    assert (d + 1) * p == d * p + p;
  }

  /** Replacing one limb. */
  lemma {:induction false} NumUpdate(s: seq<limb>, k: nat, x: limb)
    requires k < |s|
    ensures Num(s[k := x]) == Num(s) + (x - s[k]) * Pow(BASE, k)
    decreases |s|
  {
    var n := |s| - 1;
    if k == n {
      assert s[k := x][..n] == s[..n];
      Difference(x, s[k], Pow(BASE, k));
    } else {
      NumUpdate(s[..n], k, x);
      assert s[k := x][..n] == s[..n][k := x];
    }
  }

  lemma Difference(x: int, y: int, p: int)
    ensures (x - y) * p == x * p - y * p
  {}

  lemma {:induction false} NumSplit(s: seq<limb>, i: nat)
    requires i <= |s|
    ensures Num(s) == Num(s[..i]) + Num(s[i..]) * Pow(BASE, i)
    decreases |s|
  {
    if i == |s| {
      assert s[..i] == s && s[i..] == [];
    } else {
      var n := |s| - 1;
      NumSplit(s[..n], i);
      assert s[..n][..i] == s[..i] && s[..n][i..] == s[i..][..n - i] && s[i..][n - i] == s[n];
      PowAdd(BASE, n - i, i);
      SplitTop(Num(s[i..][..n - i]), s[n], Pow(BASE, n - i), Pow(BASE, i));
    }
  }

  lemma SplitTop(v: int, d: int, p: int, q: int)
    ensures (v + d * p) * q == v * q + d * (p * q)
  {
    MulAssoc(d, p, q);
    assert (v + d * p) * q == v * q + (d * p) * q;
  }

  lemma {:induction false} NumZero(s: seq<limb>)
    ensures Num(s) == 0 <==> forall i :: 0 <= i < |s| ==> s[i] == 0
    decreases |s|
  {
    if s != [] {
      var n := |s| - 1;
      NumZero(s[..n]);
      if s[n] != 0 {
        MulMonotone(1, s[n], Pow(BASE, n));
      } else {
        assert Num(s) == Num(s[..n]);
        assert forall i :: 0 <= i < n ==> s[..n][i] == s[i];
      }
    }
  }

  /** The highest differing limb decides. */
  lemma NumLess(s: seq<limb>, t: seq<limb>, i: nat)
    requires |s| == |t| && i < |s| && s[i] < t[i] && s[i + 1..] == t[i + 1..]
    ensures Num(s) < Num(t)
  {
    NumSplit(s, i + 1);
    NumSplit(t, i + 1);
    NumPrefix(s, i);
    NumPrefix(t, i);
    NumBound(s[..i]);
    MulMonotone(s[i] + 1, t[i], Pow(BASE, i));
    assert (s[i] + 1) * Pow(BASE, i) == s[i] * Pow(BASE, i) + Pow(BASE, i);
  }

  lemma NumInjective(s: seq<limb>, t: seq<limb>)
    requires |s| == |t| && Num(s) == Num(t)
    ensures s == t
  {
    if s != t {
      assert s[..|s|] == s && t[..|t|] == t;
      var i := TopDifference(s, t, |s|);
      if s[i] < t[i] { NumLess(s, t, i); } else { NumLess(t, s, i); }
    }
  }

  lemma {:induction false} TopDifference(s: seq<limb>, t: seq<limb>, n: nat) returns (i: nat)
    requires |s| == |t| && n <= |s| && s[n..] == t[n..] && s[..n] != t[..n]
    ensures i < |s| && s[i] != t[i] && s[i + 1..] == t[i + 1..]
    decreases n
  {
    assert n > 0;
    if s[n - 1] != t[n - 1] {
      return n - 1;
    }
    assert s[n - 1..] == [s[n - 1]] + s[n..] && t[n - 1..] == [t[n - 1]] + t[n..];
    assert s[..n] == s[..n - 1] + [s[n - 1]] && t[..n] == t[..n - 1] + [t[n - 1]];
    i := TopDifference(s, t, n - 1);
  }

  // ---------------------------------------------------------------- bits of a limb

  /** Bitwise or. */
  function Or(x: nat, y: nat): (r: nat)
    decreases x + y
  {
    if x == 0 && y == 0 then 0
    else 2 * Or(x / 2, y / 2) + (if x % 2 == 1 || y % 2 == 1 then 1 else 0)
  }

  /** Bits that do not overlap are added. */
  lemma {:induction false} OrAdds(x: nat, y: nat, s: nat, q: nat)
    requires x < Pow(2, s) && y == q * Pow(2, s)
    ensures Or(x, y) == x + y
    decreases s
  {
    if s == 0 {
      OrZero(y);
    } else {
      assert Pow(2, s) == 2 * Pow(2, s - 1);
      Halves(y, q, Pow(2, s - 1));
      OrAdds(x / 2, y / 2, s - 1, q);
    }
  }

  lemma Halves(y: int, q: int, p: int)
    requires y == q * (2 * p)
    ensures y / 2 == q * p && y % 2 == 0
  {
    assert y == 2 * (q * p);
  }

  lemma {:induction false} OrZero(y: nat)
    ensures Or(0, y) == y
    decreases y
  {
    if y > 0 { OrZero(y / 2); }
  }
}
