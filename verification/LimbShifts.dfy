/** What shifting and measuring limbs does to the number they stand for. */
module LimbShifts {
  import opened Powers
  import opened Limbs

  // ---------------------------------------------------------------- one limb

  lemma WholeWord(r: nat)
    requires r <= 32
    ensures Pow(2, r) * Pow(2, 32 - r) == BASE
  {
    PowAdd(2, r, 32 - r);
    TwoTo32();
  }

  lemma TwoTo32()
    ensures Pow(2, 32) == BASE
  {
    assert Pow(2, 4) == 16;
    PowAdd(2, 4, 4);
    PowAdd(2, 8, 8);
    PowAdd(2, 16, 16);
  }

  /** A limb shifted left by r: what stays and what moves up; p == 2^r, q == 2^(32-r). */
  lemma ShiftedLeft(a: limb, p: nat, q: nat)
    requires p > 0 && q > 0 && p * q == BASE
    ensures (a * p) % BASE == (a % q) * p && (a * p) % BASE + (a / q) * BASE == a * p && 0 <= a / q < p
  {
    assert a == (a / q) * q + a % q;
    MulAssoc(a / q, q, p);
    assert a * p == (a / q) * (q * p) + (a % q) * p;
    MulMonotone(a % q + 1, q, p);
    assert (a % q + 1) * p == (a % q) * p + p;
    DivUnique(a * p, BASE, a / q, (a % q) * p);
    if a / q >= p { MulMonotone(p, a / q, q); }
  }

  /** A limb shifted right by r loses its low part. */
  lemma ShiftedRight(a: limb, p: nat)
    requires p > 0
    ensures a == (a / p) * p + a % p && 0 <= a % p < p
  {}

  // ---------------------------------------------------------------- left

  function Low(a: limb, r: nat): (x: limb) { (a * Pow(2, r)) % BASE }

  function High(a: limb, r: nat): (x: limb)
    requires r <= 32
  {
    assert a / Pow(2, 32 - r) <= a by { Quotient(a, Pow(2, 32 - r)); }
    a / Pow(2, 32 - r)
  }

  lemma Quotient(a: nat, q: nat)
    requires q > 0
    ensures 0 <= a / q <= a
  {
    if a / q > a { MulMonotone(1, q, a / q); }
  }

  /** What moves up into limb t, limbs below the first having nothing to give. */
  function From(a: seq<limb>, t: nat, r: nat): (x: limb)
    requires t <= |a| && r < 32
  {
    if t == 0 || r == 0 then 0 else High(a[t - 1], r)
  }

  /** now is a shifted left by k limbs and r bits. */
  predicate IsLeft(a: seq<limb>, now: seq<limb>, k: nat, r: nat)
    requires r < 32
  {
    && |now| == |a|
    && (forall j :: 0 <= j < k && j < |now| ==> now[j] == 0)
    && (forall j {:trigger now[j]} :: k <= j < |now| ==> now[j] as int == Low(a[j - k], r) + From(a, j - k, r))
  }

  lemma Absorb(v: int, low: int, from: int, high: int, a: int, p: int, b: int)
    requires low + high * BASE == a * p
    ensures v + (low + from) * b + high * (BASE * b) == v + from * b + a * (b * p)
  {
    MulAssoc(high, BASE, b);
    assert (low + from) * b == low * b + from * b;
    assert (low + high * BASE) * b == low * b + (high * BASE) * b;
    MulAssoc(a, p, b);
    assert p * b == b * p;
  }

  /** The first t limbs, shifted, with what moves up out of them. */
  lemma {:induction false} LeftPrefix(a: seq<limb>, now: seq<limb>, k: nat, r: nat, t: nat)
    requires r < 32 && IsLeft(a, now, k, r) && k + t <= |a|
    ensures Num(now[..k + t]) + From(a, t, r) * Pow(BASE, k + t) == Num(a[..t]) * (Pow(BASE, k) * Pow(2, r))
    decreases t
  {
    if t == 0 {
      NumZero(now[..k]);
      assert a[..0] == [];
    } else {
      var i := t - 1;
      LeftPrefix(a, now, k, r, i);
      NumPrefix(now, k + i);
      NumPrefix(a, i);
      WholeWord(r);
      ShiftedLeft(a[i], Pow(2, r), Pow(2, 32 - r));
      TopMoves(a, t, r);
      Absorb(Num(now[..k + i]), Low(a[i], r), From(a, i, r), From(a, t, r), a[i], Pow(2, r), Pow(BASE, k + i));
      PowAdd(BASE, k, i);
      Collect(Num(a[..i]), a[i], Pow(BASE, i), Pow(BASE, k), Pow(2, r));
    }
  }

  lemma TopMoves(a: seq<limb>, t: nat, r: nat)
    requires 0 < t <= |a| && r < 32
    ensures Low(a[t - 1], r) + From(a, t, r) * BASE == a[t - 1] * Pow(2, r)
  {
    WholeWord(r);
    ShiftedLeft(a[t - 1], Pow(2, r), Pow(2, 32 - r));
    if r == 0 {
      assert a[t - 1] * 1 == a[t - 1];
    }
  }

  lemma Collect(v: int, d: int, b: int, bk: int, p: int)
    ensures (v + d * b) * (bk * p) == v * (bk * p) + d * ((bk * b) * p)
  {
    assert (v + d * b) * (bk * p) == v * (bk * p) + (d * b) * (bk * p);
    MulAssoc(d, b, bk * p);
    MulAssoc(b, bk, p);
    assert b * bk == bk * b;
  }

  lemma ShiftPower(shift: nat)
    ensures Pow(2, shift) == Pow(BASE, shift / 32) * Pow(2, shift % 32)
  {
    var k, r := shift / 32, shift % 32;
    TwoTo32();
    PowPow(2, 32, k);
    PowAdd(2, 32 * k, r);
    assert 32 * k + r == shift;
  }

  lemma LeftValue(a: seq<limb>, now: seq<limb>, shift: nat)
    requires IsLeft(a, now, shift / 32, shift % 32)
    ensures Num(now) == (Num(a) * Pow(2, shift)) % Pow(BASE, |a|)
  {
    ShiftPower(shift);
    if shift / 32 >= |a| {
      LeftNothing(a, now, shift / 32, Pow(2, shift % 32), Pow(2, shift));
    } else {
      LeftSomething(a, now, shift / 32, shift % 32, |a| - shift / 32, Pow(2, shift));
    }
  }

  lemma LeftNothing(a: seq<limb>, now: seq<limb>, k: nat, p: nat, s: nat)
    requires |now| == |a| <= k && (forall j :: 0 <= j < |now| ==> now[j] == 0) && s == Pow(BASE, k) * p
    ensures Num(now) == (Num(a) * s) % Pow(BASE, |a|)
  {
    NumZero(now);
    PowAdd(BASE, k - |a|, |a|);
    assert k - |a| + |a| == k;
    AllOut(Num(a), Pow(BASE, k - |a|), Pow(BASE, |a|), p, s);
  }

  lemma LeftSomething(a: seq<limb>, now: seq<limb>, k: nat, r: nat, t: nat, s: nat)
    requires r < 32 && k + t == |a| && IsLeft(a, now, k, r) && s == Pow(BASE, k) * Pow(2, r)
    ensures Num(now) == (Num(a) * s) % Pow(BASE, k + t)
  {
    NumBound(now);
    LeftPrefix(a, now, k, r, t);
    assert now[..k + t] == now;
    NumSplit(a, t);
    PowAdd(BASE, k, t);
    PartOut(Num(now), From(a, t, r), Num(a[..t]), Num(a[t..]), Num(a), Pow(BASE, k), Pow(BASE, t), Pow(2, r), Pow(BASE, k + t), s);
  }

  lemma AllOut(a: int, b: int, m: int, p: int, s: int)
    requires m > 0 && s == (b * m) * p
    ensures (a * s) % m == 0
  {
    MulAssoc(b, m, p);
    assert s == (b * p) * m;
    MulAssoc(a, b * p, m);
    DivUnique(a * s, m, a * (b * p), 0);
  }

  lemma PartOut(now: int, from: int, low: int, high: int, a: int, bk: int, bt: int, p: int, m: int, s: int)
    requires m == bk * bt && 0 <= now < m && s == bk * p && a == low + high * bt
    requires now + from * m == low * (bk * p)
    ensures now == (a * s) % m
  {
    assert a * s == low * s + (high * bt) * s;
    MulAssoc(high, bt, s);
    MulAssoc(bt, bk, p);
    assert bt * s == m * p;
    MulAssoc(high, p, m);
    assert high * (m * p) == (high * p) * m;
    assert (from + high * p) * m == from * m + (high * p) * m;
    assert now + (from + high * p) * m == a * s;
    DivUnique(a * s, m, from + high * p, now);
  }

  // ---------------------------------------------------------------- right

  /** The bits of limb i that move down, as they arrive one limb lower. */
  function Down(a: seq<limb>, i: nat, r: nat): (x: limb)
    requires r < 32
  {
    if i >= |a| || r == 0 then 0 else (a[i] * Pow(2, 32 - r)) % BASE
  }

  function Stay(a: limb, r: nat): (x: limb)
  {
    assert a / Pow(2, r) <= a by { Quotient(a, Pow(2, r)); }
    a / Pow(2, r)
  }

  predicate IsRight(a: seq<limb>, now: seq<limb>, k: nat, r: nat)
    requires r < 32
  {
    && |now| == |a|
    && (forall j {:trigger now[j]} :: 0 <= j && j + k < |now| ==> now[j] as int == Stay(a[j + k], r) + Down(a, j + k + 1, r))
    && (forall j {:trigger now[j]} :: 0 <= j < |now| && j + k >= |now| ==> now[j] == 0)
  }

  /** What limb i leaves over when it is shifted right. */
  function Over(a: seq<limb>, i: nat, r: nat): (x: nat)
  {
    if i >= |a| then 0 else a[i] % Pow(2, r)
  }

  lemma DownIsOver(a: seq<limb>, i: nat, r: nat)
    requires r < 32
    ensures Down(a, i, r) * Pow(2, r) == Over(a, i, r) * BASE
  {
    if i < |a| {
      if r == 0 {
        assert a[i] % 1 == 0;
      } else {
        WholeWord(r);
        ShiftedLeft(a[i], Pow(2, 32 - r), Pow(2, r));
        MulAssoc(Over(a, i, r), Pow(2, 32 - r), Pow(2, r));
      }
    }
  }

  lemma {:induction false} RightPrefix(a: seq<limb>, now: seq<limb>, k: nat, r: nat, t: nat)
    requires r < 32 && IsRight(a, now, k, r) && k + t <= |a|
    ensures Num(now[..t]) * Pow(2, r) + Over(a, k, r) == Num(a[k..k + t]) + Over(a, k + t, r) * Pow(BASE, t)
    decreases t
  {
    if t == 0 {
      assert now[..0] == [] && a[k..k] == [];
    } else {
      var i := t - 1;
      RightPrefix(a, now, k, r, i);
      NumPrefix(now, i);
      assert a[k..k + t][..i] == a[k..k + i] && a[k..k + t][i] == a[k + i];
      DownIsOver(a, k + t, r);
      ShiftedRight(a[k + i], Pow(2, r));
      Telescope(Num(now[..i]), Stay(a[k + i], r), Down(a, k + t, r), Pow(BASE, i), Pow(2, r), a[k + i],
                Over(a, k + i, r), Over(a, k + t, r), Over(a, k, r), Num(a[k..k + i]));
    }
  }

  lemma Telescope(v: int, stay: int, down: int, b: int, p: int, a: int, over: int, next: int, first: int, w: int)
    requires a == stay * p + over && down * p == next * BASE && v * p + first == w + over * b
    ensures (v + (stay + down) * b) * p + first == (w + a * b) + next * (BASE * b)
  {
    assert (stay + down) * p == stay * p + down * p;
    MulAssoc(stay + down, b, p);
    assert b * p == p * b;
    MulAssoc(stay + down, p, b);
    MulAssoc(next, BASE, b);
    assert (a - over + next * BASE) * b == a * b - over * b + (next * BASE) * b;
    assert (v + (stay + down) * b) * p == v * p + ((stay + down) * b) * p;
  }

  lemma RightValue(a: seq<limb>, now: seq<limb>, shift: nat)
    requires IsRight(a, now, shift / 32, shift % 32)
    ensures Num(now) == Num(a) / Pow(2, shift)
  {
    ShiftPower(shift);
    if shift / 32 >= |a| {
      RightNothing(a, now, shift / 32, Pow(2, shift % 32), Pow(2, shift));
    } else {
      RightSomething(a, now, shift / 32, shift % 32, Pow(2, shift));
    }
  }

  lemma RightNothing(a: seq<limb>, now: seq<limb>, k: nat, p: nat, s: nat)
    requires |now| == |a| <= k && (forall j :: 0 <= j < |now| ==> now[j] == 0) && p > 0 && s == Pow(BASE, k) * p
    ensures Num(now) == Num(a) / s
  {
    hide Num, Pow;
    NumZero(now);
    NumBound(a);
    PowMonotone(BASE, |a|, k);
    MulMonotone(1, p, Pow(BASE, k));
    MulCommutes(p, Pow(BASE, k));
    DivUnique(Num(a), s, 0, Num(a));
  }

  lemma RightSomething(a: seq<limb>, now: seq<limb>, k: nat, r: nat, s: nat)
    requires r < 32 && k < |a| && IsRight(a, now, k, r) && s == Pow(BASE, k) * Pow(2, r)
    ensures Num(now) == Num(a) / s
  {
    var t := |a| - k;
    RightPrefix(a, now, k, r, t);
    HighZeros(now, t);
    NumSplit(a, k);
    assert a[k..k + t] == a[k..];
    NumBound(a[..k]);
    Remainder(Num(now), Num(a), Num(a[..k]), Num(a[k..]), Over(a, k, r), Pow(BASE, k), Pow(2, r), s);
  }

  lemma HighZeros(now: seq<limb>, t: nat)
    requires t <= |now| && forall j :: t <= j < |now| ==> now[j] == 0
    ensures Num(now) == Num(now[..t])
  {
    NumSplit(now, t);
    NumZero(now[t..]);
    assert 0 * Pow(BASE, t) == 0;
  }

  lemma Remainder(now: int, a: int, low: int, high: int, over: int, b: int, p: int, s: int)
    requires a == low + high * b && now * p + over == high && 0 <= over < p && 0 <= low < b && s == b * p
    ensures now == a / s
  {
    MulAssoc(now, p, b);
    assert p * b == b * p;
    assert high * b == now * s + over * b;
    MulMonotone(over + 1, p, b);
    assert (over + 1) * b == over * b + b;
    MulMonotone(1, p, b);
    MulMonotone(0, over, b);
    DivUnique(a, s, now, low + over * b);
  }
}
