/**
  The skip heights of src/chain.cpp and the number of steps a walk along them takes. The comment there reports at
  most 110 steps to go back up to 2^18 blocks; this file proves that for all heights, and that it is attained.
 */
module SkipList {
  import opened Powers

  // ---------------------------------------------------------------- clearing bits

  /** n & (n - 1). */
  function InvertLowestOne(n: nat): (r: nat)
    ensures n > 0 ==> r < n
    ensures n == 0 ==> r == 0
  {
    if n == 0 then 0 else if n % 2 == 1 then n - 1 else 2 * InvertLowestOne(n / 2)
  }

  /** Bitwise and. */
  function And(a: nat, b: nat): (r: nat)
  {
    if a == 0 || b == 0 then 0 else 2 * And(a / 2, b / 2) + a % 2 * (b % 2)
  }

  lemma {:induction false} AndSelf(n: nat)
    ensures And(n, n) == n
  {
    if n > 0 {
      AndSelf(n / 2);
      assert n == 2 * (n / 2) + n % 2;
    }
  }

  lemma {:induction false} InvertIsAnd(n: nat)
    requires n > 0
    ensures InvertLowestOne(n) == And(n, n - 1)
  {
    if n % 2 == 1 {
      assert (n - 1) / 2 == n / 2 && (n - 1) % 2 == 0;
      AndSelf(n / 2);
    } else {
      assert (n - 1) / 2 == n / 2 - 1;
      InvertIsAnd(n / 2);
    }
  }

  /** The low n bits are clear. */
  predicate Multiple(b: nat, n: nat)
    decreases n
  {
    n == 0 || (b % 2 == 0 && Multiple(b / 2, n - 1))
  }

  /** Clearing the lowest one bit does not look above it. */
  lemma {:induction false} LowPart(n: nat, b: nat, x: nat)
    requires Multiple(b, n) && 0 < x < Pow(2, n)
    ensures InvertLowestOne(b + x) == b + InvertLowestOne(x)
    decreases n
  {
    if x % 2 == 0 {
      assert (b + x) / 2 == b / 2 + x / 2;
      LowPart(n - 1, b / 2, x / 2);
    }
  }

  lemma EvenCleared(n: nat, m: nat)
    requires n == 2 * m
    ensures InvertLowestOne(n) == 2 * InvertLowestOne(m)
  {}

  lemma OddCleared(n: nat)
    requires n % 2 == 1
    ensures InvertLowestOne(n) == n - 1
  {}

  lemma MultipleHalf(b: nat, n: nat)
    requires n > 0
    ensures Multiple(b, n) <==> b % 2 == 0 && Multiple(b / 2, n - 1)
  {}

  lemma AnyMultiple(b: nat)
    ensures Multiple(b, 0)
  {}

  lemma {:induction false} ClearsLowest(n: nat, b: nat)
    requires Multiple(b, n) && b > 0
    ensures InvertLowestOne(b) + Pow(2, n) <= b && Multiple(InvertLowestOne(b), n)
    decreases n
  {
    hide InvertLowestOne, Multiple;
    if n > 0 {
      MultipleHalf(b, n);
      EvenCleared(b, b / 2);
      ClearsLowest(n - 1, b / 2);
      MultipleHalf(InvertLowestOne(b), n);
    } else {
      AnyMultiple(InvertLowestOne(b));
    }
  }

  lemma {:induction false} PowerCleared(n: nat)
    ensures InvertLowestOne(Pow(2, n)) == 0
  {
    if n > 0 {
      assert Pow(2, n) / 2 == Pow(2, n - 1);
      PowerCleared(n - 1);
    }
  }

  lemma {:induction false} MultipleLower(b: nat, n: nat)
    requires Multiple(b, n + 1)
    ensures Multiple(b, n) && Multiple(b + Pow(2, n), n)
    decreases n
  {
    if n > 0 {
      assert (b + Pow(2, n)) / 2 == b / 2 + Pow(2, n - 1);
      MultipleLower(b / 2, n - 1);
    }
  }

  lemma {:induction false} MultipleOf(b: nat, m: nat, n: nat)
    requires n <= m && Multiple(b, m)
    ensures Multiple(b, n)
  {
    if n < m {
      MultipleLower(b, m - 1);
      MultipleOf(b, m - 1, n);
    }
  }

  lemma EightIsPower()
    ensures Pow(2, 3) == 8 && Pow(2, 2) == 4 && Pow(2, 1) == 2 && Pow(2, 0) == 1
  {
    assert Pow(2, 1) == 2 * Pow(2, 0);
  }

  // ---------------------------------------------------------------- counting bits

  function Pop(n: nat): (r: nat)
    ensures r == 0 <==> n == 0
  {
    if n == 0 then 0 else n % 2 + Pop(n / 2)
  }

  lemma NoBits()
    ensures Pop(0) == 0
  {}

  lemma PopHalf(n: nat)
    ensures Pop(n) == n % 2 + Pop(n / 2)
  {}

  lemma Halves(n: nat, h: nat, r: nat)
    requires n == 2 * h + r && r < 2
    ensures n / 2 == h && n % 2 == r
  {}

  lemma PopSplit(n: nat, h: nat, r: nat)
    requires n == 2 * h + r && r < 2
    ensures Pop(n) == r + Pop(h)
  {
    hide Pop;
    PopHalf(n);
    Halves(n, h, r);
  }

  lemma PopDouble(n: nat, m: nat)
    requires n == 2 * m
    ensures Pop(n) == Pop(m)
  {
    hide Pop;
    PopSplit(n, m, 0);
  }

  lemma {:induction false} PopCleared(n: nat)
    requires n > 0
    ensures Pop(InvertLowestOne(n)) == Pop(n) - 1
  {
    if n % 2 == 0 {
      PopCleared(n / 2);
      assert InvertLowestOne(n) / 2 == InvertLowestOne(n / 2);
    } else {
      assert (n - 1) / 2 == n / 2;
    }
  }

  lemma {:induction false} PopBelow(n: nat, x: nat)
    requires x < Pow(2, n)
    ensures Pop(x) <= n
  {
    if n > 0 { PopBelow(n - 1, x / 2); }
  }

  lemma {:induction false} PopTop(n: nat, x: nat)
    requires x < Pow(2, n)
    ensures Pop(Pow(2, n) + x) == 1 + Pop(x)
  {
    if n > 0 {
      assert (Pow(2, n) + x) / 2 == Pow(2, n - 1) + x / 2 && (Pow(2, n) + x) % 2 == x % 2;
      PopTop(n - 1, x / 2);
      assert x == 0 || Pop(x) == x % 2 + Pop(x / 2);
    }
  }

  /** The bits above the lowest one, or the lowest three. */
  lemma PopHigh(x: nat)
    ensures x % 2 == 0 ==> Pop(x) == Pop(x / 2)
    ensures x % 8 == 0 ==> Pop(x) == Pop(x / 8)
  {
    hide Pop;
    if x % 2 == 0 { PopDouble(x, x / 2); }
    if x % 8 == 0 { PopEight(x, x / 8); }
  }

  lemma PopEight(n: nat, m: nat)
    requires n == 8 * m
    ensures Pop(n) == Pop(m)
  {
    hide Pop;
    PopDouble(n, 4 * m);
    PopDouble(4 * m, 2 * m);
    PopDouble(2 * m, m);
  }

  lemma {:induction false} PopOnes(n: nat)
    ensures Pop(Pow(2, n) - 1) == n
  {
    if n > 0 {
      assert (Pow(2, n) - 1) / 2 == Pow(2, n - 1) - 1 && (Pow(2, n) - 1) % 2 == 1;
      PopOnes(n - 1);
    }
  }

  // ---------------------------------------------------------------- skip heights and steps

  function GetSkipHeight(height: nat): (r: nat)
    ensures height > 0 ==> r < height
  {
    if height < 2 then 0
    else if height % 2 == 1 then InvertLowestOne(InvertLowestOne(height - 1)) + 1
    else InvertLowestOne(height)
  }

  /** The test of GetAncestor: the skip pointer is followed unless it overshoots or the one of pprev is better. */
  predicate Follows(heightWalk: nat, height: nat)
    requires height < heightWalk
  {
    var (heightSkip, heightSkipPrev) := (GetSkipHeight(heightWalk), GetSkipHeight(heightWalk - 1));
    heightSkip == height || (heightSkip > height && !(heightSkipPrev < heightSkip - 2 && heightSkipPrev >= height))
  }

  /** The number of pointers followed from one height down to another. */
  function Steps(heightWalk: nat, height: nat): (n: nat)
    requires height <= heightWalk
    ensures n <= heightWalk - height
    decreases heightWalk
  {
    if heightWalk == height then 0
    else if Follows(heightWalk, height) then 1 + Steps(GetSkipHeight(heightWalk), height)
    else 1 + Steps(heightWalk - 1, height)
  }

  /** From an odd height the skip pointer is followed whenever it does not overshoot. */
  lemma OddFollows(w: nat, t: nat)
    requires w % 2 == 1 && t < w
    ensures Follows(w, t) <==> GetSkipHeight(w) >= t
  {}

  lemma FourCleared(n: nat, m: nat)
    requires n == 4 * m
    ensures InvertLowestOne(n) == 4 * InvertLowestOne(m)
  {
    hide InvertLowestOne;
    EvenCleared(n, 2 * m);
    EvenCleared(2 * m, m);
  }

  lemma EightCleared(n: nat, y: nat)
    requires n == 8 * y
    ensures InvertLowestOne(n) == 8 * InvertLowestOne(y)
  {
    hide InvertLowestOne;
    EvenCleared(n, 4 * y);
    FourCleared(4 * y, y);
  }

  lemma SixCleared(n: nat, y: nat)
    requires n == 8 * y
    ensures InvertLowestOne(n + 6) == n + 4 && InvertLowestOne(n + 4) == n
  {
    hide InvertLowestOne;
    EvenCleared(n + 6, 4 * y + 3);
    OddCleared(4 * y + 3);
    FourCleared(n + 4, 2 * y + 1);
    OddCleared(2 * y + 1);
  }

  lemma OddSkip(v: nat, m: nat, y: nat, a: nat)
    requires v == 2 * m > 0 && y == InvertLowestOne(v) && a == InvertLowestOne(y)
    ensures GetSkipHeight(v + 1) == a + 1
  {
    hide InvertLowestOne;
  }

  lemma EvenSkip(w: nat, m: nat)
    requires w == 2 * m
    ensures GetSkipHeight(w) == InvertLowestOne(w)
  {
    hide InvertLowestOne;
    if w == 0 { Zero(); }
  }

  lemma Zero()
    ensures InvertLowestOne(0) == 0
  {}

  lemma EightSkips(w: nat, y: nat)
    requires w == 8 * y && y > 0
    ensures GetSkipHeight(w) == InvertLowestOne(w) <= w - 8 && GetSkipHeight(w - 1) == w - 7
  {
    hide InvertLowestOne, GetSkipHeight;
    EightCleared(w, y);
    SixCleared(w - 8, y - 1);
    EvenSkip(w, 4 * y);
    OddSkip(w - 2, 4 * y - 1, w - 4, w - 8);
  }

  /** So it is from a multiple of eight, whose predecessor skips less far. */
  lemma EightFollows(w: nat, y: nat, t: nat)
    requires w == 8 * y && t < w
    ensures Follows(w, t) <==> InvertLowestOne(w) >= t
  {
    hide InvertLowestOne, GetSkipHeight;
    EightSkips(w, y);
  }

  /** b has its low i + 1 bits clear: it is the common part of two heights that differ first in bit i. */
  predicate Base(i: nat, b: nat, q: nat) { i > 0 && q == Pow(2, i) && Multiple(b, i + 1) }

  lemma TopCleared(i: nat, b: nat, q: nat)
    requires Base(i, b, q)
    ensures InvertLowestOne(b + q) == b && q % 2 == 0 && b % 2 == 0 && q > 1
  {
    hide InvertLowestOne;
    PowerCleared(i);
    LowPart(i + 1, b, q);
  }

  lemma LowCleared(i: nat, b: nat, q: nat, x: nat)
    requires Base(i, b, q) && 0 < x < q
    ensures InvertLowestOne(b + q + x) == b + q + InvertLowestOne(x)
  {
    hide InvertLowestOne;
    MultipleLower(b, i);
    LowPart(i, b + q, x);
  }

  lemma EvenFrom(i: nat, b: nat, q: nat, u: nat, h: nat)
    requires Base(i, b, q) && u < q && u == 2 * h
    ensures GetSkipHeight(b + q + u) == if u == 0 then b else b + q + InvertLowestOne(u)
  {
    hide InvertLowestOne, Multiple;
    TopCleared(i, b, q);
    EvenSkip(b + q + u, b / 2 + q / 2 + h);
    if u > 0 { LowCleared(i, b, q, u); }
  }

  lemma OddFromNone(i: nat, b: nat, q: nat)
    requires Base(i, b, q)
    ensures GetSkipHeight(b + q + 1) == InvertLowestOne(b) + 1
  {
    hide InvertLowestOne, Multiple;
    TopCleared(i, b, q);
    OddSkip(b + q, (b + q) / 2, b, InvertLowestOne(b));
  }

  lemma OddFromOne(i: nat, b: nat, q: nat, x: nat)
    requires Base(i, b, q) && 0 < x < q && x % 2 == 0 && InvertLowestOne(x) == 0
    ensures GetSkipHeight(b + q + x + 1) == b + 1
  {
    hide InvertLowestOne, Multiple;
    TopCleared(i, b, q);
    LowCleared(i, b, q, x);
    OddSkip(b + q + x, (b + q + x) / 2, b + q, b);
  }

  lemma OddFromMore(i: nat, b: nat, q: nat, x: nat)
    requires Base(i, b, q) && 0 < x < q && x % 2 == 0 && InvertLowestOne(x) > 0
    ensures GetSkipHeight(b + q + x + 1) == b + q + InvertLowestOne(InvertLowestOne(x)) + 1
  {
    hide InvertLowestOne, Multiple;
    TopCleared(i, b, q);
    var y := InvertLowestOne(x);
    LowCleared(i, b, q, x);
    LowCleared(i, b, q, y);
    OddSkip(b + q + x, (b + q + x) / 2, b + q + y, b + q + InvertLowestOne(y));
  }

  // ---------------------------------------------------------------- one step

  lemma OneStep(w: nat, t: nat, s: nat)
    requires t < w && s == GetSkipHeight(w)
    ensures if Follows(w, t) then t <= s < w && Steps(w, t) == 1 + Steps(s, t) else Steps(w, t) == 1 + Steps(w - 1, t)
  {
    hide InvertLowestOne;
  }

  lemma OddStep(v: nat, t: nat, s: nat)
    requires v % 2 == 0 && t <= v && s == GetSkipHeight(v + 1)
    ensures if s >= t then Steps(v + 1, t) == 1 + Steps(s, t) else Steps(v + 1, t) == 1 + Steps(v, t)
  {
    OddFollows(v + 1, t);
    hide Follows, GetSkipHeight, InvertLowestOne;
    OneStep(v + 1, t, s);
  }

  /** From an even height: straight on, or by the skip pointer of the height below. */
  lemma EvenStep(w: nat, t: nat, s: nat, p: nat)
    requires w % 2 == 0 && t < w && s == GetSkipHeight(w) && p == GetSkipHeight(w - 1) && t < s
    ensures if p < s - 2 && p >= t then Steps(w, t) == 2 + Steps(p, t) else Steps(w, t) == 1 + Steps(s, t)
  {
    hide GetSkipHeight, InvertLowestOne;
    OneStep(w, t, s);
    OddStep(w - 2, t, p);
  }

  // ---------------------------------------------------------------- from the upper half down to its bottom

  lemma FromTop(i: nat, b: nat, q: nat, t: nat)
    requires Base(i, b, q) && b <= t < b + q
    ensures Steps(b + q, t) == if t == b then 1 else 1 + Steps(b + q - 1, t)
  {
    hide GetSkipHeight, InvertLowestOne, Multiple;
    EvenFrom(i, b, q, 0, 0);
    OneStep(b + q, t, b);
  }

  lemma EightsBase(i: nat, b: nat, q: nat) returns (c: nat)
    requires Base(i, b, q) && q > 8
    ensures b + q == 8 * c
  {
    EightIsPower();
    if i < 3 { PowMonotone(2, i, 3); }
    PowAdd(2, 3, i - 3);
    MultipleOf(b, i + 1, 3);
    Eights(b);
    c := b / 8 + Pow(2, i - 3);
  }

  lemma Eights(b: nat)
    requires Multiple(b, 3)
    ensures b % 8 == 0
  {
    hide Multiple;
    MultipleHalf(b, 3);
    MultipleHalf(b / 2, 2);
    MultipleHalf(b / 2 / 2, 1);
    assert b == 8 * (b / 2 / 2 / 2);
  }

  /** A multiple of eight loses one bit in each step. */
  lemma {:induction false} EightPhase(i: nat, b: nat, q: nat, m: nat, t: nat)
    requires Base(i, b, q) && 8 * m < q && b <= t < b + q
    ensures Steps(b + q + 8 * m, t) == Pop(8 * m) + Steps(b + q, t)
    decreases m
  {
    hide *;
    if m > 0 {
      var n := InvertLowestOne(m);
      EightCleared(8 * m, m);
      EightStep(i, b, q, m, n, t);
      PopCleared(8 * m);
      EightPhase(i, b, q, n, t);
    } else {
      NoBits();
    }
  }

  lemma EightStep(i: nat, b: nat, q: nat, m: nat, n: nat, t: nat)
    requires Base(i, b, q) && 0 < 8 * m < q && b <= t < b + q && InvertLowestOne(8 * m) == 8 * n
    ensures Steps(b + q + 8 * m, t) == 1 + Steps(b + q + 8 * n, t)
  {
    hide *;
    var c := EightsBase(i, b, q);
    EightFollows(b + q + 8 * m, c + m, t);
    EvenFrom(i, b, q, 8 * m, 4 * m);
    LowCleared(i, b, q, 8 * m);
    OneStep(b + q + 8 * m, t, b + q + 8 * n);
  }

  /** What is left at the bottom of the upper half; at least two steps, which suffice when a shortcut is taken. */
  function Rest(b: nat, q: nat, t: nat): (r: nat)
    requires t <= b + q
  {
    if Steps(b + q, t) < 2 then 2 else Steps(b + q, t)
  }

  lemma OneBit(i: nat, b: nat, q: nat, u: nat, t: nat)
    requires Base(i, b, q) && u < q && u % 2 == 0 && Pop(u) == 1 && b <= t < b + q
    ensures Steps(b + q + u, t) <= 1 + Rest(b, q, t)
    ensures t > b + 1 ==> Steps(b + q + u, t) == 1 + Steps(b + q, t)
  {
    hide GetSkipHeight, InvertLowestOne, Multiple, Follows, Steps, Pop, Base, Pow;
    if u % 8 == 0 {
      EightPhase(i, b, q, u / 8, t);
    } else {
      SmallBit(u);
      EvenFrom(i, b, q, u, u / 2);
      PopCleared(u);
      var p := if u == 2 then InvertLowestOne(b) + 1 else b + 1;
      TopCleared(i, b, q);
      if u == 2 {
        OddFromNone(i, b, q);
      } else {
        TwoCleared();
        OddFromOne(i, b, q, 2);
      }
      EvenStep(b + q + u, t, b + q, p);
    }
  }

  lemma TwoCleared()
    ensures InvertLowestOne(2) == 0
  {
    EvenCleared(2, 1);
  }

  lemma PopTwo(u: nat, a: nat)
    requires u == 4 * a + 2
    ensures Pop(u) == 1 + Pop(a)
  {
    hide Pop;
    PopSplit(u, 2 * a + 1, 0);
    PopSplit(2 * a + 1, a, 1);
  }

  lemma FourOrEight(u: nat, g: nat)
    requires u == 4 * g
    ensures g % 2 == 0 ==> u % 8 == 0
  {
    if g % 2 == 0 { assert u == 8 * (g / 2); }
  }

  lemma SmallBit(u: nat)
    requires u % 2 == 0 && Pop(u) == 1 && u % 8 != 0
    ensures u == 2 || u == 4
  {
    hide *;
    var h := u / 2;
    if h % 2 == 1 {
      PopTwo(u, h / 2);
      NoneLeft(h / 2);
    } else {
      var g := h / 2;
      FourOrEight(u, g);
      PopHigh(u);
      PopTwo(h, g / 2);
      NoneLeft(g / 2);
    }
  }

  lemma NoneLeft(y: nat)
    requires Pop(y) == 0
    ensures y == 0
  {}

  lemma OddNone(i: nat, b: nat, q: nat, t: nat)
    requires Base(i, b, q) && b <= t < b + q
    ensures Steps(b + q + 1, t) <= 1 + Rest(b, q, t)
    ensures t > b + 1 ==> Steps(b + q + 1, t) == 1 + Steps(b + q, t)
  {
    hide GetSkipHeight, InvertLowestOne, Multiple, Follows, Steps, Pop, Base, Pow;
    TopCleared(i, b, q);
    OddFromNone(i, b, q);
    OddStep(b + q, t, InvertLowestOne(b) + 1);
  }

  lemma OddOne(i: nat, b: nat, q: nat, x: nat, t: nat)
    requires Base(i, b, q) && 0 < x < q && x % 2 == 0 && Pop(x) == 1 && InvertLowestOne(x) == 0 && b <= t < b + q
    ensures Steps(b + q + x + 1, t) <= 2 + Rest(b, q, t)
    ensures t > b + 1 ==> Steps(b + q + x + 1, t) == 2 + Steps(b + q, t)
  {
    hide GetSkipHeight, InvertLowestOne, Multiple, Follows, Steps, Pop, Base, Pow;
    TopCleared(i, b, q);
    OddFromOne(i, b, q, x);
    OddStep(b + q + x, t, b + 1);
    OneBit(i, b, q, x, t);
  }

  lemma OddMore(i: nat, b: nat, q: nat, x: nat, y: nat, z: nat, t: nat)
    requires Base(i, b, q) && 0 < x < q && x % 2 == 0 && y == InvertLowestOne(x) > 0 && z == InvertLowestOne(y)
    requires b <= t < b + q
    ensures Steps(b + q + x + 1, t) == 1 + Steps(b + q + z + 1, t)
    ensures z % 2 == 0 && z < x && Pop(x) == Pop(z) + 2
  {
    hide *;
    TopCleared(i, b, q);
    PopCleared(x);
    PopCleared(y);
    EvenCleared(x, x / 2);
    EvenCleared(y, y / 2);
    OddFromMore(i, b, q, x);
    OddStep(b + q + x, t, b + q + z + 1);
  }

  /** An odd height loses two bits in each step. */
  lemma {:induction false} OddPhase(i: nat, b: nat, q: nat, x: nat, t: nat)
    requires Base(i, b, q) && x < q && x % 2 == 0 && b <= t < b + q
    ensures Steps(b + q + x + 1, t) <= (Pop(x) + 1) / 2 + 1 + Rest(b, q, t)
    ensures t > b + 1 ==> Steps(b + q + x + 1, t) == (Pop(x) + 1) / 2 + 1 + Steps(b + q, t)
    decreases x
  {
    hide *;
    if x == 0 {
      NoBits();
      OddNone(i, b, q, t);
    } else {
      var y := InvertLowestOne(x);
      PopCleared(x);
      if y == 0 {
        NoBits();
        OddOne(i, b, q, x, t);
      } else {
        var z := InvertLowestOne(y);
        OddMore(i, b, q, x, y, z, t);
        OddPhase(i, b, q, z, t);
      }
    }
  }

  // ---------------------------------------------------------------- other even heights

  /** An even height that is no multiple of eight, with another bit set. */
  lemma Gap(u: nat)
    requires u % 2 == 0 && u % 8 != 0 && Pop(u) >= 2
    ensures Pop(u - 2) <= Pop(u) && u > 2
    ensures Pop(u - 2) == 1 ==> InvertLowestOne(u) == u - 2
    ensures Pop(u - 2) >= 2 ==> InvertLowestOne(InvertLowestOne(u - 2)) + 4 <= InvertLowestOne(u)
  {
    hide *;
    NoBits();
    var h := u / 2;
    if h % 2 == 1 {
      GapTwo(u, h / 2);
    } else {
      FourOrEight(u, h / 2);
      GapFour(u, h / 2 / 2);
    }
  }

  lemma GapTwo(u: nat, a: nat)
    requires u == 4 * a + 2 && Pop(u) >= 2
    ensures a > 0 && InvertLowestOne(u) == 4 * a && Pop(4 * a) == Pop(u) - 1
    ensures Pop(4 * a) >= 2 ==> InvertLowestOne(InvertLowestOne(4 * a)) + 4 <= 4 * a
  {
    hide InvertLowestOne;
    EvenCleared(u, 2 * a + 1);
    OddCleared(2 * a + 1);
    PopCleared(u);
    FourCleared(4 * a, a);
    FourCleared(4 * InvertLowestOne(a), InvertLowestOne(a));
  }

  lemma GapFour(u: nat, a: nat)
    requires u == 8 * a + 4 && Pop(u) >= 2
    ensures a > 0 && InvertLowestOne(u) == 8 * a && Pop(u - 2) == Pop(u)
    ensures InvertLowestOne(InvertLowestOne(u - 2)) + 8 <= 8 * a
  {
    hide *;
    NoBits();
    PopSplit(u - 2, 4 * a + 1, 0);
    PopSplit(4 * a + 1, 2 * a, 1);
    PopDouble(2 * a, a);
    PopSplit(u, 4 * a + 2, 0);
    PopTwo(4 * a + 2, a);
    FourCleared(u, 2 * a + 1);
    OddCleared(2 * a + 1);
    GapBelow(u - 2, a);
  }

  lemma GapBelow(v: nat, a: nat)
    requires v == 8 * a + 2 && a > 0
    ensures InvertLowestOne(v) == 8 * a && InvertLowestOne(8 * a) + 8 <= 8 * a
  {
    OddDoubled(v, 4 * a + 1, 2 * a);
    RoomBelow(8 * a, a);
  }

  lemma OddDoubled(v: nat, w: nat, half: nat)
    requires v == 2 * w && w == 2 * half + 1
    ensures InvertLowestOne(v) == 4 * half
  {
    hide InvertLowestOne;
    EvenCleared(v, w);
    OddCleared(w);
  }

  lemma RoomBelow(n: nat, a: nat)
    requires n == 8 * a && a > 0
    ensures InvertLowestOne(n) + 8 <= n
  {
    hide InvertLowestOne;
    EightCleared(n, a);
  }

  lemma EvenOne(i: nat, b: nat, q: nat, u: nat, t: nat)
    requires Base(i, b, q) && 2 < u < q && u % 2 == 0 && Pop(u - 2) == 1 && InvertLowestOne(u) == u - 2 && b <= t < b + q
    ensures Steps(b + q + u, t) <= 2 + Rest(b, q, t)
  {
    hide *;
    var x := u - 2;
    PopCleared(x);
    NoneLeft(InvertLowestOne(x));
    TopCleared(i, b, q);
    EvenFrom(i, b, q, u, u / 2);
    OddFromOne(i, b, q, x);
    EvenStep(b + q + u, t, b + q + x, b + 1);
    OneBit(i, b, q, x, t);
    RestIs(b, q, t);
  }

  lemma EvenMore(i: nat, b: nat, q: nat, u: nat, y: nat, z: nat, t: nat)
    requires Base(i, b, q) && 2 < u < q && u % 2 == 0 && b <= t < b + q
    requires y == InvertLowestOne(u - 2) > 0 && z == InvertLowestOne(y) && z + 4 <= InvertLowestOne(u)
    ensures Steps(b + q + u, t) == 2 + Steps(b + q + z + 1, t) && z % 2 == 0
  {
    hide *;
    TopCleared(i, b, q);
    EvenFrom(i, b, q, u, u / 2);
    OddFromMore(i, b, q, u - 2);
    EvenStep(b + q + u, t, b + q + InvertLowestOne(u), b + q + z + 1);
    EvenCleared(u - 2, (u - 2) / 2);
    EvenCleared(y, y / 2);
  }

  lemma RestIs(b: nat, q: nat, t: nat)
    requires t <= b + q
    ensures Rest(b, q, t) >= 2 && Rest(b, q, t) >= Steps(b + q, t)
  {
    hide Steps;
  }

  lemma EvenPhase(i: nat, b: nat, q: nat, u: nat, t: nat)
    requires Base(i, b, q) && u < q && u % 2 == 0 && u % 8 != 0 && b <= t < b + q
    ensures Steps(b + q + u, t) <= (Pop(u) + 1) / 2 + 2 + Rest(b, q, t)
  {
    hide *;
    if Pop(u) <= 1 {
      SomeBit(u);
      OneBit(i, b, q, u, t);
    } else {
      Gap(u);
      var x := u - 2;
      SomeBit(x);
      if Pop(x) == 1 {
        EvenOne(i, b, q, u, t);
      } else {
        var y := InvertLowestOne(x);
        PopCleared(x);
        NoBits();
        PopCleared(y);
        EvenMore(i, b, q, u, y, InvertLowestOne(y), t);
        OddPhase(i, b, q, InvertLowestOne(y), t);
      }
    }
  }

  lemma SomeBit(x: nat)
    requires x > 0
    ensures Pop(x) > 0
  {}

  // ---------------------------------------------------------------- from all ones down

  /** At most so many steps lead from b + 2^j - 1 down by s: one phase for each bit of s. */
  function Remaining(j: nat, s: nat): (r: nat)
    requires s < Pow(2, j)
    ensures r >= 4
  {
    if j <= 3 then 4
    else if s >= Pow(2, j - 1) then (j - 1) / 2 + 2 + Remaining(j - 1, s - Pow(2, j - 1))
    else Remaining(j - 1, s)
  }

  lemma OnesSmall(j: nat, b: nat, t: nat)
    requires j <= 3 && Multiple(b, j) && b <= t < b + Pow(2, j)
    ensures Steps(b + Pow(2, j) - 1, t) <= 4
  {
    hide *;
    EightIsPower();
    if j == 3 && t <= b + 2 { OnesEight(b, t); }
  }

  /** From b + 7 to one of b, b + 1 and b + 2. */
  lemma OnesEight(b: nat, t: nat)
    requires Multiple(b, 3) && b <= t <= b + 2
    ensures Steps(b + 7, t) <= 4
  {
    hide *;
    EightIsPower();
    MakeBase(2, b);
    TopCleared(2, b, 4);
    TwoCleared();
    OddFromOne(2, b, 4, 2);
    OddStep(b + 6, t, b + 1);
    if t == b + 2 {
      EvenFrom(2, b, 4, 2, 1);
      OddFromNone(2, b, 4);
      EvenStep(b + 6, t, b + 4, InvertLowestOne(b) + 1);
    }
  }

  lemma MakeBase(i: nat, b: nat)
    requires i > 0 && Multiple(b, i + 1)
    ensures Base(i, b, Pow(2, i))
  {
    hide Multiple, Pow;
  }

  lemma OnesBelow(i: nat, q: nat)
    requires i > 0 && q == Pow(2, i)
    ensures q >= 2 && q % 2 == 0 && Pop(q - 2) == i - 1
  {
    hide Pop;
    var h := Pow(2, i - 1);
    assert q == 2 * h;
    hide *;
    PopOnes(i - 1);
    PopDouble(q - 2, h - 1);
  }

  lemma {:induction false} Ones(j: nat, b: nat, t: nat)
    requires Multiple(b, j) && b <= t < b + Pow(2, j)
    ensures Steps(b + Pow(2, j) - 1, t) <= Remaining(j, b + Pow(2, j) - 1 - t)
    decreases j
  {
    hide InvertLowestOne, GetSkipHeight, Follows, Steps, Pop, Multiple;
    if j <= 3 {
      OnesSmall(j, b, t);
    } else {
      var (i, q) := (j - 1, Pow(2, j - 1));
      MultipleLower(b, i);
      if t >= b + q {
        Ones(i, b + q, t);
      } else {
        OnesBelow(i, q);
        MakeBase(i, b);
        OddPhase(i, b, q, q - 2, t);
        FromTop(i, b, q, t);
        Ones(i, b, t);
      }
    }
  }

  // ---------------------------------------------------------------- any two heights

  /** The steps from b + q + u to the bottom of the upper half and one further. */
  function Descent(u: nat): (r: nat)
  {
    if u % 8 == 0 then Pop(u) + 1 else if u % 2 == 0 then (Pop(u) + 1) / 2 + 3 else (Pop(u - 1) + 1) / 2 + 2
  }

  lemma Phases(i: nat, b: nat, q: nat, u: nat, t: nat)
    requires Base(i, b, q) && u < q && b <= t < b + q
    ensures b + q - 1 - t < Pow(2, i) && Steps(b + q + u, t) <= Descent(u) + Remaining(i, b + q - 1 - t)
  {
    hide InvertLowestOne, GetSkipHeight, Follows, Steps, Pop, Multiple, Remaining;
    MultipleOf(b, i + 1, i);
    Ones(i, b, t);
    FromTop(i, b, q, t);
    if u % 8 == 0 {
      EightPhase(i, b, q, u / 8, t);
    } else if u % 2 == 0 {
      EvenPhase(i, b, q, u, t);
    } else {
      OddPhase(i, b, q, u - 1, t);
    }
  }

  /** The number of steps that suffice for 2^k blocks. */
  function StepBound(k: nat): (r: int)
    requires k >= 3
  {
    var (few, many) := ((k - 1) * (k - 1) / 4 + 2 * k + 1, k * k / 4 + 2 * k - 7);
    if few >= many then few else many
  }

  lemma {:induction false} RemainingLevel(i: nat, k: nat, s: nat)
    requires s < Pow(2, i) && s < Pow(2, k) && k >= 3
    ensures Remaining(i, s) <= Remaining(k, s)
    decreases i + k
  {
    if i > k {
      PowMonotone(2, k, i - 1);
      RemainingLevel(i - 1, k, s);
    } else if i < k && k > 3 {
      PowMonotone(2, i, k - 1);
      RemainingLevel(i, k - 1, s);
    }
  }

  lemma {:induction false} RemainingAtMost(k: nat, s: nat)
    requires k >= 3 && s < Pow(2, k)
    ensures Remaining(k, s) <= (k - 1) * (k - 1) / 4 + 2 * k - 3
  {
    if k > 3 {
      Quarter(k - 1);
      RemainingAtMost(k - 1, if s >= Pow(2, k - 1) then s - Pow(2, k - 1) else s);
    }
  }

  lemma Quarter(k: nat)
    requires k > 0
    ensures k * k / 4 == (k - 1) * (k - 1) / 4 + k / 2
  {
    var m := k / 2;
    var mm := m * m;
    EvenSquare(m, mm);
    if k == 2 * m {
      if m > 0 {
        OddSquare(m - 1, (m - 1) * (m - 1));
        PredecessorSquare(m, mm);
        QuarterOdd(k - 1, mm - m);
      }
      QuarterEven(k, mm);
    } else {
      OddSquare(m, mm);
      QuarterEven(k - 1, mm);
      QuarterOdd(k, mm + m);
    }
  }

  lemma EvenSquare(m: nat, mm: nat)
    requires mm == m * m
    ensures (2 * m) * (2 * m) == 4 * mm
  {}

  lemma OddSquare(m: nat, mm: nat)
    requires mm == m * m
    ensures (2 * m + 1) * (2 * m + 1) == 4 * (mm + m) + 1
  {}

  lemma PredecessorSquare(m: nat, mm: nat)
    requires mm == m * m && m > 0
    ensures (m - 1) * (m - 1) + (m - 1) == mm - m >= 0
  {}

  lemma QuarterEven(k: nat, c: nat)
    requires k * k == 4 * c
    ensures k * k / 4 == c
  {}

  lemma QuarterOdd(k: nat, c: nat)
    requires k * k == 4 * c + 1
    ensures k * k / 4 == c
  {}

  lemma DescentBelow(m: nat, u: nat)
    requires m >= 3 && u < Pow(2, m)
    ensures Descent(u) <= m - 2 || Descent(u) <= 3 + m / 2
  {
    hide Pop, Pow;
    PopHigh(u);
    if u % 8 == 0 {
      PowAdd(2, 3, m - 3);
      EightIsPower();
      PopBelow(m - 3, u / 8);
    } else {
      PowAdd(2, 1, m - 1);
      EightIsPower();
      PopBelow(m - 1, u / 2);
      PopHigh(u - 1);
    }
  }

  lemma DescentTop(m: nat, u: nat)
    requires m >= 3 && u < Pow(2, m)
    ensures Descent(Pow(2, m) + u) <= 1 + Descent(u)
  {
    hide Pop, Pow;
    PowAdd(2, 3, m - 3);
    EightIsPower();
    PopTop(m, u);
    if u > 0 { PopTop(m, u - 1); }
    SameLow(Pow(2, m), Pow(2, m - 3), u);
  }

  lemma SameLow(q: nat, c: nat, u: nat)
    requires q == 8 * c
    ensures (q + u) % 8 == u % 8 && (q + u) % 2 == u % 2
  {}

  /** The two parts of a walk share the bits of its length. */
  lemma {:induction false} Tradeoff(k: nat, s: nat, u: nat)
    requires k >= 3 && s + u < Pow(2, k)
    ensures Remaining(k, s) + Descent(u) <= StepBound(k)
    decreases k
  {
    if k == 3 {
      DescentBelow(3, u);
    } else {
      hide Pop, Descent, InvertLowestOne;
      var (m, h) := (k - 1, Pow(2, k - 1));
      Quarter(m);
      Quarter(k);
      if s >= h {
        Tradeoff(m, s - h, u);
      } else if u < h {
        RemainingAtMost(m, s);
        DescentBelow(m, u);
      } else {
        DescentTop(m, u - h);
        Tradeoff(m, s, u - h);
      }
    }
  }

  lemma Crossing(i: nat, b: nat, w: nat, t: nat, k: nat)
    requires Multiple(b, i + 1) && b <= t < b + Pow(2, i) <= w < b + 2 * Pow(2, i) && k >= 3 && w - t <= Pow(2, k)
    ensures Steps(w, t) <= StepBound(k)
  {
    hide *;
    EightIsPower();
    if i > 0 {
      var q := Pow(2, i);
      var (u, s) := (w - b - q, b + q - 1 - t);
      MakeBase(i, b);
      Phases(i, b, q, u, t);
      RemainingLevel(i, k, s);
      Tradeoff(k, s, u);
    } else {
      SomeSteps(k);
    }
  }

  lemma SomeSteps(k: nat)
    requires k >= 3
    ensures StepBound(k) >= 8
  {}

  lemma {:induction false} SplitHeights(n: nat, b: nat, w: nat, t: nat, k: nat)
    requires Multiple(b, n) && b <= t < w < b + Pow(2, n) && k >= 3 && w - t <= Pow(2, k)
    ensures Steps(w, t) <= StepBound(k)
    decreases n
  {
    hide InvertLowestOne, GetSkipHeight, Follows, Steps, Multiple, StepBound;
    var (i, q) := (n - 1, Pow(2, n - 1));
    MultipleLower(b, i);
    if t >= b + q {
      SplitHeights(i, b + q, w, t, k);
    } else if w < b + q {
      SplitHeights(i, b, w, t, k);
    } else {
      Crossing(i, b, w, t, k);
    }
  }

  lemma {:induction false} BelowPower(w: nat)
    ensures w < Pow(2, w)
  {
    if w > 0 { BelowPower(w - 1); }
  }

  lemma {:induction false} NoLowBits(n: nat)
    ensures Multiple(0, n)
  {
    if n > 0 { NoLowBits(n - 1); }
  }

  // ---------------------------------------------------------------- the documented figure

  /** Any block is found in so many steps from any other at most 2^k blocks above. */
  lemma StepsAtMost(k: nat, w: nat, t: nat)
    requires k >= 3 && t <= w <= t + Pow(2, k)
    ensures Steps(w, t) <= StepBound(k)
  {
    hide *;
    if t < w {
      BelowPower(w);
      NoLowBits(w);
      SplitHeights(w, 0, w, t, k);
    } else {
      SomeSteps(k);
      NoSteps(w);
    }
  }

  lemma NoSteps(w: nat)
    ensures Steps(w, w) == 0
  {}

  /** From all ones down to height 2. */
  lemma {:induction false} OnesToTwo(j: nat)
    requires j >= 3
    ensures Pow(2, j) >= 8 && Steps(Pow(2, j) - 1, 2) == (j - 1) * (j - 1) / 4 + 2 * j - 3
  {
    hide InvertLowestOne, GetSkipHeight, Follows, Steps, Pop, Multiple;
    EightIsPower();
    if j == 3 {
      SevenToTwo();
    } else {
      var (i, q) := (j - 1, Pow(2, j - 1));
      OnesToTwo(i);
      NoLowBits(j);
      MakeBase(i, 0);
      OnesBelow(i, q);
      OddPhase(i, 0, q, q - 2, 2);
      FromTop(i, 0, q, 2);
      Quarter(i);
    }
  }

  lemma SevenToTwo()
    ensures Steps(7, 2) == 4
  {
    hide *;
    EightIsPower();
    NoLowBits(3);
    NoLowBits(2);
    MakeBase(2, 0);
    MakeBase(1, 0);
    TwoCleared();
    Zero();
    OddFromOne(2, 0, 4, 2);
    OddStep(6, 2, 1);
    EvenFrom(2, 0, 4, 2, 1);
    OddFromNone(2, 0, 4);
    EvenStep(6, 2, 4, 1);
    FromTop(2, 0, 4, 2);
    OddFromNone(1, 0, 2);
    OddStep(2, 2, 1);
    NoSteps(2);
  }

  /** From 2^k - 8, where each step clears one bit, to the bottom of the upper half and one further. */
  lemma EightsToTwo(k: nat)
    requires k >= 5
    ensures Pow(2, k) >= 32 && Steps(Pow(2, k) - 8, 2) == k - 3 + Steps(Pow(2, k - 1) - 1, 2)
  {
    hide *;
    var (q, m) := (Pow(2, k - 1), Pow(2, k - 4) - 1);
    EightTimes(k);
    NoLowBits(k);
    MakeBase(k - 1, 0);
    PopOnes(k - 4);
    PopEight(8 * m, m);
    EightPhase(k - 1, 0, q, m, 2);
    FromTop(k - 1, 0, q, 2);
  }

  lemma EightTimes(k: nat)
    requires k >= 5
    ensures Pow(2, k - 1) == 8 * Pow(2, k - 4) >= 16 && Pow(2, k) == 2 * Pow(2, k - 1)
  {
    EightIsPower();
    PowAdd(2, 3, k - 4);
    PowAdd(2, 1, k - 1);
    PowMonotone(2, 1, k - 4);
  }

  lemma AttainedSum(k: nat, a: nat)
    requires k >= 16 && a == (k - 2) * (k - 2) / 4 + 2 * (k - 1) - 3
    ensures StepBound(k) == k * k / 4 + 2 * k - 7 == k - 3 + a
  {
    Quarter(k);
    Quarter(k - 1);
  }

  /** The bound is attained: for k of at least 16 it is the maximum over all pairs of heights. */
  lemma StepsAttained(k: nat)
    requires k >= 16
    ensures Pow(2, k) >= 32 && Steps(Pow(2, k) - 8, 2) == StepBound(k) == k * k / 4 + 2 * k - 7
  {
    hide *;
    EightsToTwo(k);
    OnesToTwo(k - 1);
    AttainedSum(k, Steps(Pow(2, k - 1) - 1, 2));
  }

  /** The comment of GetSkipHeight: at most 110 steps to go back up to 2^18 blocks. That many are needed from
      height 262136 to height 2. */
  lemma DocumentedSteps(w: nat, t: nat)
    requires t <= w <= t + 0x4_0000
    ensures Steps(w, t) <= 110 && Steps(0x4_0000 - 8, 2) == 110
  {
    hide Pow, Steps, Follows, GetSkipHeight, InvertLowestOne;
    EightIsPower();
    PowAdd(2, 3, 3);
    PowAdd(2, 6, 6);
    PowAdd(2, 12, 6);
    StepsAtMost(18, w, t);
    StepsAttained(18);
  }
}
