/** Powers and the few facts about division that the number code needs. */
module Powers {
  function Pow(b: nat, e: nat): (r: nat)
    ensures b > 0 ==> r > 0
    decreases e
  {
    if e == 0 then 1 else b * Pow(b, e - 1)
  }

  lemma {:induction false} PowAdd(b: nat, d: nat, e: nat)
    ensures Pow(b, d + e) == Pow(b, d) * Pow(b, e)
    decreases d
  {
    if d > 0 {
      PowAdd(b, d - 1, e);
      assert Pow(b, d + e) == b * Pow(b, d - 1 + e);
      MulAssoc(b, Pow(b, d - 1), Pow(b, e));
    }
  }

  lemma {:induction false} PowMonotone(b: nat, d: nat, e: nat)
    requires b > 0 && d <= e
    ensures Pow(b, d) <= Pow(b, e)
    decreases e
  {
    if d < e {
      PowMonotone(b, d, e - 1);
      MulMonotone(1, b, Pow(b, e - 1));
    }
  }

  lemma {:induction false} PowPow(b: nat, d: nat, e: nat)
    ensures Pow(Pow(b, d), e) == Pow(b, d * e)
    decreases e
  {
    if e > 0 {
      PowPow(b, d, e - 1);
      PowAdd(b, d, d * (e - 1));
      assert d + d * (e - 1) == d * e;
    } else {
      assert d * 0 == 0;
    }
  }

  lemma {:induction false} PowBaseMonotone(a: nat, b: nat, e: nat)
    requires a <= b
    ensures Pow(a, e) <= Pow(b, e)
    decreases e
  {
    if e > 0 {
      PowBaseMonotone(a, b, e - 1);
      MulMonotone(a, b, Pow(a, e - 1));
      MulMonotone(Pow(a, e - 1), Pow(b, e - 1), b);
    }
  }

  lemma {:induction false} PowBaseStrict(a: nat, b: nat, e: nat)
    requires a < b && e > 0
    ensures Pow(a, e) < Pow(b, e)
    decreases e
  {
    if e > 1 {
      PowBaseStrict(a, b, e - 1);
      MulMonotone(a, b, Pow(a, e - 1));
      MulStrict(Pow(a, e - 1), Pow(b, e - 1), b);
    }
  }

  lemma PowSwap(b: nat, d: nat, e: nat, de: nat)
    requires de == d * e
    ensures Pow(Pow(b, d), e) == Pow(Pow(b, e), d) == Pow(b, de)
  {
    PowPow(b, d, e);
    PowPow(b, e, d);
    MulCommutes(d, e);
  }

  lemma MulCommutes(x: nat, y: nat)
    ensures x * y == y * x
  {}

  lemma RatioPowers(b: nat, c: nat, p: nat, q: nat, n: nat, m: nat, np: nat, qn: nat, mp: nat)
    requires b > 0 && c > 0 && Pow(b, p) <= Pow(c, q) && np == n * p && qn == q * n && mp == m * p && qn <= mp
    ensures Pow(Pow(b, n), p) <= Pow(Pow(c, m), p)
  {
    PowSwap(b, n, p, np);
    PowSwap(c, q, n, qn);
    PowSwap(c, m, p, mp);
    PowBaseMonotone(Pow(b, p), Pow(c, q), n);
    PowMonotone(c, qn, mp);
  }

  lemma PowRootMonotone(x: nat, y: nat, p: nat)
    requires p > 0 && Pow(x, p) <= Pow(y, p)
    ensures x <= y
  {
    if x > y { PowBaseStrict(y, x, p); }
  }

  /** b^p <= c^q carries over to b^n <= c^m whenever n/m is at most p/q. */
  lemma RatioBound(b: nat, c: nat, p: nat, q: nat, n: nat, m: nat, np: nat, qn: nat, mp: nat)
    requires b > 0 && c > 0 && p > 0 && Pow(b, p) <= Pow(c, q) && np == n * p && qn == q * n && mp == m * p && qn <= mp
    ensures Pow(b, n) <= Pow(c, m)
  {
    RatioPowers(b, c, p, q, n, m, np, qn, mp);
    PowRootMonotone(Pow(b, n), Pow(c, m), p);
  }

  lemma MulAssoc(x: int, y: int, z: int)
    ensures (x * y) * z == x * (y * z)
  {}

  lemma MulMonotone(x: int, y: int, z: int)
    requires x <= y && 0 <= z
    ensures x * z <= y * z
  {}

  lemma MulStrict(x: int, y: int, z: int)
    requires x < y && 0 < z
    ensures x * z < y * z
  {}

  /** The quotient and remainder are determined by their defining equation. */
  lemma DivUnique(a: int, d: int, q: int, r: int)
    requires d > 0 && a == q * d + r && 0 <= r < d
    ensures a / d == q && a % d == r
  {
    var q', r' := a / d, a % d;
    assert a == q' * d + r' && 0 <= r' < d;
    if q' < q {
      MulMonotone(q' + 1, q, d);
    } else if q' > q {
      MulMonotone(q + 1, q', d);
    }
  }
}
