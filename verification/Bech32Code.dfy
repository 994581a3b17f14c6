/** Folding a step over a sequence: linearity and invertibility of the step carry over to the fold. */
module LinearFold {

  function Fold<W, V>(f: (W, V) -> W, c: W, v: seq<V>): (r: W)
    decreases |v|
  {
    if v == [] then c else f(Fold(f, c, v[..|v| - 1]), v[|v| - 1])
  }

  lemma {:induction false} FoldAppend<W, V>(f: (W, V) -> W, c: W, u: seq<V>, v: seq<V>)
    ensures Fold(f, c, u + v) == Fold(f, Fold(f, c, u), v)
    decreases |v|
  {
    if v == [] {
      assert u + v == u;
    } else {
      FoldAppend(f, c, u, v[..|v| - 1]);
      assert (u + v)[..|u + v| - 1] == u + v[..|v| - 1];
    }
  }

  function Zip<V>(xv: (V, V) -> V, u: seq<V>, v: seq<V>): (r: seq<V>)
    requires |u| == |v|
    ensures |r| == |u| && forall i :: 0 <= i < |r| ==> r[i] == xv(u[i], v[i])
  {
    seq(|u|, i requires 0 <= i < |u| => xv(u[i], v[i]))
  }

  ghost predicate Linear<W(!new), V(!new)>(f: (W, V) -> W, xw: (W, W) -> W, xv: (V, V) -> V)
  {
    forall a, b, s, t :: f(xw(a, b), xv(s, t)) == xw(f(a, s), f(b, t))
  }

  ghost predicate Injective<W(!new), V(!new)>(f: (W, V) -> W)
  {
    forall a, b, s :: f(a, s) == f(b, s) ==> a == b
  }

  lemma {:induction false} FoldLinear<W(!new), V(!new)>(f: (W, V) -> W, xw: (W, W) -> W, xv: (V, V) -> V,
                                                         a: W, b: W, u: seq<V>, v: seq<V>)
    requires |u| == |v| && Linear(f, xw, xv)
    ensures Fold(f, xw(a, b), Zip(xv, u, v)) == xw(Fold(f, a, u), Fold(f, b, v))
    decreases |u|
  {
    if u != [] {
      var n := |u| - 1;
      FoldLinear(f, xw, xv, a, b, u[..n], v[..n]);
      assert Zip(xv, u, v)[..n] == Zip(xv, u[..n], v[..n]);
    }
  }

  lemma {:induction false} FoldInjective<W(!new), V(!new)>(f: (W, V) -> W, a: W, b: W, v: seq<V>)
    requires Injective(f) && Fold(f, a, v) == Fold(f, b, v)
    ensures a == b
    decreases |v|
  {
    if v != [] {
      assert f(Fold(f, a, v[..|v| - 1]), v[|v| - 1]) == f(Fold(f, b, v[..|v| - 1]), v[|v| - 1]);
      FoldInjective(f, a, b, v[..|v| - 1]);
    }
  }

  ghost predicate IsSum<W(!new), V(!new)>(f: (W, V) -> W, g: (W, V) -> W, r: V -> W, l: W -> V, xw: (W, W) -> W)
  {
    forall c, v :: f(c, v) == xw(g(c, v), r(l(c)))
  }

  ghost predicate Additive<A(!new), B>(h: A -> B, xa: (A, A) -> A, xb: (B, B) -> B)
  {
    forall a, b :: h(xa(a, b)) == xb(h(a), h(b))
  }

  ghost predicate Regroups<W(!new)>(xw: (W, W) -> W)
  {
    forall p, q, s, t :: xw(xw(p, q), xw(s, t)) == xw(xw(p, s), xw(q, t))
  }

  lemma SumsRegroup<W(!new)>(xw: (W, W) -> W)
    requires forall a, b :: xw(a, b) == xw(b, a)
    requires forall a, b, c :: xw(xw(a, b), c) == xw(a, xw(b, c))
    ensures Regroups(xw)
  {
    forall p, q, s, t ensures xw(xw(p, q), xw(s, t)) == xw(xw(p, s), xw(q, t)) {
      assert xw(xw(p, q), xw(s, t)) == xw(p, xw(q, xw(s, t)));
      assert xw(q, xw(s, t)) == xw(xw(q, s), t) == xw(xw(s, q), t) == xw(s, xw(q, t));
    }
  }

  /** A step that shifts and then adds a linear function of the leading symbol is linear. */
  lemma SumLinear<W(!new), V(!new)>(f: (W, V) -> W, g: (W, V) -> W, r: V -> W, l: W -> V, xw: (W, W) -> W, xv: (V, V) -> V)
    requires IsSum(f, g, r, l, xw) && Linear(g, xw, xv) && Additive(r, xv, xw) && Additive(l, xw, xv) && Regroups(xw)
    ensures Linear(f, xw, xv)
  {
    forall a, b, s, t ensures f(xw(a, b), xv(s, t)) == xw(f(a, s), f(b, t)) {
      assert f(xw(a, b), xv(s, t)) == xw(g(xw(a, b), xv(s, t)), r(l(xw(a, b))));
      assert g(xw(a, b), xv(s, t)) == xw(g(a, s), g(b, t));
      assert r(l(xw(a, b))) == xw(r(l(a)), r(l(b)));
    }
  }

  /** Two steps that agree while the words stay within bounds fold to the same word. */
  lemma {:induction false} FoldAgree<W(!new), V(!new)>(f: (W, V) -> W, g: (W, V) -> W, fits: (int, W) -> bool, n: nat, c: W, w: seq<V>)
    requires |w| <= n && fits(0, c)
    requires forall k, a, v :: 0 <= k < n && fits(k, a) ==> f(a, v) == g(a, v) && fits(k + 1, g(a, v))
    ensures Fold(f, c, w) == Fold(g, c, w) && fits(|w|, Fold(g, c, w))
    decreases |w|
  {
    if w != [] {
      var k := |w| - 1;
      FoldAgree(f, g, fits, n, c, w[..k]);
      assert fits(k, Fold(g, c, w[..k])) && f(Fold(g, c, w[..k]), w[k]) == g(Fold(g, c, w[..k]), w[k]);
      assert fits(k + 1, g(Fold(g, c, w[..k]), w[k]));
    }
  }

  /** A step that yields zero from zero only. */
  lemma {:induction false} FoldZero<W(!new), V(!new)>(g: (W, V) -> W, fits: (int, W) -> bool, n: nat, c: W, z: V, w: seq<V>)
    requires |w| <= n && fits(0, c) && Fold(g, c, w) == c
    requires forall k, a, v :: 0 <= k < n && fits(k, a) ==> fits(k + 1, g(a, v))
    requires forall k, a, v :: 0 <= k < n && fits(k, a) && g(a, v) == c ==> a == c && v == z
    ensures forall i :: 0 <= i < |w| ==> w[i] == z
    decreases |w|
  {
    if w != [] {
      var k := |w| - 1;
      FoldAgree(g, g, fits, n, c, w[..k]);
      assert fits(k, Fold(g, c, w[..k])) && g(Fold(g, c, w[..k]), w[k]) == c;
      FoldZero(g, fits, n, c, z, w[..k]);
      forall i | 0 <= i < |w| ensures w[i] == z { if i < k { assert w[..k][i] == z; } }
    }
  }
}

/**
  The checksum of Bech32 (src/bech32.cpp, section "Checksum" of BIP 173): a linear code over GF(32) computed
  with 30-bit words. Linearity and invertibility of one step carry everything else.
 */
module Bech32Code {
  import opened LinearFold

  type data = seq<bv5>

  type word = c: bv32 | c <= 0x3fffffff

  // ---------------------------------------------------------------- one step

  /** The multiple of x^6 mod g(x) that a leading coefficient adds. */
  function Reduce(c0: bv5): (r: word)
  {
    (if c0 & 1 != 0 then 0x3b6a57b2 else 0)
    ^ (if c0 & 2 != 0 then 0x26508e6d else 0)
    ^ (if c0 & 4 != 0 then 0x1ea119fa else 0)
    ^ (if c0 & 8 != 0 then 0x3d4233dd else 0)
    ^ (if c0 & 16 != 0 then 0x2a1462b3 else 0)
  }

  function Shift(c: word, v: bv5): (r: word)
  {
    ((c & 0x1ffffff) << 5) ^ (v as bv32)
  }

  function Lead(c: word): (c0: bv5) { (c >> 25) as bv5 }

  /** One round of PolyMod. */
  function Step(c: word, v: bv5): (r: word)
  {
    Shift(c, v) ^ Reduce(Lead(c))
  }

  function XorWord(a: word, b: word): (r: word) { a ^ b }

  function XorSymbol(u: bv5, v: bv5): (r: bv5) { u ^ v }

  predicate Has(s: bv5, m: bv5) { s & m != 0 }

  function Chosen(s: bv5, m: bv5, g: word): (r: word) { if Has(s, m) then g else 0 }

  lemma HasLinear(s: bv5, t: bv5)
    ensures Has(XorSymbol(s, t), 1) == (Has(s, 1) != Has(t, 1)) && Has(XorSymbol(s, t), 2) == (Has(s, 2) != Has(t, 2))
    ensures Has(XorSymbol(s, t), 4) == (Has(s, 4) != Has(t, 4)) && Has(XorSymbol(s, t), 8) == (Has(s, 8) != Has(t, 8))
    ensures Has(XorSymbol(s, t), 16) == (Has(s, 16) != Has(t, 16))
  {}

  lemma XorSame(g: word)
    ensures XorWord(g, g) == 0 && XorWord(g, 0) == g && XorWord(0, g) == g && XorWord(0, 0) == 0
  {}

  lemma ChosenLinear(s: bv5, t: bv5, m: bv5, g: word)
    requires Has(XorSymbol(s, t), m) == (Has(s, m) != Has(t, m))
    ensures Chosen(XorSymbol(s, t), m, g) == XorWord(Chosen(s, m, g), Chosen(t, m, g))
  {
    hide Has, XorWord, XorSymbol;
    XorSame(g);
  }

  function Sum5(a: word, b: word, c: word, d: word, e: word): (r: word)
  {
    XorWord(XorWord(XorWord(XorWord(a, b), c), d), e)
  }

  lemma Exchange(a: word, b: word, a': word, b': word)
    ensures XorWord(XorWord(a, a'), XorWord(b, b')) == XorWord(XorWord(a, b), XorWord(a', b'))
  {
    hide XorWord;
    XorAssoc(a, a', XorWord(b, b'));
    XorAssoc(a', b, b');
    XorCommutes(a', b);
    XorAssoc(b, a', b');
    XorAssoc(a, b, XorWord(a', b'));
  }

  lemma ReduceParts(s: bv5)
    ensures Reduce(s) == Sum5(Chosen(s, 1, 0x3b6a57b2), Chosen(s, 2, 0x26508e6d), Chosen(s, 4, 0x1ea119fa),
                              Chosen(s, 8, 0x3d4233dd), Chosen(s, 16, 0x2a1462b3))
  {}

  lemma SumsAdd(a: word, b: word, c: word, d: word, e: word, a': word, b': word, c': word, d': word, e': word)
    ensures Sum5(XorWord(a, a'), XorWord(b, b'), XorWord(c, c'), XorWord(d, d'), XorWord(e, e'))
         == XorWord(Sum5(a, b, c, d, e), Sum5(a', b', c', d', e'))
  {
    hide XorWord;
    Exchange(a, b, a', b');
    var (x, x') := (XorWord(a, b), XorWord(a', b'));
    Exchange(x, c, x', c');
    var (y, y') := (XorWord(x, c), XorWord(x', c'));
    Exchange(y, d, y', d');
    Exchange(XorWord(y, d), e, XorWord(y', d'), e');
  }

  lemma ReduceLinear(s: bv5, t: bv5)
    ensures Reduce(XorSymbol(s, t)) == XorWord(Reduce(s), Reduce(t))
  {
    hide Reduce, Chosen, XorSymbol, XorWord, Sum5, Has;
    ReduceParts(s);
    ReduceParts(t);
    ReduceParts(XorSymbol(s, t));
    HasLinear(s, t);
    ChosenLinear(s, t, 1, 0x3b6a57b2);
    ChosenLinear(s, t, 2, 0x26508e6d);
    ChosenLinear(s, t, 4, 0x1ea119fa);
    ChosenLinear(s, t, 8, 0x3d4233dd);
    ChosenLinear(s, t, 16, 0x2a1462b3);
    SumsAdd(Chosen(s, 1, 0x3b6a57b2), Chosen(s, 2, 0x26508e6d), Chosen(s, 4, 0x1ea119fa), Chosen(s, 8, 0x3d4233dd),
            Chosen(s, 16, 0x2a1462b3),
            Chosen(t, 1, 0x3b6a57b2), Chosen(t, 2, 0x26508e6d), Chosen(t, 4, 0x1ea119fa), Chosen(t, 8, 0x3d4233dd),
            Chosen(t, 16, 0x2a1462b3));
  }

  /** The constant coefficient alone tells the leading one. */
  lemma ReduceInvertible(s: bv5)
    requires Reduce(s) & 31 == 0
    ensures s == 0
  {}

  lemma ShiftLinear(a: word, b: word, u: bv5, v: bv5)
    ensures Shift(XorWord(a, b), XorSymbol(u, v)) == XorWord(Shift(a, u), Shift(b, v))
  {}

  lemma LeadLinear(a: word, b: word)
    ensures Lead(XorWord(a, b)) == XorSymbol(Lead(a), Lead(b))
  {}

  lemma XorAssoc(a: word, b: word, c: word)
    ensures XorWord(XorWord(a, b), c) == XorWord(a, XorWord(b, c))
  {}

  lemma ShiftsLinear()
    ensures Linear(Shift, XorWord, XorSymbol)
  {
    forall a, b, u, v ensures Shift(XorWord(a, b), XorSymbol(u, v)) == XorWord(Shift(a, u), Shift(b, v)) {
      ShiftLinear(a, b, u, v);
    }
  }

  lemma LeadsLinear()
    ensures Additive(Lead, XorWord, XorSymbol)
  {
    forall a, b ensures Lead(XorWord(a, b)) == XorSymbol(Lead(a), Lead(b)) { LeadLinear(a, b); }
  }

  lemma ReducesLinear()
    ensures Additive(Reduce, XorSymbol, XorWord)
  {
    forall s, t ensures Reduce(XorSymbol(s, t)) == XorWord(Reduce(s), Reduce(t)) {
      ReduceLinear(s, t);
    }
  }

  lemma XorCommutes(a: word, b: word)
    ensures XorWord(a, b) == XorWord(b, a)
  {}

  lemma XorRegroups()
    ensures Regroups(XorWord)
  {
    hide XorWord;
    forall a: word, b: word ensures XorWord(a, b) == XorWord(b, a) { XorCommutes(a, b); }
    forall a: word, b: word, c: word ensures XorWord(XorWord(a, b), c) == XorWord(a, XorWord(b, c)) { XorAssoc(a, b, c); }
    SumsRegroup(XorWord);
  }

  lemma StepIsSum()
    ensures IsSum(Step, Shift, Reduce, Lead, XorWord)
  {}

  lemma StepLinear()
    ensures Linear(Step, XorWord, XorSymbol)
  {
    StepIsSum();
    ShiftsLinear();
    LeadsLinear();
    ReducesLinear();
    XorRegroups();
    SumLinear(Step, Shift, Reduce, Lead, XorWord, XorSymbol);
  }

  lemma StepToZero(c: word)
    requires Step(c, 0) == 0
    ensures c == 0
  {
    LowBits(Shift(c, 0), Reduce(Lead(c)));
    assert Shift(c, 0) & 31 == 0;
    ReduceInvertible(Lead(c));
  }

  lemma LowBits(a: bv32, b: bv32)
    requires a ^ b == 0
    ensures a & 31 == b & 31 && a == b
  {}

  lemma XorCancels(a: word, b: word)
    ensures XorWord(XorWord(a, b), b) == a && XorWord(a, a) == 0 && XorWord(0, b) == b
  {}

  /** No two words step to the same word under one symbol. */
  lemma StepInjective(a: word, b: word, v: bv5)
    requires Step(a, v) == Step(b, v)
    ensures a == b
  {
    var d := XorWord(a, b);
    assert Step(d, XorSymbol(v, v)) == XorWord(Step(a, v), Step(b, v)) by { StepLinear(); }
    XorCancels(Step(a, v), 0);
    assert XorSymbol(v, v) == 0;
    StepToZero(d);
    XorCancels(a, b);
  }

  // ---------------------------------------------------------------- whole inputs

  /** The loop of PolyMod from a given word on. */
  function Poly(c: word, v: data): (r: word) { Fold(Step, c, v) }

  function PolyMod(v: data): (r: word) { Poly(1, v) }

  function Xor(u: data, v: data): (r: data)
    requires |u| == |v|
    ensures |r| == |u|
  {
    Zip(XorSymbol, u, v)
  }

  /** The code is linear. */
  lemma PolyLinear(a: word, b: word, u: data, v: data)
    requires |u| == |v|
    ensures Poly(XorWord(a, b), Xor(u, v)) == XorWord(Poly(a, u), Poly(b, v))
  {
    StepLinear();
    FoldLinear(Step, XorWord, XorSymbol, a, b, u, v);
  }

  /** The code is invertible: a common suffix hides no difference. */
  lemma PolyInjective(a: word, b: word, v: data)
    requires Poly(a, v) == Poly(b, v)
    ensures a == b
  {
    forall p, q, s | Step(p, s) == Step(q, s) ensures p == q {
      StepInjective(p, q, s);
    }
    FoldInjective(Step, a, b, v);
  }

  // ---------------------------------------------------------------- six symbols fill a word

  /** The next five bits. */
  function PackOne(c: word, v: bv5): (r: word) { ((c & 0x1ffffff) << 5) | (v as bv32) }

  /** Symbols packed five bits each. */
  function Pack(w: data): (r: word) { Fold(PackOne, 0, w) }

  /** k symbols fill 5k bits. */
  predicate Fits(k: int, c: word)
  {
    c <= if k == 0 then 0 else if k == 1 then 31 else if k == 2 then 0x3ff else if k == 3 then 0x7fff
         else if k == 4 then 0xfffff else if k == 5 then 0x1ffffff else 0x3fffffff
  }

  lemma PackFits(k: int, c: word, v: bv5)
    requires 0 <= k < 6 && Fits(k, c)
    ensures Step(c, v) == PackOne(c, v) && Fits(k + 1, PackOne(c, v))
  {}

  lemma PackFitsZero(k: int, c: word, v: bv5)
    requires 0 <= k < 6 && Fits(k, c) && PackOne(c, v) == 0
    ensures c == 0 && v == 0
  {}

  /** From zero, up to six symbols are simply packed. */
  lemma PolyPacks(w: data)
    requires |w| <= 6
    ensures Poly(0, w) == Pack(w)
  {
    forall k, c, v | 0 <= k < 6 && Fits(k, c) ensures Step(c, v) == PackOne(c, v) && Fits(k + 1, PackOne(c, v)) {
      PackFits(k, c, v);
    }
    FoldAgree(Step, PackOne, Fits, 6, 0, w);
  }

  lemma PackZero(w: data)
    requires |w| <= 6 && Pack(w) == 0
    ensures forall i :: 0 <= i < |w| ==> w[i] == 0
  {
    forall k, c, v | 0 <= k < 6 && Fits(k, c) ensures Fits(k + 1, PackOne(c, v)) && (PackOne(c, v) == 0 ==> c == 0 && v == 0) {
      PackFits(k, c, v);
      if PackOne(c, v) == 0 { PackFitsZero(k, c, v); }
    }
    FoldZero(PackOne, Fits, 6, 0, 0, w);
  }
}
