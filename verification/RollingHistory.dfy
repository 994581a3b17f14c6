/**
  CRollingBloomFilter of src/bloom.cpp: two-bit generation numbers spread over pairs of 64-bit words, recycled
  after three generations. The history of insertions says what every pair of bits must hold.
 */
module RollingHistory {
  type Key = seq<bv8>

  /** One pair of bits: the position within words 2 * pair and 2 * pair + 1. */
  datatype Cell = Cell(pair: nat, bit: nat)

  type Hashing = Key -> seq<Cell>

  /** How many generation changes n insertions cause, and how many entries the last generation then has. */
  function Tally(n: nat, perGen: nat): (t: (nat, nat))
  {
    if n == 0 then (0, 0)
    else
      var (e, m) := Tally(n - 1, perGen);
      if m == perGen then (e + 1, 1) else (e, m + 1)
  }

  /** The latest key that touches the cell, -1 if there is none. */
  function Last(cells: Hashing, keys: seq<Key>, c: Cell): (i: int)
    ensures -1 <= i < |keys| && (i >= 0 ==> c in cells(keys[i]))
    ensures forall j :: i < j < |keys| ==> c !in cells(keys[j])
  {
    if keys == [] then -1
    else if c in cells(keys[|keys| - 1]) then |keys| - 1
    else Last(cells, keys[..|keys| - 1], c)
  }

  /** The number stored for something written in epoch s, seen in epoch e: 0 once it has been wiped. */
  function Visible(s: nat, e: nat): (r: nat)
  {
    if s + 3 <= e then 0 else s % 3 + 1
  }

  /** What a cell must hold after the insertions. */
  function Expected(cells: Hashing, keys: seq<Key>, perGen: nat, c: Cell): (r: nat)
  {
    var i := Last(cells, keys, c);
    if i < 0 then 0 else Visible(Tally(i + 1, perGen).0, Tally(|keys|, perGen).0)
  }

  /** How many of the latest keys are remembered. */
  function Window(n: nat, perGen: nat): (r: nat)
  {
    2 * perGen + Tally(n, perGen).1
  }

  /** The cell belongs to a remembered key. */
  ghost predicate Covered(cells: Hashing, keys: seq<Key>, perGen: nat, c: Cell)
  {
    exists i :: 0 <= i < |keys| && |keys| - Window(|keys|, perGen) <= i && c in cells(keys[i])
  }

  lemma {:induction false} TallyTotal(n: nat, perGen: nat)
    ensures n == Tally(n, perGen).0 * perGen + Tally(n, perGen).1
    ensures n > 0 ==> Tally(n, perGen).1 > 0
    ensures if perGen > 0 then Tally(n, perGen).1 <= perGen else n > 0 ==> Tally(n, perGen).0 == 1
  {
    if n > 0 {
      TallyTotal(n - 1, perGen);
      NextMultiple(Tally(n - 1, perGen).0, perGen);
    }
  }

  lemma NextMultiple(e: nat, p: nat)
    ensures (e + 1) * p == e * p + p
  {}

  lemma {:induction false} TallyGrows(m: nat, n: nat, perGen: nat)
    requires m <= n
    ensures Tally(m, perGen).0 <= Tally(n, perGen).0
    decreases n
  {
    if m < n { TallyGrows(m, n - 1, perGen); }
  }

  lemma LastStep(cells: Hashing, keys: seq<Key>, k: Key, c: Cell)
    ensures Last(cells, keys + [k], c) == if c in cells(k) then |keys| else Last(cells, keys, c)
  {
    assert (keys + [k])[..|keys|] == keys;
  }

  /** One more insertion: a generation change wipes exactly the cells that hold the recycled number, then the
      key's own cells take the new number. */
  lemma ExpectedStep(cells: Hashing, keys: seq<Key>, k: Key, perGen: nat, c: Cell)
    ensures var (e, m) := Tally(|keys|, perGen); var gen := Tally(|keys| + 1, perGen).0 % 3 + 1;
      var was := Expected(cells, keys, perGen, c);
      Expected(cells, keys + [k], perGen, c)
      == if c in cells(k) then gen else if m == perGen && was == gen then 0 else was
  {
    LastStep(cells, keys, k, c);
    var i := Last(cells, keys, c);
    if c !in cells(k) && i >= 0 {
      TallyGrows(i + 1, |keys|, perGen);
      Recycled(Tally(i + 1, perGen).0, Tally(|keys|, perGen).0);
    }
  }

  lemma Recycled(s: nat, e: nat)
    requires s <= e
    ensures Visible(s, e + 1) == if Visible(s, e) == (e + 1) % 3 + 1 then 0 else Visible(s, e)
  {
    if s == e - 2 {
      assert (s + 3) % 3 == s % 3;
    } else if s + 3 > e {
      assert (e + 1) % 3 != s % 3;
    }
  }

  /** A key still counts exactly if it is among the latest Window keys. */
  lemma VisibleExact(i: nat, n: nat, perGen: nat)
    requires i < n
    ensures Visible(Tally(i + 1, perGen).0, Tally(n, perGen).0) != 0 <==> n - Window(n, perGen) <= i
  {
    TallyTotal(i + 1, perGen);
    TallyTotal(n, perGen);
    if perGen > 0 {
      Rows(Tally(i + 1, perGen).0, Tally(i + 1, perGen).1, Tally(n, perGen).0, perGen);
    }
  }

  lemma Rows(s: nat, m: nat, e: nat, p: nat)
    requires 0 < m <= p
    ensures s + 3 <= e <==> s * p + m - 1 < e * p - 2 * p
  {
    if s + 3 <= e { Spread(e - 3 - s, s, e, p); } else { Spread(s + 2 - e, s, e, p); }
  }

  lemma Spread(d: nat, s: nat, e: nat, p: nat)
    ensures e == d + 3 + s ==> e * p >= s * p + 3 * p
    ensures s + 2 == d + e ==> s * p + 2 * p >= e * p
  {
    NotLess(d, p);
    if e == d + 3 + s {
      assert e * p == d * p + 3 * p + s * p;
    } else if s + 2 == d + e {
      assert (s + 2) * p == d * p + e * p;
      assert (s + 2) * p == s * p + 2 * p;
    }
  }

  lemma NotLess(d: nat, p: nat)
    ensures d * p >= 0
  {}

  /** A cell is set exactly if one of the latest Window keys touches it: the filter is a plain Bloom filter of
      those keys. */
  lemma WindowExact(cells: Hashing, keys: seq<Key>, perGen: nat, c: Cell)
    ensures Expected(cells, keys, perGen, c) != 0 <==> Covered(cells, keys, perGen, c)
  {
    var i := Last(cells, keys, c);
    if i >= 0 { VisibleExact(i, |keys|, perGen); }
  }

  /** Each of the latest Window keys, and so each of the latest 2 * perGen, has all its cells set. */
  lemma RecentKept(cells: Hashing, keys: seq<Key>, perGen: nat, i: nat)
    requires i < |keys| && |keys| - Window(|keys|, perGen) <= i
    ensures forall c :: c in cells(keys[i]) ==> Expected(cells, keys, perGen, c) != 0
  {
    forall c | c in cells(keys[i]) ensures Expected(cells, keys, perGen, c) != 0 {
      WindowExact(cells, keys, perGen, c);
    }
  }
}
