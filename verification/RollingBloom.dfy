/**
  The class CRollingBloomFilter of src/bloom.cpp. A 64-bit word is the sequence of its bits, lowest first, so that
  masks and shifts work bit by bit; hashes and the random tweak are parameters.
 */
module RollingBloom {
  import opened RollingHistory

  type Word = w: seq<bool> | |w| == 64 witness seq(64, _ => false)

  const ZERO: Word := seq(64, _ => false)

  function And(x: Word, y: Word): (r: Word) { seq(64, i requires 0 <= i < 64 => x[i] && y[i]) }

  function Or(x: Word, y: Word): (r: Word) { seq(64, i requires 0 <= i < 64 => x[i] || y[i]) }

  function Xor(x: Word, y: Word): (r: Word) { seq(64, i requires 0 <= i < 64 => x[i] != y[i]) }

  function Not(x: Word): (r: Word) { seq(64, i requires 0 <= i < 64 => !x[i]) }

  /** The words 0 and 1. */
  function FromBit(bit: bool): (r: Word) { seq(64, i => i == 0 && bit) }

  /** Subtracting 0 or 1 from zero, modulo 2^64. */
  function NegateBit(bit: bool): (r: Word) { seq(64, _ => bit) }

  function ShiftLeft(x: Word, n: nat): (r: Word) { seq(64, i requires 0 <= i < 64 => i >= n && x[i - n]) }

  function ShiftRight(x: Word, n: nat): (r: Word) { seq(64, i requires 0 <= i < 64 => i + n < 64 && x[i + n]) }

  /** The number a cell holds. */
  function Number(data: seq<Word>, c: Cell): (n: nat)
    requires 2 * c.pair + 1 < |data| && c.bit < 64
    ensures n < 4
  {
    (if data[2 * c.pair][c.bit] then 1 else 0) + if data[2 * c.pair + 1][c.bit] then 2 else 0
  }

  /** RollingBloomHash(n, tweak, key), a 32-bit number. */
  type Hasher = (nat, nat, Key) -> nat

  predicate InData(size: nat, c: Cell)
  {
    2 * c.pair + 1 < size && c.bit < 64
  }

  /** Where a hash points. */
  function CellOf(h: nat, size: nat): (c: Cell)
    requires size > 0 && size % 2 == 0
    ensures InData(size, c)
  {
    Cell(h / 64 % size / 2, h % 64)
  }

  class CRollingBloomFilter {
    const hash: Hasher
    const nEntriesPerGeneration: nat
    const nHashFuncs: nat
    const data: array<Word>
    var nEntriesThisGeneration: nat
    var nGeneration: nat
    var nTweak: nat
    /** Everything inserted since the last reset. */
    ghost var keys: seq<Key>

    /** The cells of a key. */
    ghost function Cells(): (cells: Hashing)
      requires data.Length > 0 && data.Length % 2 == 0
      reads this`nTweak
      ensures forall k, i {:trigger cells(k)[i]} :: |cells(k)| == nHashFuncs && (0 <= i < nHashFuncs ==>
        var h := hash(i, nTweak, k) % 0x1_0000_0000;
        cells(k)[i].bit == h % 64 && 2 * cells(k)[i].pair <= h / 64 % data.Length <= 2 * cells(k)[i].pair + 1)
    {
      var (h, tweak, n, size) := (hash, nTweak, nHashFuncs, data.Length);
      k => seq(n, i requires 0 <= i < n => CellOf(h(i, tweak, k) % 0x1_0000_0000, size))
    }

    ghost predicate Valid()
      reads this, data
    {
      && data.Length > 0 && data.Length % 2 == 0
      && nEntriesThisGeneration == Tally(|keys|, nEntriesPerGeneration).1
      && nGeneration == Tally(|keys|, nEntriesPerGeneration).0 % 3 + 1
      && Holds(data[..], Cells(), keys, nEntriesPerGeneration)
    }

    /** The table size and the number of hash functions, computed in floating point, are parameters. */
    constructor (nElements: nat, size: nat, nHashFuncs: nat, hash: Hasher, tweak: nat)
      requires nElements < 0x1_0000_0000 && size > 0 && size % 2 == 0
      ensures Valid() && keys == [] && fresh(data)
      ensures nEntriesPerGeneration == (nElements + 1) % 0x1_0000_0000 / 2
    {
      this.hash := hash;
      this.nHashFuncs := nHashFuncs;
      nEntriesPerGeneration := (nElements + 1) % 0x1_0000_0000 / 2;
      data := new Word[size](_ => ZERO);
      nEntriesThisGeneration, nGeneration, nTweak, keys := 0, 1, tweak, [];
    }

    method reset(tweak: nat)
      requires Valid()
      modifies this, data
      ensures Valid() && keys == [] && nTweak == tweak
    {
      nTweak := tweak;
      nEntriesThisGeneration := 0;
      nGeneration := 1;
      for i := 0 to data.Length
        invariant nTweak == tweak && nEntriesThisGeneration == 0 && nGeneration == 1
        invariant forall j :: 0 <= j < i ==> data[j] == ZERO
      {
        data[i] := ZERO;
      }
      keys := [];
    }

    method insert(vKey: Key)
      requires Valid()
      modifies this, data
      ensures Valid() && keys == old(keys) + [vKey] && nTweak == old(nTweak)
    {
      ghost var was, cells, perGen, before := data[..], Cells(), nEntriesPerGeneration, keys;
      assert Holds(was, cells, before, perGen);
      Advance();
      ghost var wiped := data[..];
      assert AllWiped(was, wiped, Tally(|before|, perGen).1 == perGen, nGeneration);
      Mark(vKey);
      assert AllMarked(wiped, data[..], cells(vKey), nGeneration);
      InsertHolds(was, wiped, data[..], cells, before, vKey, perGen, nGeneration);
      keys := keys + [vKey];
    }

    /** The part of insert before the cells are written. */
    method Advance()
      requires Valid()
      modifies `nEntriesThisGeneration, `nGeneration, data
      ensures nEntriesThisGeneration == Tally(|keys| + 1, nEntriesPerGeneration).1
      ensures nGeneration == Tally(|keys| + 1, nEntriesPerGeneration).0 % 3 + 1
      ensures AllWiped(old(data[..]), data[..], old(nEntriesThisGeneration) == nEntriesPerGeneration, nGeneration)
    {
      if nEntriesThisGeneration == nEntriesPerGeneration {
        nEntriesThisGeneration := 0;
        nGeneration := nGeneration + 1;
        if nGeneration == 4 {
          nGeneration := 1;
        }
        Wipe();
      }
      nEntriesThisGeneration := nEntriesThisGeneration + 1;
    }

    /** Wipes what still carries the number of the generation that starts. */
    method Wipe()
      requires data.Length % 2 == 0 && 1 <= nGeneration <= 3
      modifies data
      ensures AllWiped(old(data[..]), data[..], true, nGeneration)
    {
      var nGenerationMask1 := NegateBit(nGeneration % 2 == 1);
      var nGenerationMask2 := NegateBit(nGeneration / 2 == 1);
      var p := 0;
      while p < data.Length
        invariant p <= data.Length && p % 2 == 0
        invariant data[p..] == old(data[p..])
        invariant forall c :: InData(p, c) ==>
          Number(data[..], c) == Wiped(old(Number(data[..], c)), true, nGeneration)
      {
        var p1, p2 := data[p], data[p + 1];
        var mask := Or(Xor(p1, nGenerationMask1), Xor(p2, nGenerationMask2));
        data[p] := And(p1, mask);
        data[p + 1] := And(p2, mask);
        p := p + 2;
      }
    }

    /** Writes the generation number into every cell of the key. */
    method Mark(vKey: Key)
      requires data.Length > 0 && data.Length % 2 == 0 && 1 <= nGeneration <= 3
      modifies data
      ensures AllMarked(old(data[..]), data[..], Cells()(vKey), nGeneration)
    {
      ghost var cells := Cells()(vKey);
      for n := 0 to nHashFuncs
        invariant forall c :: InData(data.Length, c) ==>
          Number(data[..], c) == if c in cells[..n] then nGeneration else old(Number(data[..], c))
      {
        var h := hash(n, nTweak, vKey) % 0x1_0000_0000;
        assert cells[n] == CellOf(h, data.Length) && cells[..n + 1] == cells[..n] + [cells[n]];
        MarkCell(h);
      }
      assert cells[..nHashFuncs] == cells;
    }

    method MarkCell(h: nat)
      requires data.Length > 0 && data.Length % 2 == 0 && 1 <= nGeneration <= 3
      modifies data
      ensures forall c :: InData(data.Length, c) ==>
        Number(data[..], c) == if c == CellOf(h, data.Length) then nGeneration else old(Number(data[..], c))
    {
      var bit := h % 64;
      var pos := h / 64 % data.Length;
      var even := pos / 2 * 2;
      var unit := ShiftLeft(FromBit(true), bit);
      data[even] := Or(And(data[even], Not(unit)), ShiftLeft(FromBit(nGeneration % 2 == 1), bit));
      data[even + 1] := Or(And(data[even + 1], Not(unit)), ShiftLeft(FromBit(nGeneration / 2 == 1), bit));
    }

    /** A key is reported exactly if each of its cells belongs to one of the latest keys inserted: those of
        this generation and of the two before. */
    method contains(vKey: Key) returns (found: bool)
      requires Valid()
      ensures found <==> forall c :: c in Cells()(vKey) ==> Covered(Cells(), keys, nEntriesPerGeneration, c)
    {
      ghost var cells := Cells()(vKey);
      for n := 0 to nHashFuncs
        invariant forall c :: c in cells[..n] ==> Covered(Cells(), keys, nEntriesPerGeneration, c)
      {
        var h := hash(n, nTweak, vKey) % 0x1_0000_0000;
        var bit := h % 64;
        var pos := h / 64 % data.Length;
        ghost var c := CellOf(h, data.Length);
        assert cells[n] == c && cells[..n + 1] == cells[..n] + [c];
        WindowExact(Cells(), keys, nEntriesPerGeneration, c);
        if !ShiftRight(Or(data[pos / 2 * 2], data[pos / 2 * 2 + 1]), bit)[0] {
          assert Number(data[..], c) == 0;
          return false;
        }
        assert Number(data[..], c) != 0;
      }
      assert cells[..nHashFuncs] == cells;
      return true;
    }
  }

  /** Every cell of the table is reached by some hash value. */
  lemma EveryCellReached(size: nat, c: Cell)
    requires size > 0 && size % 2 == 0 && InData(size, c)
    ensures CellOf(128 * c.pair + c.bit, size) == c
  {
    var h := 128 * c.pair + c.bit;
    assert h == 64 * (2 * c.pair) + c.bit && h / 64 == 2 * c.pair;
    Remains(2 * c.pair, size);
  }

  lemma Remains(x: nat, size: nat)
    requires x < size
    ensures x % size == x
  {}

  ghost predicate Holds(data: seq<Word>, cells: Hashing, keys: seq<Key>, perGen: nat)
  {
    forall c {:trigger Number(data, c)} :: InData(|data|, c) ==> Number(data, c) == Expected(cells, keys, perGen, c)
  }

  /** The number left after the generation gen may have started. */
  function Wiped(was: nat, starts: bool, gen: nat): (r: nat)
  {
    if starts && was == gen then 0 else was
  }

  ghost predicate AllWiped(was: seq<Word>, data: seq<Word>, starts: bool, gen: nat)
  {
    && |was| == |data|
    && forall c {:trigger Number(data, c)} :: InData(|data|, c) ==> Number(data, c) == Wiped(Number(was, c), starts, gen)
  }

  ghost predicate AllMarked(was: seq<Word>, data: seq<Word>, cells: seq<Cell>, gen: nat)
  {
    && |was| == |data|
    && forall c {:trigger Number(data, c)} :: InData(|data|, c) ==> Number(data, c) == if c in cells then gen else Number(was, c)
  }

  lemma InsertHolds(was: seq<Word>, wiped: seq<Word>, data: seq<Word>, cells: Hashing, keys: seq<Key>, k: Key, perGen: nat,
                    gen: nat)
    requires Holds(was, cells, keys, perGen) && gen == Tally(|keys| + 1, perGen).0 % 3 + 1
    requires AllWiped(was, wiped, Tally(|keys|, perGen).1 == perGen, gen) && AllMarked(wiped, data, cells(k), gen)
    ensures Holds(data, cells, keys + [k], perGen)
  {
    forall c | InData(|data|, c) ensures Number(data, c) == Expected(cells, keys + [k], perGen, c) {
      ExpectedStep(cells, keys, k, perGen, c);
    }
  }

  /** The promise of the class comment: one of the latest nElements keys is always reported. For the largest
      nElements the sum wraps and generations are empty; then no generation ever ends. */
  lemma LatestReported(cells: Hashing, keys: seq<Key>, nElements: nat, i: nat)
    requires nElements < 0x1_0000_0000 && i < |keys| && |keys| - nElements <= i
    ensures var perGen := (nElements + 1) % 0x1_0000_0000 / 2;
      forall c :: c in cells(keys[i]) ==> Covered(cells, keys, perGen, c)
  {
    var perGen := (nElements + 1) % 0x1_0000_0000 / 2;
    forall c | c in cells(keys[i]) ensures Covered(cells, keys, perGen, c) {
      if perGen == 0 {
        TallyTotal(|keys|, perGen);
        assert Window(|keys|, perGen) == |keys|;
      } else {
        assert nElements <= 2 * perGen <= Window(|keys|, perGen);
      }
    }
  }
}
