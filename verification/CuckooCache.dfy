/**
  The classes of src/cuckoocache.h: collection flags packed eight to a byte, and the cache itself, its arrays
  updated in place as CuckooSpec describes.
 */
module CuckooCache {
  import opened Prelude
  import opened Bits
  import opened CuckooSpec

  /** hash(k, e) is the k-th hash of an element, cut to 32 bits where it is used. */
  type Hasher = (nat, nat) -> nat

  /** (hash * size) >> 32. */
  function Location(hash: Hasher, size: nat, k: nat, e: nat): (loc: nat)
    requires size > 0
    ensures loc < size
  {
    InRange(hash(k, e) % 0x1_0000_0000, size);
    (hash(k, e) % 0x1_0000_0000) * size / 0x1_0000_0000
  }

  lemma InRange(h: nat, size: nat)
    requires h < 0x1_0000_0000 && size > 0
    ensures 0 <= h * size / 0x1_0000_0000 < size
  {
    assert h * size < 0x1_0000_0000 * size;
  }

  /** compute_hashes. */
  function Locs(hash: Hasher, size: nat, e: nat): (locs: seq<nat>)
    requires size > 0
    ensures InTable(locs, size)
  {
    seq(HASHES, k requires 0 <= k < HASHES => Location(hash, size, k, e))
  }

  /** Each of the eight hashes, taken as a fraction of 2^32, is scaled to the size of the table. */
  lemma LocsExactly(hash: Hasher, size: nat, e: nat, k: nat)
    requires size > 0 && k < 8
    ensures var (loc, h) := (Locs(hash, size, e)[k], hash(k, e) % 0x1_0000_0000);
      loc * 0x1_0000_0000 <= h * size < (loc + 1) * 0x1_0000_0000
  {
    ScaledDown((hash(k, e) % 0x1_0000_0000) * size);
  }

  lemma ScaledDown(x: int)
    ensures x / 0x1_0000_0000 * 0x1_0000_0000 <= x < (x / 0x1_0000_0000 + 1) * 0x1_0000_0000
  {}

  class bit_packed_atomic_flags {
    const mem: array<bv8>

    /** All bits are set initially. */
    constructor (size: nat)
      ensures fresh(mem) && mem.Length == (size + 7) / 8
      ensures forall i :: 0 <= i < 8 * mem.Length ==> BitAt(mem[..], i)
    {
      mem := new bv8[(size + 7) / 8](_ => 0xff);
      new;
      forall i | 0 <= i < 8 * mem.Length ensures BitAt(mem[..], i) { AllOnes(i % 8); }
    }

    method bit_set(s: nat)
      requires s < 8 * mem.Length
      modifies mem
      ensures forall i :: 0 <= i < 8 * mem.Length ==> (BitAt(mem[..], i) <==> i == s || old(BitAt(mem[..], i)))
    {
      ghost var before := mem[..];
      mem[s / 8] := mem[s / 8] | Flag(s % 8, true);
      assert mem[..] == before[s / 8 := mem[s / 8]];
      forall i | 0 <= i < 8 * mem.Length ensures BitAt(mem[..], i) <==> i == s || BitAt(before, i) {
        OrBit(before, s, true, i);
      }
    }

    method bit_unset(s: nat)
      requires s < 8 * mem.Length
      modifies mem
      ensures forall i :: 0 <= i < 8 * mem.Length ==> (BitAt(mem[..], i) <==> i != s && old(BitAt(mem[..], i)))
    {
      ghost var before := mem[..];
      mem[s / 8] := mem[s / 8] & !Bit(s % 8);
      assert mem[..] == before[s / 8 := mem[s / 8]];
      forall i | 0 <= i < 8 * mem.Length ensures BitAt(mem[..], i) <==> i != s && BitAt(before, i) {
        ClearBitAt(before, s, i);
      }
    }

    predicate bit_is_set(s: nat)
      requires s < 8 * mem.Length
      reads mem
    {
      Bit(s % 8) & mem[s / 8] != 0
    }
  }

  lemma NoDisplacement(cand: Candidates, s: Slots, e: nat, epoch: bool, lastLoc: int)
    requires Usable(cand, s)
    ensures Displace(cand, s, e, epoch, lastLoc, 0).0 == s
  {
  }

  class cache {
    const hash: Hasher
    const table: array<nat>
    const collection_flags: bit_packed_atomic_flags
    const epoch_flags: array<bool>
    const epoch_size: nat
    const depth_limit: nat
    var epoch_heuristic_counter: nat
    /** The slots that ever took an element. */
    ghost var filled: set<nat>

    ghost predicate Valid() {
      && table.Length >= 2 && epoch_flags.Length == table.Length
      && collection_flags.mem.Length == (table.Length + 7) / 8
    }

    ghost function Cand(): (cand: Candidates)
      requires Valid()
      ensures forall e {:trigger cand(e)} :: cand(e) == Locs(hash, table.Length, e) && InTable(cand(e), table.Length)
    {
      var h, size := hash, table.Length;
      e => Locs(h, size, e)
    }

    ghost function LiveFlags(): (r: seq<bool>)
      requires Valid()
      reads collection_flags.mem
      ensures |r| == table.Length
    {
      seq(table.Length, i requires 0 <= i < table.Length reads collection_flags.mem => !BitAt(collection_flags.mem[..], i))
    }

    ghost function SlotsOf(): (s: Slots)
      requires Valid()
      reads this, table, epoch_flags, collection_flags.mem
      ensures Shaped(s) && |s.table| == table.Length
    {
      Slots(table[..], LiveFlags(), epoch_flags[..], filled)
    }

    ghost function Abs(): (c: Cache)
      requires Valid()
      reads this, table, epoch_flags, collection_flags.mem
    {
      Cache(SlotsOf(), epoch_heuristic_counter, epoch_size)
    }

    /** setup; the depth limit, a rounded logarithm, is a parameter. */
    constructor (hash: Hasher, new_size: nat, default_: nat, depth_limit: nat)
      ensures Valid() && fresh(table) && fresh(epoch_flags) && fresh(collection_flags.mem)
      ensures this.hash == hash && this.depth_limit == depth_limit
      ensures Abs() == Initial(Max(2, new_size), default_)
    {
      var size := Max(2, new_size);
      this.hash := hash;
      table := new nat[size](_ => default_);
      collection_flags := new bit_packed_atomic_flags(size);
      epoch_flags := new bool[size](_ => false);
      epoch_size := Max(1, 45 * size % 0x1_0000_0000 / 100);
      epoch_heuristic_counter := Max(1, 45 * size % 0x1_0000_0000 / 100);
      this.depth_limit := depth_limit;
      filled := {};
      new;
      assert SlotsOf().live == Initial(size, default_).s.live;
      assert SlotsOf().epoch == Initial(size, default_).s.epoch;
      assert SlotsOf().table == Initial(size, default_).s.table;
    }

    method allow_erase(n: nat)
      requires Valid() && n < table.Length
      modifies collection_flags.mem
      ensures SlotsOf() == Erase(old(SlotsOf()), n)
    {
      collection_flags.bit_set(n);
      assert LiveFlags() == old(LiveFlags())[n := false];
    }

    method please_keep(n: nat)
      requires Valid() && n < table.Length
      modifies collection_flags.mem
      ensures SlotsOf() == old(SlotsOf()).(live := old(SlotsOf()).live[n := true])
    {
      collection_flags.bit_unset(n);
      assert LiveFlags() == old(LiveFlags())[n := true];
    }

    method epoch_check()
      requires Valid()
      modifies this`epoch_heuristic_counter, epoch_flags, collection_flags.mem
      ensures Abs() == EpochCheck(old(Abs()))
    {
      if epoch_heuristic_counter != 0 {
        epoch_heuristic_counter := epoch_heuristic_counter - 1;
        return;
      }
      var epoch_unused_count := 0;
      for i := 0 to table.Length
        invariant epoch_unused_count == Current(SlotsOf(), i)
      {
        if epoch_flags[i] && !collection_flags.bit_is_set(i) {
          epoch_unused_count := epoch_unused_count + 1;
        }
      }
      if epoch_unused_count >= epoch_size {
        AgeAll();
        epoch_heuristic_counter := epoch_size;
      } else {
        epoch_heuristic_counter := Max(1, Max(epoch_size / 16, epoch_size - epoch_unused_count));
      }
    }

    /** The second loop of epoch_check. */
    method AgeAll()
      requires Valid()
      modifies epoch_flags, collection_flags.mem
      ensures SlotsOf() == Age(old(SlotsOf()))
    {
      ghost var s := SlotsOf();
      for i := 0 to table.Length
        invariant SlotsOf().table == s.table && filled == old(filled)
        invariant forall j :: 0 <= j < i ==> !epoch_flags[j] && SlotsOf().live[j] == (s.live[j] && s.epoch[j])
        invariant forall j :: i <= j < table.Length ==> epoch_flags[j] == s.epoch[j] && SlotsOf().live[j] == s.live[j]
      {
        if epoch_flags[i] {
          epoch_flags[i] := false;
        } else {
          allow_erase(i);
        }
      }
      assert SlotsOf().live == Age(s).live && SlotsOf().epoch == Age(s).epoch;
    }

    method compute_hashes(e: nat) returns (locs: seq<nat>)
      requires Valid()
      ensures locs == Cand()(e) && InTable(locs, table.Length)
    {
      locs := [];
      for k := 0 to HASHES
        invariant locs == Locs(hash, table.Length, e)[..k]
      {
        locs := locs + [Location(hash, table.Length, k, e)];
      }
    }

    /** The loop that looks for the element at its candidates. */
    method Match(locs: seq<nat>, e: nat) returns (k: nat)
      requires Valid() && InTable(locs, table.Length)
      ensures k == FirstMatch(SlotsOf(), locs, e, 0)
    {
      k := 0;
      while k < HASHES && table[locs[k]] != e
        invariant k <= HASHES && FirstMatch(SlotsOf(), locs, e, 0) == FirstMatch(SlotsOf(), locs, e, k)
        decreases HASHES - k
      {
        k := k + 1;
      }
    }

    /** The loop that looks for a candidate that may be overwritten. */
    method Free(locs: seq<nat>) returns (k: nat)
      requires Valid() && InTable(locs, table.Length)
      ensures k == FirstFree(SlotsOf(), locs, 0)
    {
      k := 0;
      while k < HASHES && !collection_flags.bit_is_set(locs[k])
        invariant k <= HASHES && FirstFree(SlotsOf(), locs, 0) == FirstFree(SlotsOf(), locs, k)
        decreases HASHES - k
      {
        assert SlotsOf().live[locs[k]];
        k := k + 1;
      }
    }

    method PlaceAt(loc: nat, e: nat, epoch: bool)
      requires Valid() && loc < table.Length
      modifies this`filled, table, epoch_flags, collection_flags.mem
      ensures SlotsOf() == Place(old(SlotsOf()), loc, e, epoch)
    {
      table[loc] := e;
      please_keep(loc);
      epoch_flags[loc] := epoch;
      filled := filled + {loc};
    }

    method insert(e: nat)
      requires Valid() && CacheOk(Cand(), Abs())
      modifies this`filled, this`epoch_heuristic_counter, table, epoch_flags, collection_flags.mem
      ensures Abs() == CacheInsert(Cand(), old(Abs()), e, depth_limit) && CacheOk(Cand(), Abs())
    {
      CacheInsertOk(Cand(), Abs(), e, depth_limit);
      epoch_check();
      var locs := compute_hashes(e);
      var k := Match(locs, e);
      if k < HASHES {
        please_keep(locs[k]);
        epoch_flags[locs[k]] := true;
        filled := filled + {locs[k]};
      } else {
        DisplaceAll(e);
      }
    }

    /** The displacement loop of insert. */
    method DisplaceAll(e0: nat)
      requires Valid()
      modifies this`filled, table, epoch_flags, collection_flags.mem
      ensures SlotsOf() == Displace(Cand(), old(SlotsOf()), e0, true, -1, depth_limit).0
    {
      hide Displace;
      ghost var result := Displace(Cand(), SlotsOf(), e0, true, -1, depth_limit);
      var e, last_loc: int, last_epoch, depth := e0, -1, true, 0;
      var placed := false;
      while depth < depth_limit && !placed
        invariant depth <= depth_limit
        invariant if placed then result.0 == SlotsOf()
                  else result == Displace(Cand(), SlotsOf(), e, last_epoch, last_loc, depth_limit - depth)
        decreases depth_limit - depth, !placed
      {
        placed, e, last_epoch, last_loc := DisplaceOne(e, last_epoch, last_loc, depth_limit - depth, result);
        depth := depth + 1;
      }
      if !placed { NoDisplacement(Cand(), SlotsOf(), e, last_epoch, last_loc); }
    }

    /** One round of the loop. */
    method DisplaceOne(e: nat, epoch: bool, last_loc: int, ghost depth: nat, ghost result: (Slots, Option<nat>))
      returns (placed: bool, e': nat, epoch': bool, loc: int)
      requires Valid() && depth > 0 && result == Displace(Cand(), SlotsOf(), e, epoch, last_loc, depth)
      modifies this`filled, table, epoch_flags, collection_flags.mem
      ensures if placed then result.0 == SlotsOf() else result == Displace(Cand(), SlotsOf(), e', epoch', loc, depth - 1)
    {
      ghost var s := SlotsOf();
      placed := TryPlace(e, epoch);
      e', epoch', loc := e, epoch, last_loc;
      if !placed {
        var locs := compute_hashes(e);
        DisplaceSwaps(Cand(), s, e, epoch, last_loc, depth, NextLoc(locs, last_loc), result);
        e', epoch', loc := SwapAt(locs[(1 + IndexOf(locs, last_loc)) % HASHES], e, epoch);
      }
    }

    /** Puts the element into its first candidate that may be overwritten, if there is one. */
    method TryPlace(e: nat, epoch: bool) returns (placed: bool)
      requires Valid()
      modifies this`filled, table, epoch_flags, collection_flags.mem
      ensures var s := old(SlotsOf()); var locs := Cand()(e); var k := FirstFree(s, locs, 0);
        placed == (k < HASHES) && SlotsOf() == if placed then Place(s, locs[k], e, epoch) else s
    {
      var locs := compute_hashes(e);
      var k := Free(locs);
      placed := k < HASHES;
      if placed {
        PlaceAt(locs[k], e, epoch);
      }
    }

    method SwapAt(loc: nat, e: nat, epoch: bool) returns (e': nat, epoch': bool, last_loc: int)
      requires Valid() && loc < table.Length
      modifies table, epoch_flags
      ensures SlotsOf() == Swap(old(SlotsOf()), loc, e, epoch)
      ensures e' == old(table[loc]) && epoch' == old(epoch_flags[loc]) && last_loc == loc
    {
      last_loc := loc;
      e', table[loc] := table[loc], e;
      epoch' := epoch_flags[loc];
      epoch_flags[loc] := epoch;
    }

    method contains(e: nat, erase: bool) returns (found: bool)
      requires Valid() && CacheOk(Cand(), Abs())
      modifies collection_flags.mem
      ensures (Abs(), found) == CacheContains(Cand(), old(Abs()), e, erase) && CacheOk(Cand(), Abs())
    {
      CacheContainsOk(Cand(), Abs(), e, erase);
      var locs := compute_hashes(e);
      var k := Match(locs, e);
      if k < HASHES {
        if erase {
          allow_erase(locs[k]);
        }
        return true;
      }
      return false;
    }
  }
}
