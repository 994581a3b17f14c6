/**
  What the operations of the signature cache change, slot by slot (src/cuckoocache.h): when an insertion loses a live
  element, which slot a displacement uses, what a new epoch discards and what erasing ends.
 */
module CuckooLaws {
  import opened Prelude
  import opened CuckooSpec

  // ---------------------------------------------------------------- the next slot to displace from

  lemma {:induction false} IndexIs(locs: seq<nat>, loc: int, k: nat)
    requires k < |locs| && locs[k] == loc && forall j :: 0 <= j < k ==> locs[j] != loc
    ensures IndexOf(locs, loc) == k
  {}

  /** The candidate after the last one, the first following the eighth. When an element's candidates differ, it is
      never put back where it was just displaced from. */
  lemma NextLocExactly(locs: seq<nat>, k: nat)
    requires |locs| == 8 && k < 8 && forall j :: 0 <= j < k ==> locs[j] != locs[k]
    ensures NextLoc(locs, locs[k]) == locs[if k < 7 then k + 1 else 0]
    ensures (forall i, j :: 0 <= i < j < 8 ==> locs[i] != locs[j]) ==> NextLoc(locs, locs[k]) != locs[k]
  {
    IndexIs(locs, locs[k], k);
  }

  // ---------------------------------------------------------------- insertion

  /** Every candidate slot of e is live. */
  ghost predicate Full(cand: Candidates, s: Slots, e: nat)
    requires Usable(cand, s)
  {
    forall k :: 0 <= k < 8 ==> s.live[cand(e)[k]]
  }

  /** An element that is already there is kept: its slot becomes live and current, nothing else changes. */
  lemma InsertPresent(cand: Candidates, s: Slots, e: nat, depth: nat, k: nat)
    requires Usable(cand, s) && k < 8 && s.table[cand(e)[k]] == e && forall j :: 0 <= j < k ==> s.table[cand(e)[j]] != e
    ensures var (t, dropped) := Insert(cand, s, e, depth);
      && dropped == None && t.table == s.table
      && t.live == s.live[cand(e)[k] := true] && t.epoch == s.epoch[cand(e)[k] := true]
  {
    assert FirstMatch(s, cand(e), e, 0) == k;
  }

  /** A new element goes to its first slot that may be overwritten. */
  lemma InsertFree(cand: Candidates, s: Slots, e: nat, depth: nat, k: nat)
    requires Usable(cand, s) && depth > 0 && k < 8 && !s.live[cand(e)[k]]
    requires forall j :: 0 <= j < k ==> s.live[cand(e)[j]]
    requires forall j :: 0 <= j < 8 ==> s.table[cand(e)[j]] != e
    ensures var (t, dropped) := Insert(cand, s, e, depth);
      && dropped == None && t.table == s.table[cand(e)[k] := e]
      && t.live == s.live[cand(e)[k] := true] && t.epoch == s.epoch[cand(e)[k] := true]
  {
    assert FirstMatch(s, cand(e), e, 0) == HASHES;
    assert FirstFree(s, cand(e), 0) == k;
  }

  /** Each of the next `depth` elements carried along finds all its candidates live. */
  ghost predicate Stuck(cand: Candidates, s: Slots, e: nat, epoch: bool, lastLoc: int, depth: nat)
    requires Usable(cand, s)
    decreases depth
  {
    depth > 0 ==>
      && Full(cand, s, e)
      && var loc := NextLoc(cand(e), lastLoc);
         Stuck(cand, s.(table := s.table[loc := e], epoch := s.epoch[loc := epoch]), s.table[loc], s.epoch[loc], loc, depth - 1)
  }

  lemma {:induction false} DisplaceDrops(cand: Candidates, s: Slots, e: nat, epoch: bool, lastLoc: int, depth: nat)
    requires Usable(cand, s)
    ensures Displace(cand, s, e, epoch, lastLoc, depth).1.Some? <==> Stuck(cand, s, e, epoch, lastLoc, depth)
    decreases depth
  {
    if depth > 0 {
      FullExactly(cand, s, e);
      if Full(cand, s, e) {
        var loc := NextLoc(cand(e), lastLoc);
        DisplaceDrops(cand, Swap(s, loc, e, epoch), s.table[loc], s.epoch[loc], loc, depth - 1);
      }
    }
  }

  lemma FullExactly(cand: Candidates, s: Slots, e: nat)
    requires Usable(cand, s)
    ensures Full(cand, s, e) <==> FirstFree(s, cand(e), 0) == HASHES
  {}

  /** An insertion drops an element if and only if it is a new one and depth_limit displacements in a row meet nothing
      but live slots. */
  lemma InsertDrops(cand: Candidates, s: Slots, e: nat, depth: nat)
    requires Usable(cand, s)
    ensures Insert(cand, s, e, depth).1.Some?
      <==> (forall k :: 0 <= k < 8 ==> s.table[cand(e)[k]] != e) && Stuck(cand, s, e, true, -1, depth)
  {
    hide Displace, Stuck;
    DisplaceDrops(cand, s, e, true, -1, depth);
    AbsentExactly(cand, s, e);
  }

  lemma AbsentExactly(cand: Candidates, s: Slots, e: nat)
    requires Usable(cand, s)
    ensures FirstMatch(s, cand(e), e, 0) == HASHES <==> forall k :: 0 <= k < 8 ==> s.table[cand(e)[k]] != e
  {}

  // ---------------------------------------------------------------- epochs

  function CurrentSlots(s: Slots, n: nat): (r: set<nat>)
    requires Shaped(s) && n <= |s.table|
  {
    set i: nat | i < n && s.epoch[i] && s.live[i]
  }

  lemma {:induction false} CountExactly(s: Slots, n: nat)
    requires Shaped(s) && n <= |s.table|
    ensures Current(s, n) == |CurrentSlots(s, n)|
  {
    if n > 0 {
      CountExactly(s, n - 1);
      assert CurrentSlots(s, n) == CurrentSlots(s, n - 1) + if s.epoch[n - 1] && s.live[n - 1] then {n - 1} else {};
    }
  }

  /** Nothing is discarded until the counter has run down and epoch_size live elements belong to the current epoch.
      Then exactly the slots of earlier epochs stop being live, and the current epoch becomes an earlier one. */
  lemma EpochCheckExactly(c: Cache)
    requires Shaped(c.s)
    ensures var (d, count) := (EpochCheck(c), |CurrentSlots(c.s, |c.s.table|)|);
      && d.epoch_size == c.epoch_size && d.s.table == c.s.table && d.s.filled == c.s.filled
      && if c.counter > 0 then d.s == c.s && d.counter == c.counter - 1
         else if count < c.epoch_size then
           && d.s == c.s && d.counter >= 1 && d.counter >= c.epoch_size / 16 && d.counter >= c.epoch_size - count
           && (d.counter == 1 || d.counter == c.epoch_size / 16 || d.counter == c.epoch_size - count)
         else
           && d.counter == c.epoch_size
           && forall i :: 0 <= i < |c.s.table| ==> d.s.live[i] == (c.s.live[i] && c.s.epoch[i]) && !d.s.epoch[i]
  {
    CountExactly(c.s, |c.s.table|);
  }

  /** 45 percent of the slots, at least one. */
  lemma EpochSizeExactly(size: nat, default_: nat)
    requires size >= 2 && 45 * size < 0x1_0000_0000
    ensures var c := Initial(size, default_);
      && c.epoch_size >= 1 && c.counter == c.epoch_size && 45 * size < 100 * (c.epoch_size + 1)
      && (c.epoch_size == 1 || 100 * c.epoch_size <= 45 * size)
  {}

  // ---------------------------------------------------------------- lookup

  /** A lookup answers whether a candidate slot holds the element; erasing ends the liveness of that slot's element and
      of no other. */
  lemma ContainsExactly(cand: Candidates, c: Cache, e: nat, erase: bool)
    requires Ok(cand, c.s)
    ensures var (d, found) := CacheContains(cand, c, e, erase);
      && (found <==> exists k :: 0 <= k < 8 && c.s.table[cand(e)[k]] == e)
      && (!(found && erase) ==> d == c)
      && (found && erase ==>
            && LiveElements(d.s) == LiveElements(c.s) - {e} && d.s.table == c.s.table && d.s.epoch == c.s.epoch
            && d.counter == c.counter && d.epoch_size == c.epoch_size)
  {
    AbsentExactly(cand, c.s, e);
    var found := Lookup(cand, c.s, e);
    if found.Some? { EraseExactly(cand, c.s, e, found.value); }
  }

  lemma EraseExactly(cand: Candidates, s: Slots, e: nat, loc: nat)
    requires Ok(cand, s) && loc < |s.table| && s.table[loc] == e && Lookup(cand, s, e) == Some(loc)
    ensures LiveElements(Erase(s, loc)) == LiveElements(s) - {e}
  {
    var t := Erase(s, loc);
    forall i: nat | i < |s.table| && s.live[i] && i != loc ensures s.table[i] != e { OnlyThere(cand, s, e, loc, i); }
    forall x | x in LiveElements(s) - {e} ensures x in LiveElements(t) {
      var i: nat :| i < |s.table| && s.live[i] && s.table[i] == x;
      assert t.live[i] && t.table[i] == x;
    }
  }

  /** A live slot that holds e is the one a lookup finds. */
  lemma OnlyThere(cand: Candidates, s: Slots, e: nat, loc: nat, i: nat)
    requires Ok(cand, s) && Lookup(cand, s, e) == Some(loc) && i < |s.table| && s.live[i] && i != loc
    ensures s.table[i] != e
  {
    if s.table[i] == e {
      assert i in s.filled && e in Contents(s);
      FindsContents(cand, s, e);
    }
  }
}
