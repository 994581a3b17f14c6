/**
  The signature cache of src/cuckoocache.h on values: a table with eight candidate slots per element, flags
  that let slots be overwritten lazily, and epochs. Insertion displaces elements; at most one is lost.
 */
module CuckooSpec {
  import opened Prelude

  /** The candidate slots of each element. */
  type Candidates = nat -> seq<nat>

  const HASHES: nat := 8

  /** `live` is the complement of the collection flags. `filled` remembers the slots that ever took an
      element; the others still hold the default one. */
  datatype Slots = Slots(table: seq<nat>, live: seq<bool>, epoch: seq<bool>, filled: set<nat>)

  predicate Shaped(s: Slots)
  {
    |s.table| == |s.live| == |s.epoch| > 0
  }

  predicate InTable(locs: seq<nat>, size: nat)
  {
    |locs| == HASHES && forall k :: 0 <= k < HASHES ==> locs[k] < size
  }

  /** Every element has its candidates within the table. */
  ghost predicate Usable(cand: Candidates, s: Slots)
  {
    Shaped(s) && forall e {:trigger cand(e)} :: InTable(cand(e), |s.table|)
  }

  /** The first candidate slot holding e. */
  function FirstMatch(s: Slots, locs: seq<nat>, e: nat, k: nat): (r: nat)
    requires InTable(locs, |s.table|) && k <= HASHES
    ensures k <= r <= HASHES && (r < HASHES ==> s.table[locs[r]] == e)
    ensures forall j :: k <= j < r ==> s.table[locs[j]] != e
    decreases HASHES - k
  {
    if k == HASHES || s.table[locs[k]] == e then k else FirstMatch(s, locs, e, k + 1)
  }

  /** The first candidate slot that may be overwritten. */
  function FirstFree(s: Slots, locs: seq<nat>, k: nat): (r: nat)
    requires Shaped(s) && InTable(locs, |s.table|) && k <= HASHES
    ensures k <= r <= HASHES && (r < HASHES ==> !s.live[locs[r]])
    ensures forall j :: k <= j < r ==> s.live[locs[j]]
    decreases HASHES - k
  {
    if k == HASHES || !s.live[locs[k]] then k else FirstFree(s, locs, k + 1)
  }

  function Keep(s: Slots, loc: nat): (r: Slots)
    requires Shaped(s) && loc < |s.table|
  {
    s.(live := s.live[loc := true], epoch := s.epoch[loc := true], filled := s.filled + {loc})
  }

  function Place(s: Slots, loc: nat, e: nat, epoch: bool): (r: Slots)
    requires Shaped(s) && loc < |s.table|
  {
    Slots(s.table[loc := e], s.live[loc := true], s.epoch[loc := epoch], s.filled + {loc})
  }

  function Swap(s: Slots, loc: nat, e: nat, epoch: bool): (r: Slots)
    requires Shaped(s) && loc < |s.table|
  {
    s.(table := s.table[loc := e], epoch := s.epoch[loc := epoch])
  }

  /** The first index of a location, HASHES when absent; -1 stands for invalid(). */
  function IndexOf(locs: seq<nat>, loc: int): (k: nat)
    ensures k <= |locs| && (k < |locs| ==> locs[k] == loc) && forall j :: 0 <= j < k ==> locs[j] != loc
  {
    if locs == [] || locs[0] == loc then 0 else 1 + IndexOf(locs[1..], loc)
  }

  /** The slot to displace from: the candidate after the last one. The first time that is the candidate with
      index 1, since the search runs off the end at 8 and (1 + 8) & 7 is 1. */
  function NextLoc(locs: seq<nat>, lastLoc: int): (loc: nat)
    requires |locs| == HASHES
    ensures loc in locs
  {
    locs[(1 + IndexOf(locs, lastLoc)) % HASHES]
  }

  /** The first displacement uses the second candidate. */
  lemma FirstDisplacement(locs: seq<nat>)
    requires |locs| == HASHES
    ensures NextLoc(locs, -1) == locs[1]
  {
    assert IndexOf(locs, -1) == HASHES;
  }

  /** The displacement loop with the carried element; the second component is the element dropped at the end. */
  function Displace(cand: Candidates, s: Slots, e: nat, epoch: bool, lastLoc: int, depth: nat): (r: (Slots, Option<nat>))
    requires Usable(cand, s)
    ensures Shaped(r.0) && |r.0.table| == |s.table|
    decreases depth
  {
    var locs := cand(e);
    if depth == 0 then (s, Some(e))
    else if FirstFree(s, locs, 0) < HASHES then (Place(s, locs[FirstFree(s, locs, 0)], e, epoch), None)
    else
      var loc := NextLoc(locs, lastLoc);
      Displace(cand, Swap(s, loc, e, epoch), s.table[loc], s.epoch[loc], loc, depth - 1)
  }

  /** The rest of the loop after a round without a free candidate. */
  function Onward(cand: Candidates, s: Slots, e: nat, epoch: bool, loc: nat, depth: nat): (r: (Slots, Option<nat>))
    requires Usable(cand, s) && loc < |s.table|
  {
    Displace(cand, Swap(s, loc, e, epoch), s.table[loc], s.epoch[loc], loc, depth)
  }

  /** insert behind epoch_check. */
  function Insert(cand: Candidates, s: Slots, e: nat, depth: nat): (r: (Slots, Option<nat>))
    requires Usable(cand, s)
    ensures Shaped(r.0) && |r.0.table| == |s.table|
  {
    var locs := cand(e);
    var k := FirstMatch(s, locs, e, 0);
    if k < HASHES then (Keep(s, locs[k]), None) else Displace(cand, s, e, true, -1, depth)
  }

  /** The slot contains finds, if any. */
  function Lookup(cand: Candidates, s: Slots, e: nat): (r: Option<nat>)
    requires Usable(cand, s)
  {
    var locs := cand(e);
    var k := FirstMatch(s, locs, e, 0);
    if k < HASHES then Some(locs[k]) else None
  }

  /** allow_erase. */
  function Erase(s: Slots, loc: nat): (r: Slots)
    requires Shaped(s) && loc < |s.table|
  {
    s.(live := s.live[loc := false])
  }

  // ---------------------------------------------------------------- the invariant

  /** A taken slot holds an element at one of its own candidates, and the candidates before it are taken. */
  ghost predicate SlotOk(cand: Candidates, s: Slots, i: nat)
    requires Usable(cand, s) && i < |s.table|
  {
    var locs := cand(s.table[i]);
    i in locs && forall j :: 0 <= j < IndexOf(locs, i) ==> locs[j] in s.filled
  }

  ghost predicate Ok(cand: Candidates, s: Slots)
  {
    && Usable(cand, s)
    && (forall i :: i in s.filled ==> i < |s.table|)
    && (forall i :: 0 <= i < |s.table| && s.live[i] ==> i in s.filled)
    && (forall i {:trigger SlotOk(cand, s, i)} :: i in s.filled ==> i < |s.table| && SlotOk(cand, s, i))
    && Unique(s) && RestDefault(s)
  }

  /** No element sits in two taken slots. */
  predicate Unique(s: Slots)
    requires forall i :: i in s.filled ==> i < |s.table|
  {
    forall i, j :: i in s.filled && j in s.filled && i != j ==> s.table[i] != s.table[j]
  }

  /** Slots that were never taken all hold the default element. */
  predicate RestDefault(s: Slots)
  {
    forall i, j :: 0 <= i < |s.table| && 0 <= j < |s.table| && i !in s.filled && j !in s.filled ==> s.table[i] == s.table[j]
  }

  /** Everything the table can still find, erased or not. */
  function Contents(s: Slots): (r: set<nat>)
  {
    set i | i in s.filled && i < |s.table| :: s.table[i]
  }

  function LiveElements(s: Slots): (r: set<nat>)
    requires Shaped(s)
  {
    set i: nat | i < |s.table| && s.live[i] :: s.table[i]
  }

  /** How many of the first n slots are live in the current epoch. */
  function Current(s: Slots, n: nat): (c: nat)
    requires Shaped(s) && n <= |s.table|
    ensures c <= n
  {
    if n == 0 then 0 else Current(s, n - 1) + if s.epoch[n - 1] && s.live[n - 1] then 1 else 0
  }

  function CurrentCount(s: Slots): (c: nat)
    requires Shaped(s)
  {
    Current(s, |s.table|)
  }

  lemma {:induction false} CurrentUpdate(s: Slots, t: Slots, loc: nat, n: nat)
    requires Shaped(s) && Shaped(t) && |s.table| == |t.table| && loc < |s.table| && n <= |s.table|
    requires forall i :: 0 <= i < |s.table| && i != loc ==> s.live[i] == t.live[i] && s.epoch[i] == t.epoch[i]
    ensures Current(t, n) == Current(s, n)
      + (if loc < n && t.live[loc] && t.epoch[loc] then 1 else 0) - (if loc < n && s.live[loc] && s.epoch[loc] then 1 else 0)
    decreases n
  {
    if n > 0 { CurrentUpdate(s, t, loc, n - 1); }
  }

  // ---------------------------------------------------------------- finding

  /** An element of the table is found at its slot, and nothing else is found unless it is the default one. */
  lemma FindsContents(cand: Candidates, s: Slots, e: nat)
    requires Ok(cand, s)
    ensures e in Contents(s) ==> Lookup(cand, s, e).Some? && Lookup(cand, s, e).value in s.filled
    ensures Lookup(cand, s, e).Some? ==> s.table[Lookup(cand, s, e).value] == e
  {
    var locs := cand(e);
    var k := FirstMatch(s, locs, e, 0);
    if e in Contents(s) {
      var i :| i in s.filled && i < |s.table| && s.table[i] == e;
      assert SlotOk(cand, s, i);
      assert s.table[locs[IndexOf(locs, i)]] == e && k <= IndexOf(locs, i);
    }
  }

  lemma AbsentOf(cand: Candidates, s: Slots, e: nat)
    requires Ok(cand, s) && FirstMatch(s, cand(e), e, 0) == HASHES
    ensures e !in Contents(s)
  {
    if e in Contents(s) { FindsContents(cand, s, e); }
  }

  // ---------------------------------------------------------------- one step of an insertion

  lemma KeepOk(cand: Candidates, s: Slots, e: nat, k: nat)
    requires Ok(cand, s) && k < HASHES && k == FirstMatch(s, cand(e), e, 0)
    ensures var t := Keep(s, cand(e)[k]);
      Ok(cand, t) && Contents(t) == Contents(s) + {e} && LiveElements(t) == LiveElements(s) + {e}
      && CurrentCount(t) <= CurrentCount(s) + 1
  {
    var loc := cand(e)[k];
    var t := Keep(s, loc);
    KeptSlots(cand, s, e, k);
    KeptUnique(cand, s, e, k);
    CurrentUpdate(s, t, loc, |s.table|);
    KeptElements(s, t, loc, e);
  }

  lemma KeptSlots(cand: Candidates, s: Slots, e: nat, k: nat)
    requires Ok(cand, s) && k < HASHES && k == FirstMatch(s, cand(e), e, 0)
    ensures var t := Keep(s, cand(e)[k]); forall i :: i in t.filled ==> i < |t.table| && SlotOk(cand, t, i)
  {
    var locs := cand(e);
    var loc := locs[k];
    var t := Keep(s, loc);
    forall i | i in t.filled ensures i < |t.table| && SlotOk(cand, t, i) {
      if i in s.filled {
        assert SlotOk(cand, s, i);
      } else {
        forall j | 0 <= j < IndexOf(locs, loc) ensures locs[j] in s.filled {
          assert IndexOf(locs, loc) <= k;
          assert s.table[locs[j]] != s.table[loc];
        }
      }
    }
  }

  /** The first match comes no later than any taken slot of the element, and the candidates before that one
      are taken. */
  lemma MatchAfter(cand: Candidates, s: Slots, e: nat, k: nat, i: nat)
    requires Ok(cand, s) && i in s.filled && s.table[i] == e && k == FirstMatch(s, cand(e), e, 0)
    ensures var locs := cand(e);
      k < HASHES && (locs[k] == i || locs[k] in s.filled)
  {
    var locs := cand(e);
    assert SlotOk(cand, s, i);
    assert s.table[locs[IndexOf(locs, i)]] == e && k <= IndexOf(locs, i);
  }

  lemma KeptUnique(cand: Candidates, s: Slots, e: nat, k: nat)
    requires Ok(cand, s) && k < HASHES && k == FirstMatch(s, cand(e), e, 0)
    ensures Unique(Keep(s, cand(e)[k]))
  {
    var locs := cand(e);
    var loc := locs[k];
    forall i | i in s.filled && i != loc ensures s.table[i] != e {
      if s.table[i] == e { MatchAfter(cand, s, e, k, i); }
    }
  }

  lemma KeptElements(s: Slots, t: Slots, loc: nat, e: nat)
    requires Shaped(s) && loc < |s.table| && s.table[loc] == e && t == Keep(s, loc)
    ensures Contents(t) == Contents(s) + {e} && LiveElements(t) == LiveElements(s) + {e}
  {
    assert t.live[loc] && t.table[loc] == e;
    forall x | x in LiveElements(s) ensures x in LiveElements(t) {
      var i: nat :| i < |s.table| && s.live[i] && s.table[i] == x;
      assert t.live[i] && t.table[i] == x;
    }
  }

  lemma PlaceOk(cand: Candidates, s: Slots, e: nat, epoch: bool, k: nat)
    requires Ok(cand, s) && e !in Contents(s) && k < HASHES && k == FirstFree(s, cand(e), 0)
    ensures var loc := cand(e)[k]; var t := Place(s, loc, e, epoch);
      && Ok(cand, t) && LiveElements(t) == LiveElements(s) + {e}
      && Contents(t) <= Contents(s) + {e} <= Contents(t) + {s.table[loc]}
      && CurrentCount(t) == CurrentCount(s) + if epoch then 1 else 0
  {
    var loc := cand(e)[k];
    PlacedSlots(cand, s, e, epoch, k);
    PlacedUnique(s, loc, e, epoch);
    PlacedElements(s, Place(s, loc, e, epoch), loc, e);
    CurrentUpdate(s, Place(s, loc, e, epoch), loc, |s.table|);
  }

  lemma PlacedUnique(s: Slots, loc: nat, e: nat, epoch: bool)
    requires Shaped(s) && (forall i :: i in s.filled ==> i < |s.table|) && Unique(s) && RestDefault(s)
    requires loc < |s.table| && e !in Contents(s)
    ensures Unique(Place(s, loc, e, epoch)) && RestDefault(Place(s, loc, e, epoch))
  {
    forall i | i in s.filled ensures s.table[i] != e { assert s.table[i] in Contents(s); }
  }

  lemma PlacedSlots(cand: Candidates, s: Slots, e: nat, epoch: bool, k: nat)
    requires Ok(cand, s) && k < HASHES && k == FirstFree(s, cand(e), 0)
    ensures var t := Place(s, cand(e)[k], e, epoch);
      forall i :: i in t.filled ==> i < |t.table| && SlotOk(cand, t, i)
  {
    var locs := cand(e);
    var loc := locs[k];
    var t := Place(s, loc, e, epoch);
    forall i | i in t.filled ensures i < |t.table| && SlotOk(cand, t, i) {
      if i != loc { assert SlotOk(cand, s, i); } else { assert IndexOf(locs, loc) <= k; }
    }
  }

  lemma PlacedElements(s: Slots, t: Slots, loc: nat, e: nat)
    requires Shaped(s) && loc < |s.table| && !s.live[loc] && t.table == s.table[loc := e] && t.live == s.live[loc := true]
    requires t.filled == s.filled + {loc} && |t.epoch| == |s.epoch|
    ensures LiveElements(t) == LiveElements(s) + {e}
    ensures Contents(t) <= Contents(s) + {e} <= Contents(t) + {s.table[loc]}
  {
    forall x | x in LiveElements(s) + {e} ensures x in LiveElements(t) {
      if x == e {
        assert t.live[loc] && t.table[loc] == e;
      } else {
        var i: nat :| i < |s.table| && s.live[i] && s.table[i] == x;
        assert t.live[i] && t.table[i] == x;
      }
    }
    forall x | x in Contents(s) + {e} ensures x in Contents(t) + {s.table[loc]} {
      if x == e {
        assert loc in t.filled && t.table[loc] == e;
      } else {
        var i :| i in s.filled && i < |s.table| && s.table[i] == x;
        if i != loc { assert i in t.filled && t.table[i] == x; }
      }
    }
  }

  lemma SwapOk(cand: Candidates, s: Slots, e: nat, epoch: bool, loc: nat)
    requires Ok(cand, s) && e !in Contents(s) && loc in cand(e)
    requires forall k :: 0 <= k < HASHES ==> s.live[cand(e)[k]]
    ensures var t := Swap(s, loc, e, epoch);
      && Ok(cand, t) && s.table[loc] !in Contents(t)
      && LiveElements(t) + {s.table[loc]} == LiveElements(s) + {e}
      && Contents(t) + {s.table[loc]} == Contents(s) + {e}
      && CurrentCount(t) + (if s.epoch[loc] then 1 else 0) == CurrentCount(s) + (if epoch then 1 else 0)
  {
    var t := Swap(s, loc, e, epoch);
    assert s.live[loc] && loc in s.filled;
    forall i | i in t.filled ensures i < |t.table| && SlotOk(cand, t, i) {
      if i != loc { assert SlotOk(cand, s, i); }
    }
    forall i | i in s.filled ensures s.table[i] != e { assert s.table[i] in Contents(s); }
    SwappedElements(s, t, loc, e);
    CurrentUpdate(s, t, loc, |s.table|);
  }

  lemma SwappedElements(s: Slots, t: Slots, loc: nat, e: nat)
    requires Shaped(s) && loc < |s.table| && s.live[loc] && loc in s.filled && t.table == s.table[loc := e]
    requires t.live == s.live && t.filled == s.filled && |t.epoch| == |s.epoch|
    requires (forall i :: i in s.filled ==> i < |s.table|) && e != s.table[loc]
    requires forall i :: i in s.filled && i != loc ==> s.table[i] != s.table[loc]
    ensures LiveElements(t) + {s.table[loc]} == LiveElements(s) + {e}
    ensures Contents(t) + {s.table[loc]} == Contents(s) + {e} && s.table[loc] !in Contents(t)
  {
    assert t.live[loc] && t.table[loc] == e && s.table[loc] in LiveElements(s);
    forall x ensures x in LiveElements(t) + {s.table[loc]} <==> x in LiveElements(s) + {e} {
      if x in LiveElements(t) && x != e {
        var i: nat :| i < |t.table| && t.live[i] && t.table[i] == x;
        assert s.live[i] && s.table[i] == x;
      }
      if x in LiveElements(s) && x != s.table[loc] {
        var i: nat :| i < |s.table| && s.live[i] && s.table[i] == x;
        assert t.live[i] && t.table[i] == x;
      }
    }
    assert t.table[loc] in Contents(t) && s.table[loc] in Contents(s);
    forall x ensures x in Contents(t) + {s.table[loc]} <==> x in Contents(s) + {e} {
      if x in Contents(t) && x != e {
        var i :| i in t.filled && i < |t.table| && t.table[i] == x;
        assert s.table[i] == x;
      }
      if x in Contents(s) && x != s.table[loc] {
        var i :| i in s.filled && i < |s.table| && s.table[i] == x;
        assert t.table[i] == x;
      }
    }
  }

  // ---------------------------------------------------------------- whole insertions

  function Dropped(d: Option<nat>): (r: set<nat>) { if d.Some? then {d.value} else {} }

  /** Nothing but x may have been lost. */
  predicate LostOnly(s: Slots, t: Slots, e: nat, x: nat)
  {
    Contents(s) + {e} <= Contents(t) + {x}
  }

  /** What an insertion of e from s to t guarantees. */
  ghost predicate Inserted(cand: Candidates, s: Slots, e: nat, t: Slots, dropped: Option<nat>)
  {
    && Shaped(s) && Ok(cand, t)
    && LiveElements(t) + Dropped(dropped) == LiveElements(s) + {e} && Dropped(dropped) !! LiveElements(t)
    && Contents(t) <= Contents(s) + {e} && (exists x :: LostOnly(s, t, e, x))
  }

  /** And the current epoch grows by at most the new element. */
  ghost predicate Outcome(cand: Candidates, s: Slots, e: nat, epoch: bool, r: (Slots, Option<nat>))
  {
    Inserted(cand, s, e, r.0, r.1) && CurrentCount(r.0) <= CurrentCount(s) + if epoch then 1 else 0
  }

  lemma {:induction false} DisplaceOk(cand: Candidates, s: Slots, e: nat, epoch: bool, lastLoc: int, depth: nat, r: (Slots, Option<nat>))
    requires Ok(cand, s) && e !in Contents(s) && r == Displace(cand, s, e, epoch, lastLoc, depth)
    ensures Outcome(cand, s, e, epoch, r)
    decreases depth, 1
  {
    if depth == 0 {
      DisplaceStops(cand, s, e, epoch, lastLoc);
    } else if FirstFree(s, cand(e), 0) < HASHES {
      DisplacePlaces(cand, s, e, epoch, lastLoc, depth);
    } else {
      DisplaceSwapped(cand, s, e, epoch, lastLoc, depth, r);
    }
  }

  lemma DisplaceStops(cand: Candidates, s: Slots, e: nat, epoch: bool, lastLoc: int)
    requires Ok(cand, s) && e !in Contents(s)
    ensures Outcome(cand, s, e, epoch, Displace(cand, s, e, epoch, lastLoc, 0))
  {
    assert LostOnly(s, s, e, e);
    LiveInContents(cand, s);
  }

  lemma {:induction false} DisplaceSwapped(cand: Candidates, s: Slots, e: nat, epoch: bool, lastLoc: int, depth: nat,
                                           r: (Slots, Option<nat>))
    requires Ok(cand, s) && e !in Contents(s) && depth > 0 && FirstFree(s, cand(e), 0) == HASHES
    requires r == Displace(cand, s, e, epoch, lastLoc, depth)
    ensures Outcome(cand, s, e, epoch, r)
    decreases depth, 0
  {
    hide Displace, Onward, Outcome, FirstFree, IndexOf;
    var loc := NextLoc(cand(e), lastLoc);
    DisplaceSwaps(cand, s, e, epoch, lastLoc, depth, loc, r);
    OnwardOk(cand, s, e, epoch, loc, depth - 1, r);
  }

  lemma {:induction false} OnwardOk(cand: Candidates, s: Slots, e: nat, epoch: bool, loc: nat, depth: nat,
                                    r: (Slots, Option<nat>))
    requires Ok(cand, s) && e !in Contents(s) && loc in cand(e) && FirstFree(s, cand(e), 0) == HASHES
    requires r == Onward(cand, s, e, epoch, loc, depth)
    ensures Outcome(cand, s, e, epoch, r)
    decreases depth, 2
  {
    var t := Swap(s, loc, e, epoch);
    SwapOk(cand, s, e, epoch, loc);
    DisplaceOk(cand, t, s.table[loc], s.epoch[loc], loc, depth, r);
    Chained(cand, s, e, t, s.table[loc], r.0, r.1);
  }

  /** A round without a free candidate hands the displaced element on. */
  lemma DisplaceSwaps(cand: Candidates, s: Slots, e: nat, epoch: bool, lastLoc: int, depth: nat, loc: nat,
                      r: (Slots, Option<nat>))
    requires Usable(cand, s) && depth > 0 && FirstFree(s, cand(e), 0) == HASHES && loc == NextLoc(cand(e), lastLoc)
    requires r == Displace(cand, s, e, epoch, lastLoc, depth)
    ensures r == Onward(cand, s, e, epoch, loc, depth - 1)
  {}

  lemma DisplacePlaces(cand: Candidates, s: Slots, e: nat, epoch: bool, lastLoc: int, depth: nat)
    requires Ok(cand, s) && e !in Contents(s) && depth > 0 && FirstFree(s, cand(e), 0) < HASHES
    ensures Outcome(cand, s, e, epoch, Displace(cand, s, e, epoch, lastLoc, depth))
  {
    var k := FirstFree(s, cand(e), 0);
    var loc := cand(e)[k];
    PlaceOk(cand, s, e, epoch, k);
    assert LostOnly(s, Place(s, loc, e, epoch), e, s.table[loc]);
  }

  /** Exchanging e for another element first changes nothing about the outcome. */
  lemma Chained(cand: Candidates, s: Slots, e: nat, t: Slots, other: nat, u: Slots, dropped: Option<nat>)
    requires Shaped(s) && Inserted(cand, t, other, u, dropped)
    requires LiveElements(t) + {other} == LiveElements(s) + {e} && Contents(t) + {other} == Contents(s) + {e}
    ensures Inserted(cand, s, e, u, dropped)
  {
    var x :| LostOnly(t, u, other, x);
    assert LostOnly(s, u, e, x);
  }

  lemma LiveInContents(cand: Candidates, s: Slots)
    requires Ok(cand, s)
    ensures LiveElements(s) <= Contents(s)
  {}

  /** An insertion keeps the invariant; the live elements afterwards are the former ones and the new one
      except for at most one that is dropped; at most one entry, live or erased, stops being findable; and the
      current epoch grows by at most one. */
  lemma InsertOk(cand: Candidates, s: Slots, e: nat, depth: nat)
    requires Ok(cand, s)
    ensures var (t, dropped) := Insert(cand, s, e, depth);
      Inserted(cand, s, e, t, dropped) && CurrentCount(t) <= CurrentCount(s) + 1
  {
    var locs := cand(e);
    var k := FirstMatch(s, locs, e, 0);
    if k < HASHES {
      KeepOk(cand, s, e, k);
      assert LostOnly(s, Insert(cand, s, e, depth).0, e, e);
    } else {
      AbsentOf(cand, s, e);
      DisplaceOk(cand, s, e, true, -1, depth, Displace(cand, s, e, true, -1, depth));
    }
  }

  /** Erasing keeps the invariant and everything findable; only liveness ends. */
  lemma EraseOk(cand: Candidates, s: Slots, loc: nat)
    requires Ok(cand, s) && loc < |s.table|
    ensures Ok(cand, Erase(s, loc)) && Contents(Erase(s, loc)) == Contents(s)
    ensures CurrentCount(Erase(s, loc)) <= CurrentCount(s)
  {
    var t := Erase(s, loc);
    forall i | i in t.filled ensures i < |t.table| && SlotOk(cand, t, i) { assert SlotOk(cand, s, i); }
    CurrentUpdate(s, t, loc, |s.table|);
  }

  // ---------------------------------------------------------------- epochs

  /** The whole cache; `counter` is epoch_heuristic_counter. */
  datatype Cache = Cache(s: Slots, counter: nat, epoch_size: nat)

  /** The end of an epoch: the previous one may be collected, the current one becomes the previous one. */
  function Age(s: Slots): (t: Slots)
    requires Shaped(s)
    ensures |t.live| == |t.epoch| == |s.table|
    ensures forall i :: 0 <= i < |s.table| ==> t.live[i] == (s.live[i] && s.epoch[i]) && !t.epoch[i]
  {
    var n := |s.table|;
    s.(live := seq(n, i requires 0 <= i < n => s.live[i] && s.epoch[i]), epoch := seq(n, i requires 0 <= i < n => false))
  }

  /** epoch_check. */
  function EpochCheck(c: Cache): (d: Cache)
    requires Shaped(c.s)
    ensures Shaped(d.s) && |d.s.table| == |c.s.table|
  {
    if c.counter != 0 then c.(counter := c.counter - 1)
    else
      var unused := CurrentCount(c.s);
      if unused >= c.epoch_size then c.(s := Age(c.s), counter := c.epoch_size)
      else c.(counter := Max(1, Max(c.epoch_size / 16, c.epoch_size - unused)))
  }

  function CacheInsert(cand: Candidates, c: Cache, e: nat, depth: nat): (d: Cache)
    requires Usable(cand, c.s)
    ensures Shaped(d.s) && |d.s.table| == |c.s.table|
  {
    var d := EpochCheck(c);
    d.(s := Insert(cand, d.s, e, depth).0)
  }

  /** contains. */
  function CacheContains(cand: Candidates, c: Cache, e: nat, erase: bool): (r: (Cache, bool))
    requires Usable(cand, c.s)
    ensures Shaped(r.0.s) && |r.0.s.table| == |c.s.table|
  {
    var found := Lookup(cand, c.s, e);
    (if found.Some? && erase then c.(s := Erase(c.s, found.value)) else c, found.Some?)
  }

  /** What an epoch may hold at most while its counter runs down. */
  function Allowance(epoch_size: nat): (r: nat) { epoch_size + Max(1, epoch_size / 16) }

  ghost predicate CacheOk(cand: Candidates, c: Cache)
  {
    Ok(cand, c.s) && CurrentCount(c.s) + c.counter <= Allowance(c.epoch_size)
  }

  lemma {:induction false} NoneCurrent(s: Slots, n: nat)
    requires Shaped(s) && n <= |s.table| && forall i :: 0 <= i < |s.table| ==> !s.epoch[i]
    ensures Current(s, n) == 0
    decreases n
  {
    if n > 0 { NoneCurrent(s, n - 1); }
  }

  lemma AgeOk(cand: Candidates, s: Slots)
    requires Ok(cand, s)
    ensures Ok(cand, Age(s)) && Contents(Age(s)) == Contents(s) && CurrentCount(Age(s)) == 0
  {
    var t := Age(s);
    NoneCurrent(t, |t.table|);
    forall i | i in t.filled ensures i < |t.table| && SlotOk(cand, t, i) { assert SlotOk(cand, s, i); }
  }

  /** epoch_check leaves room for one more element of the current epoch. */
  lemma EpochCheckOk(cand: Candidates, c: Cache)
    requires CacheOk(cand, c)
    ensures var d := EpochCheck(c);
      Ok(cand, d.s) && Contents(d.s) == Contents(c.s) && CurrentCount(d.s) + d.counter + 1 <= Allowance(d.epoch_size)
  {
    AgeOk(cand, c.s);
  }

  /** Inserting keeps the invariant and the epoch bound, loses at most one live element of those that
      epoch_check left alive, and makes at most one entry unfindable. */
  lemma CacheInsertOk(cand: Candidates, c: Cache, e: nat, depth: nat)
    requires CacheOk(cand, c)
    ensures var d := CacheInsert(cand, c, e, depth);
      CacheOk(cand, d) && Inserted(cand, EpochCheck(c).s, e, d.s, Insert(cand, EpochCheck(c).s, e, depth).1)
  {
    EpochCheckOk(cand, c);
    InsertOk(cand, EpochCheck(c).s, e, depth);
  }

  /** A lookup finds exactly what the table holds besides the default element, and erasing hides nothing. */
  lemma CacheContainsOk(cand: Candidates, c: Cache, e: nat, erase: bool)
    requires CacheOk(cand, c)
    ensures var (d, found) := CacheContains(cand, c, e, erase);
      && CacheOk(cand, d) && Contents(d.s) == Contents(c.s) && (e in Contents(c.s) ==> found)
      && CacheContains(cand, d, e, false).1 == found
  {
    FindsContents(cand, c.s, e);
    var found := Lookup(cand, c.s, e);
    if found.Some? { EraseOk(cand, c.s, found.value); }
    SameLookup(c.s, CacheContains(cand, c, e, erase).0.s, cand(e), e, 0);
  }

  lemma {:induction false} SameLookup(s: Slots, t: Slots, locs: seq<nat>, e: nat, k: nat)
    requires InTable(locs, |s.table|) && s.table == t.table && k <= HASHES
    ensures FirstMatch(s, locs, e, k) == FirstMatch(t, locs, e, k)
    decreases HASHES - k
  {
    if k < HASHES { SameLookup(s, t, locs, e, k + 1); }
  }

  // ---------------------------------------------------------------- runs

  datatype Op = InsertOp(e: nat) | ContainsOp(e: nat, erase: bool)

  function Step(cand: Candidates, c: Cache, op: Op, depth: nat): (d: Cache)
    requires Usable(cand, c.s)
    ensures Usable(cand, d.s)
  {
    match op
    case InsertOp(e) => CacheInsert(cand, c, e, depth)
    case ContainsOp(e, erase) => CacheContains(cand, c, e, erase).0
  }

  function Run(cand: Candidates, c: Cache, ops: seq<Op>, depth: nat): (d: Cache)
    requires Usable(cand, c.s)
    decreases |ops|
  {
    if ops == [] then c else Run(cand, Step(cand, c, ops[0], depth), ops[1..], depth)
  }

  /** After setup. */
  function Initial(size: nat, default_: nat): (c: Cache)
    requires size >= 2
  {
    Cache(Slots(seq(size, _ => default_), seq(size, _ => false), seq(size, _ => false), {}),
          Max(1, 45 * size % 0x1_0000_0000 / 100), Max(1, 45 * size % 0x1_0000_0000 / 100))
  }

  lemma StepKeepsOk(cand: Candidates, c: Cache, op: Op, depth: nat)
    requires CacheOk(cand, c)
    ensures CacheOk(cand, Step(cand, c, op, depth))
  {
    match op
    case InsertOp(e) => CacheInsertOk(cand, c, e, depth);
    case ContainsOp(e, erase) => CacheContainsOk(cand, c, e, erase);
  }

  lemma {:induction false} RunKeepsOk(cand: Candidates, c: Cache, ops: seq<Op>, depth: nat)
    requires CacheOk(cand, c)
    ensures CacheOk(cand, Run(cand, c, ops, depth))
    decreases |ops|
  {
    if ops != [] {
      StepKeepsOk(cand, c, ops[0], depth);
      RunKeepsOk(cand, Step(cand, c, ops[0], depth), ops[1..], depth);
    }
  }

  /** Every run from a fresh cache, whatever the hash function, keeps each inserted element at most once and
      at one of its own candidates, and the live part of the current epoch within its allowance. */
  lemma EveryRunOk(cand: Candidates, size: nat, default_: nat, ops: seq<Op>, depth: nat)
    requires size >= 2 && forall e :: InTable(cand(e), size)
    ensures CacheOk(cand, Run(cand, Initial(size, default_), ops, depth))
  {
    var c := Initial(size, default_);
    NoneCurrent(c.s, size);
    RunKeepsOk(cand, c, ops, depth);
  }
}
