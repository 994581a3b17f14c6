/**
  Ancestor-package selection of src/miner.cpp: the block template under construction, the lazily kept
  index of entries whose unselected ancestors changed, and the selection loop.
 */
module BlockAssembler {
  import opened Prelude
  import opened Mempool

  const WITNESS_SCALE_FACTOR := 4
  const MAX_BLOCK_WEIGHT := 32000000
  const MAX_BLOCK_SIGOPS_COST := 80000
  const COINBASE_WEIGHT := 4000
  const COINBASE_SIGOPS := 400
  const MAX_CONSECUTIVE_FAILURES := 1000

  /** CTxMemPoolModifiedEntry: totals over the ancestors that are not yet in the block. */
  datatype ModEntry = ModEntry(nSizeWithAncestors: int, nModFeesWithAncestors: int, nSigOpCostWithAncestors: int)

  type ModMap = map<TxId, ModEntry>

  function SetOf(s: seq<TxId>): (r: set<TxId>) { set x | x in s }

  predicate Distinct(s: seq<TxId>) { forall i, j :: 0 <= i < j < |s| ==> s[i] != s[j] }

  lemma SetOfSnoc(s: seq<TxId>, i: nat)
    requires i < |s|
    ensures SetOf(s[..i + 1]) == SetOf(s[..i]) + {s[i]}
  {
    assert s[..i + 1] == s[..i] + [s[i]];
  }

  // ---------------------------------------------------------------- what must hold

  /** With every transaction come its in-pool ancestors. */
  predicate Closed(pool: Pool, b: set<TxId>)
  {
    forall x :: x in b ==> x in pool.anc && x in pool.entries && pool.anc[x] <= b
  }

  /** Every transaction is preceded by all its ancestors, its parents among them. */
  predicate ParentsFirst(pool: Pool, vtx: seq<TxId>)
  {
    forall i :: 0 <= i < |vtx| ==> vtx[i] in pool.anc && pool.anc[vtx[i]] <= SetOf(vtx[..i])
  }

  /** The modified index covers every unselected transaction that has a selected ancestor, except those
      that failed before; its totals lie between the truth and the cached
      ones, and are exact unless the entry failed. */
  ghost predicate ModOk(pool: Pool, b: set<TxId>, m: ModMap, failed: set<TxId>)
    requires pool.Shape()
  {
    && m.Keys !! b && m.Keys <= pool.entries.Keys
    && (forall d {:trigger Covered(pool, b, m, failed, d)} :: d in pool.entries ==> Covered(pool, b, m, failed, d))
    && (forall d {:trigger TotalsOk(pool, b, failed, d, m[d])} :: d in m ==> TotalsOk(pool, b, failed, d, m[d]))
  }

  predicate Covered(pool: Pool, b: set<TxId>, m: ModMap, failed: set<TxId>, d: TxId)
    requires pool.Shape() && d in pool.entries
  {
    d !in b && pool.anc[d] * b != {} ==> d in m || d in failed
  }

  ghost predicate TotalsOk(pool: Pool, b: set<TxId>, failed: set<TxId>, d: TxId, e: ModEntry)
    requires pool.Shape() && d in pool.entries
  {
    var t := pool.Cost(pool.Package(d) - b);
    && t.size <= e.nSizeWithAncestors <= pool.cached[d].size
    && t.sigOpCost <= e.nSigOpCostWithAncestors <= pool.cached[d].sigOpCost
    && (d !in failed ==> e.nSizeWithAncestors == t.size && e.nSigOpCostWithAncestors == t.sigOpCost)
    && (d !in failed && Unprioritised(pool) ==> e.nModFeesWithAncestors == t.modifiedFee)
  }

  /** No entry's fee is modified. Otherwise the fees of the index drift, because all but the first of the selected
      ancestors are taken off with their plain fees. */
  predicate Unprioritised(pool: Pool)
  {
    forall x :: x in pool.entries ==> pool.entries[x].modifiedFee == pool.entries[x].fee
  }

  lemma {:induction false} PlainFees(pool: Pool, s: set<TxId>)
    requires Unprioritised(pool)
    ensures pool.Cost(s).fee == pool.Cost(s).modifiedFee
    decreases |s|
  {
    if s != {} {
      var x :| x in s;
      CostRemove(pool, s, x);
      PlainFees(pool, s - {x});
      PlainSum(pool.Entry(x), pool.Cost(s - {x}));
    }
  }

  lemma PlainSum(a: Totals, b: Totals)
    requires a.fee == a.modifiedFee && b.fee == b.modifiedFee
    ensures a.Plus(b).fee == a.Plus(b).modifiedFee
  {
  }

  /** How one entry of the index changes when the ancestors `s` of d are selected. */
  ghost predicate EntryUpdated(pool: Pool, before: ModMap, after: ModMap, d: TxId, s: set<TxId>)
    requires pool.Shape() && d in pool.entries
  {
    if s == {} then (d in after <==> d in before) && (d in after ==> after[d] == before[d])
    else
      && d in after
      && var t := if d in before then before[d] else Full(pool, d);
      && after[d].nSizeWithAncestors + pool.Cost(s).size == t.nSizeWithAncestors
      && after[d].nSigOpCostWithAncestors + pool.Cost(s).sigOpCost == t.nSigOpCostWithAncestors
      && (d in before || Unprioritised(pool) ==> after[d].nModFeesWithAncestors + pool.Cost(s).fee == t.nModFeesWithAncestors)
  }

  ghost function Full(pool: Pool, d: TxId): (r: ModEntry)
    requires pool.Shape() && d in pool.entries
  {
    var t := pool.Cost(pool.Package(d));
    ModEntry(t.size, t.modifiedFee, t.sigOpCost)
  }

  /** The added ancestors of d, for an entry that is not itself added. */
  function Gone(pool: Pool, added: set<TxId>, seen: set<TxId>, d: TxId): (r: set<TxId>)
    requires d in pool.anc
  {
    if d in added then {} else pool.anc[d] * seen
  }

  ghost predicate Updated(pool: Pool, before: ModMap, after: ModMap, added: set<TxId>, seen: set<TxId>)
    requires pool.Shape()
  {
    && after.Keys <= pool.entries.Keys
    && forall d {:trigger EntryUpdated(pool, before, after, d, Gone(pool, added, seen, d))} ::
         d in pool.entries ==> EntryUpdated(pool, before, after, d, Gone(pool, added, seen, d))
  }

  // ---------------------------------------------------------------- lemmas about the index

  /** Selecting a package and updating its descendants keeps the index right. */
  lemma UpdateKeepsModOk(pool: Pool, b: set<TxId>, m: ModMap, failed: set<TxId>, package: set<TxId>, after: ModMap)
    requires pool.Valid() && ModOk(pool, b, m, failed) && package !! b && Closed(pool, b)
    requires Updated(pool, m - package, after, package, package)
    ensures ModOk(pool, b + package, after, failed)
  {
    var b' := b + package;
    forall d | d in pool.entries
      ensures d in after ==> d !in b' && TotalsOk(pool, b', failed, d, after[d])
      ensures Covered(pool, b', after, failed, d)
    {
      UpdatedEntryOk(pool, b, m, failed, package, after, d);
    }
  }

  lemma UpdatedEntryOk(pool: Pool, b: set<TxId>, m: ModMap, failed: set<TxId>, package: set<TxId>, after: ModMap, d: TxId)
    requires pool.Valid() && ModOk(pool, b, m, failed) && package !! b && Closed(pool, b)
    requires Updated(pool, m - package, after, package, package) && d in pool.entries
    ensures d in after ==> d !in b + package && TotalsOk(pool, b + package, failed, d, after[d])
    ensures Covered(pool, b + package, after, failed, d)
  {
    hide Pool.Cost, Full, Unprioritised;
    assert EntryUpdated(pool, m - package, after, d, Gone(pool, package, package, d));
    assert Covered(pool, b, m, failed, d);
    if d in m { assert TotalsOk(pool, b, failed, d, m[d]); }
    if d in b {
      assert pool.anc[d] <= b;
      assert pool.anc[d] * package == {};
    } else if d !in package {
      UpdatedOutside(pool, b, m, failed, package, after, d);
    }
  }

  lemma UpdatedOutside(pool: Pool, b: set<TxId>, m: ModMap, failed: set<TxId>, package: set<TxId>, after: ModMap, d: TxId)
    requires pool.Valid() && package !! b && d in pool.entries && d !in b + package && Covered(pool, b, m, failed, d)
    requires d in m ==> TotalsOk(pool, b, failed, d, m[d])
    requires EntryUpdated(pool, m - package, after, d, pool.anc[d] * package)
    ensures d in after ==> TotalsOk(pool, b + package, failed, d, after[d])
    ensures Covered(pool, b + package, after, failed, d)
  {
    hide Pool.Cost, Full, Unprioritised;
    SplitSets(pool.anc[d], b, package, d);
    if pool.anc[d] * package == {} {
      assert pool.Package(d) - (b + package) == pool.Package(d) - b;
    } else {
      if d !in m { FullCovers(pool, b, failed, d); }
      TotalsAfter(pool, b, failed, package, d, if d in m then m[d] else Full(pool, d), after[d]);
    }
  }

  lemma TotalsAfter(pool: Pool, b: set<TxId>, failed: set<TxId>, package: set<TxId>, d: TxId, e: ModEntry, a: ModEntry)
    requires pool.Valid() && d in pool.entries && package !! b && d !in b + package && TotalsOk(pool, b, failed, d, e)
    requires a.nSizeWithAncestors + pool.Cost(pool.anc[d] * package).size == e.nSizeWithAncestors
    requires a.nSigOpCostWithAncestors + pool.Cost(pool.anc[d] * package).sigOpCost == e.nSigOpCostWithAncestors
    requires Unprioritised(pool) ==>
      a.nModFeesWithAncestors + pool.Cost(pool.anc[d] * package).fee == e.nModFeesWithAncestors
    ensures TotalsOk(pool, b + package, failed, d, a)
  {
    hide Pool.Cost, Pool.EntryOk, Pool.ThroughParent, Unprioritised;
    PackageSplit(pool, b, package, d);
    CostBounds(pool, pool.anc[d] * package);
    if Unprioritised(pool) { PlainFees(pool, pool.anc[d] * package); }
  }

  lemma FullCovers(pool: Pool, b: set<TxId>, failed: set<TxId>, d: TxId)
    requires pool.Valid() && d in pool.entries && d !in b && (pool.anc[d] * b == {} || d in failed)
    ensures TotalsOk(pool, b, failed, d, Full(pool, d))
  {
    assert pool.EntryOk(d);
    CostMonotone(pool, pool.Package(d) - b, pool.Package(d));
    if d !in failed { assert pool.Package(d) - b == pool.Package(d); }
  }

  /** What is left of a package before a selection is what is left after it and what the selection takes. */
  lemma PackageSplit(pool: Pool, b: set<TxId>, package: set<TxId>, d: TxId)
    requires pool.Valid() && d in pool.entries && package !! b && d !in b + package
    ensures pool.anc[d] * (b + package) == pool.anc[d] * b + pool.anc[d] * package
    ensures pool.Cost(pool.Package(d) - b)
         == pool.Cost(pool.Package(d) - (b + package)).Plus(pool.Cost(pool.anc[d] * package))
  {
    SplitSets(pool.anc[d], b, package, d);
    CostUnion(pool, pool.anc[d] + {d} - (b + package), pool.anc[d] * package);
  }

  lemma SplitSets(anc: set<TxId>, b: set<TxId>, package: set<TxId>, d: TxId)
    requires package !! b && d !in b + package
    ensures anc * (b + package) == anc * b + anc * package
    ensures anc + {d} - b == (anc + {d} - (b + package)) + anc * package
    ensures (anc + {d} - (b + package)) !! anc * package
  {}

  /** The unsigned totals of the index never wrap below zero: an unselected entry still counts itself. */
  lemma IndexCoversEntry(pool: Pool, b: set<TxId>, m: ModMap, failed: set<TxId>, d: TxId)
    requires pool.Valid() && ModOk(pool, b, m, failed) && d in m
    ensures m[d].nSizeWithAncestors >= pool.entries[d].size && m[d].nSigOpCostWithAncestors >= pool.entries[d].sigOpCost
  {
    assert TotalsOk(pool, b, failed, d, m[d]);
    CostMonotone(pool, {d}, pool.Package(d) - b);
    CostRemove(pool, {d}, d);
    assert {d} - {d} == {};
  }

  /** Why exactness is lost for failed entries: one that re-enters the index is charged again for every
      ancestor selected before. Its totals are the true ones if and only if those ancestors weigh nothing. */
  lemma ReenteredTotals(pool: Pool, b: set<TxId>, m: ModMap, package: set<TxId>, after: ModMap, d: TxId)
    requires pool.Valid() && package !! b && d in pool.entries && d !in b && d !in package && d !in m
    requires Updated(pool, m - package, after, package, package) && pool.anc[d] * package != {}
    ensures d in after
    ensures var (truth, again) := (pool.Cost(pool.Package(d) - (b + package)), pool.Cost(pool.anc[d] * b));
      && after[d].nSizeWithAncestors == truth.size + again.size
      && after[d].nSigOpCostWithAncestors == truth.sigOpCost + again.sigOpCost
      && (after[d].nSizeWithAncestors == truth.size && after[d].nSigOpCostWithAncestors == truth.sigOpCost
          <==> again.size == 0 && again.sigOpCost == 0)
  {
    assert EntryUpdated(pool, m - package, after, d, Gone(pool, package, package, d));
    var left, old_, new_ := pool.Package(d) - (b + package), pool.anc[d] * b, pool.anc[d] * package;
    assert pool.Package(d) == (left + old_) + new_;
    CostUnion(pool, left, old_);
    CostUnion(pool, left + old_, new_);
  }

  lemma FailKeepsModOk(pool: Pool, b: set<TxId>, m: ModMap, failed: set<TxId>, d: TxId)
    requires pool.Valid() && ModOk(pool, b, m, failed) && d in m
    ensures ModOk(pool, b, m - {d}, failed + {d})
  {
    forall x | x in m - {d} ensures TotalsOk(pool, b, failed + {d}, x, (m - {d})[x]) {
      assert TotalsOk(pool, b, failed, x, m[x]);
    }
    forall x | x in pool.entries ensures Covered(pool, b, m - {d}, failed + {d}, x) {
      assert Covered(pool, b, m, failed, x);
    }
  }

  lemma PackageClosed(pool: Pool, b: set<TxId>, x: TxId)
    requires pool.Valid() && Closed(pool, b) && x in pool.entries
    ensures Closed(pool, b + (pool.Package(x) - b))
  {
    assert pool.EntryOk(x);
    forall y | y in pool.Package(x) ensures pool.anc[y] <= pool.Package(x) {
      if y != x { AncestorsClosed(pool, x, y); }
    }
  }

  lemma NothingUpdated(pool: Pool, m: ModMap, added: set<TxId>)
    requires pool.Shape() && m.Keys <= pool.entries.Keys
    ensures Updated(pool, m, m, added, added - added)
  {
    forall d | d in pool.entries ensures Gone(pool, added, added - added, d) == {} {}
  }

  /** Half way through the descendants of x: those in `rest` still wait for the share of x to be taken off. */
  ghost predicate PartUpdated(pool: Pool, before: ModMap, after: ModMap, added: set<TxId>, seen: set<TxId>,
                              x: TxId, rest: set<TxId>)
    requires pool.Shape()
  {
    && after.Keys <= pool.entries.Keys
    && forall d {:trigger EntryUpdatedFor(pool, before, after, added, seen, x, rest, d)} ::
         d in pool.entries ==> EntryUpdatedFor(pool, before, after, added, seen, x, rest, d)
  }

  ghost predicate EntryUpdatedFor(pool: Pool, before: ModMap, after: ModMap, added: set<TxId>, seen: set<TxId>,
                                  x: TxId, rest: set<TxId>, d: TxId)
    requires pool.Shape() && d in pool.entries
  {
    EntryUpdated(pool, before, after, d, Gone(pool, added, if d in rest then seen else seen + {x}, d))
  }

  lemma NoneUpdatedFor(pool: Pool, before: ModMap, m: ModMap, added: set<TxId>, seen: set<TxId>, x: TxId)
    requires pool.Shape() && Updated(pool, before, m, added, seen) && x in added
    ensures PartUpdated(pool, before, m, added, seen, x, pool.Descendants(x) - added)
  {
    forall d | d in pool.entries ensures EntryUpdatedFor(pool, before, m, added, seen, x, pool.Descendants(x) - added, d) {
      assert EntryUpdated(pool, before, m, d, Gone(pool, added, seen, d));
      if d !in pool.Descendants(x) { assert pool.anc[d] * (seen + {x}) == pool.anc[d] * seen; }
    }
  }

  lemma AllUpdatedFor(pool: Pool, before: ModMap, m: ModMap, added: set<TxId>, seen: set<TxId>, x: TxId)
    requires pool.Shape() && PartUpdated(pool, before, m, added, seen, x, {})
    ensures Updated(pool, before, m, added, seen + {x})
  {
    forall d | d in pool.entries ensures EntryUpdated(pool, before, m, d, Gone(pool, added, seen + {x}, d)) {
      assert EntryUpdatedFor(pool, before, m, added, seen, x, {}, d);
    }
  }

  lemma OneMoreUpdated(pool: Pool, before: ModMap, was: ModMap, after: ModMap, added: set<TxId>, seen: set<TxId>,
                       x: TxId, rest: set<TxId>, desc: TxId)
    requires pool.Shape() && PartUpdated(pool, before, was, added, seen, x, rest)
    requires x in added && x in pool.entries && x !in seen
    requires desc in rest && desc in pool.Descendants(x) && desc !in added
    requires after.Keys == was.Keys + {desc} && forall d :: d in was && d != desc ==> after[d] == was[d]
    requires var e := if desc in was then was[desc] else Full(pool, desc);
             && after[desc].nSizeWithAncestors == e.nSizeWithAncestors - pool.entries[x].size
             && after[desc].nSigOpCostWithAncestors == e.nSigOpCostWithAncestors - pool.entries[x].sigOpCost
             && after[desc].nModFeesWithAncestors == e.nModFeesWithAncestors - if desc in was then pool.entries[x].fee
                                                                               else pool.entries[x].modifiedFee
    ensures PartUpdated(pool, before, after, added, seen, x, rest - {desc})
  {
    hide Pool.Cost, Full;
    forall d | d in pool.entries ensures EntryUpdatedFor(pool, before, after, added, seen, x, rest - {desc}, d) {
      assert EntryUpdatedFor(pool, before, was, added, seen, x, rest, d);
      if d == desc {
        if pool.anc[desc] * seen == {} { NoCost(pool, pool.anc[desc] * seen); }
        CostAdd(pool, pool.anc[desc] * seen, x);
        assert pool.anc[desc] * (seen + {x}) == pool.anc[desc] * seen + {x};
      }
    }
  }

  // ---------------------------------------------------------------- sorting a package

  /** CompareTxIterByAncestorCount. */
  predicate Before(pool: Pool, a: TxId, b: TxId)
    requires a in pool.anc && b in pool.anc
  {
    if pool.CountWithAncestors(a) != pool.CountWithAncestors(b)
    then pool.CountWithAncestors(a) < pool.CountWithAncestors(b)
    else a < b
  }

  ghost predicate SortedListing(pool: Pool, s: seq<TxId>, package: set<TxId>)
    requires package <= pool.anc.Keys
  {
    && SetOf(s) == package
    && forall i, j :: 0 <= i < j < |s| ==> s[i] in package && s[j] in package && Before(pool, s[i], s[j])
  }

  /** A package sorted by ancestor count can be appended to the block as it is. */
  lemma SortedPackageOrdered(pool: Pool, vtx: seq<TxId>, x: TxId, sorted: seq<TxId>)
    requires pool.Valid() && x in pool.entries && pool.EntryOk(x)
    requires ParentsFirst(pool, vtx) && Distinct(vtx)
    requires SortedListing(pool, sorted, pool.Package(x) - SetOf(vtx))
    ensures ParentsFirst(pool, vtx + sorted) && Distinct(vtx + sorted)
    ensures SetOf(vtx + sorted) == SetOf(vtx) + (pool.Package(x) - SetOf(vtx))
  {
    var all := vtx + sorted;
    assert pool.EntryOk(x);
    SortedDistinct(pool, sorted, pool.Package(x) - SetOf(vtx));
    forall i | 0 <= i < |all| ensures all[i] in pool.anc && pool.anc[all[i]] <= SetOf(all[..i]) {
      if i < |vtx| {
        assert all[..i] == vtx[..i];
      } else {
        var k := i - |vtx|;
        assert all[..i] == vtx + sorted[..k];
        assert sorted[k] in SetOf(sorted);
        SortedEntryAfterAncestors(pool, vtx, x, sorted, k);
      }
    }
    AppendDistinct(vtx, sorted);
    AppendSetOf(vtx, sorted);
  }

  lemma SortedDistinct(pool: Pool, s: seq<TxId>, package: set<TxId>)
    requires package <= pool.anc.Keys && SortedListing(pool, s, package)
    ensures Distinct(s)
  {
    forall i, j | 0 <= i < j < |s| ensures s[i] != s[j] {
      assert Before(pool, s[i], s[j]);
    }
  }

  lemma AppendDistinct(a: seq<TxId>, b: seq<TxId>)
    requires Distinct(a) && Distinct(b) && SetOf(a) !! SetOf(b)
    ensures Distinct(a + b)
  {
    forall i, j | 0 <= i < j < |a + b| ensures (a + b)[i] != (a + b)[j] {
      if i < |a| <= j {
        assert a[i] in SetOf(a) && b[j - |a|] in SetOf(b);
      }
    }
  }

  lemma AppendSetOf(a: seq<TxId>, b: seq<TxId>)
    ensures SetOf(a + b) == SetOf(a) + SetOf(b)
  {
    forall x | x in SetOf(a) + SetOf(b) ensures x in SetOf(a + b) {
      if x in SetOf(a) {
        var i :| 0 <= i < |a| && a[i] == x;
        assert (a + b)[i] == x;
      } else {
        var i :| 0 <= i < |b| && b[i] == x;
        assert (a + b)[|a| + i] == x;
      }
    }
  }

  lemma SortedEntryAfterAncestors(pool: Pool, vtx: seq<TxId>, x: TxId, sorted: seq<TxId>, k: nat)
    requires pool.Valid() && x in pool.entries && pool.EntryOk(x) && k < |sorted|
    requires SortedListing(pool, sorted, pool.Package(x) - SetOf(vtx))
    ensures sorted[k] in pool.entries && pool.anc[sorted[k]] <= SetOf(vtx + sorted[..k])
  {
    var y := sorted[k];
    assert y in SetOf(sorted);
    forall a | a in pool.anc[y] ensures a in SetOf(vtx + sorted[..k]) {
      if y != x { AncestorsClosed(pool, x, y); }
      AncestorCountsLess(pool, y, a);
      if a !in SetOf(vtx) {
        assert a in SetOf(sorted);
        var j :| 0 <= j < |sorted| && sorted[j] == a;
        assert j < k;
        assert (vtx + sorted[..k])[|vtx| + j] == a;
      }
    }
  }

  // ---------------------------------------------------------------- the assembler

  /** CFeeRate::GetFee; the C++ division truncates. */
  function GetFee(nSatoshisPerK: int, nSize: int): (fee: int)
    requires nSize >= 0
  {
    var product := nSatoshisPerK * nSize;
    var nFee := if product >= 0 then product / 1000 else -((-product) / 1000);
    if nFee == 0 && nSize != 0 then
      if nSatoshisPerK > 0 then 1 else if nSatoshisPerK < 0 then -1 else 0
    else nFee
  }

  /** What comparing with GetFee means: the fees reach the rate, with the fee rounded toward zero but never to
      zero, unless there is no size to pay for. */
  lemma FeeTest(rate: int, size: nat, fees: int)
    ensures rate >= 0 && size > 0 ==>
      (fees < GetFee(rate, size) <==> 1000 * (fees + 1) <= rate * size || (fees == 0 && rate > 0))
    ensures rate < 0 && size > 0 ==> (fees < GetFee(rate, size) <==> fees < -1 && 1000 * fees < rate * size)
    ensures size == 0 ==> GetFee(rate, size) == 0
    ensures rate >= 0 && size > 0 && fees < GetFee(rate, size) ==> 1000 * fees < 1000 || 1000 * fees < rate * size
    ensures rate >= 0 && size > 0 && fees >= GetFee(rate, size) ==> 1000 * (fees + 1) > rate * size
  {
    var product := rate * size;
    if size > 0 {
      Sign(rate, size);
      if rate >= 0 { Thousandth(product, fees); } else { Thousandth(-product, -fees - 1); }
    }
  }

  lemma Sign(rate: int, size: nat)
    requires size > 0
    ensures rate > 0 ==> rate * size > 0
    ensures rate < 0 ==> rate * size < 0
  {
  }

  lemma Thousandth(product: nat, fees: int)
    ensures fees < product / 1000 <==> 1000 * (fees + 1) <= product
  {
  }

  /** The block template's value. */
  datatype Template = Template(inBlock: set<TxId>, vtx: seq<TxId>, nBlockWeight: int, nBlockTx: int,
                               nBlockSigOpsCost: int, nFees: int)

  /** The transaction-level checks: final, and no witness when witnesses are not mined. */
  predicate Admissible(pool: Pool, fIncludeWitness: bool, x: TxId)
  {
    x in pool.entries && pool.entries[x].isFinal && (fIncludeWitness || !pool.entries[x].hasWitness)
  }

  predicate AllAdmissible(pool: Pool, fIncludeWitness: bool, s: set<TxId>)
  {
    forall x :: x in s ==> Admissible(pool, fIncludeWitness, x)
  }

  /** What a package is judged by: the index where it has an entry, the cached totals otherwise. */
  function TotalsUsed(pool: Pool, m: ModMap, x: TxId): (e: ModEntry)
    requires pool.Shape() && x in pool.entries
  {
    if x in m then m[x] else ModEntry(pool.cached[x].size, pool.cached[x].modifiedFee, pool.cached[x].sigOpCost)
  }

  predicate Fits(nBlockMaxWeight: int, t: Template, size: int, sigOpCost: int)
  {
    t.nBlockWeight + WITNESS_SCALE_FACTOR * size < nBlockMaxWeight && t.nBlockSigOpsCost + sigOpCost < MAX_BLOCK_SIGOPS_COST
  }

  /** The verdict on one package. */
  function Judge(pool: Pool, rules: Rules, t: Template, used: ModEntry, x: TxId): (outcome: Outcome)
    requires pool.Shape() && x in pool.entries && used.nSizeWithAncestors >= 0
  {
    if used.nModFeesWithAncestors < GetFee(rules.blockMinFeeRate, used.nSizeWithAncestors) then FeeTooLow
    else if !Fits(rules.nBlockMaxWeight, t, used.nSizeWithAncestors, used.nSigOpCostWithAncestors) then DoesNotFit
    else if !AllAdmissible(pool, rules.fIncludeWitness, pool.Package(x) - t.inBlock) then NotAdmissible
    else Added
  }

  datatype Rules = Rules(nBlockMaxWeight: int, blockMinFeeRate: int, fIncludeWitness: bool)

  /** The counters are the exact totals of the selected transactions. */
  ghost predicate CountersOk(pool: Pool, t: Template)
  {
    var c := pool.Cost(t.inBlock);
    && t.nBlockTx == |t.vtx|
    && t.nBlockWeight == COINBASE_WEIGHT + c.weight
    && t.nBlockSigOpsCost == COINBASE_SIGOPS + c.sigOpCost
    && t.nFees == c.fee
  }

  /** The block stays below its limits; without any package the weight is the coinbase reserve. */
  predicate LimitsOk(nBlockMaxWeight: int, t: Template)
  {
    && (t.inBlock == {} || t.nBlockWeight < nBlockMaxWeight)
    && t.nBlockSigOpsCost < MAX_BLOCK_SIGOPS_COST
  }

  predicate OrderOk(pool: Pool, t: Template)
  {
    && t.inBlock == SetOf(t.vtx) && Closed(pool, t.inBlock)
    && Distinct(t.vtx) && ParentsFirst(pool, t.vtx)
  }

  /** What a block template satisfies after every package. */
  ghost predicate TemplateOk(pool: Pool, nBlockMaxWeight: int, fIncludeWitness: bool, t: Template)
  {
    && CountersOk(pool, t) && LimitsOk(nBlockMaxWeight, t) && OrderOk(pool, t)
    && AllAdmissible(pool, fIncludeWitness, t.inBlock)
  }

  /** A template with more transactions appended. */
  ghost function Extended(pool: Pool, t: Template, more: seq<TxId>): (r: Template)
  {
    var c := pool.Cost(SetOf(more));
    Template(t.inBlock + SetOf(more), t.vtx + more, t.nBlockWeight + c.weight, t.nBlockTx + |more|,
             t.nBlockSigOpsCost + c.sigOpCost, t.nFees + c.fee)
  }

  /** Appending a sorted package that fits and is admissible keeps the template good. */
  lemma ExtendedOk(pool: Pool, nBlockMaxWeight: int, fIncludeWitness: bool, t: Template, x: TxId, sorted: seq<TxId>)
    requires pool.Valid() && TemplateOk(pool, nBlockMaxWeight, fIncludeWitness, t) && x in pool.entries
    requires pool.Package(x) - t.inBlock <= pool.anc.Keys
    requires SortedListing(pool, sorted, pool.Package(x) - t.inBlock)
    requires AllAdmissible(pool, fIncludeWitness, pool.Package(x) - t.inBlock)
    requires LimitsOk(nBlockMaxWeight, Extended(pool, t, sorted))
    ensures TemplateOk(pool, nBlockMaxWeight, fIncludeWitness, Extended(pool, t, sorted))
  {
    assert pool.EntryOk(x);
    ExtendedOrder(pool, t, x, sorted);
    ExtendedCounters(pool, t, sorted);
  }

  lemma ExtendedCounters(pool: Pool, t: Template, more: seq<TxId>)
    requires CountersOk(pool, t) && SetOf(more) !! t.inBlock
    ensures CountersOk(pool, Extended(pool, t, more))
  {
    CostUnion(pool, t.inBlock, SetOf(more));
  }

  lemma ExtendedOrder(pool: Pool, t: Template, x: TxId, sorted: seq<TxId>)
    requires pool.Valid() && OrderOk(pool, t) && x in pool.entries && pool.EntryOk(x)
    requires SortedListing(pool, sorted, pool.Package(x) - t.inBlock)
    ensures OrderOk(pool, Extended(pool, t, sorted))
  {
    SortedPackageOrdered(pool, t.vtx, x, sorted);
    PackageClosed(pool, t.inBlock, x);
  }

  lemma ExtendedStep(pool: Pool, t: Template, s: seq<TxId>, i: nat)
    requires Distinct(s) && i < |s| && s[i] in pool.entries
    ensures var e, was := pool.entries[s[i]], Extended(pool, t, s[..i]);
            Extended(pool, t, s[..i + 1]) ==
            Template(was.inBlock + {s[i]}, was.vtx + [s[i]], was.nBlockWeight + e.weight, was.nBlockTx + 1,
                     was.nBlockSigOpsCost + e.sigOpCost, was.nFees + e.fee)
  {
    SetOfSnoc(s, i);
    assert s[..i + 1] == s[..i] + [s[i]];
    ExtendedByOne(pool, t, s[..i], s[i]);
  }

  lemma ExtendedByOne(pool: Pool, t: Template, more: seq<TxId>, x: TxId)
    requires x in pool.entries && x !in more
    ensures var e, was := pool.entries[x], Extended(pool, t, more);
            Extended(pool, t, more + [x]) ==
            Template(was.inBlock + {x}, was.vtx + [x], was.nBlockWeight + e.weight, was.nBlockTx + 1,
                     was.nBlockSigOpsCost + e.sigOpCost, was.nFees + e.fee)
  {
    var s, all := SetOf(more), SetOf(more + [x]);
    assert all == s + {x};
    CostAdd(pool, s, x);
    assert t.inBlock + all == t.inBlock + s + {x};
    assert t.vtx + (more + [x]) == t.vtx + more + [x];
  }

  lemma ExtendedByNone(pool: Pool, t: Template)
    ensures Extended(pool, t, []) == t && SetOf([]) == {}
  {
  }

  class Assembler {
    const pool: Pool
    const nBlockMaxWeight: int
    const blockMinFeeRate: int
    var fIncludeWitness: bool
    var inBlock: set<TxId>
    var vtx: seq<TxId>
    var nBlockWeight: int
    var nBlockTx: int
    var nBlockSigOpsCost: int
    var nFees: int

    ghost function Abs(): (r: Template)
      reads this
    {
      Template(inBlock, vtx, nBlockWeight, nBlockTx, nBlockSigOpsCost, nFees)
    }

    ghost predicate BlockOk()
      reads this
    {
      && pool.Valid() && COINBASE_WEIGHT <= nBlockMaxWeight <= MAX_BLOCK_WEIGHT - 4000
      && TemplateOk(pool, nBlockMaxWeight, fIncludeWitness, Abs())
    }

    constructor (pool: Pool, optMaxWeight: nat, blockMinFeeRate: int, fIncludeWitness: bool)
      requires pool.Valid()
      ensures BlockOk() && inBlock == {} && this.pool == pool && this.blockMinFeeRate == blockMinFeeRate
      ensures nBlockMaxWeight == Max(4000, Min(optMaxWeight, MAX_BLOCK_WEIGHT - 4000))
    {
      this.pool := pool;
      var capped := if optMaxWeight < MAX_BLOCK_WEIGHT - 4000 then optMaxWeight else MAX_BLOCK_WEIGHT - 4000;
      this.nBlockMaxWeight := if capped > 4000 then capped else 4000;
      this.blockMinFeeRate := blockMinFeeRate;
      this.fIncludeWitness := fIncludeWitness;
      this.inBlock, this.vtx, this.nBlockTx, this.nFees := {}, [], 0, 0;
      this.nBlockWeight, this.nBlockSigOpsCost := COINBASE_WEIGHT, COINBASE_SIGOPS;
    }

    /** resetBlock. */
    method ResetBlock()
      requires BlockOk()
      modifies this
      ensures BlockOk() && inBlock == {} && !fIncludeWitness
    {
      inBlock, vtx := {}, [];
      nBlockWeight, nBlockSigOpsCost := COINBASE_WEIGHT, COINBASE_SIGOPS;
      fIncludeWitness := false;
      nBlockTx, nFees := 0, 0;
    }

    /** onlyUnconfirmed: drop the entries already in the block. */
    method OnlyUnconfirmed(testSet: set<TxId>) returns (r: set<TxId>)
      ensures r == testSet - inBlock
    {
      r := testSet;
      var rest := testSet;
      while rest != {}
        invariant rest <= testSet && r == testSet - ((testSet - rest) * inBlock)
        decreases rest
      {
        var x :| x in rest;
        if x in inBlock { r := r - {x}; }
        rest := rest - {x};
      }
    }

    method TestPackage(packageSize: int, packageSigOpsCost: int) returns (fits: bool)
      ensures fits <==> (nBlockWeight + WITNESS_SCALE_FACTOR * packageSize < nBlockMaxWeight &&
                         nBlockSigOpsCost + packageSigOpsCost < MAX_BLOCK_SIGOPS_COST)
    {
      if nBlockWeight + WITNESS_SCALE_FACTOR * packageSize >= nBlockMaxWeight { return false; }
      if nBlockSigOpsCost + packageSigOpsCost >= MAX_BLOCK_SIGOPS_COST { return false; }
      return true;
    }

    method TestPackageTransactions(package: set<TxId>) returns (ok: bool)
      requires package <= pool.entries.Keys
      ensures ok <==> forall x :: x in package ==>
        x in pool.entries && pool.entries[x].isFinal && (fIncludeWitness || !pool.entries[x].hasWitness)
    {
      var rest := package;
      while rest != {}
        invariant rest <= package
        invariant forall x :: x in package - rest ==>
          x in pool.entries && pool.entries[x].isFinal && (fIncludeWitness || !pool.entries[x].hasWitness)
        decreases rest
      {
        var x :| x in rest;
        if !pool.entries[x].isFinal { return false; }
        if !fIncludeWitness && pool.entries[x].hasWitness { return false; }
        rest := rest - {x};
      }
      assert package - rest == package;
      return true;
    }

    method AddToBlock(x: TxId)
      requires x in pool.entries
      modifies this`vtx, this`nBlockWeight, this`nBlockTx, this`nBlockSigOpsCost, this`nFees, this`inBlock
      ensures var e, was := pool.entries[x], old(Abs());
              Abs() == Template(was.inBlock + {x}, was.vtx + [x], was.nBlockWeight + e.weight, was.nBlockTx + 1,
                                was.nBlockSigOpsCost + e.sigOpCost, was.nFees + e.fee)
    {
      vtx := vtx + [x];
      nBlockWeight := nBlockWeight + pool.entries[x].weight;
      nBlockTx := nBlockTx + 1;
      nBlockSigOpsCost := nBlockSigOpsCost + pool.entries[x].sigOpCost;
      nFees := nFees + pool.entries[x].fee;
      inBlock := inBlock + {x};
    }

    /** UpdatePackagesForAdded: every descendant of an added entry loses that entry's share. */
    method UpdatePackagesForAdded(added: set<TxId>, before: ModMap) returns (m: ModMap, nDescendantsUpdated: nat)
      requires pool.Valid() && added <= pool.entries.Keys && before.Keys <= pool.entries.Keys
      ensures Updated(pool, before, m, added, added)
    {
      m, nDescendantsUpdated := before, 0;
      var rest := added;
      NothingUpdated(pool, before, added);
      while rest != {}
        invariant rest <= added
        invariant Updated(pool, before, m, added, added - rest)
        decreases rest
      {
        var x :| x in rest;
        var n;
        m, n := UpdateDescendants(added, x, before, m, added - rest);
        nDescendantsUpdated := nDescendantsUpdated + n;
        assert added - (rest - {x}) == added - rest + {x};
        rest := rest - {x};
      }
      assert added - {} == added;
    }

    /** The inner loop of UpdatePackagesForAdded, for one added entry x. */
    method UpdateDescendants(added: set<TxId>, x: TxId, ghost before: ModMap, m0: ModMap, ghost seen: set<TxId>)
      returns (m: ModMap, n: nat)
      requires pool.Valid() && added <= pool.entries.Keys && x in added && x !in seen
      requires Updated(pool, before, m0, added, seen)
      ensures Updated(pool, before, m, added, seen + {x})
    {
      m, n := m0, 0;
      var rest := pool.Descendants(x) - added;
      NoneUpdatedFor(pool, before, m, added, seen, x);
      while rest != {}
        invariant rest <= pool.Descendants(x) - added
        invariant PartUpdated(pool, before, m, added, seen, x, rest)
        decreases rest
      {
        var desc :| desc in rest;
        n := n + 1;
        ghost var was := m;
        if desc !in m {
          var full := pool.cached[desc];
          assert pool.EntryOk(desc);
          m := m[desc := ModEntry(full.size - pool.entries[x].size,
                                  full.modifiedFee - pool.entries[x].modifiedFee,
                                  full.sigOpCost - pool.entries[x].sigOpCost)];
        } else {
          var e := m[desc];
          m := m[desc := ModEntry(e.nSizeWithAncestors - pool.entries[x].size,
                                  e.nModFeesWithAncestors - pool.entries[x].fee,
                                  e.nSigOpCostWithAncestors - pool.entries[x].sigOpCost)];
        }
        OneMoreUpdated(pool, before, was, m, added, seen, x, rest, desc);
        rest := rest - {desc};
      }
      AllUpdatedFor(pool, before, m, added, seen, x);
    }

    /** SkipMapTxEntry. */
    predicate SkipMapTxEntry(x: TxId, m: ModMap, failedTx: set<TxId>)
      reads this
    {
      x in m || x in inBlock || x in failedTx
    }

    /** SortForBlock, as a selection of the least remaining entry. */
    method SortForBlock(package: set<TxId>) returns (sorted: seq<TxId>)
      requires package <= pool.anc.Keys
      ensures SortedListing(pool, sorted, package)
    {
      sorted := [];
      var rest := package;
      while rest != {}
        invariant rest <= package && SetOf(sorted) == package - rest
        invariant forall i, j :: 0 <= i < j < |sorted| ==>
          sorted[i] in package && sorted[j] in package && Before(pool, sorted[i], sorted[j])
        invariant forall i, x :: 0 <= i < |sorted| && x in rest ==> sorted[i] in package && Before(pool, sorted[i], x)
        decreases rest
      {
        var least := Least(rest);
        ghost var was := sorted;
        sorted := sorted + [least];
        assert SetOf(sorted) == SetOf(was) + {least};
        rest := rest - {least};
      }
    }

    method Least(s: set<TxId>) returns (least: TxId)
      requires s != {} && s <= pool.anc.Keys
      ensures least in s && forall x :: x in s && x != least ==> Before(pool, least, x)
    {
      least :| least in s;
      var rest := s - {least};
      while rest != {}
        invariant rest < s && least in s - rest
        invariant forall x :: x in s - rest && x != least ==> Before(pool, least, x)
        decreases rest
      {
        var x :| x in rest;
        ghost var was := least;
        if Before(pool, x, least) { least := x; }
        forall y | y in s - rest && y != least ensures Before(pool, least, y) {
          if y != was { assert Before(pool, was, y); }
        }
        rest := rest - {x};
      }
    }

    /** The loop that adds a sorted package and erases it from the index. */
    method AddAll(sortedEntries: seq<TxId>, m0: ModMap) returns (m: ModMap)
      requires Distinct(sortedEntries) && SetOf(sortedEntries) <= pool.entries.Keys
      modifies this`vtx, this`nBlockWeight, this`nBlockTx, this`nBlockSigOpsCost, this`nFees, this`inBlock
      ensures Abs() == Extended(pool, old(Abs()), sortedEntries)
      ensures m == m0 - SetOf(sortedEntries)
    {
      ExtendedByNone(pool, Abs());
      hide Pool.Cost;
      m := m0;
      for i := 0 to |sortedEntries|
        invariant Abs() == Extended(pool, old(Abs()), sortedEntries[..i])
        invariant m == m0 - SetOf(sortedEntries[..i])
      {
        var x := sortedEntries[i];
        assert x in SetOf(sortedEntries);
        SetOfSnoc(sortedEntries, i);
        ExtendedStep(pool, old(Abs()), sortedEntries, i);
        AddToBlock(x);
        m := m - {x};
      }
      assert sortedEntries[..|sortedEntries|] == sortedEntries;
    }

    /** Adds the unselected part of iter's package and brings the index up to date. */
    method AddPackage(iter: TxId, package: set<TxId>, m0: ModMap, ghost failedTx: set<TxId>)
      returns (m: ModMap, nDescendantsUpdated: nat)
      requires BlockOk() && ModOk(pool, inBlock, m0, failedTx)
      requires iter in pool.entries && package == pool.Package(iter) - inBlock
      requires nBlockWeight + pool.Cost(package).weight < nBlockMaxWeight
      requires nBlockSigOpsCost + pool.Cost(package).sigOpCost < MAX_BLOCK_SIGOPS_COST
      requires AllAdmissible(pool, fIncludeWitness, package)
      modifies this`vtx, this`nBlockWeight, this`nBlockTx, this`nBlockSigOpsCost, this`nFees, this`inBlock
      ensures BlockOk() && inBlock == old(inBlock) + package
      ensures ModOk(pool, inBlock, m, failedTx) && m0.Keys - package <= m.Keys
    {
      assert pool.EntryOk(iter);
      var sortedEntries := SortForBlock(package);
      SortedDistinct(pool, sortedEntries, package);
      ExtendedOk(pool, nBlockMaxWeight, fIncludeWitness, Abs(), iter, sortedEntries);
      m := AddAll(sortedEntries, m0);
      ghost var erased := m;
      m, nDescendantsUpdated := UpdatePackagesForAdded(package, m);
      UpdateKeepsModOk(pool, old(inBlock), m0, failedTx, package, m);
      UpdatedKeys(pool, erased, m, package);
    }

    function RulesOf(): (rules: Rules)
      reads this`fIncludeWitness
    {
      Rules(nBlockMaxWeight, blockMinFeeRate, fIncludeWitness)
    }

    /** The tests of one iteration of addPackageTxs; also the unselected part of the package. */
    method JudgePackage(iter: TxId, fUsingModified: bool, m: ModMap) returns (outcome: Outcome, ancestors: set<TxId>)
      requires pool.Valid() && iter in pool.entries && iter !in inBlock && (fUsingModified <==> iter in m)
      requires TotalsUsed(pool, m, iter).nSizeWithAncestors >= 0
      ensures outcome == Judge(pool, RulesOf(), Abs(), TotalsUsed(pool, m, iter), iter)
      ensures var used := TotalsUsed(pool, m, iter);
        blockMinFeeRate >= 0 && used.nSizeWithAncestors > 0 ==>
          (outcome == FeeTooLow <==>
            || 1000 * (used.nModFeesWithAncestors + 1) <= blockMinFeeRate * used.nSizeWithAncestors
            || (used.nModFeesWithAncestors == 0 && blockMinFeeRate > 0))
      ensures outcome == Added ==> ancestors == pool.Package(iter) - inBlock
    {
      ancestors := {};
      var packageSize := pool.cached[iter].size;
      var packageFees := pool.cached[iter].modifiedFee;
      var packageSigOpsCost := pool.cached[iter].sigOpCost;
      if fUsingModified {
        packageSize := m[iter].nSizeWithAncestors;
        packageFees := m[iter].nModFeesWithAncestors;
        packageSigOpsCost := m[iter].nSigOpCostWithAncestors;
      }
      FeeTest(blockMinFeeRate, packageSize, packageFees);
      if packageFees < GetFee(blockMinFeeRate, packageSize) {
        return FeeTooLow, ancestors;
      }
      var fits := TestPackage(packageSize, packageSigOpsCost);
      if !fits {
        return DoesNotFit, ancestors;
      }
      ancestors := OnlyUnconfirmed(pool.anc[iter]);
      ancestors := ancestors + {iter};
      assert ancestors == pool.Package(iter) - inBlock;
      assert pool.EntryOk(iter);
      var ok := TestPackageTransactions(ancestors);
      if !ok {
        return NotAdmissible, ancestors;
      }
      return Added, ancestors;
    }

    /** From the choice of iter to the end of one iteration of addPackageTxs: judge the package, and add it or
        remember that it failed. */
    method TryPackage(iter: TxId, fUsingModified: bool, m0: ModMap, failed0: set<TxId>)
      returns (outcome: Outcome, m: ModMap, failedTx: set<TxId>, nDescendantsUpdated: nat)
      requires BlockOk() && ModOk(pool, inBlock, m0, failed0)
      requires iter in pool.entries && iter !in inBlock
      requires if fUsingModified then iter in m0 else iter !in m0 && iter !in failed0
      modifies this`vtx, this`nBlockWeight, this`nBlockTx, this`nBlockSigOpsCost, this`nFees, this`inBlock
      ensures TotalsUsed(pool, m0, iter).nSizeWithAncestors >= 0
      ensures outcome == Judge(pool, RulesOf(), old(Abs()), TotalsUsed(pool, m0, iter), iter)
      ensures var used := TotalsUsed(pool, m0, iter);
        blockMinFeeRate >= 0 && used.nSizeWithAncestors > 0 ==>
          (outcome == FeeTooLow <==>
            || 1000 * (used.nModFeesWithAncestors + 1) <= blockMinFeeRate * used.nSizeWithAncestors
            || (used.nModFeesWithAncestors == 0 && blockMinFeeRate > 0))
      ensures BlockOk() && ModOk(pool, inBlock, m, failedTx)
      ensures if outcome == Added then
                inBlock == old(inBlock) + pool.Package(iter) && m0.Keys - pool.Package(iter) <= m.Keys && failedTx == failed0
              else if fUsingModified && outcome != FeeTooLow then
                Abs() == old(Abs()) && m == m0 - {iter} && failedTx == failed0 + {iter}
              else Abs() == old(Abs()) && m == m0 && failedTx == failed0
      ensures outcome == DoesNotFit || outcome == NotAdmissible ==>
        LeftOut(pool, nBlockMaxWeight, fIncludeWitness, Abs(), iter)
    {
      m, failedTx, nDescendantsUpdated := m0, failed0, 0;
      PackageTotals(pool, inBlock, m, failedTx, iter);
      var ancestors;
      outcome, ancestors := JudgePackage(iter, fUsingModified, m0);
      if outcome == Added {
        m, nDescendantsUpdated := AddPackage(iter, ancestors, m, failedTx);
      } else if outcome != FeeTooLow && fUsingModified {
        FailKeepsModOk(pool, inBlock, m, failedTx, iter);
        m, failedTx := m - {iter}, failedTx + {iter};
      }
    }

    /** The choice between the next pool entry and the best entry of the index. */
    method NextEntry(order: seq<TxId>, mi0: nat, mapModifiedTx: ModMap, failedTx: set<TxId>)
      returns (iter: TxId, fUsingModified: bool, mi: nat)
      requires pool.Valid() && ModOk(pool, inBlock, mapModifiedTx, failedTx) && mi0 <= |order|
      requires SetOf(order) == pool.entries.Keys && (mi0 < |order| || mapModifiedTx != map[])
      requires mi0 < |order| ==> !SkipMapTxEntry(order[mi0], mapModifiedTx, failedTx)
      ensures iter in pool.entries && iter !in inBlock
      ensures if fUsingModified then iter in mapModifiedTx && mi == mi0
              else mi0 < |order| && iter == order[mi0] && mi == mi0 + 1 && iter !in mapModifiedTx && iter !in failedTx
    {
      mi, fUsingModified := mi0, true;
      if mi == |order| {
        iter :| iter in mapModifiedTx;
      } else {
        iter := order[mi];
        assert iter in SetOf(order);
        var modifiedIsBetter: bool := *;
        if mapModifiedTx != map[] && modifiedIsBetter {
          iter :| iter in mapModifiedTx;
        } else {
          mi, fUsingModified := mi + 1, false;
        }
      }
    }

    /** What holds between iterations of addPackageTxs. */
    ghost predicate Running(order: seq<TxId>, mi: nat, m: ModMap, failedTx: set<TxId>)
      reads this
    {
      && mi <= |order| && BlockOk() && ModOk(pool, inBlock, m, failedTx) && SetOf(order) == pool.entries.Keys
      && Accounted(pool, nBlockMaxWeight, fIncludeWitness, Abs(), m, failedTx, SetOf(order[mi..]))
    }

    /** An unselected transaction whose totals, at least what its package adds, do not reach the minimum rate. */
    ghost predicate TooCheap(x: TxId, used: ModEntry)
      reads this
    {
      && pool.Shape() && x in pool.entries && x !in inBlock
      && pool.Cost(pool.Package(x) - inBlock).size <= used.nSizeWithAncestors <= pool.cached[x].size
      && (blockMinFeeRate >= 0 && used.nSizeWithAncestors > 0 ==>
            && 1000 * used.nModFeesWithAncestors < Max(1000, blockMinFeeRate * used.nSizeWithAncestors)
            && (|| 1000 * (used.nModFeesWithAncestors + 1) <= blockMinFeeRate * used.nSizeWithAncestors
                || (used.nModFeesWithAncestors == 0 && blockMinFeeRate > 0)))
    }

    /** One iteration of addPackageTxs that does not skip. */
    method TryNext(order: seq<TxId>, mi0: nat, m0: ModMap, failed0: set<TxId>)
      returns (outcome: Outcome, mi: nat, m: ModMap, failedTx: set<TxId>, nDescendantsUpdated: nat,
               ghost tried: TxId, ghost used: ModEntry)
      requires Running(order, mi0, m0, failed0) && (mi0 < |order| || m0 != map[])
      requires mi0 < |order| ==> !SkipMapTxEntry(order[mi0], m0, failed0)
      modifies this`vtx, this`nBlockWeight, this`nBlockTx, this`nBlockSigOpsCost, this`nFees, this`inBlock
      ensures BlockOk() && mi0 <= mi && (outcome != FeeTooLow ==> Running(order, mi, m, failedTx))
      ensures if outcome == Added then old(inBlock) <= inBlock && |pool.entries.Keys - inBlock| < |pool.entries.Keys - old(inBlock)|
              else inBlock == old(inBlock) && (outcome == FeeTooLow || mi > mi0 || |m| < |m0|)
      ensures outcome == FeeTooLow ==> TooCheap(tried, used)
    {
      hide Pool.Cost, Pool.EntryOk, Pool.ThroughParent, Judge, ModOk, LeftOut, CountersOk, LimitsOk, OrderOk, AllAdmissible;
      ghost var (t0, rest0) := (Abs(), SetOf(order[mi0..]));
      if mi0 < |order| { SetOfCons(order, mi0); }
      var iter, fUsingModified;
      iter, fUsingModified, mi := NextEntry(order, mi0, m0, failed0);
      ghost var rest := SetOf(order[mi..]);
      assert rest0 - {iter} <= rest;
      tried, used := iter, TotalsUsed(pool, m0, iter);
      PackageTotals(pool, inBlock, m0, failed0, iter);
      outcome, m, failedTx, nDescendantsUpdated := TryPackage(iter, fUsingModified, m0, failed0);
      if outcome != FeeTooLow {
        WeightGrows(pool, nBlockMaxWeight, fIncludeWitness, t0, Abs());
        StillAccounted(pool, nBlockMaxWeight, fIncludeWitness, t0, Abs(), m0, m, failed0, failedTx, rest0, rest, iter);
      }
      if outcome == Added { ProperSubsetSmaller(pool.entries.Keys - inBlock, pool.entries.Keys - old(inBlock), iter); }
    }

    /** Going past an entry that is selected, failed, or looked at through the index. */
    method Skip(order: seq<TxId>, mi0: nat, ghost m: ModMap, ghost failedTx: set<TxId>) returns (mi: nat)
      requires Running(order, mi0, m, failedTx) && mi0 < |order| && SkipMapTxEntry(order[mi0], m, failedTx)
      ensures mi == mi0 + 1 && Running(order, mi, m, failedTx)
    {
      SkipAccounted(pool, nBlockMaxWeight, fIncludeWitness, Abs(), m, failedTx, order, mi0);
      mi := mi0 + 1;
    }

    /** addPackageTxs. `order` is the iteration order of the pool's ancestor-score index. The two score
        comparisons are left open: any entry of the index may be its best, and either side may win. */
    method AddPackageTxs(order: seq<TxId>)
      returns (stop: Stop, nPackagesSelected: nat, nDescendantsUpdated: nat, ghost low: TxId, ghost used: ModEntry)
      requires BlockOk() && SetOf(order) == pool.entries.Keys
      modifies this`vtx, this`nBlockWeight, this`nBlockTx, this`nBlockSigOpsCost, this`nFees, this`inBlock
      ensures BlockOk() && old(inBlock) <= inBlock
      ensures stop == Exhausted ==> forall x :: x in pool.entries ==>
        x in inBlock || LeftOut(pool, nBlockMaxWeight, fIncludeWitness, Abs(), x)
      ensures stop == NearlyFull ==> nBlockWeight > nBlockMaxWeight - 4000
      ensures stop == LowFee ==> TooCheap(low, used)
    {
      hide Pool.Cost, ModOk, CountersOk, LimitsOk, AllAdmissible, LeftOut, TooCheap;
      nPackagesSelected, low, used := 0, 0, ModEntry(0, 0, 0);
      var mapModifiedTx: ModMap := map[];
      var failedTx: set<TxId> := {};
      mapModifiedTx, nDescendantsUpdated := UpdatePackagesForAdded(inBlock, mapModifiedTx);
      InitialModOk(pool, inBlock, mapModifiedTx);
      var mi := 0;
      var nConsecutiveFailed := 0;
      assert Running(order, 0, mapModifiedTx, failedTx) by { assert order[0..] == order; }
      while mi < |order| || mapModifiedTx != map[]
        invariant Running(order, mi, mapModifiedTx, failedTx) && old(inBlock) <= inBlock
        decreases |pool.entries.Keys - inBlock|, |order| - mi, |mapModifiedTx|
      {
        if mi < |order| && SkipMapTxEntry(order[mi], mapModifiedTx, failedTx) {
          mi := Skip(order, mi, mapModifiedTx, failedTx);
          continue;
        }
        var outcome, n;
        outcome, mi, mapModifiedTx, failedTx, n, low, used := TryNext(order, mi, mapModifiedTx, failedTx);
        if outcome == FeeTooLow {
          stop := LowFee;
          return;
        }
        match outcome
        case FeeTooLow =>
        case DoesNotFit =>
          nConsecutiveFailed := nConsecutiveFailed + 1;
          if nConsecutiveFailed > MAX_CONSECUTIVE_FAILURES && nBlockWeight > nBlockMaxWeight - 4000 {
            stop := NearlyFull;
            return;
          }
        case NotAdmissible =>
        case Added =>
          nConsecutiveFailed := 0;
          nPackagesSelected := nPackagesSelected + 1;
          nDescendantsUpdated := nDescendantsUpdated + n;
      }
      assert SetOf(order[mi..]) == {};
      stop := Exhausted;
    }
  }

  // ---------------------------------------------------------------- what is left out

  /** An entry that never failed is judged by what its package really adds. */
  lemma JudgedByTruth(pool: Pool, rules: Rules, t: Template, m: ModMap, failed: set<TxId>, x: TxId)
    requires pool.Valid() && ModOk(pool, t.inBlock, m, failed) && x in pool.entries && x !in t.inBlock && x !in failed
    ensures TotalsUsed(pool, m, x).nSizeWithAncestors >= 0 && pool.Package(x) <= pool.entries.Keys
    ensures var c := pool.Cost(pool.Package(x) - t.inBlock);
      match Judge(pool, rules, t, TotalsUsed(pool, m, x), x)
      case FeeTooLow => rules.blockMinFeeRate >= 0 && c.size > 0 && Unprioritised(pool) ==>
        1000 * (c.modifiedFee + 1) <= rules.blockMinFeeRate * c.size || (c.modifiedFee == 0 && rules.blockMinFeeRate > 0)
      case DoesNotFit =>
        || t.nBlockWeight + WITNESS_SCALE_FACTOR * c.size >= rules.nBlockMaxWeight
        || t.nBlockSigOpsCost + c.sigOpCost >= MAX_BLOCK_SIGOPS_COST
      case NotAdmissible =>
        (exists y :: y in pool.Package(x) - t.inBlock &&
           (!pool.entries[y].isFinal || (pool.entries[y].hasWitness && !rules.fIncludeWitness)))
      case Added =>
        && t.nBlockWeight + WITNESS_SCALE_FACTOR * c.size < rules.nBlockMaxWeight
        && t.nBlockSigOpsCost + c.sigOpCost < MAX_BLOCK_SIGOPS_COST
        && (forall y :: y in pool.Package(x) - t.inBlock ==>
              pool.entries[y].isFinal && (pool.entries[y].hasWitness ==> rules.fIncludeWitness))
        && (rules.blockMinFeeRate >= 0 && c.size > 0 && Unprioritised(pool) ==>
              1000 * (c.modifiedFee + 1) > rules.blockMinFeeRate * c.size)
  {
    PackageTotals(pool, t.inBlock, m, failed, x);
    assert pool.EntryOk(x) && Covered(pool, t.inBlock, m, failed, x);
    if x in m {
      assert TotalsOk(pool, t.inBlock, failed, x, m[x]);
    } else {
      assert pool.Package(x) - t.inBlock == pool.Package(x);
    }
  }

  // A pool of three: 3 spends outputs of 1 and 2. Sizes are such that 3 fails while only 1 is selected, and
  // returns to the index, charged for 1 again, when 2 is selected.

  const SMALL_1 := TxEntry(600, 800, 0, 0, 0, true, false, {})
  const SMALL_2 := TxEntry(600, 1200, 0, 0, 0, true, false, {})
  const SMALL_3 := TxEntry(200, 800, 0, 0, 0, true, false, {1, 2})

  function SmallPool(): (pool: Pool)
  {
    Pool(map[1 := SMALL_1, 2 := SMALL_2, 3 := SMALL_3], map[1 := {}, 2 := {}, 3 := {1, 2}],
         map[1 := Totals(600, 800, 0, 0, 0), 2 := Totals(600, 1200, 0, 0, 0), 3 := Totals(1400, 2800, 0, 0, 0)])
  }

  lemma SmallEntries(p: Pool)
    requires p == SmallPool()
    ensures p.Entry(1) == Totals(600, 800, 0, 0, 0) && p.Entry(2) == Totals(600, 1200, 0, 0, 0)
    ensures p.Entry(3) == Totals(200, 800, 0, 0, 0)
  {}

  lemma CostOf(p: Pool, s: set<TxId>, x: TxId, all: set<TxId>)
    requires x !in s && all == s + {x}
    ensures p.Cost(all) == p.Entry(x).Plus(p.Cost(s))
  {
    CostAdd(p, s, x);
  }

  lemma NoCost(p: Pool, s: set<TxId>)
    requires s == {}
    ensures p.Cost(s) == NOTHING
  {}

  lemma PlusNothing(t: Totals)
    ensures t.Plus(NOTHING) == t
  {}

  lemma NothingElse(p: Pool, all: set<TxId>, rest: set<TxId>, x: TxId)
    requires p.Cost(all) == p.Entry(x).Plus(p.Cost(rest)) && rest == {}
    ensures p.Cost(all) == p.Entry(x)
  {
    NoCost(p, rest);
    PlusNothing(p.Entry(x));
  }

  lemma AloneCost(p: Pool, all: set<TxId>, x: TxId)
    requires x in all && forall y :: y in all ==> y == x
    ensures p.Cost(all) == p.Entry(x)
  {
    CostRemove(p, all, x);
    NothingElse(p, all, all - {x}, x);
  }

  lemma OneCost(p: Pool, x: TxId)
    ensures p.Cost({x}) == p.Entry(x)
  {
    AloneCost(p, {x}, x);
  }

  lemma TwoCost(p: Pool, x: TxId, y: TxId)
    requires x != y
    ensures p.Cost({x, y}) == p.Entry(x).Plus(p.Entry(y))
  {
    OneCost(p, y);
    CostOf(p, {y}, x, {x, y});
  }

  lemma ThreeCost(p: Pool, x: TxId, y: TxId, z: TxId)
    requires x != y && x != z && y != z
    ensures p.Cost({x, y, z}) == p.Entry(x).Plus(p.Entry(y).Plus(p.Entry(z)))
  {
    TwoCost(p, y, z);
    CostOf(p, {y, z}, x, {x, y, z});
  }

  lemma SmallEntryOk(p: Pool, x: TxId)
    requires p == SmallPool() && x in p.entries
    ensures p.EntryOk(x)
  {
    SmallEntries(p);
    if x == 3 {
      assert p.anc[3] + {3} == {1, 2, 3};
      ThreeCost(p, 1, 2, 3);
    } else {
      assert p.anc[x] + {x} == {x};
      OneCost(p, x);
    }
  }

  lemma SmallPoolValid(p: Pool)
    requires p == SmallPool()
    ensures p.Valid()
  {
    forall x | x in p.entries ensures p.EntryOk(x) { SmallEntryOk(p, x); }
  }

  lemma SmallFirst(p: Pool, m1: ModMap)
    requires p == SmallPool() && Updated(p, map[], m1, {1}, {1})
    ensures p.Valid() && ModOk(p, {1}, m1, {}) && ModOk(p, {1}, m1 - {3}, {3})
    ensures 3 in m1 && m1[3].nSizeWithAncestors == 800 && m1[3].nSigOpCostWithAncestors == 0
  {
    SmallPoolValid(p);
    InitialModOk(p, {1}, m1);
    SmallEntries(p);
    TwoCost(p, 2, 3);
    assert p.anc[3] * {1} == {1} && p.anc[3] + {3} - {1} == {2, 3};
    assert Covered(p, {1}, m1, {}, 3);
    assert TotalsOk(p, {1}, {}, 3, m1[3]);
    FailKeepsModOk(p, {1}, m1, {}, 3);
    assert {} + {3} == {3};
  }

  lemma SmallSecond(p: Pool, m: ModMap, m3: ModMap)
    requires p == SmallPool() && p.Valid() && ModOk(p, {1}, m, {3}) && 3 !in m && Updated(p, m - {2}, m3, {2}, {2})
    ensures ModOk(p, {1, 2}, m3, {3}) && 3 in m3 && m3[3].nSizeWithAncestors == 800
    ensures p.Cost(p.Package(3) - {1, 2}).size == 200
  {
    SmallEntries(p);
    OneCost(p, 1);
    OneCost(p, 3);
    assert {1} + {2} == {1, 2} && p.anc[3] * {2} == {2} && p.anc[3] * {1} == {1} && p.anc[3] + {3} - {1, 2} == {3};
    UpdateKeepsModOk(p, {1}, m, {3}, {2}, m3);
    ReenteredTotals(p, {1}, m, {2}, m3, 3);
  }

  /** A run of the index over that pool with room for 8000 weight units, 4000 of them reserved. m1 is the index
      once 1 is selected: 3 does not fit with 2 and fails. m3 is the index once 2 is selected too: 3 is
      charged 800 where it adds 200, and does not fit by that, though it would by its true size. */
  lemma FailedEntryReenters(m1: ModMap, m3: ModMap)
    requires Updated(SmallPool(), map[], m1, {1}, {1}) && Updated(SmallPool(), m1 - {3} - {2}, m3, {2}, {2})
    ensures var p := SmallPool();
      && p.Valid() && ModOk(p, {1}, m1, {}) && ModOk(p, {1}, m1 - {3}, {3}) && ModOk(p, {1, 2}, m3, {3})
      && var t1 := Template({1}, [1], COINBASE_WEIGHT + 800, 1, COINBASE_SIGOPS, 0);
      && 3 in m1 && !Fits(8000, t1, m1[3].nSizeWithAncestors, m1[3].nSigOpCostWithAncestors)
      && Fits(8000, t1, p.cached[2].size, p.cached[2].sigOpCost)
      && var t2 := Template({1, 2}, [1, 2], COINBASE_WEIGHT + 2000, 2, COINBASE_SIGOPS, 0);
      && 3 in m3 && m3[3].nSizeWithAncestors == 800 && p.Cost(p.Package(3) - {1, 2}).size == 200
      && !Fits(8000, t2, 800, 0) && Fits(8000, t2, 200, 0)
  {
    SmallFirst(SmallPool(), m1);
    SmallSecond(SmallPool(), m1 - {3}, m3);
  }

  /** Why addPackageTxs ended. */
  datatype Stop = Exhausted | LowFee | NearlyFull

  /** The transaction with all its ancestors does not fit into what room is left, or may not be mined. */
  predicate LeftOut(pool: Pool, nBlockMaxWeight: int, fIncludeWitness: bool, t: Template, x: TxId)
    requires pool.Shape() && x in pool.entries
  {
    || t.nBlockWeight + WITNESS_SCALE_FACTOR * pool.cached[x].size >= nBlockMaxWeight
    || t.nBlockSigOpsCost + pool.cached[x].sigOpCost >= MAX_BLOCK_SIGOPS_COST
    || !AllAdmissible(pool, fIncludeWitness, pool.Package(x))
  }

  /** Every transaction is selected, still to be looked at in the index or the rest of the pool, or left out. */
  predicate Accounted(pool: Pool, nBlockMaxWeight: int, fIncludeWitness: bool, t: Template, m: ModMap, failed: set<TxId>,
                      rest: set<TxId>)
    requires pool.Shape()
  {
    && (forall x :: x in pool.entries && x in failed ==> x in t.inBlock || LeftOut(pool, nBlockMaxWeight, fIncludeWitness, t, x))
    && (forall x :: x in pool.entries ==>
          x in t.inBlock || x in m || x in rest || LeftOut(pool, nBlockMaxWeight, fIncludeWitness, t, x))
  }

  lemma SkipAccounted(pool: Pool, max: int, incl: bool, t: Template, m: ModMap, failed: set<TxId>, order: seq<TxId>, mi: nat)
    requires pool.Shape() && mi < |order| && Accounted(pool, max, incl, t, m, failed, SetOf(order[mi..]))
    requires order[mi] in m || order[mi] in t.inBlock || order[mi] in failed
    ensures Accounted(pool, max, incl, t, m, failed, SetOf(order[mi + 1..]))
  {
    SetOfCons(order, mi);
  }

  lemma StillAccounted(pool: Pool, max: int, incl: bool, t: Template, t': Template, m: ModMap, m': ModMap,
                       failed: set<TxId>, failed': set<TxId>, rest: set<TxId>, rest': set<TxId>, x: TxId)
    requires pool.Shape() && Accounted(pool, max, incl, t, m, failed, rest) && x in pool.entries
    requires t.inBlock <= t'.inBlock && t.nBlockWeight <= t'.nBlockWeight && t.nBlockSigOpsCost <= t'.nBlockSigOpsCost
    requires x in t'.inBlock || LeftOut(pool, max, incl, t', x)
    requires m.Keys - {x} - t'.inBlock <= m'.Keys && rest - {x} <= rest' && failed' <= failed + {x}
    ensures Accounted(pool, max, incl, t', m', failed', rest')
  {}

  /** Selecting more never frees room. */
  lemma WeightGrows(pool: Pool, max: int, incl: bool, t: Template, t': Template)
    requires pool.Valid() && TemplateOk(pool, max, incl, t) && TemplateOk(pool, max, incl, t') && t.inBlock <= t'.inBlock
    ensures t.nBlockWeight <= t'.nBlockWeight && t.nBlockSigOpsCost <= t'.nBlockSigOpsCost
  {
    var more := t'.inBlock - t.inBlock;
    assert t'.inBlock == t.inBlock + more;
    CostUnion(pool, t.inBlock, more);
    CostBounds(pool, more);
  }

  lemma SetOfCons(s: seq<TxId>, i: nat)
    requires i < |s|
    ensures SetOf(s[i..]) == {s[i]} + SetOf(s[i + 1..])
  {
    assert s[i..] == [s[i]] + s[i + 1..];
  }

  lemma UpdatedKeys(pool: Pool, before: ModMap, after: ModMap, added: set<TxId>)
    requires pool.Valid() && Updated(pool, before, after, added, added) && before.Keys <= pool.entries.Keys
    ensures before.Keys <= after.Keys
  {
    forall d | d in before.Keys ensures d in after.Keys {
      assert EntryUpdated(pool, before, after, d, Gone(pool, added, added, d));
    }
  }

  /** How one iteration of addPackageTxs ends. */
  datatype Outcome = FeeTooLow | DoesNotFit | NotAdmissible | Added

  lemma InitialModOk(pool: Pool, b: set<TxId>, m: ModMap)
    requires pool.Valid() && Closed(pool, b) && Updated(pool, map[], m, b, b)
    ensures ModOk(pool, b, m, {})
  {
    forall d | d in pool.entries
      ensures d in m ==> d !in b && TotalsOk(pool, b, {}, d, m[d])
      ensures Covered(pool, b, m, {}, d)
    {
      assert EntryUpdated(pool, map[], m, d, Gone(pool, b, b, d));
      if d !in b {
        assert pool.EntryOk(d) && pool.Package(d) == (pool.Package(d) - b) + pool.anc[d] * b;
        CostUnion(pool, pool.Package(d) - b, pool.anc[d] * b);
        CostBounds(pool, pool.anc[d] * b);
        if Unprioritised(pool) { PlainFees(pool, pool.anc[d] * b); }
      }
    }
  }

  /** The totals used to test a package bound what adding it costs. */
  lemma PackageTotals(pool: Pool, b: set<TxId>, m: ModMap, failed: set<TxId>, x: TxId)
    requires pool.Valid() && ModOk(pool, b, m, failed) && x in pool.entries && x !in b
    requires x in m || x !in failed
    ensures var t := pool.Cost(pool.Package(x) - b);
            var used := if x in m then (m[x].nSizeWithAncestors, m[x].nSigOpCostWithAncestors)
                        else (pool.cached[x].size, pool.cached[x].sigOpCost);
            0 <= t.weight <= 4 * t.size <= 4 * used.0 <= 4 * pool.cached[x].size
            && t.sigOpCost <= used.1 <= pool.cached[x].sigOpCost
  {
    CostBounds(pool, pool.Package(x) - b);
    assert pool.EntryOk(x) && Covered(pool, b, m, failed, x);
    if x in m {
      assert TotalsOk(pool, b, failed, x, m[x]);
    } else {
      assert pool.Package(x) - b == pool.Package(x);
    }
  }
}
