/**
  The block index and the active chain (src/chain.h, src/chain.cpp): skip pointers, ancestors, switching the
  tip, forks and locators, each against plain walking along pprev.
 */
module Chain {
  import opened Prelude
  import opened Powers
  import opened SkipList

  // ---------------------------------------------------------------- the block index

  class CBlockIndex {
    const pprev: CBlockIndex?
    const nHeight: nat
    var pskip: CBlockIndex?
    /** The entry and its ancestors. */
    ghost const Repr: set<CBlockIndex>

    /** Heights count the predecessors. */
    ghost predicate Linked()
      decreases nHeight
    {
      this in Repr &&
      if pprev == null then nHeight == 0 else nHeight == pprev.nHeight + 1 && pprev.Linked() && pprev.Repr <= Repr
    }

    /** Plain walking along pprev down to a height. */
    ghost function Anc(height: nat): (r: CBlockIndex)
      requires Linked() && height <= nHeight
      ensures r.nHeight == height && r.Linked() && r in Repr
      decreases nHeight
    {
      if nHeight == height then this else pprev.Anc(height)
    }

    /** The skip pointer of the ancestor at a height is missing or leads where BuildSkip sets it. */
    ghost predicate SkipOk(k: nat)
      requires Linked() && k <= nHeight
      reads Repr
    {
      Anc(k).pskip == null || Anc(k).pskip == Anc(GetSkipHeight(k))
    }

    ghost predicate SkipsOk()
      requires Linked()
      reads Repr
    {
      forall k {:trigger SkipOk(k)} :: 0 <= k <= nHeight ==> SkipOk(k)
    }

    /** Every skip pointer has been set. */
    ghost predicate Built()
      requires Linked()
      reads Repr
    {
      forall k {:trigger Anc(k)} :: 0 < k <= nHeight ==> Anc(k).pskip != null
    }

    constructor (pprev: CBlockIndex?)
      requires pprev == null || pprev.Linked()
      ensures this.pprev == pprev && Linked() && pskip == null
    {
      this.pprev := pprev;
      nHeight := if pprev == null then 0 else pprev.nHeight + 1;
      pskip := null;
      Repr := {this} + if pprev == null then {} else pprev.Repr;
    }

    /** Following skip pointers finds what walking finds, in finitely many steps; the assert holds. When all skip
        pointers are set, at most 110 of them lead back up to 2^18 blocks. */
    method GetAncestor(height: int) returns (r: CBlockIndex?, ghost steps: nat)
      requires Linked() && SkipsOk()
      ensures r == if 0 <= height <= nHeight then Anc(height) else null
      ensures Built() && 0 <= height <= nHeight ==> steps == Steps(nHeight, height)
      ensures Built() && nHeight - height <= 0x4_0000 ==> steps <= 110
    {
      hide InvertLowestOne, GetSkipHeight, Steps;
      steps := 0;
      if height > nHeight || height < 0 {
        return null, 0;
      }
      var pindexWalk: CBlockIndex := this;
      var heightWalk: nat := nHeight;
      while heightWalk > height
        invariant height <= heightWalk <= nHeight && pindexWalk == Anc(heightWalk) && SkipsOk()
        invariant Built() ==> steps + Steps(heightWalk, height) == Steps(nHeight, height)
      {
        steps := steps + 1;
        var heightSkip := GetSkipHeight(heightWalk);
        var heightSkipPrev := GetSkipHeight(heightWalk - 1);
        OneStep(heightWalk, height, heightSkip);
        assert SkipOk(heightWalk);
        if pindexWalk.pskip != null
           && (heightSkip == height
               || (heightSkip > height && !(heightSkipPrev < heightSkip - 2 && heightSkipPrev >= height))) {
          pindexWalk := pindexWalk.pskip;
          heightWalk := heightSkip;
        } else {
          AncStep(this, heightWalk);
          assert pindexWalk.pprev != null;
          pindexWalk := pindexWalk.pprev;
          heightWalk := heightWalk - 1;
        }
      }
      r := pindexWalk;
      NoSteps(height);
      if nHeight - height <= 0x4_0000 { DocumentedSteps(nHeight, height); }
    }

    /** Sets the skip pointer; the entries above and below keep theirs in order. */
    method BuildSkip()
      requires Linked() && (pprev != null ==> pprev.SkipsOk())
      modifies this`pskip
      ensures pprev == null ==> pskip == old(pskip)
      ensures pprev != null ==> pskip == Anc(GetSkipHeight(nHeight)) && SkipsOk()
      ensures pprev != null && old(pprev.Built()) ==> Built()
    {
      hide InvertLowestOne;
      if pprev != null {
        var r, _ := pprev.GetAncestor(GetSkipHeight(nHeight));
        pskip := r;
        forall k | 0 <= k <= nHeight ensures SkipOk(k) {
          if k < nHeight {
            assert old(pprev.SkipOk(k));
            assert Anc(k) == pprev.Anc(k) && Anc(GetSkipHeight(k)) == pprev.Anc(GetSkipHeight(k));
          }
        }
        forall k | 0 < k <= nHeight && old(pprev.Built()) ensures Anc(k).pskip != null {
          if k < nHeight {
            assert Anc(k) == pprev.Anc(k) && old(pprev.Anc(k).pskip) != null;
          }
        }
      }
    }

    /** The same, seen from an entry whose skip pointers were in order before. */
    method BuildSkipBelow(b: CBlockIndex)
      requires Linked() && (pprev != null ==> pprev.SkipsOk()) && b.Linked() && b.SkipsOk()
      modifies this`pskip
      ensures b.SkipsOk()
    {
      ghost var was := pskip;
      BuildSkip();
      forall k | 0 <= k <= b.nHeight ensures b.SkipOk(k) {
        assert old(b.SkipOk(k));
        if b.Anc(k) == this { AncOfAnc(b, k, GetSkipHeight(k)); }
      }
    }
  }

  lemma {:induction false} AncStep(b: CBlockIndex, h: nat)
    requires b.Linked() && 0 < h <= b.nHeight
    ensures b.Anc(h).pprev == b.Anc(h - 1)
    decreases b.nHeight
  {
    if h < b.nHeight { AncStep(b.pprev, h); }
  }

  lemma {:induction false} AncOfAnc(b: CBlockIndex, h: nat, k: nat)
    requires b.Linked() && k <= h <= b.nHeight
    ensures b.Anc(h).Anc(k) == b.Anc(k)
    decreases b.nHeight
  {
    if h < b.nHeight { AncOfAnc(b.pprev, h, k); }
  }

  // ---------------------------------------------------------------- the active chain

  /** All ancestors of a block by height. */
  ghost function Path(b: CBlockIndex): (p: seq<CBlockIndex?>)
    requires b.Linked()
    ensures |p| == b.nHeight + 1 && forall k :: 0 <= k < |p| ==> p[k] == b.Anc(k)
  {
    seq(b.nHeight + 1, k requires 0 <= k <= b.nHeight => b.Anc(k))
  }

  /** Common ancestors form a prefix. */
  lemma SharedBelow(a: CBlockIndex, b: CBlockIndex, h: nat, k: nat)
    requires a.Linked() && b.Linked() && k <= h <= a.nHeight && h <= b.nHeight && a.Anc(h) == b.Anc(h)
    ensures a.Anc(k) == b.Anc(k)
  {
    AncOfAnc(a, h, k);
    AncOfAnc(b, h, k);
  }

  /** Where a valid chain and a branch meet, they agree below. */
  lemma RestAgrees(was: seq<CBlockIndex?>, oldTip: CBlockIndex, tip: CBlockIndex, h: nat)
    requires oldTip.Linked() && tip.Linked() && was == Path(oldTip) && h < |was| && h <= tip.nHeight && was[h] == tip.Anc(h)
    ensures forall k :: 0 <= k <= h ==> was[k] == tip.Anc(k)
  {
    forall k | 0 <= k <= h ensures was[k] == tip.Anc(k) { SharedBelow(oldTip, tip, h, k); }
  }

  lemma OnChain(chain: seq<CBlockIndex?>, tip: CBlockIndex, pindex: CBlockIndex, h: nat)
    requires tip.Linked() && pindex.Linked() && chain == Path(tip)
    requires h <= pindex.nHeight < |chain| && chain[pindex.nHeight] == pindex
    ensures chain[h] == pindex.Anc(h)
  {
    AncOfAnc(tip, pindex.nHeight, h);
  }

  lemma SkipsBelow(b: CBlockIndex, h: nat)
    requires b.Linked() && b.SkipsOk() && h <= b.nHeight
    ensures b.Anc(h).SkipsOk()
  {
    var a := b.Anc(h);
    forall k | 0 <= k <= h ensures a.SkipOk(k) {
      assert b.SkipOk(k);
      AncOfAnc(b, h, k);
      AncOfAnc(b, h, GetSkipHeight(k));
    }
  }

  // ---------------------------------------------------------------- locators

  /** How far below its start the i-th block of a locator lies: ten single steps, then doubling ones. */
  function Depth(i: nat): (d: nat)
  {
    if i <= 10 then i else 9 + Pow(2, i - 10)
  }

  function StepAfter(n: nat): (s: nat) { if n <= 10 then 1 else Pow(2, n - 10) }

  lemma NoDepth()
    ensures Depth(0) == 0 && StepAfter(0) == 1
  {}

  lemma NextDepth(n: nat)
    ensures Depth(n + 1) == Depth(n) + StepAfter(n)
    ensures StepAfter(n + 1) == if n + 1 > 10 then StepAfter(n) * 2 else StepAfter(n)
    ensures StepAfter(n) > 0
  {
    assert Pow(2, 0) == 1;
    if n >= 10 { assert Pow(2, n + 1 - 10) == 2 * Pow(2, n - 10); }
  }

  lemma {:induction false} DepthIncreases(i: nat, j: nat)
    requires i < j
    ensures Depth(i) < Depth(j)
    decreases j
  {
    NextDepth(j - 1);
    if i < j - 1 { DepthIncreases(i, j - 1); }
  }

  ghost predicate IsLocator(start: CBlockIndex, vHave: seq<CBlockIndex>)
    requires start.Linked()
  {
    && |vHave| > 0 && vHave[0] == start && vHave[|vHave| - 1] == start.Anc(0)
    && (forall i :: 0 <= i < |vHave| ==> vHave[i] == start.Anc(Max(0, start.nHeight - Depth(i))))
    && (forall i, j :: 0 <= i < j < |vHave| ==> vHave[i].nHeight > vHave[j].nHeight)
    && (forall i :: 0 < i < |vHave| ==>
          vHave[i].nHeight == Max(0, vHave[i - 1].nHeight - if i <= 11 then 1 else Pow(2, i - 11)))
    && (|vHave| >= 12 ==> Pow(2, |vHave| - 12) + 9 < start.nHeight)
  }

  lemma LocatorDone(start: CBlockIndex, vHave: seq<CBlockIndex>)
    requires start.Linked() && |vHave| > 0 && vHave[|vHave| - 1].nHeight == 0
    requires forall i :: 0 <= i < |vHave| ==> vHave[i] == start.Anc(Max(0, start.nHeight - Depth(i)))
    requires |vHave| > 1 ==> start.nHeight > Depth(|vHave| - 2)
    ensures IsLocator(start, vHave)
  {
    assert vHave[0] == start.Anc(start.nHeight);
    HeightsDescend(start, vHave);
    Gaps(start, vHave);
    assert Pow(2, 0) == 1;
  }

  /** One at a time for the first eleven steps, and twice as far each time from then on. */
  lemma Gaps(start: CBlockIndex, vHave: seq<CBlockIndex>)
    requires start.Linked() && forall i :: 0 <= i < |vHave| ==> vHave[i] == start.Anc(Max(0, start.nHeight - Depth(i)))
    ensures forall i :: 0 < i < |vHave| ==>
      vHave[i].nHeight == Max(0, vHave[i - 1].nHeight - if i <= 11 then 1 else Pow(2, i - 11))
  {
    hide Depth, StepAfter, Pow;
    forall i | 0 < i < |vHave|
      ensures vHave[i].nHeight == Max(0, vHave[i - 1].nHeight - if i <= 11 then 1 else Pow(2, i - 11))
    {
      NextDepth(i - 1);
      StepIs(i);
      assert vHave[i - 1].nHeight == Max(0, start.nHeight - Depth(i - 1));
    }
  }

  lemma StepIs(i: nat)
    requires i > 0
    ensures StepAfter(i - 1) == if i <= 11 then 1 else Pow(2, i - 11)
  {}

  lemma HeightsDescend(start: CBlockIndex, vHave: seq<CBlockIndex>)
    requires start.Linked() && |vHave| > 0 && (|vHave| > 1 ==> start.nHeight > Depth(|vHave| - 2))
    requires forall i :: 0 <= i < |vHave| ==> vHave[i] == start.Anc(Max(0, start.nHeight - Depth(i)))
    ensures forall i, j :: 0 <= i < j < |vHave| ==> vHave[i].nHeight > vHave[j].nHeight
  {
    hide Depth, Pow;
    forall i, j | 0 <= i < j < |vHave| ensures vHave[i].nHeight > vHave[j].nHeight {
      Descends(start.nHeight, |vHave|, i, j);
    }
  }

  lemma Descends(h: nat, n: nat, i: nat, j: nat)
    requires i < j < n && h > Depth(n - 2)
    ensures Max(0, h - Depth(i)) > Max(0, h - Depth(j))
  {
    DepthIncreases(i, j);
    if i < n - 2 { DepthIncreases(i, n - 2); }
  }

  class CChain {
    var vChain: seq<CBlockIndex?>

    /** The entries are exactly the ancestors of the last one. */
    ghost predicate Valid()
      reads this
    {
      vChain == [] || (var tip := vChain[|vChain| - 1]; tip != null && tip.Linked() && vChain == Path(tip))
    }

    constructor ()
      ensures Valid() && vChain == []
    {
      vChain := [];
    }

    function Tip(): (r: CBlockIndex?)
      reads this
    {
      if |vChain| > 0 then vChain[|vChain| - 1] else null
    }

    function At(nHeight: int): (r: CBlockIndex?)
      reads this
    {
      if nHeight < 0 || nHeight >= |vChain| then null else vChain[nHeight]
    }

    predicate Contains(pindex: CBlockIndex)
      reads this
    {
      At(pindex.nHeight) == pindex
    }

    function Height(): (r: int)
      reads this
    {
      |vChain| - 1
    }

    /** Stopping at the first entry that is already right leaves exactly the ancestors of the new tip. */
    method SetTip(pindex: CBlockIndex?)
      requires Valid() && (pindex != null ==> pindex.Linked())
      modifies this
      ensures Valid() && vChain == if pindex == null then [] else Path(pindex)
    {
      if pindex == null {
        vChain := [];
        return;
      }
      ghost var was, tip := vChain, pindex;
      vChain := Resize(vChain, pindex.nHeight + 1);
      var p: CBlockIndex? := pindex;
      while p != null && vChain[p.nHeight] != p
        invariant |vChain| == tip.nHeight + 1
        invariant p != null ==> p.Linked() && p.nHeight <= tip.nHeight && tip.Anc(p.nHeight) == p
        invariant forall k :: 0 <= k <= tip.nHeight && (p == null || k > p.nHeight) ==> vChain[k] == tip.Anc(k)
        invariant p != null ==> forall k :: 0 <= k <= p.nHeight ==> vChain[k] == if k < |was| then was[k] else null
        decreases if p == null then 0 else p.nHeight + 1
      {
        vChain := vChain[p.nHeight := p];
        if p.nHeight > 0 { AncStep(tip, p.nHeight); }
        p := p.pprev;
      }
      if p != null {
        RestAgrees(was, was[|was| - 1], tip, p.nHeight);
      }
      assert vChain == Path(tip);
    }

    /** The last block of this chain that is an ancestor of pindex, if any. */
    method FindFork(pindex: CBlockIndex?) returns (r: CBlockIndex?)
      requires Valid() && (pindex != null ==> pindex.Linked() && pindex.SkipsOk())
      ensures pindex == null ==> r == null
      ensures pindex != null && r != null ==>
        r.nHeight <= pindex.nHeight && Contains(r) && pindex.Anc(r.nHeight) == r
      ensures pindex != null ==>
        forall k :: (if r == null then 0 else r.nHeight + 1) <= k <= pindex.nHeight && k < |vChain| ==> vChain[k] != pindex.Anc(k)
    {
      r := pindex;
      if pindex == null {
        return;
      }
      if r.nHeight > Height() {
        var found, _ := r.GetAncestor(Height());
        r := found;
      }
      while r != null && !Contains(r)
        invariant r != null ==> r.Linked() && r.nHeight <= pindex.nHeight && r.nHeight < |vChain| && pindex.Anc(r.nHeight) == r
        invariant forall k :: (if r == null then 0 else r.nHeight + 1) <= k <= pindex.nHeight && k < |vChain| ==>
          vChain[k] != pindex.Anc(k)
        decreases if r == null then 0 else r.nHeight + 1
      {
        if r.nHeight > 0 { AncStep(pindex, r.nHeight); }
        r := r.pprev;
      }
    }

    /** The blocks of a locator: a strictly descending list of ancestors at fixed depths from the block itself
        down to the genesis block, of logarithmic length. */
    method GetLocator(pindex0: CBlockIndex?) returns (vHave: seq<CBlockIndex>)
      requires Valid() && (pindex0 != null ==> pindex0.Linked() && pindex0.SkipsOk())
      requires Tip() != null ==> Tip().Linked() && Tip().SkipsOk()
      ensures var start := if pindex0 == null then Tip() else pindex0;
        if start == null then vHave == [] else start.Linked() && IsLocator(start, vHave)
    {
      if pindex0 != null {
        vHave := LocatorFrom(pindex0);
      } else if Tip() != null {
        vHave := LocatorFrom(Tip());
      } else {
        vHave := [];
      }
    }

    /** From a block on the chain the chain's own index is used, otherwise the skip list. */
    method StepBack(pindex: CBlockIndex, nHeight: nat) returns (r: CBlockIndex)
      requires Valid() && pindex.Linked() && pindex.SkipsOk() && nHeight <= pindex.nHeight
      ensures r == pindex.Anc(nHeight)
    {
      if Contains(pindex) {
        OnChain(vChain, vChain[|vChain| - 1], pindex, nHeight);
        r := At(nHeight);
      } else {
        var found, _ := pindex.GetAncestor(nHeight);
        r := found;
      }
    }

    /** The loop of GetLocator. */
    method LocatorFrom(start: CBlockIndex) returns (vHave: seq<CBlockIndex>)
      requires Valid() && start.Linked() && start.SkipsOk()
      ensures IsLocator(start, vHave)
    {
      hide Depth, StepAfter, Pow;
      NoDepth();
      var nStep := 1;
      var pindex: CBlockIndex := start;
      vHave := [];
      while true
        invariant pindex == start.Anc(Max(0, start.nHeight - Depth(|vHave|)))
        invariant |vHave| > 0 ==> start.nHeight > Depth(|vHave| - 1)
        invariant forall i :: 0 <= i < |vHave| ==> vHave[i] == start.Anc(Max(0, start.nHeight - Depth(i)))
        invariant nStep == StepAfter(|vHave|) && start.SkipsOk()
        decreases pindex.nHeight
      {
        NextDepth(|vHave|);
        vHave := vHave + [pindex];
        if pindex.nHeight == 0 {
          break;
        }
        var nHeight := Max(pindex.nHeight - nStep, 0);
        AncOfAnc(start, pindex.nHeight, nHeight);
        SkipsBelow(start, pindex.nHeight);
        pindex := StepBack(pindex, nHeight);
        if |vHave| > 10 {
          nStep := nStep * 2;
        }
      }
      LocatorDone(start, vHave);
    }
  }

  /** The highest block two branches share, null when they share none. The assert that both walks end at the
      same place holds. */
  method LastCommonAncestor(a: CBlockIndex, b: CBlockIndex) returns (r: CBlockIndex?)
    requires a.Linked() && b.Linked() && a.SkipsOk() && b.SkipsOk()
    ensures r != null ==> r.nHeight <= a.nHeight && r.nHeight <= b.nHeight && a.Anc(r.nHeight) == r == b.Anc(r.nHeight)
    ensures forall k :: (if r == null then 0 else r.nHeight + 1) <= k <= a.nHeight && k <= b.nHeight ==> a.Anc(k) != b.Anc(k)
  {
    var pa: CBlockIndex?, pb: CBlockIndex? := a, b;
    if a.nHeight > b.nHeight {
      var found, _ := a.GetAncestor(b.nHeight);
      pa := found;
    } else if b.nHeight > a.nHeight {
      var found, _ := b.GetAncestor(a.nHeight);
      pb := found;
    }
    while pa != pb && pa != null && pb != null
      invariant (pa == null) == (pb == null)
      invariant pa != null ==> pa.nHeight == pb.nHeight && pa.nHeight <= a.nHeight && pa.nHeight <= b.nHeight
      invariant pa != null ==> a.Anc(pa.nHeight) == pa && b.Anc(pb.nHeight) == pb
      invariant forall k :: (if pa == null then 0 else pa.nHeight + 1) <= k <= a.nHeight && k <= b.nHeight ==> a.Anc(k) != b.Anc(k)
      decreases if pa == null then 0 else pa.nHeight + 1
    {
      if pa.nHeight > 0 {
        AncStep(a, pa.nHeight);
        AncStep(b, pb.nHeight);
      }
      pa, pb := pa.pprev, pb.pprev;
    }
    assert pa == pb;
    r := pa;
  }

  function Resize(s: seq<CBlockIndex?>, n: nat): (r: seq<CBlockIndex?>)
    ensures |r| == n && forall k :: 0 <= k < n ==> r[k] == if k < |s| then s[k] else null
  {
    seq(n, k requires 0 <= k < n => if k < |s| then s[k] else null)
  }
}
