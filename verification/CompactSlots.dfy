/**
  The slots of a block being rebuilt from a compact announcement (src/blockencodings.cpp, BIP 152): where the
  prefilled transactions go, which slots stay free for short ids, and how missing transactions are merged in.
 */
module CompactSlots {
  import opened Prelude
  import opened IndexCoding

  /** MAX_BLOCK_WEIGHT / MIN_SERIALIZABLE_TRANSACTION_WEIGHT. */
  const MAX_TXS: nat := 800_000

  datatype Tx = Tx(content: nat, hash: nat, witnessHash: nat, isNull: bool)

  /** index is the distance from the prefilled transaction before, a 16-bit number. */
  datatype Prefilled = Prefilled(index: nat, tx: Tx)

  /** CBlockHeaderAndShortTxIDs; a missing header is the null one. */
  datatype Announcement = Announcement(header: Option<nat>, shorttxids: seq<nat>, prefilledtxn: seq<Prefilled>)

  type Slots = seq<Option<Tx>>

  function BlockTxCount(c: Announcement): (r: nat)
  {
    |c.shorttxids| + |c.prefilledtxn|
  }

  // ---------------------------------------------------------------- prefilled transactions

  /** lastprefilledindex after i + 1 rounds. */
  function Pos(p: seq<Prefilled>, i: nat): (pos: nat)
    requires i < |p|
    ensures pos >= i
  {
    if i == 0 then p[0].index else Pos(p, i - 1) + p[i].index + 1
  }

  /** What round i of the prefilling loop demands. */
  predicate PlaceOk(c: Announcement, i: nat)
    requires i < |c.prefilledtxn|
  {
    !c.prefilledtxn[i].tx.isNull && Pos(c.prefilledtxn, i) < LIMIT && Pos(c.prefilledtxn, i) <= |c.shorttxids| + i
  }

  predicate PlacesOk(c: Announcement, k: nat)
    requires k <= |c.prefilledtxn|
  {
    forall i :: 0 <= i < k ==> PlaceOk(c, i)
  }

  /** What InitData accepts. */
  predicate Accepts(c: Announcement)
  {
    c.header.Some? && 0 < BlockTxCount(c) <= MAX_TXS && PlacesOk(c, |c.prefilledtxn|)
  }

  function NoneYet(n: nat): (r: Slots) { seq(n, _ => None) }

  function Placed(c: Announcement, k: nat): (s: Slots)
    requires k <= |c.prefilledtxn| && PlacesOk(c, k)
    ensures |s| == BlockTxCount(c)
  {
    if k == 0 then NoneYet(BlockTxCount(c))
    else
      assert PlaceOk(c, k - 1);
      Placed(c, k - 1)[Pos(c.prefilledtxn, k - 1) := Some(c.prefilledtxn[k - 1].tx)]
  }

  lemma {:induction false} PosGrows(p: seq<Prefilled>, i: nat, j: nat)
    requires i < j < |p|
    ensures Pos(p, i) < Pos(p, j)
    decreases j
  {
    if i < j - 1 { PosGrows(p, i, j - 1); }
  }

  /** One of the first k prefilled transactions belongs at j. */
  predicate IsPlace(p: seq<Prefilled>, k: nat, j: nat)
    requires k <= |p|
  {
    k > 0 && (Pos(p, k - 1) == j || IsPlace(p, k - 1, j))
  }

  /** A slot is taken exactly if it is the place of one of the transactions, and then by that one. */
  lemma {:induction false} PlacedAt(c: Announcement, k: nat, j: nat)
    requires k <= |c.prefilledtxn| && PlacesOk(c, k) && j < BlockTxCount(c)
    ensures Placed(c, k)[j].Some? <==> IsPlace(c.prefilledtxn, k, j)
    ensures forall i :: 0 <= i < k && Pos(c.prefilledtxn, i) == j ==> Placed(c, k)[j] == Some(c.prefilledtxn[i].tx)
  {
    if k > 0 {
      PlacedAt(c, k - 1, j);
      var p := c.prefilledtxn;
      assert PlaceOk(c, k - 1);
      forall i | 0 <= i < k && Pos(p, i) == j ensures Placed(c, k)[j] == Some(p[i].tx) {
        if i < k - 1 { PosGrows(p, i, k - 1); }
      }
    }
  }

  /** An announcement is accepted exactly if it has a header, one to 800000 transactions, and every prefilled one,
      none of them null, has a place that 16 bits can name and that the short ids before it can reach; each
      distance is counted from the place after the one before. */
  lemma AcceptsExactly(c: Announcement) returns (place: seq<nat>)
    ensures |place| == |c.prefilledtxn|
    ensures forall i :: 0 <= i < |place| ==>
      place[i] == c.prefilledtxn[i].index + if i == 0 then 0 else place[i - 1] + 1
    ensures Accepts(c) <==>
      && c.header != None && 1 <= |c.shorttxids| + |c.prefilledtxn| <= 800_000
      && forall i :: 0 <= i < |place| ==> !c.prefilledtxn[i].tx.isNull && place[i] <= 65535 && place[i] <= |c.shorttxids| + i
    ensures Accepts(c) ==> forall i :: 0 <= i < |place| ==>
      place[i] < BlockTxCount(c) && Placed(c, |place|)[place[i]] == Some(c.prefilledtxn[i].tx)
  {
    var p := c.prefilledtxn;
    place := seq(|p|, i requires 0 <= i < |p| => Pos(p, i));
    forall i | 0 <= i < |p|
      ensures PlaceOk(c, i) <==> !p[i].tx.isNull && place[i] <= 65535 && place[i] <= |c.shorttxids| + i
    {
    }
    if Accepts(c) {
      forall i | 0 <= i < |p| ensures place[i] < BlockTxCount(c) && Placed(c, |p|)[place[i]] == Some(p[i].tx) {
        assert PlaceOk(c, i);
        PlacedAt(c, |p|, place[i]);
      }
    }
  }

  lemma {:induction false} PlaceBelow(p: seq<Prefilled>, k: nat, j: nat)
    requires k < |p| && IsPlace(p, k, j)
    ensures j < Pos(p, k)
  {
    PosGrows(p, k - 1, k);
    if Pos(p, k - 1) != j { PlaceBelow(p, k - 1, j); }
  }

  // ---------------------------------------------------------------- free slots

  /** The free slots in order. */
  function Free(s: Slots): (f: seq<nat>)
    ensures |f| <= |s| && forall i :: 0 <= i < |f| ==> f[i] < |s| && s[f[i]].None?
  {
    if s == [] then []
    else
      var n := |s| - 1;
      Free(s[..n]) + if s[n].None? then [n] else []
  }

  lemma {:induction false} FreeSorted(s: Slots, i: nat, j: nat)
    requires i < j < |Free(s)|
    ensures Free(s)[i] < Free(s)[j]
    decreases |s|
  {
    var n := |s| - 1;
    if j < |Free(s[..n])| { FreeSorted(s[..n], i, j); }
  }

  lemma {:induction false} FreePrefix(s: Slots, n: nat)
    requires n <= |s|
    ensures |Free(s[..n])| <= |Free(s)|
    decreases |s|
  {
    if n == |s| {
      assert s[..n] == s;
    } else {
      FreePrefix(s[..|s| - 1], n);
      assert s[..|s| - 1][..n] == s[..n];
    }
  }

  lemma {:induction false} FreeComplete(s: Slots, x: nat) returns (i: nat)
    requires x < |s| && s[x].None?
    ensures i < |Free(s)| && Free(s)[i] == x
    decreases |s|
  {
    var n := |s| - 1;
    if x == n { i := |Free(s)| - 1; } else { i := FreeComplete(s[..n], x); }
  }

  lemma {:induction false} FreeTaken(s: Slots, x: nat, tx: Tx)
    requires x < |s| && s[x].None?
    ensures |Free(s[x := Some(tx)])| == |Free(s)| - 1
    decreases |s|
  {
    var n := |s| - 1;
    if x == n {
      assert s[x := Some(tx)][..n] == s[..n];
    } else {
      FreeTaken(s[..n], x, tx);
      assert s[x := Some(tx)][..n] == s[..n][x := Some(tx)];
    }
  }

  lemma {:induction false} AllFree(n: nat)
    ensures |Free(NoneYet(n))| == n
  {
    if n > 0 {
      AllFree(n - 1);
      assert NoneYet(n)[..n - 1] == NoneYet(n - 1);
    }
  }

  lemma NextPlaceFree(c: Announcement, k: nat)
    requires k < |c.prefilledtxn| && PlacesOk(c, k + 1)
    ensures Pos(c.prefilledtxn, k) < BlockTxCount(c) && Placed(c, k)[Pos(c.prefilledtxn, k)].None?
  {
    assert PlaceOk(c, k);
    PlacedAt(c, k, Pos(c.prefilledtxn, k));
    if IsPlace(c.prefilledtxn, k, Pos(c.prefilledtxn, k)) { PlaceBelow(c.prefilledtxn, k, Pos(c.prefilledtxn, k)); }
  }

  /** Prefilling leaves exactly as many free slots as there are short ids. */
  lemma {:induction false} PlacedFree(c: Announcement, k: nat)
    requires k <= |c.prefilledtxn| && PlacesOk(c, k)
    ensures |Free(Placed(c, k))| == BlockTxCount(c) - k
  {
    if k == 0 {
      AllFree(BlockTxCount(c));
    } else {
      PlacedFree(c, k - 1);
      NextPlaceFree(c, k - 1);
      FreeTaken(Placed(c, k - 1), Pos(c.prefilledtxn, k - 1), c.prefilledtxn[k - 1].tx);
    }
  }

  /** The distance of a free slot from its rank is at most the number of taken slots. */
  lemma {:induction false} OffsetBound(s: Slots, i: nat)
    requires i < |Free(s)|
    ensures i <= Free(s)[i] <= i + |s| - |Free(s)|
    decreases |s|
  {
    var n := |s| - 1;
    if i < |Free(s[..n])| {
      OffsetBound(s[..n], i);
    }
  }

  /** The 16-bit offset of the slot search suffices exactly unless the announcement prefills 65536 places and
      still has short ids; then the first free slot is 65536 places away and the search cannot reach it. */
  lemma SearchFits(c: Announcement)
    requires Accepts(c)
    ensures var free := Free(Placed(c, |c.prefilledtxn|));
      (forall i :: 0 <= i < |free| ==> free[i] - i < LIMIT) <==> |c.prefilledtxn| < LIMIT || c.shorttxids == []
  {
    var p := c.prefilledtxn;
    var s := Placed(c, |p|);
    PlacedFree(c, |p|);
    if |p| < LIMIT {
      forall i | 0 <= i < |Free(s)| ensures Free(s)[i] - i < LIMIT { OffsetBound(s, i); }
    } else if c.shorttxids != [] {
      var x := Free(s)[0];
      if x < LIMIT {
        PosIsIndex(c, x);
        PlacedAt(c, |p|, x);
      }
    }
  }

  /** 65536 prefilled transactions fill the first 65536 places. */
  lemma {:induction false} PosIsIndex(c: Announcement, i: nat)
    requires Accepts(c) && |c.prefilledtxn| >= LIMIT && i < LIMIT
    ensures Pos(c.prefilledtxn, i) == i
    decreases LIMIT - i
  {
    assert PlaceOk(c, i);
    if i + 1 < LIMIT {
      PosIsIndex(c, i + 1);
      PosGrows(c.prefilledtxn, i, i + 1);
    }
  }

  /** Every slot a 16-bit offset can reach from the first one is taken. */
  predicate Blocked(s: Slots)
  {
    |s| >= LIMIT && forall j :: 0 <= j < LIMIT ==> s[j].Some?
  }

  lemma NotBlocked(s: Slots)
    requires |Free(s)| > 0 && |s| - |Free(s)| < LIMIT
    ensures !Blocked(s)
  {
    OffsetBound(s, 0);
  }

  /** For an accepted announcement the search either meets every free slot or is blocked at once, which happens
      exactly for 65536 prefilled places. */
  lemma SearchCases(c: Announcement)
    requires Accepts(c)
    ensures Blocked(Placed(c, |c.prefilledtxn|)) <==> |c.prefilledtxn| >= LIMIT
  {
    var p := c.prefilledtxn;
    var s := Placed(c, |p|);
    PlacedFree(c, |p|);
    if |p| >= LIMIT {
      forall j | 0 <= j < LIMIT ensures s[j].Some? {
        PosIsIndex(c, j);
        PlacedAt(c, |p|, j);
      }
    } else if c.shorttxids != [] {
      NotBlocked(s);
    }
  }

  /** An accepted announcement of 65536 transactions at distance 0 and one short id. Whatever value the offset
      takes, the slot it points to is taken. */
  lemma EndlessSearch(header: nat, id: nat, tx: Tx)
    requires !tx.isNull
    ensures var c := Announcement(Some(header), [id], seq(LIMIT, _ => Prefilled(0, tx)));
      Accepts(c) && forall steps: nat :: Placed(c, LIMIT)[steps % LIMIT].Some?
  {
    var c := Announcement(Some(header), [id], seq(LIMIT, _ => Prefilled(0, tx)));
    forall i | 0 <= i < LIMIT ensures PlaceOk(c, i) { ZeroPos(c.prefilledtxn, i); }
    SearchCases(c);
  }

  lemma {:induction false} ZeroPos(p: seq<Prefilled>, i: nat)
    requires i < |p| && forall j :: 0 <= j < |p| ==> p[j].index == 0
    ensures Pos(p, i) == i
  {
    if i > 0 { ZeroPos(p, i - 1); }
  }

  /** Where the search for the i-th free slot starts. */
  lemma SearchStart(s: Slots, i: nat, offset: nat)
    requires i < |Free(s)| && |s| - |Free(s)| < LIMIT
    requires if i == 0 then offset == 0 else i - 1 + offset == Free(s)[i - 1]
    ensures i + offset <= Free(s)[i] < i + LIMIT && (i > 0 ==> Free(s)[i - 1] < i + offset)
  {
    if i > 0 { FreeSorted(s, i - 1, i); }
    OffsetBound(s, i);
  }

  /** The search stops at a free slot between the one before and the one it is looking for. */
  lemma NextFree(s: Slots, i: nat, o: nat)
    requires i < |Free(s)| && i + o <= Free(s)[i] && s[i + o].None? && (i > 0 ==> Free(s)[i - 1] < i + o)
    ensures i + o == Free(s)[i]
  {
    var k := FreeComplete(s, i + o);
    if k < i { if k < i - 1 { FreeSorted(s, k, i - 1); } }
    if k > i { FreeSorted(s, i, k); }
  }

  // ---------------------------------------------------------------- merging

  /** The block with the missing transactions filled into the free slots in order. */
  function Merge(s: Slots, missing: seq<Tx>): (vtx: seq<Tx>)
    requires |missing| == |Free(s)|
    ensures |vtx| == |s|
  {
    if s == [] then []
    else
      var n := |s| - 1;
      if s[n].Some? then Merge(s[..n], missing) + [s[n].value]
      else Merge(s[..n], missing[..|missing| - 1]) + [missing[|missing| - 1]]
  }

  /** Merging one slot more. */
  lemma MergeStep(s: Slots, i: nat, missing: seq<Tx>, k: nat)
    requires i < |s| && k == |Free(s[..i])| <= |missing| && (s[i].None? ==> k < |missing|)
    ensures |Free(s[..i + 1])| == if s[i].None? then k + 1 else k
    ensures Merge(s[..i + 1], missing[..if s[i].None? then k + 1 else k])
         == Merge(s[..i], missing[..k]) + [if s[i].None? then missing[k] else s[i].value]
  {
    assert s[..i + 1][..i] == s[..i];
    if s[i].None? { assert missing[..k + 1][..k] == missing[..k]; }
  }

  /** Every available transaction is the block's own. */
  predicate Agrees(s: Slots, vtx: seq<Tx>)
  {
    |s| == |vtx| && forall i :: 0 <= i < |s| && s[i].Some? ==> s[i].value == vtx[i]
  }

  /** The block's transactions at the free slots. */
  function MissingOf(s: Slots, vtx: seq<Tx>): (missing: seq<Tx>)
    requires |s| == |vtx|
    ensures |missing| == |Free(s)|
  {
    seq(|Free(s)|, i requires 0 <= i < |Free(s)| => vtx[Free(s)[i]])
  }

  lemma MissingLast(s: Slots, vtx: seq<Tx>, n: nat)
    requires Agrees(s, vtx) && |s| == n + 1
    ensures Agrees(s[..n], vtx[..n])
    ensures MissingOf(s, vtx) == MissingOf(s[..n], vtx[..n]) + if s[n].None? then [vtx[n]] else []
  {
    var (missing, before) := (MissingOf(s, vtx), MissingOf(s[..n], vtx[..n]));
    forall i | 0 <= i < |before| ensures missing[i] == before[i] { assert Free(s)[i] == Free(s[..n])[i]; }
  }

  /** Filling in what is missing rebuilds the block. */
  lemma {:induction false} MergeRestores(s: Slots, vtx: seq<Tx>)
    requires Agrees(s, vtx)
    ensures Merge(s, MissingOf(s, vtx)) == vtx
    decreases |s|
  {
    if s != [] {
      var n := |s| - 1;
      MergeRestores(s[..n], vtx[..n]);
      MissingLast(s, vtx, n);
      var (missing, before) := (MissingOf(s, vtx), MissingOf(s[..n], vtx[..n]));
      if s[n].Some? {
        assert missing == before;
        assert Merge(s, missing) == Merge(s[..n], before) + [vtx[n]];
      } else {
        assert missing[..|missing| - 1] == before && missing[|missing| - 1] == vtx[n];
        assert Merge(s, missing) == Merge(s[..n], before) + [vtx[n]];
      }
      assert vtx == vtx[..n] + [vtx[n]];
    } else {
      assert vtx == [];
    }
  }
}
