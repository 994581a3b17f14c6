/**
  Partial Merkle trees (src/merkleblock.cpp and src/merkleblock.h): the depth-first encoding of a block's
  Merkle tree restricted to some transactions, and its decoder. The pair hash is a parameter.
 */
module MerkleBlock {
  import opened Prelude
  import opened Powers

  type Pair = (Hash, Hash) -> Hash

  const MAX_BLOCK_WEIGHT := 32000000
  const MIN_TRANSACTION_WEIGHT := 240

  // ---------------------------------------------------------------- the shape of the tree

  /** The number of nodes at a height over n leaves, level by level. */
  function Width(n: nat, height: nat): (w: nat)
    decreases height
  {
    if height == 0 then n else (Width(n, height - 1) + 1) / 2
  }

  /** The first leaf below a node, level by level. */
  function First(height: nat, pos: nat): (p: nat)
    decreases height
  {
    if height == 0 then pos else First(height - 1, 2 * pos)
  }

  /** The end of the leaves below a node. */
  function End(n: nat, height: nat, pos: nat): (p: nat)
  {
    if First(height, pos + 1) < n then First(height, pos + 1) else n
  }

  /** A position exists exactly when its first leaf does. */
  lemma {:induction false} InTree(n: nat, height: nat, pos: nat)
    ensures pos < Width(n, height) <==> First(height, pos) < n
    decreases height
  {
    if height > 0 { InTree(n, height - 1, 2 * pos); }
  }

  lemma {:induction false} FirstIncreases(height: nat, p: nat, q: nat)
    requires p < q
    ensures First(height, p) < First(height, q)
    decreases height
  {
    if height > 0 { FirstIncreases(height - 1, 2 * p, 2 * q); }
  }

  /** The shift `pos << height`. */
  lemma {:induction false} FirstFormula(height: nat, pos: nat)
    ensures First(height, pos) == pos * Pow(2, height)
    decreases height
  {
    if height > 0 {
      FirstFormula(height - 1, 2 * pos);
      MulAssoc(pos, 2, Pow(2, height - 1));
    }
  }

  /** CalcTreeWidth's rounding shift is the number of nodes. */
  lemma WidthFormula(n: nat, height: nat)
    ensures Width(n, height) == (n + Pow(2, height) - 1) / Pow(2, height)
  {
    var w, p := Width(n, height), Pow(2, height);
    InTree(n, height, w);
    FirstFormula(height, w);
    if w > 0 {
      InTree(n, height, w - 1);
      FirstFormula(height, w - 1);
      assert (w - 1) * p == w * p - p;
    }
    DivUnique(n + p - 1, p, w, n + p - 1 - w * p);
  }

  /** The leaves of a node are those of its children, the right one being absent at the edge. */
  lemma Children(n: nat, height: nat, pos: nat)
    requires height > 0 && pos < Width(n, height)
    ensures 2 * pos < Width(n, height - 1) && First(height - 1, 2 * pos) == First(height, pos)
    ensures First(height - 1, 2 * pos + 2) == First(height, pos + 1)
    ensures First(height, pos) < End(n, height - 1, 2 * pos) <= End(n, height, pos) <= n
    ensures if 2 * pos + 1 < Width(n, height - 1)
            then End(n, height - 1, 2 * pos) == First(height - 1, 2 * pos + 1)
              && End(n, height - 1, 2 * pos + 1) == End(n, height, pos)
            else End(n, height - 1, 2 * pos) == End(n, height, pos) == n
  {
    InTree(n, height, pos);
    InTree(n, height - 1, 2 * pos + 1);
    FirstIncreases(height - 1, 2 * pos, 2 * pos + 1);
    FirstIncreases(height - 1, 2 * pos + 1, 2 * pos + 2);
  }

  /** The loop that finds the height: the first one from `height` on with a single node. */
  function TreeHeight(n: nat, height: nat): (h: nat)
    ensures h >= height && Width(n, h) <= 1
    ensures forall k :: height <= k < h ==> Width(n, k) > 1
    decreases Width(n, height)
  {
    if Width(n, height) > 1 then
      TreeHeight(n, height + 1)
    else height
  }

  /** Above the leaves there is a single root over all of them. */
  lemma RootCovers(n: nat)
    requires n > 0
    ensures Width(n, TreeHeight(n, 0)) == 1
    ensures First(TreeHeight(n, 0), 0) == 0 && End(n, TreeHeight(n, 0), 0) == n
  {
    var h := TreeHeight(n, 0);
    FirstZero(h);
    InTree(n, h, 0);
    InTree(n, h, 1);
  }

  lemma {:induction false} FirstZero(height: nat)
    ensures First(height, 0) == 0
  {
    if height > 0 { FirstZero(height - 1); }
  }

  // ---------------------------------------------------------------- hashes

  function CalcHash(hash: Pair, vTxid: seq<Hash>, height: nat, pos: nat): (r: Hash)
    requires pos < Width(|vTxid|, height)
    decreases height, 1
  {
    if height == 0 then vTxid[pos] else hash(Left(hash, vTxid, height, pos), Right(hash, vTxid, height, pos))
  }

  function Left(hash: Pair, vTxid: seq<Hash>, height: nat, pos: nat): (r: Hash)
    requires height > 0 && pos < Width(|vTxid|, height)
    decreases height, 0
  {
    CalcHash(hash, vTxid, height - 1, 2 * pos)
  }

  /** Beyond the edge the left hash is copied. */
  function Right(hash: Pair, vTxid: seq<Hash>, height: nat, pos: nat): (r: Hash)
    requires height > 0 && pos < Width(|vTxid|, height)
    decreases height, 0
  {
    if 2 * pos + 1 < Width(|vTxid|, height - 1) then CalcHash(hash, vTxid, height - 1, 2 * pos + 1)
    else CalcHash(hash, vTxid, height - 1, 2 * pos)
  }

  function MerkleRoot(hash: Pair, vTxid: seq<Hash>): (r: Hash)
    requires vTxid != []
  {
    RootCovers(|vTxid|);
    CalcHash(hash, vTxid, TreeHeight(|vTxid|, 0), 0)
  }

  /** No two pairs collide. */
  ghost predicate PairInjective(hash: Pair)
  {
    forall a, b, c, d {:trigger Collide(hash, a, b, c, d)} :: !Collide(hash, a, b, c, d)
  }

  predicate Collide(hash: Pair, a: Hash, b: Hash, c: Hash, d: Hash)
  {
    hash(a, b) == hash(c, d) && (a, b) != (c, d)
  }

  ghost predicate Distinct(vTxid: seq<Hash>)
  {
    forall i, j :: 0 <= i < j < |vTxid| ==> vTxid[i] != vTxid[j]
  }

  /** Under distinct leaves two nodes of one height never share a hash. */
  lemma {:induction false} NodesDiffer(hash: Pair, vTxid: seq<Hash>, height: nat, p: nat, q: nat)
    requires PairInjective(hash) && Distinct(vTxid)
    requires p < Width(|vTxid|, height) && q < Width(|vTxid|, height) && p != q
    ensures CalcHash(hash, vTxid, height, p) != CalcHash(hash, vTxid, height, q)
    decreases height
  {
    if height == 0 {
      InTree(|vTxid|, 0, p);
      InTree(|vTxid|, 0, q);
    } else {
      Children(|vTxid|, height, p);
      Children(|vTxid|, height, q);
      NodesDiffer(hash, vTxid, height - 1, 2 * p, 2 * q);
      assert !Collide(hash, Left(hash, vTxid, height, p), Right(hash, vTxid, height, p),
                      Left(hash, vTxid, height, q), Right(hash, vTxid, height, q));
    }
  }

  // ---------------------------------------------------------------- encoding

  /** What a traversal appends. */
  datatype Parts = Parts(vBits: seq<bool>, vHash: seq<Hash>)

  /** The matched leaves in [lo, hi), ascending. */
  function Matched(vMatch: seq<bool>, lo: nat, hi: nat): (r: seq<nat>)
    requires hi <= |vMatch|
    ensures forall i :: 0 <= i < |r| ==> lo <= r[i] < hi
    decreases hi - lo
  {
    if lo >= hi then [] else (if vMatch[lo] then [lo] else []) + Matched(vMatch, lo + 1, hi)
  }

  predicate ParentOfMatch(vMatch: seq<bool>, lo: nat, hi: nat)
    requires hi <= |vMatch|
  {
    Matched(vMatch, lo, hi) != []
  }

  function Build(hash: Pair, vTxid: seq<Hash>, vMatch: seq<bool>, height: nat, pos: nat): (r: Parts)
    requires |vMatch| == |vTxid| && pos < Width(|vTxid|, height)
    decreases height
  {
    if !ParentOfMatch(vMatch, First(height, pos), End(|vTxid|, height, pos)) then
      Parts([false], [CalcHash(hash, vTxid, height, pos)])
    else if height == 0 then
      Parts([true], [CalcHash(hash, vTxid, height, pos)])
    else
      Children(|vTxid|, height, pos);
      var left := Build(hash, vTxid, vMatch, height - 1, 2 * pos);
      var right := if 2 * pos + 1 < Width(|vTxid|, height - 1)
        then Build(hash, vTxid, vMatch, height - 1, 2 * pos + 1) else Parts([], []);
      Parts([true] + left.vBits + right.vBits, left.vHash + right.vHash)
  }

  // ---------------------------------------------------------------- decoding

  datatype Tree = Tree(nTransactions: nat, vBits: seq<bool>, vHash: seq<Hash>)

  /** What TraverseAndExtract does below one node: the counters afterwards, whether it set fBad, what it
      appended to vMatch and vnIndex, and the hash it returned. */
  datatype Found = Found(nBitsUsed: nat, nHashUsed: nat, fBad: bool, vMatch: seq<Hash>, vnIndex: seq<nat>, hash: Hash)

  function Extract(hash: Pair, t: Tree, height: nat, pos: nat, nBits: nat, nHash: nat): (f: Found)
    ensures |f.vMatch| == |f.vnIndex|
    decreases height
  {
    if nBits >= |t.vBits| then Found(nBits, nHash, true, [], [], NULL_HASH)
    else if height == 0 || !t.vBits[nBits] then
      if nHash >= |t.vHash| then Found(nBits + 1, nHash, true, [], [], NULL_HASH)
      else if t.vBits[nBits] then Found(nBits + 1, nHash + 1, false, [t.vHash[nHash]], [pos], t.vHash[nHash])
      else Found(nBits + 1, nHash + 1, false, [], [], t.vHash[nHash])
    else
      var left := Extract(hash, t, height - 1, 2 * pos, nBits + 1, nHash);
      if 2 * pos + 1 < Width(t.nTransactions, height - 1) then
        var right := Extract(hash, t, height - 1, 2 * pos + 1, left.nBitsUsed, left.nHashUsed);
        Found(right.nBitsUsed, right.nHashUsed, left.fBad || right.fBad || right.hash == left.hash,
              left.vMatch + right.vMatch, left.vnIndex + right.vnIndex, hash(left.hash, right.hash))
      else
        left.(hash := hash(left.hash, left.hash))
  }

  /** The checks of ExtractMatches before the traversal. */
  predicate Plausible(t: Tree)
  {
    0 < t.nTransactions <= MAX_BLOCK_WEIGHT / MIN_TRANSACTION_WEIGHT && |t.vHash| <= t.nTransactions && |t.vHash| <= |t.vBits|
  }

  /** The traversal ExtractMatches starts. */
  function ExtractRoot(hash: Pair, t: Tree): (f: Found)
  {
    Extract(hash, t, TreeHeight(t.nTransactions, 0), 0, 0, 0)
  }

  predicate Consumed(t: Tree, f: Found)
  {
    (f.nBitsUsed + 7) / 8 == (|t.vBits| + 7) / 8 && f.nHashUsed == |t.vHash|
  }

  /** The hash ExtractMatches returns for a tree whose fBad was `bad`; the null hash stands for failure. */
  function Root(hash: Pair, t: Tree, bad: bool): (r: Hash)
  {
    if !Plausible(t) then NULL_HASH
    else
      var f := ExtractRoot(hash, t);
      if bad || f.fBad || !Consumed(t, f) then NULL_HASH else f.hash
  }

  // ---------------------------------------------------------------- soundness

  ghost predicate Increasing(s: seq<nat>, lo: nat, hi: nat)
  {
    && (forall i :: 0 <= i < |s| ==> lo <= s[i] < hi)
    && (forall i, j :: 0 <= i < j < |s| ==> s[i] < s[j])
  }

  /** Indices come out in ascending order and lie below the node, whatever the input. */
  lemma {:induction false} IndicesIncrease(hash: Pair, t: Tree, height: nat, pos: nat, nBits: nat, nHash: nat)
    requires pos < Width(t.nTransactions, height)
    ensures Increasing(Extract(hash, t, height, pos, nBits, nHash).vnIndex,
                       First(height, pos), End(t.nTransactions, height, pos))
    decreases height
  {
    if height == 0 {
      InTree(t.nTransactions, 0, pos);
    } else if nBits < |t.vBits| && t.vBits[nBits] {
      Children(t.nTransactions, height, pos);
      IndicesIncrease(hash, t, height - 1, 2 * pos, nBits + 1, nHash);
      if 2 * pos + 1 < Width(t.nTransactions, height - 1) {
        var left := Extract(hash, t, height - 1, 2 * pos, nBits + 1, nHash);
        IndicesIncrease(hash, t, height - 1, 2 * pos + 1, left.nBitsUsed, left.nHashUsed);
      }
    }
  }

  /** Every reported pair names a leaf of the true tree. */
  ghost predicate Genuine(vTxid: seq<Hash>, f: Found)
  {
    |f.vMatch| == |f.vnIndex| &&
    forall i :: 0 <= i < |f.vnIndex| ==> f.vnIndex[i] < |vTxid| && vTxid[f.vnIndex[i]] == f.vMatch[i]
  }

  /** A node that hashes to the true node reports true leaves only. */
  lemma {:induction false} NodeSound(hash: Pair, vTxid: seq<Hash>, t: Tree, height: nat, pos: nat, nBits: nat, nHash: nat)
    requires PairInjective(hash) && t.nTransactions == |vTxid| && pos < Width(|vTxid|, height)
    requires Extract(hash, t, height, pos, nBits, nHash).hash == CalcHash(hash, vTxid, height, pos)
    requires !Extract(hash, t, height, pos, nBits, nHash).fBad
    ensures Genuine(vTxid, Extract(hash, t, height, pos, nBits, nHash))
    decreases height
  {
    if height == 0 {
      InTree(|vTxid|, 0, pos);
    } else if t.vBits[nBits] {
      Children(|vTxid|, height, pos);
      var f, c := Extract(hash, t, height, pos, nBits, nHash), CalcHash(hash, vTxid, height, pos);
      var left := Extract(hash, t, height - 1, 2 * pos, nBits + 1, nHash);
      var trueLeft := CalcHash(hash, vTxid, height - 1, 2 * pos);
      if 2 * pos + 1 < Width(|vTxid|, height - 1) {
        var right := Extract(hash, t, height - 1, 2 * pos + 1, left.nBitsUsed, left.nHashUsed);
        var trueRight := CalcHash(hash, vTxid, height - 1, 2 * pos + 1);
        assert f.hash == hash(left.hash, right.hash) && c == hash(trueLeft, trueRight);
        assert !Collide(hash, left.hash, right.hash, trueLeft, trueRight);
        NodeSound(hash, vTxid, t, height - 1, 2 * pos, nBits + 1, nHash);
        NodeSound(hash, vTxid, t, height - 1, 2 * pos + 1, left.nBitsUsed, left.nHashUsed);
        GenuineJoin(vTxid, left, right, f);
      } else {
        assert f.hash == hash(left.hash, left.hash) && c == hash(trueLeft, trueLeft);
        assert !Collide(hash, left.hash, left.hash, trueLeft, trueLeft);
        NodeSound(hash, vTxid, t, height - 1, 2 * pos, nBits + 1, nHash);
      }
    }
  }

  lemma GenuineJoin(vTxid: seq<Hash>, left: Found, right: Found, f: Found)
    requires Genuine(vTxid, left) && Genuine(vTxid, right)
    requires f.vMatch == left.vMatch + right.vMatch && f.vnIndex == left.vnIndex + right.vnIndex
    ensures Genuine(vTxid, f)
  {}

  /** Soundness: whatever bits and hashes are offered, if the true root comes out then every reported
      transaction is the block's transaction at the reported index, in ascending order. */
  lemma ProofSound(hash: Pair, vTxid: seq<Hash>, t: Tree, bad: bool)
    requires PairInjective(hash) && vTxid != [] && t.nTransactions == |vTxid|
    requires Root(hash, t, bad) == MerkleRoot(hash, vTxid) != NULL_HASH
    ensures Genuine(vTxid, ExtractRoot(hash, t))
    ensures Increasing(ExtractRoot(hash, t).vnIndex, 0, |vTxid|)
  {
    RootCovers(|vTxid|);
    var h := TreeHeight(|vTxid|, 0);
    IndicesIncrease(hash, t, h, 0, 0, 0);
    NodeSound(hash, vTxid, t, h, 0, 0, 0);
  }

  // ---------------------------------------------------------------- round trip

  lemma {:induction false} MatchedSplit(vMatch: seq<bool>, lo: nat, mid: nat, hi: nat)
    requires lo <= mid <= hi <= |vMatch|
    ensures Matched(vMatch, lo, hi) == Matched(vMatch, lo, mid) + Matched(vMatch, mid, hi)
    decreases mid - lo
  {
    if lo < mid { MatchedSplit(vMatch, lo + 1, mid, hi); }
  }

  /** Matched lists exactly the matched positions, in order. */
  lemma {:induction false} MatchedExact(vMatch: seq<bool>, lo: nat, hi: nat)
    requires lo <= hi <= |vMatch|
    ensures Increasing(Matched(vMatch, lo, hi), lo, hi)
    ensures forall p :: lo <= p < hi ==> (p in Matched(vMatch, lo, hi) <==> vMatch[p])
    decreases hi - lo
  {
    if lo < hi {
      MatchedExact(vMatch, lo + 1, hi);
      PrependExact(vMatch, lo, hi, Matched(vMatch, lo + 1, hi));
    }
  }

  lemma PrependExact(vMatch: seq<bool>, lo: nat, hi: nat, rest: seq<nat>)
    requires lo < hi <= |vMatch| && Increasing(rest, lo + 1, hi)
    requires forall p :: lo + 1 <= p < hi ==> (p in rest <==> vMatch[p])
    ensures var all := (if vMatch[lo] then [lo] else []) + rest;
      Increasing(all, lo, hi) && forall p :: lo <= p < hi ==> (p in all <==> vMatch[p])
  {
    if vMatch[lo] {
      var all := [lo] + rest;
      assert forall i :: 1 <= i < |all| ==> all[i] == rest[i - 1];
    } else {
      assert [] + rest == rest;
      assert forall p :: p in rest ==> lo + 1 <= p;
    }
  }

  function Pick(vTxid: seq<Hash>, index: seq<nat>): (r: seq<Hash>)
    requires forall i :: 0 <= i < |index| ==> index[i] < |vTxid|
    ensures |r| == |index| && forall i :: 0 <= i < |r| ==> r[i] == vTxid[index[i]]
  {
    seq(|index|, i requires 0 <= i < |index| => vTxid[index[i]])
  }

  /** The parts stand in the tree at the given offsets. */
  predicate Carries(t: Tree, nBits: nat, nHash: nat, parts: Parts)
  {
    && nBits + |parts.vBits| <= |t.vBits| && t.vBits[nBits..nBits + |parts.vBits|] == parts.vBits
    && nHash + |parts.vHash| <= |t.vHash| && t.vHash[nHash..nHash + |parts.vHash|] == parts.vHash
  }

  lemma CarriesSplit(t: Tree, nBits: nat, nHash: nat, left: Parts, right: Parts)
    requires Carries(t, nBits, nHash, Parts([true] + left.vBits + right.vBits, left.vHash + right.vHash))
    ensures nBits < |t.vBits| && t.vBits[nBits]
    ensures Carries(t, nBits + 1, nHash, left)
    ensures Carries(t, nBits + 1 + |left.vBits|, nHash + |left.vHash|, right)
  {
    assert [true] + left.vBits + right.vBits == [true] + (left.vBits + right.vBits);
    SliceSplit(t.vBits, nBits, [true], left.vBits + right.vBits);
    FirstBit(t.vBits, nBits);
    SliceSplit(t.vBits, nBits + 1, left.vBits, right.vBits);
    SliceSplit(t.vHash, nHash, left.vHash, right.vHash);
  }

  lemma FirstBit(s: seq<bool>, a: nat)
    requires a < |s| && s[a..a + 1] == [true]
    ensures s[a]
  {
    assert s[a] == s[a..a + 1][0];
  }

  lemma SliceSplit<T>(s: seq<T>, a: nat, x: seq<T>, y: seq<T>)
    requires a + |x + y| <= |s| && s[a..a + |x + y|] == x + y
    ensures s[a..a + |x|] == x && s[a + |x|..a + |x| + |y|] == y
  {
    var whole := s[a..a + |x + y|];
    assert s[a..a + |x|] == whole[..|x|];
    assert s[a + |x|..a + |x| + |y|] == whole[|x|..];
  }

  /** What decoding an encoded node yields. */
  ghost function Expected(hash: Pair, vTxid: seq<Hash>, vMatch: seq<bool>, height: nat, pos: nat, nBits: nat, nHash: nat): (f: Found)
    requires |vMatch| == |vTxid| && pos < Width(|vTxid|, height)
  {
    InTree(|vTxid|, height, pos);
    var parts := Build(hash, vTxid, vMatch, height, pos);
    var index := Matched(vMatch, First(height, pos), End(|vTxid|, height, pos));
    Found(nBits + |parts.vBits|, nHash + |parts.vHash|, false, Pick(vTxid, index), index,
          CalcHash(hash, vTxid, height, pos))
  }

  ghost predicate Descends(vTxid: seq<Hash>, vMatch: seq<bool>, height: nat, pos: nat)
  {
    && |vMatch| == |vTxid| && height > 0 && pos < Width(|vTxid|, height)
    && ParentOfMatch(vMatch, First(height, pos), End(|vTxid|, height, pos))
  }

  /** The expectations below the two children add up to the one at their parent. */
  lemma ExpectedJoin(hash: Pair, vTxid: seq<Hash>, vMatch: seq<bool>, height: nat, pos: nat, nBits: nat, nHash: nat)
    requires Descends(vTxid, vMatch, height, pos) && 2 * pos + 1 < Width(|vTxid|, height - 1)
    ensures 2 * pos < Width(|vTxid|, height - 1)
    ensures var l := Expected(hash, vTxid, vMatch, height - 1, 2 * pos, nBits + 1, nHash);
      var r := Expected(hash, vTxid, vMatch, height - 1, 2 * pos + 1, l.nBitsUsed, l.nHashUsed);
      Expected(hash, vTxid, vMatch, height, pos, nBits, nHash)
      == Found(r.nBitsUsed, r.nHashUsed, false, l.vMatch + r.vMatch, l.vnIndex + r.vnIndex, hash(l.hash, r.hash))
  {
    Children(|vTxid|, height, pos);
    InTree(|vTxid|, height, pos);
    InTree(|vTxid|, height - 1, 2 * pos + 1);
    var lo, mid, hi := First(height, pos), End(|vTxid|, height - 1, 2 * pos), End(|vTxid|, height, pos);
    FirstIncreases(height - 1, 2 * pos + 1, 2 * pos + 2);
    MatchedSplit(vMatch, lo, mid, hi);
    PickSplit(vTxid, Matched(vMatch, lo, mid), Matched(vMatch, mid, hi));
    assert Left(hash, vTxid, height, pos) == CalcHash(hash, vTxid, height - 1, 2 * pos);
    assert Right(hash, vTxid, height, pos) == CalcHash(hash, vTxid, height - 1, 2 * pos + 1);
  }

  /** A node where the encoder stops. */
  lemma StopParts(hash: Pair, vTxid: seq<Hash>, vMatch: seq<bool>, height: nat, pos: nat)
    requires |vTxid| == |vMatch| && pos < Width(|vTxid|, height)
    requires height == 0 || !ParentOfMatch(vMatch, First(height, pos), End(|vTxid|, height, pos))
    ensures var index := Matched(vMatch, First(height, pos), End(|vTxid|, height, pos));
      && Build(hash, vTxid, vMatch, height, pos) == Parts([index != []], [CalcHash(hash, vTxid, height, pos)])
      && (index != [] ==> height == 0 && pos < |vTxid| && index == [pos] && CalcHash(hash, vTxid, 0, pos) == vTxid[pos])
  {
    InTree(|vTxid|, height, pos);
    if height == 0 { LeafMatched(vMatch, First(height, pos), End(|vTxid|, height, pos)); }
  }

  lemma StopRoundTrip(hash: Pair, vTxid: seq<Hash>, vMatch: seq<bool>, t: Tree, height: nat, pos: nat, nBits: nat, nHash: nat)
    requires t.nTransactions == |vTxid| == |vMatch| && pos < Width(|vTxid|, height)
    requires height == 0 || !ParentOfMatch(vMatch, First(height, pos), End(|vTxid|, height, pos))
    requires Carries(t, nBits, nHash, Build(hash, vTxid, vMatch, height, pos))
    ensures Extract(hash, t, height, pos, nBits, nHash) == Expected(hash, vTxid, vMatch, height, pos, nBits, nHash)
  {
    hide Build, Matched, CalcHash, Width, First, End;
    InTree(|vTxid|, height, pos);
    StopParts(hash, vTxid, vMatch, height, pos);
    assert t.vBits[nBits..nBits + 1][0] == t.vBits[nBits];
    assert t.vHash[nHash..nHash + 1][0] == t.vHash[nHash];
  }

  /** The encoder's steps into the children lie one after the other in the tree. */
  lemma BuildCarried(hash: Pair, vTxid: seq<Hash>, vMatch: seq<bool>, t: Tree, height: nat, pos: nat, nBits: nat, nHash: nat)
    returns (bits: nat, hashes: nat)
    requires Descends(vTxid, vMatch, height, pos) && Carries(t, nBits, nHash, Build(hash, vTxid, vMatch, height, pos))
    ensures nBits < |t.vBits| && t.vBits[nBits] && 2 * pos < Width(|vTxid|, height - 1)
    ensures Carries(t, nBits + 1, nHash, Build(hash, vTxid, vMatch, height - 1, 2 * pos))
    ensures bits == Expected(hash, vTxid, vMatch, height - 1, 2 * pos, nBits + 1, nHash).nBitsUsed
    ensures hashes == Expected(hash, vTxid, vMatch, height - 1, 2 * pos, nBits + 1, nHash).nHashUsed
    ensures 2 * pos + 1 < Width(|vTxid|, height - 1) ==>
              Carries(t, bits, hashes, Build(hash, vTxid, vMatch, height - 1, 2 * pos + 1))
  {
    Children(|vTxid|, height, pos);
    var left := Build(hash, vTxid, vMatch, height - 1, 2 * pos);
    bits, hashes := nBits + 1 + |left.vBits|, nHash + |left.vHash|;
    if 2 * pos + 1 < Width(|vTxid|, height - 1) {
      CarriesSplit(t, nBits, nHash, left, Build(hash, vTxid, vMatch, height - 1, 2 * pos + 1));
    } else {
      CarriesSplit(t, nBits, nHash, left, Parts([], []));
    }
  }

  /** A single child passes its findings on. */
  lemma ExpectedOnly(hash: Pair, vTxid: seq<Hash>, vMatch: seq<bool>, height: nat, pos: nat, nBits: nat, nHash: nat)
    requires Descends(vTxid, vMatch, height, pos) && 2 * pos + 1 >= Width(|vTxid|, height - 1)
    ensures 2 * pos < Width(|vTxid|, height - 1)
    ensures var l := Expected(hash, vTxid, vMatch, height - 1, 2 * pos, nBits + 1, nHash);
      Expected(hash, vTxid, vMatch, height, pos, nBits, nHash) == l.(hash := hash(l.hash, l.hash))
  {
    Children(|vTxid|, height, pos);
    InTree(|vTxid|, height, pos);
    var left := Build(hash, vTxid, vMatch, height - 1, 2 * pos);
    assert Build(hash, vTxid, vMatch, height, pos) == Parts([true] + left.vBits + [], left.vHash + []);
    assert Left(hash, vTxid, height, pos) == Right(hash, vTxid, height, pos);
  }

  lemma JoinRoundTrip(hash: Pair, vTxid: seq<Hash>, vMatch: seq<bool>, t: Tree, height: nat, pos: nat, nBits: nat, nHash: nat,
                      bits: nat, hashes: nat)
    requires PairInjective(hash) && Distinct(vTxid) && t.nTransactions == |vTxid|
    requires Descends(vTxid, vMatch, height, pos) && 2 * pos + 1 < Width(|vTxid|, height - 1)
    requires nBits < |t.vBits| && t.vBits[nBits] && 2 * pos < Width(|vTxid|, height - 1)
    requires bits == Expected(hash, vTxid, vMatch, height - 1, 2 * pos, nBits + 1, nHash).nBitsUsed
    requires hashes == Expected(hash, vTxid, vMatch, height - 1, 2 * pos, nBits + 1, nHash).nHashUsed
    requires Extract(hash, t, height - 1, 2 * pos, nBits + 1, nHash)
          == Expected(hash, vTxid, vMatch, height - 1, 2 * pos, nBits + 1, nHash)
    requires Extract(hash, t, height - 1, 2 * pos + 1, bits, hashes)
          == Expected(hash, vTxid, vMatch, height - 1, 2 * pos + 1, bits, hashes)
    ensures Extract(hash, t, height, pos, nBits, nHash) == Expected(hash, vTxid, vMatch, height, pos, nBits, nHash)
  {
    NodesDiffer(hash, vTxid, height - 1, 2 * pos, 2 * pos + 1);
    ExpectedJoin(hash, vTxid, vMatch, height, pos, nBits, nHash);
    var left := Extract(hash, t, height - 1, 2 * pos, nBits + 1, nHash);
    var right := Extract(hash, t, height - 1, 2 * pos + 1, bits, hashes);
    assert !left.fBad && !right.fBad && left.hash != right.hash;
  }

  /** Decoding follows the encoder's footsteps below every node. */
  lemma {:induction false} NodeRoundTrip(hash: Pair, vTxid: seq<Hash>, vMatch: seq<bool>, t: Tree,
                                         height: nat, pos: nat, nBits: nat, nHash: nat)
    requires PairInjective(hash) && Distinct(vTxid) && t.nTransactions == |vTxid|
    requires |vMatch| == |vTxid| && pos < Width(|vTxid|, height)
    requires Carries(t, nBits, nHash, Build(hash, vTxid, vMatch, height, pos))
    ensures Extract(hash, t, height, pos, nBits, nHash) == Expected(hash, vTxid, vMatch, height, pos, nBits, nHash)
    decreases height, 1
  {
    if !Descends(vTxid, vMatch, height, pos) {
      StopRoundTrip(hash, vTxid, vMatch, t, height, pos, nBits, nHash);
    } else {
      var bits, hashes := BuildCarried(hash, vTxid, vMatch, t, height, pos, nBits, nHash);
      ChildrenRoundTrip(hash, vTxid, vMatch, t, height, pos, nBits, nHash, bits, hashes);
    }
  }

  lemma {:induction false} ChildrenRoundTrip(hash: Pair, vTxid: seq<Hash>, vMatch: seq<bool>, t: Tree, height: nat, pos: nat,
                                             nBits: nat, nHash: nat, bits: nat, hashes: nat)
    requires PairInjective(hash) && Distinct(vTxid) && t.nTransactions == |vTxid|
    requires Descends(vTxid, vMatch, height, pos) && 2 * pos < Width(|vTxid|, height - 1)
    requires nBits < |t.vBits| && t.vBits[nBits]
    requires Carries(t, nBits + 1, nHash, Build(hash, vTxid, vMatch, height - 1, 2 * pos))
    requires bits == Expected(hash, vTxid, vMatch, height - 1, 2 * pos, nBits + 1, nHash).nBitsUsed
    requires hashes == Expected(hash, vTxid, vMatch, height - 1, 2 * pos, nBits + 1, nHash).nHashUsed
    requires 2 * pos + 1 < Width(|vTxid|, height - 1) ==>
               Carries(t, bits, hashes, Build(hash, vTxid, vMatch, height - 1, 2 * pos + 1))
    ensures Extract(hash, t, height, pos, nBits, nHash) == Expected(hash, vTxid, vMatch, height, pos, nBits, nHash)
    decreases height, 0
  {
    NodeRoundTrip(hash, vTxid, vMatch, t, height - 1, 2 * pos, nBits + 1, nHash);
    if 2 * pos + 1 < Width(|vTxid|, height - 1) {
      NodeRoundTrip(hash, vTxid, vMatch, t, height - 1, 2 * pos + 1, bits, hashes);
      JoinRoundTrip(hash, vTxid, vMatch, t, height, pos, nBits, nHash, bits, hashes);
    } else {
      ExpectedOnly(hash, vTxid, vMatch, height, pos, nBits, nHash);
    }
  }

  lemma LeafMatched(vMatch: seq<bool>, lo: nat, hi: nat)
    requires lo + 1 == hi <= |vMatch|
    ensures Matched(vMatch, lo, hi) == if vMatch[lo] then [lo] else []
  {
    assert Matched(vMatch, hi, hi) == [];
  }

  lemma PickSplit(vTxid: seq<Hash>, a: seq<nat>, b: seq<nat>)
    requires forall i :: 0 <= i < |a| ==> a[i] < |vTxid|
    requires forall i :: 0 <= i < |b| ==> b[i] < |vTxid|
    ensures Pick(vTxid, a + b) == Pick(vTxid, a) + Pick(vTxid, b)
  {}
}
