/**
  Why the decoder refuses a node whose two children have the same hash (src/merkleblock.cpp): a block
  with its last transaction repeated can have the same Merkle root. For honest proofs, whatever the hash and the
  transactions, the refusal comes exactly from such a node.
 */
module MerkleTwins {
  import opened Prelude
  import opened Powers
  import opened MerkleBlock
  import opened MerkleSizes

  /** Somewhere the encoder descends from a node whose two children share a hash. */
  ghost predicate Twins(hash: Pair, vTxid: seq<Hash>, vMatch: seq<bool>, height: nat, pos: nat)
    requires |vMatch| == |vTxid| && pos < Width(|vTxid|, height)
    decreases height
  {
    && Descends(vTxid, vMatch, height, pos) && 2 * pos < Width(|vTxid|, height - 1)
    && (|| Twins(hash, vTxid, vMatch, height - 1, 2 * pos)
        || (2 * pos + 1 < Width(|vTxid|, height - 1) &&
            (|| Twins(hash, vTxid, vMatch, height - 1, 2 * pos + 1)
             || CalcHash(hash, vTxid, height - 1, 2 * pos) == CalcHash(hash, vTxid, height - 1, 2 * pos + 1))))
  }

  /** Decoding an encoded node, without any assumption on the hash or the transactions. */
  lemma {:induction false} TwinRoundTrip(hash: Pair, vTxid: seq<Hash>, vMatch: seq<bool>, t: Tree, height: nat, pos: nat,
                                         nBits: nat, nHash: nat)
    requires t.nTransactions == |vTxid| == |vMatch| && pos < Width(|vTxid|, height)
    requires Carries(t, nBits, nHash, Build(hash, vTxid, vMatch, height, pos))
    ensures Extract(hash, t, height, pos, nBits, nHash)
      == Expected(hash, vTxid, vMatch, height, pos, nBits, nHash).(fBad := Twins(hash, vTxid, vMatch, height, pos))
    decreases height
  {
    hide Build, Carries, Matched;
    if !Descends(vTxid, vMatch, height, pos) {
      StopRoundTrip(hash, vTxid, vMatch, t, height, pos, nBits, nHash);
    } else {
      var bits, hashes := BuildCarried(hash, vTxid, vMatch, t, height, pos, nBits, nHash);
      TwinRoundTrip(hash, vTxid, vMatch, t, height - 1, 2 * pos, nBits + 1, nHash);
      if 2 * pos + 1 < Width(|vTxid|, height - 1) {
        TwinRoundTrip(hash, vTxid, vMatch, t, height - 1, 2 * pos + 1, bits, hashes);
        ExpectedJoin(hash, vTxid, vMatch, height, pos, nBits, nHash);
      } else {
        ExpectedOnly(hash, vTxid, vMatch, height, pos, nBits, nHash);
      }
    }
  }

  /** An honest proof is found bad exactly when it descends from a node with equal children. */
  lemma HonestProofRefused(hash: Pair, vTxid: seq<Hash>, vMatch: seq<bool>)
    requires |vMatch| == |vTxid| > 0
    ensures Width(|vTxid|, TreeHeight(|vTxid|, 0)) == 1
    ensures var (parts, height) := (Encode(hash, vTxid, vMatch), TreeHeight(|vTxid|, 0));
      ExtractRoot(hash, Tree(|vTxid|, parts.vBits, parts.vHash)).fBad <==> Twins(hash, vTxid, vMatch, height, 0)
  {
    RootCovers(|vTxid|);
    var parts := Encode(hash, vTxid, vMatch);
    var t := Tree(|vTxid|, parts.vBits, parts.vHash);
    assert t.vBits[0..|parts.vBits|] == parts.vBits && t.vHash[0..|parts.vHash|] == parts.vHash;
    TwinRoundTrip(hash, vTxid, vMatch, t, TreeHeight(|vTxid|, 0), 0, 0, 0);
  }

  // ---------------------------------------------------------------- a repeated transaction

  lemma {:induction false} SameWidth(n: nat, height: nat)
    requires n % 2 == 1 && height > 0
    ensures Width(n + 1, height) == Width(n, height)
  {
    if height > 1 { SameWidth(n, height - 1); }
  }

  lemma {:induction false} SameNode(hash: Pair, a: seq<Hash>, b: seq<Hash>, height: nat, pos: nat)
    requires |a| % 2 == 1 && b == a + [a[|a| - 1]] && height > 0 && pos < Width(|a|, height)
    ensures pos < Width(|b|, height) && CalcHash(hash, b, height, pos) == CalcHash(hash, a, height, pos)
    decreases height
  {
    SameWidth(|a|, height);
    Children(|a|, height, pos);
    if height > 1 {
      SameWidth(|a|, height - 1);
      SameNode(hash, a, b, height - 1, 2 * pos);
      if 2 * pos + 1 < Width(|a|, height - 1) { SameNode(hash, a, b, height - 1, 2 * pos + 1); }
    } else {
      assert Left(hash, b, 1, pos) == Left(hash, a, 1, pos) && Right(hash, b, 1, pos) == Right(hash, a, 1, pos);
    }
  }

  lemma {:induction false} SameHeight(n: nat, height: nat)
    requires n % 2 == 1 && height > 0
    ensures TreeHeight(n + 1, height) == TreeHeight(n, height)
    decreases Width(n, height)
  {
    SameWidth(n, height);
    if Width(n, height) > 1 { SameHeight(n, height + 1); }
  }

  /** Repeating the last of an odd number of transactions, at least three, does not change the root. */
  lemma RepeatedSameRoot(hash: Pair, a: seq<Hash>)
    requires |a| % 2 == 1 && |a| > 1
    ensures MerkleRoot(hash, a + [a[|a| - 1]]) == MerkleRoot(hash, a)
  {
    var (b, height) := (a + [a[|a| - 1]], TreeHeight(|a|, 0));
    assert TreeHeight(|a|, 0) == TreeHeight(|a|, 1) && TreeHeight(|b|, 0) == TreeHeight(|b|, 1);
    SameHeight(|a|, 1);
    RootCovers(|a|);
    SameNode(hash, a, b, height, 0);
  }

  lemma DescendsToward(vTxid: seq<Hash>, vMatch: seq<bool>, height: nat, pos: nat, i: nat)
    requires |vMatch| == |vTxid| && height > 0 && pos < Width(|vTxid|, height)
    requires First(height, pos) <= i < End(|vTxid|, height, pos) && vMatch[i]
    ensures Descends(vTxid, vMatch, height, pos)
  {
    hide Width, First, Matched;
    MatchedExact(vMatch, First(height, pos), End(|vTxid|, height, pos));
    assert i in Matched(vMatch, First(height, pos), End(|vTxid|, height, pos));
  }

  lemma LeafTwins(hash: Pair, vTxid: seq<Hash>, vMatch: seq<bool>, pos: nat, i: nat)
    requires pos < Width(|vTxid|, 1) && i % 2 == 1 && First(1, pos) <= i < End(|vTxid|, 1, pos)
    requires |vMatch| == |vTxid| && i < |vTxid| && vTxid[i - 1] == vTxid[i] && Descends(vTxid, vMatch, 1, pos)
    ensures Twins(hash, vTxid, vMatch, 1, pos)
  {
    hide Descends;
    assert First(1, pos) == 2 * pos && First(1, pos + 1) == 2 * pos + 2;
    assert i == 2 * pos + 1;
    assert CalcHash(hash, vTxid, 0, 2 * pos) == CalcHash(hash, vTxid, 0, 2 * pos + 1);
  }

  /** A proof that shows one of two equal neighbours descends from twins. */
  lemma {:induction false} TwinsFound(hash: Pair, vTxid: seq<Hash>, vMatch: seq<bool>, height: nat, pos: nat, i: nat)
    requires |vMatch| == |vTxid| && height > 0 && pos < Width(|vTxid|, height)
    requires i % 2 == 1 && First(height, pos) <= i < End(|vTxid|, height, pos)
    requires vTxid[i - 1] == vTxid[i] && vMatch[i]
    ensures Twins(hash, vTxid, vMatch, height, pos)
    decreases height
  {
    hide CalcHash, Width, First, End, Matched;
    Children(|vTxid|, height, pos);
    DescendsToward(vTxid, vMatch, height, pos, i);
    if height == 1 {
      LeafTwins(hash, vTxid, vMatch, pos, i);
    } else if i < End(|vTxid|, height - 1, 2 * pos) {
      TwinsFound(hash, vTxid, vMatch, height - 1, 2 * pos, i);
    } else {
      TwinsFound(hash, vTxid, vMatch, height - 1, 2 * pos + 1, i);
    }
  }

  /** A proof that shows the repeated transaction of such a block is refused, though the block has the right root. */
  lemma RepeatedRefused(hash: Pair, a: seq<Hash>, vMatch: seq<bool>)
    requires |a| % 2 == 1 && |vMatch| == |a| + 1 && vMatch[|a|]
    ensures var b := a + [a[|a| - 1]];
      var parts := Encode(hash, b, vMatch);
      ExtractRoot(hash, Tree(|b|, parts.vBits, parts.vHash)).fBad
  {
    var b := a + [a[|a| - 1]];
    RootCovers(|b|);
    HonestProofRefused(hash, b, vMatch);
    TwinsFound(hash, b, vMatch, TreeHeight(|b|, 0), 0, |a|);
  }

  // ---------------------------------------------------------------- what is accepted at all

  /** A tree that yields a root other than the null hash has a transaction, at most 133333 of them, no more hashes than
      transactions or flag bits, and every hash and flag byte has been used. */
  lemma AcceptedShape(hash: Pair, t: Tree, bad: bool)
    requires Root(hash, t, bad) != NULL_HASH
    ensures !bad && 0 < t.nTransactions <= 133333 && |t.vHash| <= t.nTransactions && |t.vHash| <= |t.vBits|
    ensures var f := ExtractRoot(hash, t);
      !f.fBad && f.nHashUsed == |t.vHash| && (f.nBitsUsed + 7) / 8 == (|t.vBits| + 7) / 8 && Root(hash, t, bad) == f.hash
  {}

  /** The beginnings of a proof's bits and hashes. */
  predicate Cut(t: Tree, cut: Tree)
  {
    cut.nTransactions == t.nTransactions && cut.vBits <= t.vBits && cut.vHash <= t.vHash
  }

  /** Below one node: what is cut off is either not used, or missed. */
  lemma {:induction false} CutNode(hash: Pair, t: Tree, cut: Tree, height: nat, pos: nat, nBits: nat, nHash: nat)
    requires Cut(t, cut)
    ensures var (f, g) := (Extract(hash, t, height, pos, nBits, nHash), Extract(hash, cut, height, pos, nBits, nHash));
      && nBits <= f.nBitsUsed && nHash <= f.nHashUsed && f.nHashUsed - nHash <= f.nBitsUsed - nBits
      && (!f.fBad ==> if f.nBitsUsed <= |cut.vBits| && f.nHashUsed <= |cut.vHash| then g == f else g.fBad)
    decreases height
  {
    if height > 0 && nBits < |t.vBits| && t.vBits[nBits] {
      var left := Extract(hash, t, height - 1, 2 * pos, nBits + 1, nHash);
      CutNode(hash, t, cut, height - 1, 2 * pos, nBits + 1, nHash);
      if 2 * pos + 1 < Width(t.nTransactions, height - 1) {
        CutNode(hash, t, cut, height - 1, 2 * pos + 1, left.nBitsUsed, left.nHashUsed);
      }
    }
  }

  /** Of an accepted proof nothing can be cut off but bits behind those used, within the last byte. */
  lemma CutRefused(hash: Pair, t: Tree, cut: Tree)
    requires Root(hash, t, false) != NULL_HASH && Cut(t, cut)
    ensures Root(hash, cut, false) ==
      if |cut.vHash| == |t.vHash| && ExtractRoot(hash, t).nBitsUsed <= |cut.vBits| then Root(hash, t, false) else NULL_HASH
  {
    hide Extract;
    CutNode(hash, t, cut, TreeHeight(t.nTransactions, 0), 0, 0, 0);
  }
}
