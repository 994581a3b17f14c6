/**
  How large an encoded partial Merkle tree gets: the bounds stated at the head of src/merkleblock.h, the one
  that does not hold in general together with the exact condition under which it does, and the widths the
  C++ integers need.
 */
module MerkleSizes {
  import opened Prelude
  import opened Powers
  import opened MerkleBlock

  lemma SomeLeaves(n: nat, height: nat, pos: nat)
    requires pos < Width(n, height)
    ensures First(height, pos) < End(n, height, pos) <= n
  {
    InTree(n, height, pos);
    FirstIncreases(height, pos, pos + 1);
  }

  function Sizes(hash: Pair, vTxid: seq<Hash>, vMatch: seq<bool>, height: nat, pos: nat): (r: (nat, nat))
    requires |vMatch| == |vTxid| && pos < Width(|vTxid|, height)
  {
    var parts := Build(hash, vTxid, vMatch, height, pos);
    (|parts.vBits|, |parts.vHash|)
  }

  /** A node the encoder descends into costs one bit more than its children. */
  lemma SizesStep(hash: Pair, vTxid: seq<Hash>, vMatch: seq<bool>, height: nat, pos: nat)
    requires |vMatch| == |vTxid| && pos < Width(|vTxid|, height)
    ensures var (bits, hashes) := Sizes(hash, vTxid, vMatch, height, pos);
      if !Descends(vTxid, vMatch, height, pos) then bits == 1 && hashes == 1
      else
        2 * pos < Width(|vTxid|, height - 1) &&
        var l := Sizes(hash, vTxid, vMatch, height - 1, 2 * pos);
        if 2 * pos + 1 < Width(|vTxid|, height - 1) then
          var r := Sizes(hash, vTxid, vMatch, height - 1, 2 * pos + 1);
          bits == 1 + l.0 + r.0 && hashes == l.1 + r.1
        else bits == 1 + l.0 && hashes == l.1
  {
    if Descends(vTxid, vMatch, height, pos) { Children(|vTxid|, height, pos); }
  }

  /** N is at most the number of transactions below. */
  lemma {:induction false} HashesAtMostLeaves(hash: Pair, vTxid: seq<Hash>, vMatch: seq<bool>, height: nat, pos: nat)
    requires |vMatch| == |vTxid| && pos < Width(|vTxid|, height)
    ensures 1 <= Sizes(hash, vTxid, vMatch, height, pos).1 <= End(|vTxid|, height, pos) - First(height, pos)
    ensures Sizes(hash, vTxid, vMatch, height, pos).1 <= Sizes(hash, vTxid, vMatch, height, pos).0
    decreases height
  {
    SizesStep(hash, vTxid, vMatch, height, pos);
    SomeLeaves(|vTxid|, height, pos);
    if Descends(vTxid, vMatch, height, pos) {
      Children(|vTxid|, height, pos);
      HashesAtMostLeaves(hash, vTxid, vMatch, height - 1, 2 * pos);
      if 2 * pos + 1 < Width(|vTxid|, height - 1) {
        HashesAtMostLeaves(hash, vTxid, vMatch, height - 1, 2 * pos + 1);
      }
    }
  }

  ghost function Matches(vMatch: seq<bool>, height: nat, pos: nat): (r: nat)
  {
    |Matched(vMatch, First(height, pos), End(|vMatch|, height, pos))|
  }

  /** The matches below a node are those below its children. */
  lemma MatchesSplit(vMatch: seq<bool>, height: nat, pos: nat)
    requires height > 0 && pos < Width(|vMatch|, height)
    ensures Matches(vMatch, height, pos) == Matches(vMatch, height - 1, 2 * pos)
              + (if 2 * pos + 1 < Width(|vMatch|, height - 1) then Matches(vMatch, height - 1, 2 * pos + 1) else 0)
  {
    Children(|vMatch|, height, pos);
    if 2 * pos + 1 < Width(|vMatch|, height - 1) {
      MatchedSplit(vMatch, First(height, pos), End(|vMatch|, height - 1, 2 * pos), End(|vMatch|, height, pos));
    }
  }

  /** N is at most one more than the matches times the height. */
  lemma {:induction false} HashesAtMostPaths(hash: Pair, vTxid: seq<Hash>, vMatch: seq<bool>, height: nat, pos: nat)
    requires |vMatch| == |vTxid| && pos < Width(|vTxid|, height)
    ensures Sizes(hash, vTxid, vMatch, height, pos).1 <= 1 + Matches(vMatch, height, pos) * height
    decreases height
  {
    SizesStep(hash, vTxid, vMatch, height, pos);
    if Descends(vTxid, vMatch, height, pos) {
      Children(|vTxid|, height, pos);
      MatchesSplit(vMatch, height, pos);
      HashesAtMostPaths(hash, vTxid, vMatch, height - 1, 2 * pos);
      var m := Matches(vMatch, height - 1, 2 * pos);
      assert Matches(vMatch, height, pos) > 0;
      if 2 * pos + 1 < Width(|vTxid|, height - 1) {
        HashesAtMostPaths(hash, vTxid, vMatch, height - 1, 2 * pos + 1);
        var k := Matches(vMatch, height - 1, 2 * pos + 1);
        Spread(m, k, height);
      } else {
        Spread(m, 0, height);
      }
    } else {
      MulMonotone(0, Matches(vMatch, height, pos), height);
    }
  }

  lemma Spread(m: nat, k: nat, height: nat)
    requires height > 0
    ensures (m + k) * height == m * (height - 1) + k * (height - 1) + m + k
  {}

  // ---------------------------------------------------------------- flag bits

  /** Below a node whose subtree is complete, the flag bits form a full binary tree. */
  lemma {:induction false} FullBits(hash: Pair, vTxid: seq<Hash>, vMatch: seq<bool>, height: nat, pos: nat)
    requires |vMatch| == |vTxid| && pos < Width(|vTxid|, height) && First(height, pos + 1) <= |vTxid|
    ensures Sizes(hash, vTxid, vMatch, height, pos).0 == 2 * Sizes(hash, vTxid, vMatch, height, pos).1 - 1
    decreases height
  {
    SizesStep(hash, vTxid, vMatch, height, pos);
    if Descends(vTxid, vMatch, height, pos) {
      Children(|vTxid|, height, pos);
      FirstIncreases(height - 1, 2 * pos + 1, 2 * pos + 2);
      InTree(|vTxid|, height - 1, 2 * pos + 1);
      FullBits(hash, vTxid, vMatch, height - 1, 2 * pos);
      FullBits(hash, vTxid, vMatch, height - 1, 2 * pos + 1);
    }
  }

  /** The levels up to `height` whose last node has a single child and a match below it. */
  function LopsidedLevels(vMatch: seq<bool>, height: nat): (k: nat)
    ensures k <= height
    decreases height
  {
    if height == 0 || vMatch == [] then 0
    else
      LopsidedLevels(vMatch, height - 1)
      + (if Width(|vMatch|, height - 1) % 2 == 1 && EdgeMatched(vMatch, height) then 1 else 0)
  }

  predicate EdgeMatched(vMatch: seq<bool>, height: nat)
  {
    vMatch != [] && (WidthPositive(|vMatch|, height);
    ParentOfMatch(vMatch, First(height, Width(|vMatch|, height) - 1), |vMatch|))
  }

  lemma {:induction false} WidthPositive(n: nat, height: nat)
    requires n > 0
    ensures Width(n, height) > 0
  {
    if height > 0 { WidthPositive(n, height - 1); }
  }

  /** The last node's last child is the last node one level down. */
  lemma EdgeNested(vMatch: seq<bool>, height: nat)
    requires height > 0 && EdgeMatched(vMatch, height - 1)
    ensures EdgeMatched(vMatch, height)
  {
    WidthPositive(|vMatch|, height);
    var pos := Width(|vMatch|, height) - 1;
    var below := Width(|vMatch|, height - 1) - 1;
    assert below == 2 * pos || below == 2 * pos + 1;
    FirstIncreases(height - 1, 2 * pos, 2 * pos + 1);
    InTree(|vMatch|, height - 1, below);
    MatchedSplit(vMatch, First(height, pos), First(height - 1, below), |vMatch|);
  }

  lemma {:induction false} NoLopsidedBelow(vMatch: seq<bool>, height: nat)
    requires !EdgeMatched(vMatch, height)
    ensures LopsidedLevels(vMatch, height) == 0
    decreases height
  {
    if height > 0 {
      if EdgeMatched(vMatch, height - 1) { EdgeNested(vMatch, height); }
      NoLopsidedBelow(vMatch, height - 1);
    }
  }

  lemma EdgeEnd(n: nat, height: nat)
    requires n > 0
    ensures Width(n, height) > 0 && End(n, height, Width(n, height) - 1) == n
  {
    WidthPositive(n, height);
    InTree(n, height, Width(n, height));
  }

  /** Along the right edge every single child met costs one bit more than a full binary tree. */
  lemma {:induction false} EdgeBits(hash: Pair, vTxid: seq<Hash>, vMatch: seq<bool>, height: nat)
    requires |vMatch| == |vTxid| && vTxid != [] && Width(|vTxid|, height) > 0
    ensures var (bits, hashes) := Sizes(hash, vTxid, vMatch, height, Width(|vTxid|, height) - 1);
      bits == 2 * hashes - 1 + LopsidedLevels(vMatch, height)
    decreases height
  {
    var n, pos := |vTxid|, Width(|vTxid|, height) - 1;
    EdgeEnd(n, height);
    SizesStep(hash, vTxid, vMatch, height, pos);
    if !EdgeMatched(vMatch, height) {
      NoLopsidedBelow(vMatch, height);
    } else if height > 0 {
      Children(n, height, pos);
      InTree(n, height - 1, 2 * pos + 1);
      EdgeBits(hash, vTxid, vMatch, height - 1);
      if 2 * pos + 1 < Width(n, height - 1) {
        FullBits(hash, vTxid, vMatch, height - 1, 2 * pos);
      }
    }
  }

  /** The whole encoding of a block. */
  function Encode(hash: Pair, vTxid: seq<Hash>, vMatch: seq<bool>): (r: Parts)
    requires |vMatch| == |vTxid| > 0
  {
    RootCovers(|vTxid|);
    Build(hash, vTxid, vMatch, TreeHeight(|vTxid|, 0), 0)
  }

  /** The size bounds: N is at most the number of transactions and at most one more than the matches times
      the height; the flag bits number at most 2N-1 plus the height. */
  lemma EncodedSize(hash: Pair, vTxid: seq<Hash>, vMatch: seq<bool>)
    requires |vMatch| == |vTxid| > 0
    ensures var parts, height := Encode(hash, vTxid, vMatch), TreeHeight(|vTxid|, 0);
      && 1 <= |parts.vHash| <= |vTxid| && |parts.vHash| <= |parts.vBits|
      && |parts.vHash| <= 1 + |Matched(vMatch, 0, |vMatch|)| * height
      && |parts.vBits| <= 2 * |parts.vHash| - 1 + height
  {
    RootCovers(|vTxid|);
    var height := TreeHeight(|vTxid|, 0);
    HashesAtMostLeaves(hash, vTxid, vMatch, height, 0);
    HashesAtMostPaths(hash, vTxid, vMatch, height, 0);
    EdgeBits(hash, vTxid, vMatch, height);
  }

  /** The documented bound of 2N-1 flag bits holds exactly when no level ends in a single child with a match
      below it. */
  lemma BitBoundExact(hash: Pair, vTxid: seq<Hash>, vMatch: seq<bool>)
    requires |vMatch| == |vTxid| > 0
    ensures var parts := Encode(hash, vTxid, vMatch);
      |parts.vBits| <= 2 * |parts.vHash| - 1 <==> LopsidedLevels(vMatch, TreeHeight(|vTxid|, 0)) == 0
  {
    RootCovers(|vTxid|);
    EdgeBits(hash, vTxid, vMatch, TreeHeight(|vTxid|, 0));
  }

  // ---------------------------------------------------------------- the size on the wire

  /** How many bytes a compact size takes. */
  function CompactSizeLength(n: nat): (r: nat)
  {
    if n < 253 then 1 else if n <= 0xffff then 3 else if n <= 0xffff_ffff then 5 else 9
  }

  function FlagBytes(bits: nat): (r: nat) { (bits + 7) / 8 }

  /** Transaction count, hashes and flag bytes with their counts. */
  function WireSize(bits: nat, hashes: nat): (r: nat)
  {
    4 + CompactSizeLength(hashes) + 32 * hashes + CompactSizeLength(FlagBytes(bits)) + FlagBytes(bits)
  }

  /** 10 + ceil(32.25 * N), as documented. */
  function DocumentedSize(hashes: nat): (r: nat) { 10 + (129 * hashes + 3) / 4 }

  /** The bytes that the flag bits take beyond a quarter of N, rounded up. */
  function ExtraBytes(hashes: nat, lopsided: nat): (r: nat) { ((2 * hashes + 6) % 8 + lopsided) / 8 }

  lemma SizeSplit(hashes: nat, lopsided: nat)
    requires hashes > 0
    ensures WireSize(2 * hashes - 1 + lopsided, hashes) - DocumentedSize(hashes)
         == CompactSizeLength(hashes) + CompactSizeLength(FlagBytes(2 * hashes - 1 + lopsided)) + ExtraBytes(hashes, lopsided) - 6
  {
    QuarterSplit(hashes);
    EighthSplit(2 * hashes + 6, lopsided);
  }

  lemma QuarterSplit(n: nat)
    ensures (129 * n + 3) / 4 == 32 * n + (n + 3) / 4 && (n + 3) / 4 == (2 * n + 6) / 8
  {}

  lemma EighthSplit(m: nat, l: nat)
    ensures (m + l) / 8 == m / 8 + (m % 8 + l) / 8
  {}

  lemma SizeCases(n: nat, lopsided: nat, bits: nat)
    requires 0 < n <= 133333 && lopsided <= 18 && bits == 2 * n - 1 + lopsided
    ensures WireSize(bits, n) <= DocumentedSize(n) + 5
    ensures WireSize(bits, n) <= DocumentedSize(n)
       <==> CompactSizeLength(n) + CompactSizeLength(FlagBytes(bits)) + ExtraBytes(n, lopsided) <= 6
    ensures n <= 252 ==> WireSize(bits, n) <= DocumentedSize(n)
    ensures n >= 0x1_0000 ==> WireSize(bits, n) > DocumentedSize(n)
  {
    SizeSplit(n, lopsided);
    assert FlagBytes(bits) <= 0xffff && ExtraBytes(n, lopsided) <= 3;
    assert n <= 252 ==> FlagBytes(bits) < 253;
    assert n >= 0x1_0000 ==> FlagBytes(bits) >= 253;
  }

  /** For a block within the count limit the encoding takes at most 5 bytes more than documented. It takes no
      more than documented if and only if the two counts and the lopsided levels leave it within 6 bytes; so
      always for up to 252 hashes, and never from 65536 hashes on. */
  lemma WireSizeExact(hash: Pair, vTxid: seq<Hash>, vMatch: seq<bool>)
    requires |vMatch| == |vTxid| && 0 < |vTxid| <= MAX_BLOCK_WEIGHT / MIN_TRANSACTION_WEIGHT
    ensures var parts, lopsided := Encode(hash, vTxid, vMatch), LopsidedLevels(vMatch, TreeHeight(|vTxid|, 0));
      var (bits, n) := (|parts.vBits|, |parts.vHash|);
      && WireSize(bits, n) <= DocumentedSize(n) + 5
      && (WireSize(bits, n) <= DocumentedSize(n)
          <==> CompactSizeLength(n) + CompactSizeLength(FlagBytes(bits)) + ExtraBytes(n, lopsided) <= 6)
      && (n <= 252 ==> WireSize(bits, n) <= DocumentedSize(n))
      && (n >= 0x1_0000 ==> WireSize(bits, n) > DocumentedSize(n))
  {
    RootCovers(|vTxid|);
    var height := TreeHeight(|vTxid|, 0);
    EdgeBits(hash, vTxid, vMatch, height);
    HashesAtMostLeaves(hash, vTxid, vMatch, height, 0);
    NoOverflow(|vTxid|, height, 0);
    var parts := Encode(hash, vTxid, vMatch);
    SizeCases(|parts.vHash|, LopsidedLevels(vMatch, height), |parts.vBits|);
  }

  lemma {:induction false} AllMatchedHashes(hash: Pair, vTxid: seq<Hash>, vMatch: seq<bool>, height: nat, pos: nat)
    requires |vMatch| == |vTxid| && pos < Width(|vTxid|, height) && forall i :: 0 <= i < |vMatch| ==> vMatch[i]
    ensures Sizes(hash, vTxid, vMatch, height, pos).1 == End(|vTxid|, height, pos) - First(height, pos)
    decreases height
  {
    SizesStep(hash, vTxid, vMatch, height, pos);
    SomeLeaves(|vTxid|, height, pos);
    if Descends(vTxid, vMatch, height, pos) {
      Children(|vTxid|, height, pos);
      AllMatchedHashes(hash, vTxid, vMatch, height - 1, 2 * pos);
      if 2 * pos + 1 < Width(|vTxid|, height - 1) {
        AllMatchedHashes(hash, vTxid, vMatch, height - 1, 2 * pos + 1);
      }
    }
  }

  /** A block of 65536 or more transactions, all matched, is larger than documented. */
  lemma DocumentedSizeFails(hash: Pair, vTxid: seq<Hash>, vMatch: seq<bool>)
    requires |vMatch| == |vTxid| && forall i :: 0 <= i < |vMatch| ==> vMatch[i]
    requires 0x1_0000 <= |vTxid| <= MAX_BLOCK_WEIGHT / MIN_TRANSACTION_WEIGHT
    ensures var parts := Encode(hash, vTxid, vMatch); WireSize(|parts.vBits|, |parts.vHash|) > DocumentedSize(|vTxid|)
    ensures |Encode(hash, vTxid, vMatch).vHash| == |vTxid|
  {
    RootCovers(|vTxid|);
    AllMatchedHashes(hash, vTxid, vMatch, TreeHeight(|vTxid|, 0), 0);
    WireSizeExact(hash, vTxid, vMatch);
  }

  /** Three transactions with only the last one matched take four bits for two hashes. */
  lemma BitBoundFails(hash: Pair, a: Hash, b: Hash, c: Hash)
    ensures var parts := Encode(hash, [a, b, c], [false, false, true]);
      |parts.vBits| == 4 && |parts.vHash| == 2
  {
    var vTxid, vMatch := [a, b, c], [false, false, true];
    assert Width(3, 1) == 2 && Width(3, 2) == 1;
    assert TreeHeight(3, 2) == 2;
    assert TreeHeight(3, 0) == TreeHeight(3, 1) == 2;
    RootCovers(3);
    assert First(1, 1) == 2 && First(2, 0) == 0;
    assert Matched(vMatch, 2, 3) == [2];
    assert EdgeMatched(vMatch, 1);
    EdgeNested(vMatch, 2);
    assert LopsidedLevels(vMatch, 1) == 1;
    assert LopsidedLevels(vMatch, 2) == 1;
    EdgeBits(hash, vTxid, vMatch, 2);
    SizesStep(hash, vTxid, vMatch, 2, 0);
    assert Matched(vMatch, 1, 2) == [] && Matched(vMatch, 0, 2) == [];
    assert First(1, 0) == 0;
    SizesStep(hash, vTxid, vMatch, 1, 0);
    SizesStep(hash, vTxid, vMatch, 1, 1);
    SizesStep(hash, vTxid, vMatch, 0, 2);
  }

  // ---------------------------------------------------------------- machine integers

  const UINT32_LIMIT := 0x1_0000_0000

  lemma TwoTo18()
    ensures Pow(2, 18) == 262144
  {
    assert Pow(2, 3) == 8;
    PowAdd(2, 3, 3);
    PowAdd(2, 6, 6);
    PowAdd(2, 12, 6);
  }

  /** Within the count limit of ExtractMatches the height is at most 18 and no shift or sum of the C++
      `unsigned int` expressions wraps. */
  lemma NoOverflow(n: nat, height: nat, pos: nat)
    requires 0 < n <= MAX_BLOCK_WEIGHT / MIN_TRANSACTION_WEIGHT && height <= TreeHeight(n, 0) && pos < Width(n, height)
    ensures TreeHeight(n, 0) <= 18
    ensures n + Pow(2, height) - 1 < UINT32_LIMIT && First(height, pos) < First(height, pos + 1) < UINT32_LIMIT
  {
    InTree(n, 18, 1);
    FirstFormula(18, 1);
    TwoTo18();
    assert Width(n, 18) <= 1;
    PowMonotone(2, height, 18);
    InTree(n, height, pos);
    FirstIncreases(height, pos, pos + 1);
    FirstFormula(height, pos);
    FirstFormula(height, pos + 1);
    assert (pos + 1) * Pow(2, height) == pos * Pow(2, height) + Pow(2, height);
  }
}
