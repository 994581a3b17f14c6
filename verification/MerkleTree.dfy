/**
  The CPartialMerkleTree class: building, byte packing, reading back and extracting, each tied to the
  functions of MerkleBlock, and the round trip through the serialised form.
 */
module MerkleTree {
  import opened Prelude
  import opened Powers
  import opened Bits
  import opened MerkleBlock
  import opened MerkleSizes

  // ---------------------------------------------------------------- bits in bytes

  /** The bytes hold exactly these bits, padded with zeros. */
  predicate Packs(vBytes: seq<bv8>, vBits: seq<bool>)
  {
    && |vBytes| == (|vBits| + 7) / 8
    && forall p :: 0 <= p < 8 * |vBytes| ==> (BitAt(vBytes, p) <==> p < |vBits| && vBits[p])
  }

  function Unpack(vBytes: seq<bv8>): (vBits: seq<bool>)
    ensures |vBits| == 8 * |vBytes|
  {
    seq(8 * |vBytes|, p requires 0 <= p < 8 * |vBytes| => BitAt(vBytes, p))
  }

  // ---------------------------------------------------------------- the round trip

  /** The serialised fields. */
  datatype Wire = Wire(nTransactions: nat, vHash: seq<Hash>, vBytes: seq<bv8>)

  function Received(w: Wire): (r: Tree) { Tree(w.nTransactions, Unpack(w.vBytes), w.vHash) }

  lemma UnpackPrefix(vBytes: seq<bv8>, vBits: seq<bool>)
    requires Packs(vBytes, vBits)
    ensures |vBits| <= |Unpack(vBytes)| <= |vBits| + 7 && Unpack(vBytes)[0..|vBits|] == vBits
  {
    forall p | 0 <= p < |vBits| ensures Unpack(vBytes)[p] == vBits[p] { assert BitAt(vBytes, p) <==> vBits[p]; }
  }

  /** Padding does not disturb the decoder. */
  lemma EncodedRoundTrip(hash: Pair, vTxid: seq<Hash>, vMatch: seq<bool>, vBytes: seq<bv8>)
    requires PairInjective(hash) && Distinct(vTxid) && |vMatch| == |vTxid| > 0
    requires Packs(vBytes, Encode(hash, vTxid, vMatch).vBits)
    ensures var t := Tree(|vTxid|, Unpack(vBytes), Encode(hash, vTxid, vMatch).vHash);
      && Consumed(t, ExtractRoot(hash, t)) && !ExtractRoot(hash, t).fBad
      && ExtractRoot(hash, t).hash == MerkleRoot(hash, vTxid)
      && ExtractRoot(hash, t).vnIndex == Matched(vMatch, 0, |vMatch|)
      && ExtractRoot(hash, t).vMatch == Pick(vTxid, Matched(vMatch, 0, |vMatch|))
  {
    hide Build, Matched, CalcHash, Extract, Unpack, Packs, TreeHeight, Width;
    var parts, height := Encode(hash, vTxid, vMatch), TreeHeight(|vTxid|, 0);
    var t := Tree(|vTxid|, Unpack(vBytes), parts.vHash);
    RootCovers(|vTxid|);
    UnpackPrefix(vBytes, parts.vBits);
    assert t.vHash[0..|parts.vHash|] == parts.vHash;
    NodeRoundTrip(hash, vTxid, vMatch, t, height, 0, 0, 0);
  }

  /** Building from any mask over distinct transactions within the count limit, packing the flag bits into
      bytes, reading them back with their padding and extracting yields the Merkle root and exactly the
      matched transactions with their positions. */
  lemma RoundTrip(hash: Pair, vTxid: seq<Hash>, vMatch: seq<bool>, vBytes: seq<bv8>)
    requires PairInjective(hash) && Distinct(vTxid)
    requires 0 < |vTxid| == |vMatch| <= MAX_BLOCK_WEIGHT / MIN_TRANSACTION_WEIGHT
    requires Packs(vBytes, Encode(hash, vTxid, vMatch).vBits)
    ensures var t := Received(Wire(|vTxid|, Encode(hash, vTxid, vMatch).vHash, vBytes));
      && Root(hash, t, false) == MerkleRoot(hash, vTxid)
      && Plausible(t) && !ExtractRoot(hash, t).fBad
      && ExtractRoot(hash, t).vnIndex == Matched(vMatch, 0, |vMatch|)
      && ExtractRoot(hash, t).vMatch == Pick(vTxid, Matched(vMatch, 0, |vMatch|))
  {
    EncodedSize(hash, vTxid, vMatch);
    EncodedRoundTrip(hash, vTxid, vMatch, vBytes);
  }

  lemma MatchedNext(vMatch: seq<bool>, lo: nat, p: nat)
    requires lo <= p < |vMatch|
    ensures ParentOfMatch(vMatch, lo, p + 1) == (ParentOfMatch(vMatch, lo, p) || vMatch[p])
  {
    MatchedSplit(vMatch, lo, p, p + 1);
    LeafMatched(vMatch, p, p + 1);
  }

  function Append(a: Parts, b: Parts): (r: Parts)
  {
    Parts(a.vBits + b.vBits, a.vHash + b.vHash)
  }

  lemma AppendAssoc(a: Parts, b: Parts, c: Parts)
    ensures Append(Append(a, b), c) == Append(a, Append(b, c))
  {}

  /** A node whose children are visited, appended behind what was stored before. */
  lemma BuildDescends(hash: Pair, vTxid: seq<Hash>, vMatch: seq<bool>, height: nat, pos: nat, stored: Parts)
    requires Descends(vTxid, vMatch, height, pos)
    ensures 2 * pos < Width(|vTxid|, height - 1)
    ensures var left := Append(Append(stored, Parts([true], [])), Build(hash, vTxid, vMatch, height - 1, 2 * pos));
      Append(stored, Build(hash, vTxid, vMatch, height, pos))
      == if 2 * pos + 1 < Width(|vTxid|, height - 1)
         then Append(left, Build(hash, vTxid, vMatch, height - 1, 2 * pos + 1)) else left
  {
    Children(|vTxid|, height, pos);
    var node, left := Parts([true], []), Build(hash, vTxid, vMatch, height - 1, 2 * pos);
    var parts := Build(hash, vTxid, vMatch, height, pos);
    AppendAssoc(stored, node, left);
    if 2 * pos + 1 < Width(|vTxid|, height - 1) {
      var right := Build(hash, vTxid, vMatch, height - 1, 2 * pos + 1);
      assert parts == Append(Append(node, left), right);
      AppendAssoc(stored, Append(node, left), right);
    } else {
      assert parts == Append(node, left);
    }
  }

  /** The findings below a node are those below its children, left before right. */
  lemma ExtractDescends(hash: Pair, t: Tree, height: nat, pos: nat, nBits: nat, nHash: nat,
                        vMatch0: seq<Hash>, vnIndex0: seq<nat>)
    requires height > 0 && nBits < |t.vBits| && t.vBits[nBits]
    ensures FromChildren(Extract(hash, t, height, pos, nBits, nHash), hash, t, height, pos, nBits + 1, nHash, vMatch0, vnIndex0)
  {
    var l := Extract(hash, t, height - 1, 2 * pos, nBits + 1, nHash);
    if 2 * pos + 1 < Width(t.nTransactions, height - 1) {
      var r := Extract(hash, t, height - 1, 2 * pos + 1, l.nBitsUsed, l.nHashUsed);
      ConcatAssoc(vMatch0, l.vMatch, r.vMatch);
      ConcatAssoc(vnIndex0, l.vnIndex, r.vnIndex);
    }
  }

  lemma ConcatAssoc<T>(a: seq<T>, b: seq<T>, c: seq<T>)
    ensures a + b + c == a + (b + c)
  {}

  predicate FromChildren(f: Found, hash: Pair, t: Tree, height: nat, pos: nat, nBits: nat, nHash: nat,
                         vMatch0: seq<Hash>, vnIndex0: seq<nat>)
    requires height > 0
  {
    var l := Extract(hash, t, height - 1, 2 * pos, nBits, nHash);
    if 2 * pos + 1 < Width(t.nTransactions, height - 1) then
      var r := Extract(hash, t, height - 1, 2 * pos + 1, l.nBitsUsed, l.nHashUsed);
      && f.fBad == (l.fBad || r.fBad || r.hash == l.hash) && f.hash == hash(l.hash, r.hash)
      && f.nBitsUsed == r.nBitsUsed && f.nHashUsed == r.nHashUsed
      && vMatch0 + f.vMatch == vMatch0 + l.vMatch + r.vMatch && vnIndex0 + f.vnIndex == vnIndex0 + l.vnIndex + r.vnIndex
    else f == l.(hash := hash(l.hash, l.hash))
  }

  // ---------------------------------------------------------------- the class

  class CPartialMerkleTree {
    const hash: Pair
    var nTransactions: nat
    var vBits: seq<bool>
    var vHash: seq<Hash>
    var fBad: bool

    function Contents(): (r: Tree)
      reads this
    {
      Tree(nTransactions, vBits, vHash)
    }

    /** The bits and hashes stored so far. */
    function Stored(): (r: Parts)
      reads this
    {
      Parts(vBits, vHash)
    }

    method CalcTreeWidth(height: nat) returns (w: nat)
      ensures w == Width(nTransactions, height)
    {
      WidthFormula(nTransactions, height);
      w := (nTransactions + Pow(2, height) - 1) / Pow(2, height);
    }

    method TraverseAndBuild(height: nat, pos: nat, vTxid: seq<Hash>, vMatch: seq<bool>)
      requires |vMatch| == |vTxid| == nTransactions && pos < Width(nTransactions, height)
      modifies this`vBits, this`vHash
      ensures Stored() == Append(old(Stored()), Build(hash, vTxid, vMatch, height, pos))
      decreases height, 1
    {
      var fParentOfMatch := AnyMatch(height, pos, vMatch);
      vBits := vBits + [fParentOfMatch];
      if height == 0 || !fParentOfMatch {
        vHash := vHash + [CalcHash(hash, vTxid, height, pos)];
      } else {
        BuildDescends(hash, vTxid, vMatch, height, pos, old(Stored()));
        assert Stored() == Append(old(Stored()), Parts([true], []));
        BuildChildren(height, pos, vTxid, vMatch, Append(old(Stored()), Build(hash, vTxid, vMatch, height, pos)));
      }
    }

    /** The branch of TraverseAndBuild that descends; `all` is what it has to leave behind. */
    method BuildChildren(height: nat, pos: nat, vTxid: seq<Hash>, vMatch: seq<bool>, ghost all: Parts)
      requires |vMatch| == |vTxid| == nTransactions && height > 0 && 2 * pos < Width(nTransactions, height - 1)
      requires var left := Append(Stored(), Build(hash, vTxid, vMatch, height - 1, 2 * pos));
        all == if 2 * pos + 1 < Width(nTransactions, height - 1)
               then Append(left, Build(hash, vTxid, vMatch, height - 1, 2 * pos + 1)) else left
      modifies this`vBits, this`vHash
      ensures Stored() == all
      decreases height, 0
    {
      TraverseAndBuild(height - 1, pos * 2, vTxid, vMatch);
      var width := CalcTreeWidth(height - 1);
      if pos * 2 + 1 < width {
        TraverseAndBuild(height - 1, pos * 2 + 1, vTxid, vMatch);
      }
    }

    /** The loop over the leaves below a node. */
    method AnyMatch(height: nat, pos: nat, vMatch: seq<bool>) returns (fParentOfMatch: bool)
      requires |vMatch| == nTransactions && pos < Width(nTransactions, height)
      ensures fParentOfMatch == ParentOfMatch(vMatch, First(height, pos), End(nTransactions, height, pos))
    {
      FirstFormula(height, pos);
      FirstFormula(height, pos + 1);
      SomeLeaves(nTransactions, height, pos);
      var lo, hi := pos * Pow(2, height), (pos + 1) * Pow(2, height);
      fParentOfMatch := false;
      var p := lo;
      while p < hi && p < nTransactions
        invariant lo <= p <= End(nTransactions, height, pos)
        invariant fParentOfMatch == ParentOfMatch(vMatch, lo, p)
      {
        MatchedNext(vMatch, lo, p);
        fParentOfMatch := fParentOfMatch || vMatch[p];
        p := p + 1;
      }
    }

    /** The height loop of the constructor and of ExtractMatches. */
    method Height() returns (nHeight: nat)
      ensures nHeight == TreeHeight(nTransactions, 0)
    {
      nHeight := 0;
      var width := CalcTreeWidth(nHeight);
      while width > 1
        invariant width == Width(nTransactions, nHeight)
        invariant TreeHeight(nTransactions, nHeight) == TreeHeight(nTransactions, 0)
        decreases width
      {
        nHeight := nHeight + 1;
        width := CalcTreeWidth(nHeight);
      }
    }

    /** An empty list of transactions fails the assert of CalcHash. */
    constructor Create(hash: Pair, vTxid: seq<Hash>, vMatch: seq<bool>)
      requires |vMatch| == |vTxid| > 0
      ensures this.hash == hash && nTransactions == |vTxid| && !fBad
      ensures Parts(vBits, vHash) == Encode(hash, vTxid, vMatch)
    {
      this.hash := hash;
      nTransactions, fBad := |vTxid|, false;
      vBits, vHash := [], [];
      new;
      var nHeight := Height();
      RootCovers(nTransactions);
      TraverseAndBuild(nHeight, 0, vTxid, vMatch);
    }

    constructor (hash: Pair)
      ensures this.hash == hash && nTransactions == 0 && vBits == [] && vHash == [] && fBad
    {
      this.hash := hash;
      nTransactions, vBits, vHash, fBad := 0, [], [], true;
    }

    /** Writing: each flag bit is or-ed into its byte. */
    method Serialize() returns (w: Wire)
      ensures w.nTransactions == nTransactions && w.vHash == vHash && Packs(w.vBytes, vBits)
    {
      var vBytes := new bv8[(|vBits| + 7) / 8](_ => 0);
      for p := 0 to |vBits|
        invariant forall q :: 0 <= q < 8 * vBytes.Length ==> (BitAt(vBytes[..], q) <==> q < p && vBits[q])
      {
        ghost var before := vBytes[..];
        vBytes[p / 8] := vBytes[p / 8] | Flag(p % 8, vBits[p]);
        assert vBytes[..] == before[p / 8 := before[p / 8] | Flag(p % 8, vBits[p])];
        forall q | 0 <= q < 8 * vBytes.Length ensures BitAt(vBytes[..], q) <==> q < p + 1 && vBits[q] {
          OrBit(before, p, vBits[p], q);
        }
      }
      return Wire(nTransactions, vHash, vBytes[..]);
    }

    /** Reading: eight bits per byte, padding included. */
    method Unserialize(w: Wire)
      modifies this
      ensures Contents() == Received(w) && !fBad
    {
      hide Bit, HasBit;
      var bits := new bool[|w.vBytes| * 8];
      for p := 0 to bits.Length
        invariant forall q :: 0 <= q < p ==> bits[q] == BitAt(w.vBytes, q)
      {
        bits[p] := HasBit(w.vBytes[p / 8], p % 8);
      }
      assert bits[..] == Unpack(w.vBytes);
      nTransactions, vHash, vBits, fBad := w.nTransactions, w.vHash, bits[..], false;
    }

    method TraverseAndExtract(height: nat, pos: nat, nBits: nat, nHash: nat, vMatch0: seq<Hash>, vnIndex0: seq<nat>)
      returns (h: Hash, nBitsUsed: nat, nHashUsed: nat, vMatch: seq<Hash>, vnIndex: seq<nat>)
      modifies this`fBad
      ensures Reported(Extract(hash, Contents(), height, pos, nBits, nHash), old(fBad), vMatch0, vnIndex0,
                       h, nBitsUsed, nHashUsed, vMatch, vnIndex)
      decreases height, 1
    {
      nBitsUsed, nHashUsed, vMatch, vnIndex := nBits, nHash, vMatch0, vnIndex0;
      if nBitsUsed >= |vBits| {
        fBad := true;
        return NULL_HASH, nBitsUsed, nHashUsed, vMatch, vnIndex;
      }
      var fParentOfMatch := vBits[nBitsUsed];
      nBitsUsed := nBitsUsed + 1;
      if height == 0 || !fParentOfMatch {
        if nHashUsed >= |vHash| {
          fBad := true;
          return NULL_HASH, nBitsUsed, nHashUsed, vMatch, vnIndex;
        }
        h := vHash[nHashUsed];
        nHashUsed := nHashUsed + 1;
        if height == 0 && fParentOfMatch {
          vMatch, vnIndex := vMatch + [h], vnIndex + [pos];
        }
      } else {
        ExtractDescends(hash, Contents(), height, pos, nBits, nHash, vMatch0, vnIndex0);
        h, nBitsUsed, nHashUsed, vMatch, vnIndex :=
          ExtractChildren(height, pos, nBitsUsed, nHashUsed, vMatch, vnIndex,
                          Extract(hash, Contents(), height, pos, nBits, nHash));
      }
    }

    /** The branch of TraverseAndExtract that descends; `f` is what it has to report. */
    method ExtractChildren(height: nat, pos: nat, nBits: nat, nHash: nat, vMatch0: seq<Hash>, vnIndex0: seq<nat>, ghost f: Found)
      returns (h: Hash, nBitsUsed: nat, nHashUsed: nat, vMatch: seq<Hash>, vnIndex: seq<nat>)
      requires height > 0 && FromChildren(f, hash, Contents(), height, pos, nBits, nHash, vMatch0, vnIndex0)
      modifies this`fBad
      ensures Reported(f, old(fBad), vMatch0, vnIndex0, h, nBitsUsed, nHashUsed, vMatch, vnIndex)
      decreases height, 0
    {
      var left;
      left, nBitsUsed, nHashUsed, vMatch, vnIndex :=
        TraverseAndExtract(height - 1, pos * 2, nBits, nHash, vMatch0, vnIndex0);
      var right := left;
      var width := CalcTreeWidth(height - 1);
      if pos * 2 + 1 < width {
        right, nBitsUsed, nHashUsed, vMatch, vnIndex :=
          TraverseAndExtract(height - 1, pos * 2 + 1, nBitsUsed, nHashUsed, vMatch, vnIndex);
        if right == left {
          fBad := true;
        }
      }
      h := hash(left, right);
    }

    /** The traversal left exactly what the function describes behind the caller's earlier findings. */
    ghost predicate Reported(f: Found, bad: bool, vMatch0: seq<Hash>, vnIndex0: seq<nat>,
                             h: Hash, nBitsUsed: nat, nHashUsed: nat, vMatch: seq<Hash>, vnIndex: seq<nat>)
      reads this
    {
      && h == f.hash && nBitsUsed == f.nBitsUsed && nHashUsed == f.nHashUsed && fBad == (bad || f.fBad)
      && vMatch == vMatch0 + f.vMatch && vnIndex == vnIndex0 + f.vnIndex
    }

    /** vMatch is cleared first, vnIndex is not. A tree that was found bad once stays bad. */
    method ExtractMatches(vnIndex0: seq<nat>) returns (root: Hash, vMatch: seq<Hash>, vnIndex: seq<nat>)
      modifies this`fBad
      ensures root == Root(hash, Contents(), old(fBad))
      ensures var f := ExtractRoot(hash, Contents());
        if Plausible(Contents())
        then vMatch == f.vMatch && vnIndex == vnIndex0 + f.vnIndex && fBad == (old(fBad) || f.fBad)
        else vMatch == [] && vnIndex == vnIndex0 && fBad == old(fBad)
    {
      vMatch, vnIndex := [], vnIndex0;
      if nTransactions == 0 {
        return NULL_HASH, vMatch, vnIndex;
      }
      if nTransactions > MAX_BLOCK_WEIGHT / MIN_TRANSACTION_WEIGHT {
        return NULL_HASH, vMatch, vnIndex;
      }
      if |vHash| > nTransactions {
        return NULL_HASH, vMatch, vnIndex;
      }
      if |vBits| < |vHash| {
        return NULL_HASH, vMatch, vnIndex;
      }
      var nHeight := Height();
      var hashMerkleRoot, nBitsUsed, nHashUsed;
      hashMerkleRoot, nBitsUsed, nHashUsed, vMatch, vnIndex := TraverseAndExtract(nHeight, 0, 0, 0, vMatch, vnIndex);
      if fBad {
        return NULL_HASH, vMatch, vnIndex;
      }
      if (nBitsUsed + 7) / 8 != (|vBits| + 7) / 8 {
        return NULL_HASH, vMatch, vnIndex;
      }
      if nHashUsed != |vHash| {
        return NULL_HASH, vMatch, vnIndex;
      }
      return hashMerkleRoot, vMatch, vnIndex;
    }
  }

  /** A peer builds a proof, sends it, and the receiver extracts it. */
  method Relay(hash: Pair, vTxid: seq<Hash>, vMatch: seq<bool>)
    returns (root: Hash, matched: seq<Hash>, index: seq<nat>)
    requires PairInjective(hash) && Distinct(vTxid)
    requires 0 < |vTxid| == |vMatch| <= MAX_BLOCK_WEIGHT / MIN_TRANSACTION_WEIGHT
    ensures root == MerkleRoot(hash, vTxid)
    ensures index == Matched(vMatch, 0, |vMatch|) && matched == Pick(vTxid, index)
  {
    var sender := new CPartialMerkleTree.Create(hash, vTxid, vMatch);
    var w := sender.Serialize();
    var receiver := new CPartialMerkleTree(hash);
    receiver.Unserialize(w);
    RoundTrip(hash, vTxid, vMatch, w.vBytes);
    root, matched, index := receiver.ExtractMatches([]);
  }
}
