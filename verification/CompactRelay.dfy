/**
  A whole exchange by BIP 152, sender and receiver together: announcement (src/blockencodings.cpp), request for
  what is missing and its answer (src/net_processing.cpp), and the rebuilt block.
 */
module CompactRelay {
  import opened Prelude
  import opened IndexCoding
  import opened CompactSlots
  import opened CompactScan
  import opened CompactKnown
  import opened CompactBlocks

  function HashOf(tx: Tx, fUseWTXID: bool): (r: nat)
  {
    if fUseWTXID then tx.witnessHash else tx.hash
  }

  /** The announcement describes the block: prefilled transactions are in their places, and the short ids are
      those of the others in order. */
  predicate Announces(c: Announcement, sid: ShortId, fUseWTXID: bool, vtx: seq<Tx>)
  {
    && Accepts(c) && |vtx| == BlockTxCount(c)
    && var placed := Placed(c, |c.prefilledtxn|);
    && Agrees(placed, vtx) && |Free(placed)| == |c.shorttxids|
    && forall i :: 0 <= i < |c.shorttxids| ==> c.shorttxids[i] == sid(HashOf(vtx[Free(placed)[i]], fUseWTXID))
  }

  /** No known transaction has the short id of a different transaction of the block. */
  predicate NoCollision(sid: ShortId, fUseWTXID: bool, vtx: seq<Tx>, known: seq<Entry>)
  {
    forall e, j :: e in known && 0 <= j < |vtx| && sid(e.hash) == sid(HashOf(vtx[j], fUseWTXID)) ==> e.tx == vtx[j]
  }

  lemma {:induction false} FreeAfterFirst(s: Slots, i: nat)
    requires |s| > 0 && s[0].Some? && |Free(s)| == |s| - 1 && i < |Free(s)|
    ensures Free(s)[i] == i + 1
  {
    OffsetBound(s, i);
    if i > 0 {
      FreeAfterFirst(s, i - 1);
      FreeSorted(s, i - 1, i);
    }
  }

  /** The constructor of CBlockHeaderAndShortTxIDs: only the first transaction is prefilled. */
  method Announce(header: nat, vtx: seq<Tx>, sid: ShortId, fUseWTXID: bool) returns (c: Announcement)
    requires vtx != []
    ensures c.header == Some(header)
    ensures c.prefilledtxn == [Prefilled(0, vtx[0])] && |c.shorttxids| == |vtx| - 1
    ensures forall i :: 0 < i < |vtx| ==> c.shorttxids[i - 1] == sid(if fUseWTXID then vtx[i].witnessHash else vtx[i].hash)
    ensures |vtx| <= MAX_TXS && !vtx[0].isNull ==> Announces(c, sid, fUseWTXID, vtx)
  {
    var shorttxids := [];
    for i := 1 to |vtx|
      invariant |shorttxids| == i - 1
      invariant forall j :: 0 <= j < i - 1 ==> shorttxids[j] == sid(HashOf(vtx[j + 1], fUseWTXID))
    {
      shorttxids := shorttxids + [sid(HashOf(vtx[i], fUseWTXID))];
    }
    c := Announcement(Some(header), shorttxids, [Prefilled(0, vtx[0])]);
    if |vtx| <= MAX_TXS && !vtx[0].isNull { FirstPlaced(c, sid, fUseWTXID, vtx); }
  }

  lemma FirstPlaced(c: Announcement, sid: ShortId, fUseWTXID: bool, vtx: seq<Tx>)
    requires vtx != [] && |vtx| <= MAX_TXS && !vtx[0].isNull && c.header.Some? && c.prefilledtxn == [Prefilled(0, vtx[0])]
    requires |c.shorttxids| == |vtx| - 1
    requires forall j :: 0 <= j < |c.shorttxids| ==> c.shorttxids[j] == sid(HashOf(vtx[j + 1], fUseWTXID))
    ensures Announces(c, sid, fUseWTXID, vtx)
  {
    assert PlaceOk(c, 0);
    PlacedFree(c, 1);
    var placed := Placed(c, 1);
    assert placed == NoneYet(|vtx|)[0 := Some(vtx[0])];
    forall i | 0 <= i < |c.shorttxids| ensures Free(placed)[i] == i + 1 { FreeAfterFirst(placed, i); }
  }

  /** Without collisions, everything the receiver has is what the block has there. */
  lemma KnownAgrees(c: Announcement, sid: ShortId, fUseWTXID: bool, vtx: seq<Tx>, pool: seq<Entry>, extra: seq<Entry>, avail: Slots)
    requires Announces(c, sid, fUseWTXID, vtx) && NoCollision(sid, fUseWTXID, vtx, pool + extra)
    requires Known(c, sid, pool, extra, avail)
    ensures Agrees(avail, vtx)
  {
    var placed := Placed(c, |c.prefilledtxn|);
    forall j | 0 <= j < |avail| && avail[j].Some? ensures avail[j].value == vtx[j] {
      if placed[j].None? {
        var i := FreeComplete(placed, j);
        assert SlotKnown(sid, pool, extra, c.shorttxids[i], avail[j]);
        assert Listed(sid, pool + extra, c.shorttxids[i], avail[j].value);
      }
    }
  }

  /** The receiver's list of what it lacks, in 16-bit numbers. */
  method MissingIndexes(block: PartiallyDownloadedBlock) returns (indexes: seq<nat>)
    requires block.header.Some?
    ensures |block.txn_available| <= LIMIT ==> indexes == Free(block.txn_available)
  {
    indexes := [];
    ghost var avail := block.txn_available;
    for i := 0 to |block.txn_available|
      invariant |avail| <= LIMIT ==> indexes == Free(avail[..i])
    {
      assert avail[..i + 1][..i] == avail[..i];
      if !block.IsTxAvailable(i) {
        indexes := indexes + [i % LIMIT];
      }
    }
    assert avail[..|avail|] == avail;
  }

  /** The sender's answer; None if an index is out of range. */
  method SendBlockTransactions(vtx: seq<Tx>, indexes: seq<nat>) returns (txn: Option<seq<Tx>>)
    ensures txn.Some? <==> forall i :: 0 <= i < |indexes| ==> indexes[i] < |vtx|
    ensures txn.Some? ==> |txn.value| == |indexes| && forall i :: 0 <= i < |indexes| ==> txn.value[i] == vtx[indexes[i]]
  {
    var answer := [];
    for i := 0 to |indexes|
      invariant |answer| == i && forall j :: 0 <= j < i ==> indexes[j] < |vtx| && answer[j] == vtx[indexes[j]]
    {
      if indexes[i] >= |vtx| {
        return None;
      }
      answer := answer + [vtx[indexes[i]]];
    }
    return Some(answer);
  }

  /** The indexes of free slots survive the trip through the index coding. */
  lemma MissingTravels(s: Slots)
    requires |s| <= LIMIT
    ensures AllNarrow(Free(s)) && Decode(Encode(Free(s))) == Some(Free(s))
  {
    forall i | 0 < i < |Free(s)| ensures Free(s)[i - 1] < Free(s)[i] { FreeSorted(s, i - 1, i); }
    RoundTripExact(Free(s));
  }

  /** The exchange rebuilds the block exactly, unless two short ids of the block collide or crowd the map. */
  method Relay(c: Announcement, sid: ShortId, fUseWTXID: bool, vtx: seq<Tx>, crowded: seq<nat> -> bool,
               pool: seq<Entry>, extra: seq<Entry>, check: seq<Tx> -> Verdict)
    returns (status: ReadStatus, rebuilt: seq<Tx>)
    requires Announces(c, sid, fUseWTXID, vtx) && |vtx| <= LIMIT
    requires NoCollision(sid, fUseWTXID, vtx, pool + extra)
    ensures !IdsOk(c.shorttxids, crowded) ==> status == READ_STATUS_FAILED
    ensures IdsOk(c.shorttxids, crowded) ==>
      && rebuilt == vtx
      && (status == READ_STATUS_OK <==> check(vtx) == Good)
      && (status == READ_STATUS_FAILED <==> check(vtx) == CorruptionPossible)
      && (status == READ_STATUS_CHECKBLOCK_FAILED <==> check(vtx) == Bad)
  {
    var block := new PartiallyDownloadedBlock();
    var started := block.InitData(c, sid, crowded, pool, extra);
    status := started.value;
    if status != READ_STATUS_OK {
      return status, [];
    }
    MatchedKnown(c, sid, pool, extra);
    KnownAgrees(c, sid, fUseWTXID, vtx, pool, extra, block.txn_available);
    var missing := MissingIndexes(block);
    MissingTravels(block.txn_available);
    var request := new BlockTransactionsRequest(missing);
    var stream := request.Serialize();
    var received := new BlockTransactionsRequest([]);
    var ok := received.Unserialize(stream);
    var answer := SendBlockTransactions(vtx, received.indexes);
    assert answer.value == MissingOf(block.txn_available, vtx);
    MergeRestores(block.txn_available, vtx);
    status, rebuilt := block.FillBlock(check, answer.value);
  }
}
