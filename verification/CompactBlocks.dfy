/**
  Compact block relay of src/blockencodings.cpp (BIP 152): announcing a block, matching it against known
  transactions, and filling in the rest.
 */
module CompactBlocks {
  import opened Prelude
  import opened IndexCoding
  import opened CompactSlots
  import opened CompactScan
  import opened CompactKnown

  datatype ReadStatus = READ_STATUS_OK | READ_STATUS_INVALID | READ_STATUS_FAILED | READ_STATUS_CHECKBLOCK_FAILED

  /** What CheckBlock says of the rebuilt transactions. */
  datatype Verdict = Good | CorruptionPossible | Bad

  function StatusOf(v: Verdict): (r: ReadStatus)
  {
    match v
    case Good => READ_STATUS_OK
    case CorruptionPossible => READ_STATUS_FAILED
    case Bad => READ_STATUS_CHECKBLOCK_FAILED
  }

  /** The short ids are distinct and none makes a bucket of the id map too full. */
  predicate IdsOk(ids: seq<nat>, crowded: seq<nat> -> bool)
  {
    Distinct(ids) && Roomy(ids, crowded, |ids|)
  }

  /** No bucket is too full after any of the first n insertions. */
  predicate Roomy(ids: seq<nat>, crowded: seq<nat> -> bool, n: nat)
    requires n <= |ids|
  {
    forall k :: 0 < k <= n ==> !crowded(ids[..k])
  }

  lemma RoomyStep(ids: seq<nat>, crowded: seq<nat> -> bool, n: nat)
    requires n < |ids| && Roomy(ids, crowded, n)
    ensures Roomy(ids, crowded, n + 1) <==> !crowded(ids[..n + 1])
    ensures crowded(ids[..n + 1]) ==> !IdsOk(ids, crowded)
  {}

  /** The announcements whose search for the first free slot never ends. */
  predicate Endless(c: Announcement)
  {
    |c.prefilledtxn| >= LIMIT && c.shorttxids != []
  }

  class PartiallyDownloadedBlock {
    var txn_available: Slots
    var header: Option<nat>
    var prefilled_count: nat
    var mempool_count: int

    constructor ()
      ensures header == None && txn_available == [] && prefilled_count == 0 && mempool_count == 0
    {
      txn_available, header, prefilled_count, mempool_count := [], None, 0, 0;
    }

    /** None means that the call never returns. crowded stands for the bucket sizes of the id map. */
    method InitData(c: Announcement, sid: ShortId, crowded: seq<nat> -> bool, vTxHashes: seq<Entry>, extra_txn: seq<Entry>)
      returns (status: Option<ReadStatus>)
      requires header == None && txn_available == [] && mempool_count == 0
      modifies this
      ensures status == if !Accepts(c) then Some(READ_STATUS_INVALID)
                        else if Endless(c) then None
                        else if !IdsOk(c.shorttxids, crowded) then Some(READ_STATUS_FAILED) else Some(READ_STATUS_OK)
      ensures status == Some(READ_STATUS_OK) ==> header == c.header && txn_available == Matched(c, sid, vTxHashes, extra_txn)
    {
      if c.header.None? || (c.shorttxids == [] && c.prefilledtxn == []) {
        return Some(READ_STATUS_INVALID);
      }
      if |c.shorttxids| + |c.prefilledtxn| > MAX_TXS {
        return Some(READ_STATUS_INVALID);
      }
      header := c.header;
      txn_available := NoneYet(BlockTxCount(c));
      var ok := Prefill(c);
      if !ok {
        return Some(READ_STATUS_INVALID);
      }
      prefilled_count := |c.prefilledtxn|;
      PlacedFree(c, |c.prefilledtxn|);
      SearchCases(c);
      var found, shorttxids := FindSlots(c.shorttxids, crowded);
      if found.None? {
        return None;
      }
      if !found.value {
        return Some(READ_STATUS_FAILED);
      }
      MatchAll(c, shorttxids, |c.shorttxids|, sid, vTxHashes, extra_txn);
      return Some(READ_STATUS_OK);
    }

    /** Both scans. */
    method MatchAll(ghost c: Announcement, m: map<nat, nat>, n: nat, sid: ShortId, vTxHashes: seq<Entry>, extra_txn: seq<Entry>)
      requires Accepts(c) && txn_available == Placed(c, |c.prefilledtxn|) && mempool_count == 0
      requires |Free(txn_available)| == |c.shorttxids| == n && m == MapOf(c)
      modifies this`txn_available, this`mempool_count
      ensures txn_available == Matched(c, sid, vTxHashes, extra_txn)
    {
      var have_txn := seq(|txn_available|, _ => false);
      MapFits(c.shorttxids, txn_available);
      have_txn := ScanEntries(m, n, sid, vTxHashes, true, have_txn);
      have_txn := ScanEntries(m, n, sid, extra_txn, false, have_txn);
    }

    /** The loop over the prefilled transactions. */
    method Prefill(c: Announcement) returns (ok: bool)
      requires 0 < BlockTxCount(c) <= MAX_TXS && txn_available == NoneYet(BlockTxCount(c))
      modifies this`txn_available
      ensures ok <==> PlacesOk(c, |c.prefilledtxn|)
      ensures ok ==> txn_available == Placed(c, |c.prefilledtxn|)
    {
      var lastprefilledindex := -1;
      for i := 0 to |c.prefilledtxn|
        invariant PlacesOk(c, i) && txn_available == Placed(c, i)
        invariant lastprefilledindex == if i == 0 then -1 else Pos(c.prefilledtxn, i - 1)
      {
        if c.prefilledtxn[i].tx.isNull {
          assert !PlaceOk(c, i);
          return false;
        }
        lastprefilledindex := lastprefilledindex + c.prefilledtxn[i].index + 1;
        assert lastprefilledindex == Pos(c.prefilledtxn, i);
        if lastprefilledindex >= LIMIT || lastprefilledindex > |c.shorttxids| + i {
          assert !PlaceOk(c, i);
          return false;
        }
        assert PlaceOk(c, i);
        txn_available := txn_available[lastprefilledindex := Some(c.prefilledtxn[i].tx)];
      }
      return true;
    }

    /** The first i short ids have been assigned; the offset leads to the slot of the last one. */
    ghost predicate Assigned(ids: seq<nat>, i: nat, offset: nat, m: map<nat, nat>)
      requires i <= |ids| == |Free(txn_available)|
      reads this
    {
      && offset < LIMIT && (if i == 0 then offset == 0 else i - 1 + offset == Free(txn_available)[i - 1])
      && m == SlotMap(ids[..i], Free(txn_available))
    }

    /** The loop that assigns the short ids to the free slots; None when a search never ends. */
    method FindSlots(ids: seq<nat>, crowded: seq<nat> -> bool) returns (ok: Option<bool>, m: map<nat, nat>)
      requires |ids| == |Free(txn_available)|
      requires |txn_available| - |ids| < LIMIT || ids == [] || Blocked(txn_available)
      ensures ok == if ids != [] && Blocked(txn_available) then None else Some(IdsOk(ids, crowded))
      ensures ok == Some(true) ==> m == SlotMap(ids, Free(txn_available))
    {
      var index_offset: nat := 0;
      m := map[];
      ghost var blocked := ids != [] && Blocked(txn_available);
      for i := 0 to |ids|
        invariant Assigned(ids, i, index_offset, m) && Roomy(ids, crowded, i) && (i > 0 ==> !blocked)
      {
        var next;
        next, m := AssignNext(ids, i, index_offset, m);
        if next.None? {
          return None, m;
        }
        index_offset := next.value;
        RoomyStep(ids, crowded, i);
        if crowded(ids[..i + 1]) {
          return Some(false), m;
        }
      }
      assert ids[..|ids|] == ids;
      MapSize(ids, Free(txn_available));
      return Some(|m| == |ids|), m;
    }

    /** One round of the loop. */
    method AssignNext(ids: seq<nat>, i: nat, offset: nat, m0: map<nat, nat>) returns (next: Option<nat>, m: map<nat, nat>)
      requires i < |ids| == |Free(txn_available)| && Assigned(ids, i, offset, m0)
      requires |txn_available| - |ids| < LIMIT || Blocked(txn_available)
      requires i > 0 ==> !Blocked(txn_available)
      ensures next.None? <==> Blocked(txn_available)
      ensures next.Some? ==> Assigned(ids, i + 1, next.value, m)
    {
      if |txn_available| - |ids| < LIMIT { NotBlocked(txn_available); }
      m := m0;
      next := SearchFree(i, offset);
      if next.Some? {
        MapStep(ids, Free(txn_available), i);
        m := m[ids[i] := (i + next.value) % LIMIT];
      }
    }

    /** The inner search with its 16-bit offset. When the offset has been through all its values and every slot
        it reaches is taken, the search goes round for ever; the model notices that by counting. */
    method SearchFree(i: nat, offset: nat) returns (index_offset: Option<nat>)
      requires i < |Free(txn_available)|
      requires |txn_available| - |Free(txn_available)| < LIMIT || (i == 0 && Blocked(txn_available))
      requires if i == 0 then offset == 0 else i - 1 + offset == Free(txn_available)[i - 1]
      ensures index_offset.None? <==> i == 0 && Blocked(txn_available)
      ensures index_offset.Some? ==> i + index_offset.value == Free(txn_available)[i] && index_offset.value < LIMIT
    {
      ghost var blocked := i == 0 && Blocked(txn_available);
      if !blocked { SearchStart(txn_available, i, offset); }
      var o, steps := offset, 0;
      while txn_available[i + o].Some?
        invariant o < LIMIT && (!blocked ==> i + o <= Free(txn_available)[i] && offset + steps == o)
        invariant blocked ==> o == steps % LIMIT
        invariant !blocked && i > 0 ==> Free(txn_available)[i - 1] < i + o
        invariant steps <= LIMIT
        decreases LIMIT - steps
      {
        if steps == LIMIT {
          return None;
        }
        o := (o + 1) % LIMIT;
        steps := steps + 1;
      }
      NextFree(txn_available, i, o);
      return Some(o);
    }

    /** One round of a scan. */
    method Take(m: map<nat, nat>, shortid: nat, tx: Tx, strict: bool, have: seq<bool>) returns (have_txn: seq<bool>)
      requires Fits(Progress(txn_available, have, mempool_count), m)
      modifies this`txn_available, this`mempool_count
      ensures Progress(txn_available, have_txn, mempool_count)
           == Consider(m, old(Progress(txn_available, have, mempool_count)), shortid, tx, strict)
    {
      have_txn := have;
      if shortid in m {
        var slot := m[shortid];
        if !have_txn[slot] {
          txn_available := txn_available[slot := Some(tx)];
          have_txn := have_txn[slot := true];
          mempool_count := mempool_count + 1;
        } else if txn_available[slot].Some? && (strict || txn_available[slot].value.witnessHash != tx.witnessHash) {
          txn_available := txn_available[slot := None];
          mempool_count := mempool_count - 1;
        }
      }
    }

    /** The loop over the mempool, and the one over the extra transactions. */
    method ScanEntries(m: map<nat, nat>, n: nat, sid: ShortId, es: seq<Entry>, strict: bool, have: seq<bool>)
      returns (have_txn: seq<bool>)
      requires Fits(Progress(txn_available, have, mempool_count), m)
      modifies this`txn_available, this`mempool_count
      ensures Progress(txn_available, have_txn, mempool_count)
           == Scan(sid, m, es, 0, old(Progress(txn_available, have, mempool_count)), n, strict)
    {
      ghost var result := Scan(sid, m, es, 0, Progress(txn_available, have, mempool_count), n, strict);
      have_txn := have;
      for i := 0 to |es|
        invariant Fits(Progress(txn_available, have_txn, mempool_count), m)
        invariant result == Scan(sid, m, es, i, Progress(txn_available, have_txn, mempool_count), n, strict)
      {
        have_txn := Take(m, sid(es[i].hash), es[i].tx, strict, have_txn);
        if mempool_count == n {
          return;
        }
      }
    }

    predicate IsTxAvailable(index: nat)
      requires header.Some? && index < |txn_available|
      reads this
    {
      txn_available[index].Some?
    }

    /** The block is header and vtx; check is CheckBlock under that header. */
    method FillBlock(check: seq<Tx> -> Verdict, vtx_missing: seq<Tx>) returns (status: ReadStatus, vtx: seq<Tx>)
      requires header.Some?
      modifies this
      ensures |vtx_missing| != old(|Free(txn_available)|) ==> status == READ_STATUS_INVALID
      ensures |vtx_missing| == old(|Free(txn_available)|) ==>
        && vtx == Merge(old(txn_available), vtx_missing)
        && (status == READ_STATUS_OK <==> check(vtx) == Good)
        && (status == READ_STATUS_FAILED <==> check(vtx) == CorruptionPossible)
        && (status == READ_STATUS_CHECKBLOCK_FAILED <==> check(vtx) == Bad)
      ensures |vtx_missing| >= old(|Free(txn_available)|) ==> header == None && txn_available == []
    {
      ghost var avail := txn_available;
      assert avail[..0] == [];
      var tx_missing_offset := 0;
      vtx := [];
      for i := 0 to |txn_available|
        invariant |txn_available| == |avail| && forall j :: i <= j < |avail| ==> txn_available[j] == avail[j]
        invariant tx_missing_offset == |Free(avail[..i])| <= |vtx_missing|
        invariant vtx == Merge(avail[..i], vtx_missing[..tx_missing_offset])
      {
        if txn_available[i].None? {
          if |vtx_missing| <= tx_missing_offset {
            assert avail[..i + 1][..i] == avail[..i];
            FreePrefix(avail, i + 1);
            return READ_STATUS_INVALID, vtx;
          }
          MergeStep(avail, i, vtx_missing, tx_missing_offset);
          vtx := vtx + [vtx_missing[tx_missing_offset]];
          tx_missing_offset := tx_missing_offset + 1;
        } else {
          MergeStep(avail, i, vtx_missing, tx_missing_offset);
          vtx := vtx + [txn_available[i].value];
          txn_available := txn_available[i := None];
        }
      }
      assert avail[..|avail|] == avail;
      header := None;
      txn_available := [];
      if |vtx_missing| != tx_missing_offset {
        return READ_STATUS_INVALID, vtx;
      }
      assert vtx_missing[..tx_missing_offset] == vtx_missing;
      status := StatusOf(check(vtx));
    }
  }
}
