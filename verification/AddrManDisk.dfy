/**
  Serialize, Unserialize and Clear of src/addrman.h on the CAddrMan object: the loops over the tables,
  each round performing one round of the functions in AddrManSerialize.
 */
module AddrManDisk {
  import opened Prelude
  import opened AddrManSpec
  import opened AddrManInv
  import opened AddrManSerialize
  import opened AddrMan
  import AddrManRoundTrip

  // ---------------------------------------------------------------- writing

  lemma {:induction false} AscendingGrows(s: set<int>, k: nat, n: nat)
    requires k < n && k in s
    ensures |Ascending(s, k)| < |Ascending(s, n)|
    decreases n
  {
    if k < n - 1 { AscendingGrows(s, k, n - 1); }
  }

  /** The counters agree with the entries that will be written. */
  ghost predicate Counted(s: State) {
    0 <= s.nIdCount && |NewOrder(s)| == s.nNew && |TriedOrder(s)| == s.nTried
  }

  lemma InvCounted(s: State)
    requires Inv(s)
    ensures Counted(s)
  {
    AddrManRoundTrip.OrderFacts(s);
  }

  lemma InfosGrow(s: State, ids: seq<int>, id: int)
    requires id in s.mapInfo && forall i :: 0 <= i < |ids| ==> ids[i] in s.mapInfo
    ensures Infos(s, ids + [id]) == Infos(s, ids) + [ToDisk(s.mapInfo[id])]
  {}

  /** Collects the referenced entries; the C++ assert that nNew is not exceeded holds. */
  method WriteNew(m: CAddrMan) returns (ids: seq<int>, infos: seq<Disk>)
    requires Counted(m.Abs())
    ensures ids == NewOrder(m.Abs()) && infos == Infos(m.Abs(), ids)
  {
    ids, infos := [], [];
    ghost var s := m.Abs();
    ghost var referenced := Referenced(s);
    for id := 0 to m.nIdCount
      invariant ids == Ascending(referenced, id) && infos == Infos(s, ids)
    {
      if id in m.mapInfo && m.mapInfo[id].nRefCount != 0 {
        AscendingGrows(referenced, id, m.nIdCount);
        assert |infos| != m.nNew;
        InfosGrow(s, ids, id);
        ids := ids + [id];
        infos := infos + [ToDisk(m.mapInfo[id])];
      }
    }
  }

  method WriteTried(m: CAddrMan) returns (infos: seq<Disk>)
    requires Counted(m.Abs())
    ensures infos == Infos(m.Abs(), TriedOrder(m.Abs()))
  {
    var ids := [];
    infos := [];
    ghost var s := m.Abs();
    ghost var tried := TriedIds(s);
    for id := 0 to m.nIdCount
      invariant ids == Ascending(tried, id) && infos == Infos(s, ids)
    {
      if id in m.mapInfo && m.mapInfo[id].fInTried {
        AscendingGrows(tried, id, m.nIdCount);
        assert |infos| != m.nTried;
        InfosGrow(s, ids, id);
        ids := ids + [id];
        infos := infos + [ToDisk(m.mapInfo[id])];
      }
    }
  }

  method WriteBucket(m: CAddrMan, order: seq<int>, bucket: nat) returns (indexes: seq<int>)
    requires m.Shaped() && bucket < ADDRMAN_NEW_BUCKET_COUNT
    ensures indexes == BucketIndexes(m.Abs(), order, bucket, ADDRMAN_BUCKET_SIZE)
  {
    indexes := [];
    for i := 0 to ADDRMAN_BUCKET_SIZE
      invariant indexes == BucketIndexes(m.Abs(), order, bucket, i)
    {
      if m.vvNew[bucket, i] != -1 {
        assert Slot(bucket, i) in m.Abs().vvNew;
        indexes := indexes + [Index(order, m.vvNew[bucket, i])];
      } else {
        assert Slot(bucket, i) !in m.Abs().vvNew;
      }
    }
  }

  method Serialize(m: CAddrMan) returns (strm: Stream)
    requires m.Shaped() && Inv(m.Abs())
    ensures strm == AddrManSerialize.Serialize(m.Abs())
  {
    InvCounted(m.Abs());
    var ids, newInfos := WriteNew(m);
    var triedInfos := WriteTried(m);
    var buckets := [];
    for bucket := 0 to ADDRMAN_NEW_BUCKET_COUNT
      invariant |buckets| == bucket
      invariant forall b :: 0 <= b < bucket ==> buckets[b] == BucketIndexes(m.Abs(), ids, b, ADDRMAN_BUCKET_SIZE)
    {
      var indexes := WriteBucket(m, ids, bucket);
      buckets := buckets + [indexes];
    }
    strm := Stream(1, 32, m.nKey, m.nNew, m.nTried, ToggleBit30(ADDRMAN_NEW_BUCKET_COUNT), newInfos, triedInfos, buckets);
  }

  // ---------------------------------------------------------------- reading

  method WipeTable(a: array2<int>)
    modifies a
    ensures TableOf(a) == map[]
  {
    for b := 0 to a.Length0
      invariant forall i, j :: 0 <= i < b && 0 <= j < a.Length1 ==> a[i, j] == -1
    {
      for p := 0 to a.Length1
        invariant forall i, j :: 0 <= i < b && 0 <= j < a.Length1 ==> a[i, j] == -1
        invariant forall j :: 0 <= j < p ==> a[b, j] == -1
      {
        a[b, p] := -1;
      }
    }
  }

  /** Clear, with the random key as a parameter. The collision set is not touched. */
  method Clear(m: CAddrMan, nKey: Hash)
    requires m.Shaped()
    modifies m, m.vvNew, m.vvTried
    ensures m.Abs() == Cleared(m.h, nKey, old(m.m_tried_collisions))
  {
    m.vRandom := [];
    m.nKey := nKey;
    WipeTable(m.vvNew);
    WipeTable(m.vvTried);
    m.nIdCount, m.nTried, m.nNew, m.nLastGood := 0, 0, 0, 1;
    m.mapInfo, m.mapAddr := map[], map[];
  }

  /** One round of the first loop. */
  method LoadNewEntry(m: CAddrMan, strm: Stream, n: nat)
    requires m.Shaped() && Readable(strm) && n < strm.nNew
    modifies m, m.vvNew
    ensures m.Abs() == ReadNewEntry(old(m.Abs()), strm, n)
  {
    var info := FromDisk(strm.newInfos[n]).(nRandomPos := |m.vRandom|);
    m.mapInfo := m.mapInfo[n := info];
    m.mapAddr := m.mapAddr[info.addr.svc.ip := n];
    m.vRandom := m.vRandom + [n];
    if !UsesBuckets(strm) {
      var slot := m.SourceSlotOf(info.addr.svc, info.source);
      if m.vvNew[slot.bucket, slot.pos] == -1 {
        m.Place(slot, n);
      }
    }
  }

  /** One round of the second loop. */
  method LoadTriedEntry(m: CAddrMan, lost: nat, strm: Stream, n: nat) returns (nLost: nat)
    requires m.Shaped() && Readable(strm) && n < strm.nTried && m.nIdCount >= 0
    modifies m, m.vvTried
    ensures (m.Abs(), nLost) == ReadTriedEntry(old(m.Abs()), lost, strm, n) && m.nIdCount >= 0
  {
    var info := FromDisk(strm.triedInfos[n]);
    var slot := m.TriedSlotOf(info.addr.svc);
    if m.vvTried[slot.bucket, slot.pos] != -1 {
      return lost + 1;
    }
    CreateTried(m, info);
    Write(m.vvTried, slot, m.nIdCount - 1);
    return lost;
  }

  method CreateTried(m: CAddrMan, info: Info)
    requires m.nIdCount >= 0
    modifies m`mapAddr, m`mapInfo, m`vRandom, m`nIdCount
    ensures var s := old(m.Abs());
      m.Abs() == s.(mapInfo := s.mapInfo[s.nIdCount := info.(nRandomPos := |s.vRandom|, fInTried := true)],
                    mapAddr := s.mapAddr[info.addr.svc.ip := s.nIdCount],
                    vRandom := s.vRandom + [s.nIdCount], nIdCount := s.nIdCount + 1)
  {
    m.mapAddr := m.mapAddr[info.addr.svc.ip := m.nIdCount];
    m.mapInfo := m.mapInfo[m.nIdCount := info.(nRandomPos := |m.vRandom|, fInTried := true)];
    m.vRandom := m.vRandom + [m.nIdCount];
    m.nIdCount := m.nIdCount + 1;
  }

  /** One index of the third loop. */
  method LoadIndex(m: CAddrMan, strm: Stream, bucket: nat, index: int)
    requires m.Shaped() && Readable(strm) && (UsesBuckets(strm) ==> bucket < ADDRMAN_NEW_BUCKET_COUNT)
    requires forall i :: 0 <= i < strm.nNew ==> i in m.mapInfo
    modifies m, m.vvNew
    ensures m.Abs() == ReadIndex(old(m.Abs()), strm, bucket, index)
  {
    if 0 <= index < strm.nNew && UsesBuckets(strm) {
      var info := m.mapInfo[index];
      var slot := m.NewSlotOf(info.addr.svc, bucket);
      if m.vvNew[slot.bucket, slot.pos] == -1 && info.nRefCount < ADDRMAN_NEW_BUCKETS_PER_ADDRESS {
        m.Place(slot, index);
      }
    }
  }

  method LoadBucket(m: CAddrMan, strm: Stream, bucket: nat)
    requires m.Shaped() && Readable(strm) && bucket < |strm.buckets|
    requires forall i :: 0 <= i < strm.nNew ==> i in m.mapInfo
    modifies m, m.vvNew
    ensures m.Abs() == ReadBucket(old(m.Abs()), strm, bucket, |strm.buckets[bucket]|)
  {
    for n := 0 to |strm.buckets[bucket]|
      invariant forall i :: 0 <= i < strm.nNew ==> i in m.mapInfo
      invariant m.Abs() == ReadBucket(old(m.Abs()), strm, bucket, n)
    {
      LoadIndex(m, strm, bucket, strm.buckets[bucket][n]);
    }
  }

  /** Deletes one lost entry unless an assert of Delete or SwapRandom fails. */
  method DeleteLost(m: CAddrMan, id: int) returns (ok: bool)
    requires m.Shaped()
    modifies m`mapInfo, m`mapAddr, m`vRandom, m`nNew
    ensures ok == CanDelete(old(m.Abs()), id)
    ensures ok ==> m.Abs() == Delete(old(m.Abs()), id)
  {
    if id !in m.mapInfo {
      return false;
    }
    var info := m.mapInfo[id];
    var last := |m.vRandom| - 1;
    if info.fInTried || info.nRefCount != 0 || info.nRandomPos < 0 || info.nRandomPos > last {
      return false;
    }
    if m.vRandom[info.nRandomPos] !in m.mapInfo || m.vRandom[last] !in m.mapInfo {
      return false;
    }
    m.Delete(id);
    return true;
  }

  /** The last loop of Unserialize over the given lost entries. */
  method PruneLost(m: CAddrMan, ids: seq<int>) returns (ok: bool)
    requires m.Shaped()
    modifies m`mapInfo, m`mapAddr, m`vRandom, m`nNew
    ensures ok == Prune(old(m.Abs()), ids).Some?
    ensures ok ==> m.Abs() == Prune(old(m.Abs()), ids).value
  {
    ghost var result := Prune(m.Abs(), ids);
    for i := 0 to |ids|
      invariant Prune(m.Abs(), ids[i..]) == result
    {
      ghost var s := m.Abs();
      assert ids[i..][0] == ids[i] && ids[i..][1..] == ids[i + 1..];
      ok := DeleteLost(m, ids[i]);
      if !ok {
        return;
      }
      assert Prune(s, ids[i..]) == Prune(m.Abs(), ids[i + 1..]);
    }
    assert ids[|ids|..] == [];
    return true;
  }

  method LoadHeader(m: CAddrMan, strm: Stream)
    requires Readable(strm)
    modifies m`nKey, m`nNew, m`nTried
    ensures m.Abs() == ReadNew(old(m.Abs()), strm, 0)
  {
    m.nKey, m.nNew, m.nTried := strm.nKey, strm.nNew, strm.nTried;
  }

  method LoadNew(m: CAddrMan, strm: Stream)
    requires m.Shaped() && Readable(strm)
    modifies m, m.vvNew
    ensures m.Abs() == ReadNew(old(m.Abs()), strm, strm.nNew)
  {
    ghost var c := m.Abs();
    LoadHeader(m, strm);
    for n := 0 to strm.nNew
      invariant m.Abs() == ReadNew(c, strm, n)
    {
      LoadNewEntry(m, strm, n);
    }
  }

  method LoadTriedEntries(m: CAddrMan, strm: Stream, ghost c: State) returns (nLost: nat)
    requires m.Shaped() && Readable(strm) && m.nIdCount >= 0 && m.Abs() == ReadTried(c, strm, 0).0
    modifies m, m.vvTried
    ensures (m.Abs(), nLost) == ReadTried(c, strm, strm.nTried)
  {
    nLost := 0;
    for n := 0 to strm.nTried
      invariant (m.Abs(), nLost) == ReadTried(c, strm, n) && m.nIdCount >= 0
    {
      nLost := LoadTriedEntry(m, nLost, strm, n);
    }
  }

  method LoadTried(m: CAddrMan, strm: Stream, ghost c: State)
    requires m.Shaped() && Readable(strm) && m.Abs() == ReadNew(c, strm, strm.nNew)
    modifies m, m.vvTried
    ensures m.Abs() == ReadEntries(c, strm)
  {
    hide ReadNew, ReadTriedEntry;
    m.nIdCount := strm.nNew;
    var nLost := LoadTriedEntries(m, strm, c);
    m.nTried := m.nTried - nLost;
  }

  method LoadBuckets(m: CAddrMan, strm: Stream)
    requires m.Shaped() && Readable(strm)
    requires forall i :: 0 <= i < strm.nNew ==> i in m.mapInfo
    modifies m, m.vvNew
    ensures m.Abs() == ReadBuckets(old(m.Abs()), strm, |strm.buckets|)
  {
    ghost var t := m.Abs();
    for bucket := 0 to |strm.buckets|
      invariant m.Abs() == ReadBuckets(t, strm, bucket)
    {
      LoadBucket(m, strm, bucket);
    }
  }

  method LoadAll(m: CAddrMan, strm: Stream)
    requires m.Shaped() && Readable(strm)
    modifies m, m.vvNew, m.vvTried
    ensures m.Abs() == ReadAll(old(m.Abs()), strm)
  {
    ghost var c := m.Abs();
    LoadNew(m, strm);
    LoadTried(m, strm, c);
    LoadBuckets(m, strm);
  }

  method LostOf(m: CAddrMan) returns (ids: seq<int>)
    ensures ids == Ascending(Lost(m.Abs()), Max(0, m.Abs().nIdCount))
  {
    var lost := set id | id in m.mapInfo && !m.mapInfo[id].fInTried && m.mapInfo[id].nRefCount == 0;
    assert lost == Lost(m.Abs());
    ids := Ascending(lost, Max(0, m.nIdCount));
  }

  /** Unserialize. False when the stream is refused or ends early, or an assert fails on the way. */
  method Unserialize(m: CAddrMan, strm: Stream) returns (ok: bool)
    requires m.Shaped()
    modifies m, m.vvNew, m.vvTried
    ensures ok == AddrManSerialize.Unserialize(m.h, old(m.m_tried_collisions), strm).Some?
    ensures ok ==> m.Abs() == AddrManSerialize.Unserialize(m.h, old(m.m_tried_collisions), strm).value
  {
    Clear(m, NULL_HASH);
    if !Readable(strm) {
      return false;
    }
    LoadAll(m, strm);
    var ids := LostOf(m);
    ok := PruneLost(m, ids);
  }

  /** Saving a manager and loading it into another one of the same network restores it. */
  method SaveAndLoad(m: CAddrMan, r: CAddrMan)
    requires m.Shaped() && r.Shaped() && Inv(m.Abs()) && m.h == r.h && r.m_tried_collisions == {}
    requires m != r && m.vvNew != r.vvNew && m.vvNew != r.vvTried && m.vvTried != r.vvNew && m.vvTried != r.vvTried
    modifies r, r.vvNew, r.vvTried
    ensures SameManager(m.Abs(), r.Abs(), AddrManRoundTrip.Order(m.Abs())) && Inv(r.Abs())
  {
    var strm := Serialize(m);
    AddrManRoundTrip.RoundTrip(m.Abs(), {});
    var ok := Unserialize(r, strm);
    AddrManRoundTrip.SameManagerInv(m.Abs(), r.Abs(), AddrManRoundTrip.Order(m.Abs()));
  }
}
