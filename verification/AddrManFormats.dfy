/**
  The header that the address manager writes, and what it does with a stream whose new-table positions cannot be
  used: an unknown version, or another number of buckets (src/addrman.h).
 */
module AddrManFormats {
  import opened Prelude
  import opened AddrManSpec
  import opened AddrManInv
  import opened AddrManSerialize

  /** Version 1, 32-byte keys, and 1024 buckets marked by bit 30. */
  lemma Header(s: State)
    requires Serialize.requires(s)
    ensures var strm := Serialize(s);
      && strm.nVersion == 1 && strm.nKeySize == 32 && strm.nKey == s.nKey && strm.nNew == s.nNew && strm.nTried == s.nTried
      && strm.nUBuckets == 1024 + 0x4000_0000 && |strm.buckets| == 1024
  {}

  /** Positions are used exactly for version 1 with that bucket count. */
  lemma UsesBucketsExactly(strm: Stream)
    requires strm.nUBuckets >= 0
    ensures UsesBuckets(strm) <==> strm.nVersion == 1 && strm.nUBuckets == 1024 + 0x4000_0000
  {}

  function SlotOf(t: State, d: Disk): (slot: Slot) { SourceSlot(t, d.addr.svc, d.source) }

  /** Entry i, if the slot its source leads to was free, is in that slot, and otherwise in none. */
  predicate SelfPlaced(t: State, strm: Stream, i: nat)
    requires i < |strm.newInfos|
  {
    var slot := SlotOf(t, strm.newInfos[i]);
    && i in t.mapInfo && t.mapInfo[i].addr == strm.newInfos[i].addr && !t.mapInfo[i].fInTried
    && slot in t.vvNew && 0 <= t.vvNew[slot] <= i && SlotOf(t, strm.newInfos[t.vvNew[slot]]) == slot
    && t.mapInfo[i].nRefCount == if t.vvNew[slot] == i then 1 else 0
  }

  /** The first n entries, and no others, are in the new table. */
  predicate AllSelfPlaced(t: State, strm: Stream, n: nat)
    requires n <= |strm.newInfos|
  {
    && (forall i :: 0 <= i < n ==> SelfPlaced(t, strm, i))
    && forall slot :: slot in t.vvNew ==> 0 <= t.vvNew[slot] < n && SlotOf(t, strm.newInfos[t.vvNew[slot]]) == slot
  }

  lemma {:induction false} ReadNewPlaces(c: State, strm: Stream, n: nat)
    requires Readable(strm) && !UsesBuckets(strm) && n <= strm.nNew && c.vvNew == map[]
    ensures AllSelfPlaced(ReadNew(c, strm, n), strm, n)
    ensures ReadNew(c, strm, n).nKey == strm.nKey && ReadNew(c, strm, n).h == c.h
  {
    hide ReadNewEntry, AllSelfPlaced, UsesBuckets;
    if n > 0 {
      ReadNewPlaces(c, strm, n - 1);
      PlaceOne(ReadNew(c, strm, n - 1), strm, n - 1);
    } else {
      NonePlaced(ReadNew(c, strm, 0), strm);
    }
  }

  lemma NonePlaced(t: State, strm: Stream)
    requires t.vvNew == map[]
    ensures AllSelfPlaced(t, strm, 0)
  {}

  lemma PlaceOne(t: State, strm: Stream, n: nat)
    requires Readable(strm) && !UsesBuckets(strm) && n < strm.nNew && AllSelfPlaced(t, strm, n)
    ensures var r := ReadNewEntry(t, strm, n); AllSelfPlaced(r, strm, n + 1) && r.nKey == t.nKey && r.h == t.h
  {
    var r := ReadNewEntry(t, strm, n);
    forall i | 0 <= i < n ensures SelfPlaced(r, strm, i) { assert SelfPlaced(t, strm, i); }
  }

  lemma {:induction false} ReadTriedLeavesNew(c: State, strm: Stream, n: nat)
    requires Readable(strm) && !UsesBuckets(strm) && n <= strm.nTried && c.vvNew == map[]
    ensures AllSelfPlaced(ReadTried(c, strm, n).0, strm, strm.nNew) && ReadTried(c, strm, n).0.nIdCount >= strm.nNew
  {
    if n == 0 {
      ReadNewPlaces(c, strm, strm.nNew);
      SamePlaces(ReadNew(c, strm, strm.nNew), ReadTried(c, strm, n).0, strm);
    } else {
      ReadTriedLeavesNew(c, strm, n - 1);
      SamePlaces(ReadTried(c, strm, n - 1).0, ReadTried(c, strm, n).0, strm);
    }
  }

  lemma SamePlaces(t: State, r: State, strm: Stream)
    requires strm.nNew == |strm.newInfos| && AllSelfPlaced(t, strm, strm.nNew)
    requires r.vvNew == t.vvNew && r.h == t.h && r.nKey == t.nKey
    requires forall i :: 0 <= i < strm.nNew && i in t.mapInfo ==> i in r.mapInfo && r.mapInfo[i] == t.mapInfo[i]
    ensures AllSelfPlaced(r, strm, strm.nNew)
  {
    forall i | 0 <= i < strm.nNew ensures SelfPlaced(r, strm, i) { assert SelfPlaced(t, strm, i); }
  }

  lemma {:induction false} BucketIgnored(t: State, strm: Stream, bucket: nat, n: nat)
    requires Readable(strm) && !UsesBuckets(strm) && bucket < |strm.buckets| && n <= |strm.buckets[bucket]|
    requires forall i :: 0 <= i < strm.nNew ==> i in t.mapInfo
    ensures ReadBucket(t, strm, bucket, n) == t
  {
    if n > 0 { BucketIgnored(t, strm, bucket, n - 1); }
  }

  lemma {:induction false} BucketsIgnored(t: State, strm: Stream, n: nat)
    requires Readable(strm) && !UsesBuckets(strm) && n <= |strm.buckets|
    requires forall i :: 0 <= i < strm.nNew ==> i in t.mapInfo
    ensures ReadBuckets(t, strm, n) == t
  {
    if n > 0 {
      BucketsIgnored(t, strm, n - 1);
      BucketIgnored(t, strm, n - 1, |strm.buckets[n - 1]|);
    }
  }

  /** A stream whose positions cannot be used: before pruning, each new entry is in the one slot that its source leads
      to, or in none when an earlier entry took it; the bucket lists change nothing. */
  lemma PositionsUnusable(h: Oracle, collisions: set<int>, strm: Stream)
    requires Readable(strm) && !(strm.nVersion == 1 && strm.nUBuckets == 1024 + 0x4000_0000)
    ensures AllSelfPlaced(ReadAll(Cleared(h, NULL_HASH, collisions), strm), strm, strm.nNew)
  {
    var c := Cleared(h, NULL_HASH, collisions);
    UsesBucketsExactly(strm);
    ReadTriedLeavesNew(c, strm, strm.nTried);
    BucketsIgnored(ReadEntries(c, strm), strm, |strm.buckets|);
    SamePlaces(ReadTried(c, strm, strm.nTried).0, ReadEntries(c, strm), strm);
  }
}
