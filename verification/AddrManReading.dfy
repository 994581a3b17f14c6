/**
  Reading any stream, not only one that was written by Serialize (src/addrman.h): whatever the bucket lists, the
  version and the bucket count say, the manager is consistent as long as no address comes twice.
 */
module AddrManReading {
  import opened Prelude
  import opened AddrManSpec
  import opened AddrManInv
  import opened AddrManOps
  import opened AddrManSerialize

  function IpOf(d: Disk): (ip: NetAddr) { d.addr.svc.ip }

  /** No address comes twice, in the new table's entries, the tried ones, or both. */
  predicate Distinct(strm: Stream)
  {
    && (forall i, j :: 0 <= i < j < |strm.newInfos| ==> IpOf(strm.newInfos[i]) != IpOf(strm.newInfos[j]))
    && (forall i, j :: 0 <= i < j < |strm.triedInfos| ==> IpOf(strm.triedInfos[i]) != IpOf(strm.triedInfos[j]))
    && (forall i, j :: 0 <= i < |strm.newInfos| && 0 <= j < |strm.triedInfos| ==>
          IpOf(strm.newInfos[i]) != IpOf(strm.triedInfos[j]))
  }

  /** The known addresses are among the first n new and the first k tried entries. */
  predicate KnownFrom(t: State, strm: Stream, n: nat, k: nat)
    requires n <= |strm.newInfos| && k <= |strm.triedInfos|
  {
    forall ip :: ip in t.mapAddr ==>
      (exists i :: 0 <= i < n && IpOf(strm.newInfos[i]) == ip) || (exists j :: 0 <= j < k && IpOf(strm.triedInfos[j]) == ip)
  }

  /** The invariant, with new entries without a slot allowed. */
  predicate Loose(t: State, uncounted: int)
  {
    Holds(t, t.mapInfo.Keys, uncounted)
  }

  lemma AppendLoose(s: State, t: State, uncounted: int, info: Info)
    requires Loose(s, uncounted) && Appended(s, t, info) && info.addr.svc.ip !in s.mapAddr
    ensures Loose(t, uncounted + 1)
  {
    hide Holds;
    AppendKeeps(s, t, s.mapInfo.Keys, uncounted, info);
    assert s.mapInfo.Keys + {s.nIdCount} == t.mapInfo.Keys;
  }

  lemma PlaceLoose(t: State, uncounted: int, id: int, bucket: nat)
    requires Loose(t, uncounted) && id in t.mapInfo && !t.mapInfo[id].fInTried
    requires t.mapInfo[id].nRefCount < ADDRMAN_NEW_BUCKETS_PER_ADDRESS && bucket < ADDRMAN_NEW_BUCKET_COUNT
    requires NewSlot(t, t.mapInfo[id].addr.svc, bucket) !in t.vvNew
    ensures Loose(Place(t, NewSlot(t, t.mapInfo[id].addr.svc, bucket), id), uncounted)
  {
    hide Holds;
    var r := Place(t, NewSlot(t, t.mapInfo[id].addr.svc, bucket), id);
    PlaceKeeps(t, t.mapInfo.Keys, uncounted, id, bucket);
    assert r.mapInfo.Keys == t.mapInfo.Keys;
    LimboShrinks(r, t.mapInfo.Keys - {id}, r.mapInfo.Keys, uncounted);
  }

  // ---------------------------------------------------------------- the entries of the new table

  /** Reading leaves nIdCount, nNew and nTried to the end; with what they should be, the invariant holds after each
      round. */
  predicate NewRead(t: State, strm: Stream, n: nat)
    requires n <= |strm.newInfos|
  {
    && t.nIdCount == 0 && t.nNew == strm.nNew && t.nTried == strm.nTried && t.collisions == {}
    && Loose(t.(nIdCount := n, nTried := 0), n - strm.nNew)
    && KnownFrom(t, strm, n, 0)
    && forall i :: 0 <= i < n ==> i in t.mapInfo && !t.mapInfo[i].fInTried
  }

  lemma {:induction false} ReadNewKeeps(h: Oracle, strm: Stream, n: nat)
    requires Readable(strm) && Distinct(strm) && n <= strm.nNew
    ensures NewRead(ReadNew(Cleared(h, NULL_HASH, {}), strm, n), strm, n)
  {
    hide ReadNewEntry, NewRead, Distinct;
    if n > 0 {
      ReadNewKeeps(h, strm, n - 1);
      NewEntryKeeps(ReadNew(Cleared(h, NULL_HASH, {}), strm, n - 1), strm, n - 1);
    } else {
      NoneRead(h, strm, ReadNew(Cleared(h, NULL_HASH, {}), strm, 0));
    }
  }

  lemma NoneRead(h: Oracle, strm: Stream, t: State)
    requires t == Cleared(h, NULL_HASH, {}).(nKey := strm.nKey, nNew := strm.nNew, nTried := strm.nTried)
    ensures NewRead(t, strm, 0)
  {
    assert TriedIds(t) == {} && NewIds(t) == {};
  }

  lemma NewEntryKeeps(t: State, strm: Stream, n: nat)
    requires Readable(strm) && Distinct(strm) && n < strm.nNew && NewRead(t, strm, n)
    ensures NewRead(ReadNewEntry(t, strm, n), strm, n + 1)
  {
    hide Loose, UsesBuckets, Distinct, KnownFrom;
    NewKnown(t, ReadNewEntry(t, strm, n), strm, n);
    NewEntryLoose(t, strm, n);
  }

  lemma NewEntryLoose(t: State, strm: Stream, n: nat)
    requires Readable(strm) && n < strm.nNew && IpOf(strm.newInfos[n]) !in t.mapAddr
    requires Loose(t.(nIdCount := n, nTried := 0), n - strm.nNew)
    ensures Loose(ReadNewEntry(t, strm, n).(nIdCount := n + 1, nTried := 0), n + 1 - strm.nNew)
  {
    hide Loose, UsesBuckets;
    var info := FromDisk(strm.newInfos[n]).(nRandomPos := |t.vRandom|);
    var s := t.(nIdCount := n, nTried := 0);
    var u := s.(nIdCount := n + 1, mapInfo := t.mapInfo[n := info], mapAddr := t.mapAddr[info.addr.svc.ip := n],
                vRandom := t.vRandom + [n]);
    AppendLoose(s, u, n - strm.nNew, info);
    var slot := SourceSlot(u, info.addr.svc, info.source);
    if !UsesBuckets(strm) && slot !in u.vvNew {
      PlaceLoose(u, n + 1 - strm.nNew, n, slot.bucket);
    }
  }

  lemma NewKnown(t: State, r: State, strm: Stream, n: nat)
    requires Distinct(strm) && n < |strm.newInfos| && KnownFrom(t, strm, n, 0)
    requires r.mapAddr.Keys == t.mapAddr.Keys + {IpOf(strm.newInfos[n])}
    ensures IpOf(strm.newInfos[n]) !in t.mapAddr && KnownFrom(r, strm, n + 1, 0)
  {}

  // ---------------------------------------------------------------- the tried entries

  predicate TriedRead(t: State, lost: nat, strm: Stream, n: nat)
    requires n <= |strm.triedInfos|
  {
    && t.nTried == strm.nTried && t.nIdCount >= strm.nNew && t.collisions == {}
    && Loose(t.(nTried := n - lost), 0)
    && KnownFrom(t, strm, |strm.newInfos|, n)
    && forall i :: 0 <= i < strm.nNew ==> i in t.mapInfo && !t.mapInfo[i].fInTried
  }

  lemma {:induction false} ReadTriedKeeps(h: Oracle, strm: Stream, n: nat)
    requires Readable(strm) && Distinct(strm) && n <= strm.nTried
    ensures var (t, lost) := ReadTried(Cleared(h, NULL_HASH, {}), strm, n); TriedRead(t, lost, strm, n)
  {
    hide ReadTriedEntry, TriedRead, Distinct;
    if n > 0 {
      ReadTriedKeeps(h, strm, n - 1);
      var (t, lost) := ReadTried(Cleared(h, NULL_HASH, {}), strm, n - 1);
      TriedEntryKeeps(t, lost, strm, n - 1);
    } else {
      ReadNewKeeps(h, strm, strm.nNew);
      TriedBegins(ReadNew(Cleared(h, NULL_HASH, {}), strm, strm.nNew), strm);
    }
  }

  lemma TriedBegins(t: State, strm: Stream)
    requires Readable(strm) && NewRead(t, strm, strm.nNew)
    ensures TriedRead(t.(nIdCount := strm.nNew), 0, strm, 0)
  {
    hide Loose;
    assert t.(nIdCount := strm.nNew).(nTried := 0) == t.(nIdCount := strm.nNew, nTried := 0);
  }

  lemma TriedEntryKeeps(t: State, lost: nat, strm: Stream, n: nat)
    requires Readable(strm) && Distinct(strm) && n < strm.nTried && TriedRead(t, lost, strm, n)
    ensures var (r, lost') := ReadTriedEntry(t, lost, strm, n); TriedRead(r, lost', strm, n + 1)
  {
    hide Loose, Distinct, KnownFrom;
    var info := FromDisk(strm.triedInfos[n]).(nRandomPos := |t.vRandom|);
    var (r, lost') := ReadTriedEntry(t, lost, strm, n);
    TriedKnown(t, r, strm, n);
    if TriedSlot(t, info.addr.svc) !in t.vvTried {
      TriedLoose(t.(nTried := n - lost), r.(nTried := n + 1 - lost), info);
    }
  }

  lemma TriedLoose(s: State, r: State, info: Info)
    requires Loose(s, 0) && info.addr.svc.ip !in s.mapAddr && TriedSlot(s, info.addr.svc) !in s.vvTried
    requires !info.fInTried && info.nRefCount == 0 && info.nRandomPos == |s.vRandom|
    requires r == s.(nIdCount := s.nIdCount + 1, mapInfo := s.mapInfo[s.nIdCount := info.(fInTried := true)],
                     mapAddr := s.mapAddr[info.addr.svc.ip := s.nIdCount], vRandom := s.vRandom + [s.nIdCount],
                     vvTried := s.vvTried[TriedSlot(s, info.addr.svc) := s.nIdCount], nTried := s.nTried + 1)
    ensures Loose(r, 0)
  {
    hide Holds;
    var id := s.nIdCount;
    var u := s.(nIdCount := id + 1, mapInfo := s.mapInfo[id := info],
                mapAddr := s.mapAddr[info.addr.svc.ip := id], vRandom := s.vRandom + [id]);
    AppendLoose(s, u, 0, info);
    EnterTriedKeeps(u, u.mapInfo.Keys, 1, id);
    assert r == EnterTried(u, TriedSlot(u, info.addr.svc), id);
    LimboShrinks(r, u.mapInfo.Keys - {id}, r.mapInfo.Keys, 0);
  }

  lemma TriedKnown(t: State, r: State, strm: Stream, n: nat)
    requires Distinct(strm) && n < |strm.triedInfos| && KnownFrom(t, strm, |strm.newInfos|, n)
    requires r.mapAddr.Keys <= t.mapAddr.Keys + {IpOf(strm.triedInfos[n])}
    ensures IpOf(strm.triedInfos[n]) !in t.mapAddr && KnownFrom(r, strm, |strm.newInfos|, n + 1)
  {}

  // ---------------------------------------------------------------- the bucket lists

  predicate AllRead(t: State, strm: Stream)
  {
    Loose(t, 0) && t.collisions == {} && forall i :: 0 <= i < strm.nNew ==> i in t.mapInfo && !t.mapInfo[i].fInTried
  }

  lemma IndexKeeps(t: State, strm: Stream, bucket: nat, index: int)
    requires Readable(strm) && AllRead(t, strm) && bucket < |strm.buckets|
    ensures AllRead(ReadIndex(t, strm, bucket, index), strm)
  {
    hide Loose;
    if 0 <= index < strm.nNew {
      var slot := NewSlot(t, t.mapInfo[index].addr.svc, bucket);
      if UsesBuckets(strm) && slot !in t.vvNew && t.mapInfo[index].nRefCount < ADDRMAN_NEW_BUCKETS_PER_ADDRESS {
        PlaceLoose(t, 0, index, bucket);
      }
    }
  }

  lemma {:induction false} BucketKeeps(t: State, strm: Stream, bucket: nat, n: nat)
    requires Readable(strm) && AllRead(t, strm) && bucket < |strm.buckets| && n <= |strm.buckets[bucket]|
    ensures AllRead(ReadBucket(t, strm, bucket, n), strm)
  {
    hide Loose, ReadIndex;
    if n > 0 {
      BucketKeeps(t, strm, bucket, n - 1);
      IndexKeeps(ReadBucket(t, strm, bucket, n - 1), strm, bucket, strm.buckets[bucket][n - 1]);
    }
  }

  lemma {:induction false} BucketsKeep(t: State, strm: Stream, n: nat)
    requires Readable(strm) && AllRead(t, strm) && n <= |strm.buckets|
    ensures AllRead(ReadBuckets(t, strm, n), strm)
  {
    hide Loose, ReadBucket;
    if n > 0 {
      BucketsKeep(t, strm, n - 1);
      BucketKeeps(ReadBuckets(t, strm, n - 1), strm, n - 1, |strm.buckets[n - 1]|);
    }
  }

  lemma ReadAllKeeps(h: Oracle, strm: Stream)
    requires Readable(strm) && Distinct(strm)
    ensures AllRead(ReadAll(Cleared(h, NULL_HASH, {}), strm), strm)
  {
    hide Loose, KnownFrom, Distinct, ReadTried, ReadBuckets;
    var c := Cleared(h, NULL_HASH, {});
    ReadTriedKeeps(h, strm, strm.nTried);
    BucketsKeep(ReadEntries(c, strm), strm, |strm.buckets|);
  }

  // ---------------------------------------------------------------- pruning

  /** Deleting entries without a slot: every assert of Delete holds, and all other entries stay. */
  lemma {:induction false} PruneKeeps(t: State, ids: seq<int>)
    requires Loose(t, 0) && t.collisions == {} && forall i, j :: 0 <= i < j < |ids| ==> ids[i] != ids[j]
    requires forall i :: 0 <= i < |ids| ==> ids[i] in Lost(t)
    ensures Prune(t, ids).Some?
    ensures var r := Prune(t, ids).value; Loose(r, 0) && r.collisions == {} && forall id :: id in Lost(r) ==> id in Lost(t) && id !in ids
    decreases |ids|
  {
    if ids != [] {
      hide Holds, Delete, CanDelete;
      DeleteKeeps(t, t.mapInfo.Keys, 0, ids[0]);
      var d := Delete(t, ids[0]);
      DeletedCollisions(t, ids[0]);
      assert t.mapInfo.Keys - {ids[0]} == d.mapInfo.Keys;
      forall x | x in Lost(t) && x != ids[0] ensures x in Lost(d) { assert SameCore(t.mapInfo[x], d.mapInfo[x]); }
      forall x | x in Lost(d) ensures x in Lost(t) && x != ids[0] { assert SameCore(t.mapInfo[x], d.mapInfo[x]); }
      PruneKeeps(d, ids[1..]);
    }
  }

  lemma DeletedCollisions(t: State, id: int)
    requires CanDelete(t, id)
    ensures Delete(t, id).collisions == t.collisions
  {}

  /** Any readable stream without a repeated address is read into a consistent manager, and every assert on the way
      holds, whatever its bucket lists say. */
  lemma AnyStreamConsistent(h: Oracle, strm: Stream)
    requires Readable(strm) && Distinct(strm)
    ensures Unserialize(h, {}, strm).Some? && Inv(Unserialize(h, {}, strm).value)
  {
    hide Holds, ReadAll, Prune, Distinct;
    var t := ReadAll(Cleared(h, NULL_HASH, {}), strm);
    ReadAllKeeps(h, strm);
    LostBelow(t);
    var ids := Ascending(Lost(t), Max(0, t.nIdCount));
    PruneKeeps(t, ids);
    var r := Prune(t, ids).value;
    forall id | id in r.mapInfo ensures r.mapInfo[id].fInTried || r.mapInfo[id].nRefCount > 0 {
      RefsNatural(r, id);
      if id in Lost(t) { assert id in ids; }
      assert id !in Lost(r);
    }
    LimboShrinks(r, r.mapInfo.Keys, {}, 0);
  }

  lemma RefsNatural(t: State, id: int)
    requires Loose(t, 0) && id in t.mapInfo
    ensures t.mapInfo[id].nRefCount >= 0
  {
    assert TriedPlaced(t, id) && NewPlaced(t, t.mapInfo.Keys, id);
  }

  lemma LostBelow(t: State)
    requires Loose(t, 0)
    ensures forall id :: id in Lost(t) ==> 0 <= id < Max(0, t.nIdCount)
  {}

  // ---------------------------------------------------------------- a repeated address

  lemma {:induction false} BucketOfNone(t: State, strm: Stream, bucket: nat, n: nat)
    requires Readable(strm) && strm.nNew == 0 && bucket < |strm.buckets| && n <= |strm.buckets[bucket]|
    ensures ReadBucket(t, strm, bucket, n) == t
  {
    if n > 0 { BucketOfNone(t, strm, bucket, n - 1); }
  }

  lemma {:induction false} BucketsOfNone(t: State, strm: Stream, n: nat)
    requires Readable(strm) && strm.nNew == 0 && n <= |strm.buckets|
    ensures ReadBuckets(t, strm, n) == t
  {
    if n > 0 {
      BucketsOfNone(t, strm, n - 1);
      BucketOfNone(t, strm, n - 1, |strm.buckets[n - 1]|);
    }
  }

  lemma ReadTwo(h: Oracle, strm: Stream)
    requires Readable(strm) && strm.nNew == 0 && strm.nTried == 2
    requires var c := Cleared(h, strm.nKey, {});
      TriedSlot(c, strm.triedInfos[0].addr.svc) != TriedSlot(c, strm.triedInfos[1].addr.svc)
    ensures var t := ReadEntries(Cleared(h, NULL_HASH, {}), strm);
      && 0 in t.mapInfo && 1 in t.mapInfo && (forall id :: id in t.mapInfo ==> t.mapInfo[id].fInTried)
      && t.mapInfo[0].addr == strm.triedInfos[0].addr && t.mapInfo[1].addr == strm.triedInfos[1].addr
  {
    var c := Cleared(h, NULL_HASH, {});
    var t0 := ReadTried(c, strm, 0).0;
    assert t0.nKey == strm.nKey && t0.h == h && t0.nIdCount == 0 && t0.vvTried == map[] && t0.mapInfo == map[];
    var t1 := ReadTriedEntry(t0, 0, strm, 0);
    assert ReadTried(c, strm, 1) == t1 && t1.0.nIdCount == 1;
    assert ReadTried(c, strm, 2) == ReadTriedEntry(t1.0, t1.1, strm, 1);
  }

  /** Two tried entries of one address, for different services with slots of their own, are read without complaint, and
      leave an entry that its address does not lead to. */
  lemma RepeatedAddress(h: Oracle, strm: Stream)
    requires Readable(strm) && strm.nNew == 0 && strm.nTried == 2 && IpOf(strm.triedInfos[0]) == IpOf(strm.triedInfos[1])
    requires var c := Cleared(h, strm.nKey, {});
      TriedSlot(c, strm.triedInfos[0].addr.svc) != TriedSlot(c, strm.triedInfos[1].addr.svc)
    ensures Unserialize(h, {}, strm).Some? && !Inv(Unserialize(h, {}, strm).value)
  {
    hide ReadEntries, ReadBuckets, Holds;
    ReadTwo(h, strm);
    var t := ReadEntries(Cleared(h, NULL_HASH, {}), strm);
    BucketsOfNone(t, strm, |strm.buckets|);
    NoneListed(Lost(t), Max(0, t.nIdCount));
    if Inv(t) { BothFound(t); }
  }

  lemma {:induction false} NoneListed(s: set<int>, n: nat)
    requires forall x :: x !in s
    ensures Ascending(s, n) == []
  {
    if n > 0 { NoneListed(s, n - 1); }
  }

  lemma BothFound(t: State)
    requires Inv(t)
    ensures 0 in t.mapInfo && 1 in t.mapInfo ==> t.mapInfo[0].addr.svc.ip != t.mapInfo[1].addr.svc.ip
  {
    if 0 in t.mapInfo && 1 in t.mapInfo { assert AddrFwd(t, 0) && AddrFwd(t, 1); }
  }
}
