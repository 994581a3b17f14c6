/**
  The compact on-disk form of the address manager (src/addrman.h): entries are renumbered, only the new
  table's buckets are written, everything else is rebuilt. Writing a consistent manager and reading it
  back restores it up to the numbering.
 */
module AddrManSerialize {
  import opened Prelude
  import opened AddrManSpec
  import opened AddrManInv

  /** The serialised part of a CAddrInfo. */
  datatype Disk = Disk(addr: Address, source: NetAddr, nLastSuccess: int, nAttempts: int)

  function ToDisk(info: Info): (r: Disk) { Disk(info.addr, info.source, info.nLastSuccess, info.nAttempts) }

  function FromDisk(d: Disk): (r: Info) { Info(d.addr, d.source, 0, 0, d.nLastSuccess, d.nAttempts, 0, false, -1) }

  /** The fields in stream order. */
  datatype Stream = Stream(nVersion: nat, nKeySize: nat, nKey: Hash, nNew: int, nTried: int, nUBuckets: int,
                           newInfos: seq<Disk>, triedInfos: seq<Disk>, buckets: seq<seq<int>>)

  const BIT30 := 0x40000000

  /** XOR with 1 << 30, for non-negative values. */
  function ToggleBit30(n: int): (r: int)
    requires n >= 0
    ensures r >= 0
  {
    if (n / BIT30) % 2 == 1 then n - BIT30 else n + BIT30
  }

  // ---------------------------------------------------------------- writing

  /** The members of s below n in ascending order: the order in which mapInfo is iterated. */
  function Ascending(s: set<int>, n: nat): (r: seq<int>)
    ensures forall i :: 0 <= i < |r| ==> r[i] in s && 0 <= r[i] < n
    ensures forall x :: x in s && 0 <= x < n ==> x in r
    ensures forall i, j :: 0 <= i < j < |r| ==> r[i] < r[j]
  {
    if n == 0 then []
    else Ascending(s, n - 1) + (if n - 1 in s then [n - 1] else [])
  }

  lemma {:induction false} AscendingSize(s: set<int>, n: nat)
    requires forall x :: x in s ==> 0 <= x < n
    ensures |Ascending(s, n)| == |s|
  {
    if n == 0 {
      NoMembers(s);
    } else {
      AscendingSize(s - {n - 1}, n - 1);
      AscendingSame(s, s - {n - 1}, n - 1);
    }
  }

  lemma NoMembers(s: set<int>)
    requires forall x :: x !in s
    ensures s == {}
  {
    forall x: int ensures x in s <==> x in {} {}
  }

  lemma {:induction false} AscendingSame(s: set<int>, t: set<int>, n: nat)
    requires forall x :: 0 <= x < n ==> (x in s <==> x in t)
    ensures Ascending(s, n) == Ascending(t, n)
  {
    if n > 0 { AscendingSame(s, t, n - 1); }
  }

  function Referenced(s: State): (r: set<int>) { set id | id in s.mapInfo && s.mapInfo[id].nRefCount != 0 }

  function NewOrder(s: State): (r: seq<int>) { Ascending(Referenced(s), Max(0, s.nIdCount)) }

  function TriedOrder(s: State): (r: seq<int>) { Ascending(TriedIds(s), Max(0, s.nIdCount)) }

  function Infos(s: State, ids: seq<int>): (r: seq<Disk>)
    requires forall i :: 0 <= i < |ids| ==> ids[i] in s.mapInfo
    ensures |r| == |ids|
  {
    seq(|ids|, i requires 0 <= i < |ids| => ToDisk(s.mapInfo[ids[i]]))
  }

  /** mapUnkIds: how many referenced entries come before id. */
  function Index(order: seq<int>, id: int): (i: nat)
    ensures id in order ==> i < |order| && order[i] == id
  {
    if order == [] || order[0] == id then 0 else 1 + Index(order[1..], id)
  }

  /** The indexes written for the first p positions of a bucket. */
  function BucketIndexes(s: State, order: seq<int>, b: nat, p: nat): (r: seq<int>)
  {
    if p == 0 then []
    else
      BucketIndexes(s, order, b, p - 1)
      + (if Slot(b, p - 1) in s.vvNew then [Index(order, s.vvNew[Slot(b, p - 1)])] else [])
  }

  function Serialize(s: State): (r: Stream)
  {
    Stream(1, 32, s.nKey, s.nNew, s.nTried, ToggleBit30(ADDRMAN_NEW_BUCKET_COUNT),
           Infos(s, NewOrder(s)), Infos(s, TriedOrder(s)),
           seq(ADDRMAN_NEW_BUCKET_COUNT, b requires 0 <= b < ADDRMAN_NEW_BUCKET_COUNT =>
             BucketIndexes(s, NewOrder(s), b, ADDRMAN_BUCKET_SIZE)))
  }

  // ---------------------------------------------------------------- reading

  function BucketCount(strm: Stream): (r: int)
    requires strm.nUBuckets >= 0
  {
    if strm.nVersion != 0 then ToggleBit30(strm.nUBuckets) else strm.nUBuckets
  }

  predicate UsesBuckets(strm: Stream)
    requires strm.nUBuckets >= 0
  {
    strm.nVersion == 1 && BucketCount(strm) == ADDRMAN_NEW_BUCKET_COUNT
  }

  predicate Readable(strm: Stream)
  {
    && strm.nKeySize == 32
    && 0 <= strm.nNew <= ADDRMAN_NEW_BUCKET_COUNT * ADDRMAN_BUCKET_SIZE && |strm.newInfos| == strm.nNew
    && 0 <= strm.nTried <= ADDRMAN_TRIED_BUCKET_COUNT * ADDRMAN_BUCKET_SIZE && |strm.triedInfos| == strm.nTried
    && strm.nUBuckets >= 0 && |strm.buckets| == BucketCount(strm)
  }

  /** One round of the first loop: entry n of the new table. */
  function ReadNewEntry(t: State, strm: Stream, n: nat): (r: State)
    requires Readable(strm) && n < strm.nNew
    ensures r.mapInfo.Keys == t.mapInfo.Keys + {n}
  {
    var info := FromDisk(strm.newInfos[n]).(nRandomPos := |t.vRandom|);
    var u := t.(mapInfo := t.mapInfo[n := info], mapAddr := t.mapAddr[info.addr.svc.ip := n],
                vRandom := t.vRandom + [n]);
    var slot := SourceSlot(u, info.addr.svc, info.source);
    if !UsesBuckets(strm) && slot !in u.vvNew then Place(u, slot, n) else u
  }

  /** After n entries of the new table have been read into a cleared manager. */
  function ReadNew(s: State, strm: Stream, n: nat): (r: State)
    requires Readable(strm) && n <= strm.nNew
    ensures forall i :: 0 <= i < n ==> i in r.mapInfo
  {
    if n == 0 then s.(nKey := strm.nKey, nNew := strm.nNew, nTried := strm.nTried)
    else ReadNewEntry(ReadNew(s, strm, n - 1), strm, n - 1)
  }

  /** One round of the second loop: entry n of the tried table; the second component counts the lost ones. */
  function ReadTriedEntry(t: State, lost: nat, strm: Stream, n: nat): (r: (State, nat))
    requires Readable(strm) && n < strm.nTried
    ensures t.mapInfo.Keys <= r.0.mapInfo.Keys
  {
    var info := FromDisk(strm.triedInfos[n]);
    var slot := TriedSlot(t, info.addr.svc);
    if slot in t.vvTried then (t, lost + 1)
    else
      var id := t.nIdCount;
      (t.(mapInfo := t.mapInfo[id := info.(nRandomPos := |t.vRandom|, fInTried := true)],
          mapAddr := t.mapAddr[info.addr.svc.ip := id], vRandom := t.vRandom + [id],
          vvTried := t.vvTried[slot := id], nIdCount := id + 1),
       lost)
  }

  /** After n entries of the tried table have been read as well. */
  function ReadTried(s: State, strm: Stream, n: nat): (r: (State, nat))
    requires Readable(strm) && n <= strm.nTried
    ensures forall i :: 0 <= i < strm.nNew ==> i in r.0.mapInfo
  {
    if n == 0 then (ReadNew(s, strm, strm.nNew).(nIdCount := strm.nNew), 0)
    else
      var (t, lost) := ReadTried(s, strm, n - 1);
      ReadTriedEntry(t, lost, strm, n - 1)
  }

  function ReadIndex(t: State, strm: Stream, bucket: nat, index: int): (r: State)
    requires strm.nUBuckets >= 0
    requires forall i :: 0 <= i < strm.nNew ==> i in t.mapInfo
    ensures r.mapInfo.Keys == t.mapInfo.Keys
  {
    if 0 <= index < strm.nNew then
      var info := t.mapInfo[index];
      var slot := NewSlot(t, info.addr.svc, bucket);
      if UsesBuckets(strm) && slot !in t.vvNew && info.nRefCount < ADDRMAN_NEW_BUCKETS_PER_ADDRESS
      then Place(t, slot, index) else t
    else t
  }

  /** After the first n indexes of a bucket. */
  function ReadBucket(t: State, strm: Stream, bucket: nat, n: nat): (r: State)
    requires Readable(strm) && bucket < |strm.buckets| && n <= |strm.buckets[bucket]|
    requires forall i :: 0 <= i < strm.nNew ==> i in t.mapInfo
    ensures r.mapInfo.Keys == t.mapInfo.Keys
  {
    if n == 0 then t
    else ReadIndex(ReadBucket(t, strm, bucket, n - 1), strm, bucket, strm.buckets[bucket][n - 1])
  }

  /** After the first n buckets. */
  function ReadBuckets(t: State, strm: Stream, n: nat): (r: State)
    requires Readable(strm) && n <= |strm.buckets|
    requires forall i :: 0 <= i < strm.nNew ==> i in t.mapInfo
    ensures r.mapInfo.Keys == t.mapInfo.Keys
  {
    if n == 0 then t
    else ReadBucket(ReadBuckets(t, strm, n - 1), strm, n - 1, |strm.buckets[n - 1]|)
  }

  /** Entries of the new table that ended up in no bucket. */
  function Lost(t: State): (r: set<int>)
  {
    set id | id in t.mapInfo && !t.mapInfo[id].fInTried && t.mapInfo[id].nRefCount == 0
  }

  /** After both tables' entries, the lost ones no longer counted. */
  function ReadEntries(s: State, strm: Stream): (r: State)
    requires Readable(strm)
    ensures forall i :: 0 <= i < strm.nNew ==> i in r.mapInfo
  {
    var (t, lost) := ReadTried(s, strm, strm.nTried);
    t.(nTried := t.nTried - lost)
  }

  /** The manager before pruning. */
  function ReadAll(s: State, strm: Stream): (r: State)
    requires Readable(strm)
  {
    ReadBuckets(ReadEntries(s, strm), strm, |strm.buckets|)
  }

  /** Deletes the given entries one by one; None when an assert of Delete would fail. */
  function Prune(t: State, ids: seq<int>): (r: Option<State>)
    decreases |ids|
  {
    if ids == [] then Some(t)
    else if CanDelete(t, ids[0]) then Prune(Delete(t, ids[0]), ids[1..])
    else None
  }

  /** Unserialize into a manager whose collision set Clear has left alone; None when the stream is refused,
      ends early, or an assert fails. */
  function Unserialize(h: Oracle, collisions: set<int>, strm: Stream): (r: Option<State>)
  {
    if !Readable(strm) then None
    else
      var t := ReadAll(Cleared(h, NULL_HASH, collisions), strm);
      Prune(t, Ascending(Lost(t), Max(0, t.nIdCount)))
  }

  // ---------------------------------------------------------------- restoration

  /** The saved part of an entry, at its new random position. */
  function Restored(info: Info, pos: int): (r: Info)
  {
    info.(nLastTry := 0, nLastCountAttempt := 0, nRandomPos := pos)
  }

  /** orig lists the entries of s without repetition. */
  predicate Numbering(s: State, orig: seq<int>)
  {
    && (forall i :: 0 <= i < |orig| ==> orig[i] in s.mapInfo)
    && (forall id :: id in s.mapInfo ==> id in orig)
    && (forall i, j :: 0 <= i < j < |orig| ==> orig[i] != orig[j])
  }

  predicate RestoredAddr(s: State, t: State, orig: seq<int>)
  {
    t.mapAddr.Keys == s.mapAddr.Keys
    && forall ip :: ip in t.mapAddr ==> 0 <= t.mapAddr[ip] < |orig| && orig[t.mapAddr[ip]] == s.mapAddr[ip]
  }

  predicate RestoredTable(s: Table, t: Table, orig: seq<int>)
  {
    t.Keys == s.Keys
    && forall slot :: slot in t ==> 0 <= t[slot] < |orig| && orig[t[slot]] == s[slot]
  }

  /** t is s with entry orig[i] renumbered to i: same slots, same counts, same saved fields. */
  ghost predicate SameManager(s: State, t: State, orig: seq<int>)
  {
    && Numbering(s, orig)
    && t.h == s.h && t.nKey == s.nKey && t.nNew == s.nNew && t.nTried == s.nTried && t.nIdCount == |orig|
    && (forall i :: i in t.mapInfo <==> 0 <= i < |orig|)
    && (forall i :: 0 <= i < |orig| ==> t.mapInfo[i] == Restored(s.mapInfo[orig[i]], i))
    && t.vRandom == seq(|orig|, i => i)
    && RestoredAddr(s, t, orig) && RestoredTable(s.vvTried, t.vvTried, orig) && RestoredTable(s.vvNew, t.vvNew, orig)
  }
}
