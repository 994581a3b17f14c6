/**
  Unserialize after Serialize (src/addrman.h) restores a consistent address manager: every slot of both
  tables, every reference count and every saved field, up to the numbering of the entries.
 */
module AddrManRoundTrip {
  import opened Prelude
  import opened AddrManSpec
  import opened AddrManInv
  import opened AddrManSerialize

  function Order(s: State): (r: seq<int>) { NewOrder(s) + TriedOrder(s) }

  function Svc(s: State, id: int): (r: Service)
    requires id in s.mapInfo
  {
    s.mapInfo[id].addr.svc
  }

  // ---------------------------------------------------------------- counting slots

  lemma {:induction false} BucketBound(slots: set<Slot>, bucket: nat, size: nat)
    requires forall x :: x in slots ==> x.bucket == bucket && x.pos < size
    ensures |slots| <= size
  {
    if size == 0 {
      assert slots == {};
    } else {
      var last := Slot(bucket, size - 1);
      BucketBound(slots - {last}, bucket, size - 1);
    }
  }

  lemma {:induction false} TableBound(slots: set<Slot>, buckets: nat, size: nat)
    requires forall x :: x in slots ==> x.bucket < buckets && x.pos < size
    ensures |slots| <= buckets * size
  {
    if buckets == 0 {
      assert slots == {};
    } else {
      var last := set x | x in slots && x.bucket == buckets - 1;
      BucketBound(last, buckets - 1, size);
      TableBound(slots - last, buckets - 1, size);
      assert slots == (slots - last) + last;
      assert buckets * size == (buckets - 1) * size + size;
    }
  }

  lemma {:induction false} ValuesBound(m: Table)
    ensures |m.Values| <= |m.Keys|
    decreases |m|
  {
    if m.Keys == {} {
      assert m.Values == {};
    } else {
      var k :| k in m;
      var rest := m - {k};
      ValuesBound(rest);
      forall v | v in m.Values ensures v in rest.Values + {m[k]} {
        var x :| x in m && m[x] == v;
        if x != k { assert x in rest && rest[x] == v; }
      }
      assert m.Keys == rest.Keys + {k};
      SubsetSize(m.Values, rest.Values + {m[k]});
    }
  }

  lemma SubsetSize(a: set<int>, b: set<int>)
    requires a <= b
    ensures |a| <= |b|
  {
    assert b == a + (b - a);
  }

  lemma HoldersBound(ids: set<int>, m: Table, buckets: nat)
    requires ids <= m.Values && forall x :: x in m ==> x.bucket < buckets && x.pos < ADDRMAN_BUCKET_SIZE
    ensures |ids| <= buckets * ADDRMAN_BUCKET_SIZE
  {
    SubsetSize(ids, m.Values);
    ValuesBound(m);
    TableBound(m.Keys, buckets, ADDRMAN_BUCKET_SIZE);
  }

  // ---------------------------------------------------------------- the numbering

  lemma OrderFacts(s: State)
    requires Inv(s)
    ensures Referenced(s) == NewIds(s) && |NewOrder(s)| == s.nNew && |TriedOrder(s)| == s.nTried
    ensures forall i :: 0 <= i < |Order(s)| ==> Order(s)[i] in s.mapInfo
    ensures forall i :: 0 <= i < |Order(s)| ==> (s.mapInfo[Order(s)[i]].fInTried <==> i >= s.nNew)
    ensures forall i, j :: 0 <= i < j < |Order(s)| ==> Order(s)[i] != Order(s)[j]
  {
    forall id | id in s.mapInfo ensures id in Referenced(s) <==> id in NewIds(s) {
      assert TriedPlaced(s, id) && NewPlaced(s, {}, id);
    }
    assert Referenced(s) == NewIds(s);
    AscendingSize(Referenced(s), s.nIdCount);
    AscendingSize(TriedIds(s), s.nIdCount);
  }

  lemma OrderNumbers(s: State)
    requires Inv(s)
    ensures Numbering(s, Order(s))
  {
    OrderFacts(s);
    forall id | id in s.mapInfo ensures id in Order(s) {
      if id in NewIds(s) { assert id in NewOrder(s); } else { assert id in TriedOrder(s); }
    }
  }

  lemma SerializedReadable(s: State)
    requires Inv(s)
    ensures Readable(Serialize(s)) && UsesBuckets(Serialize(s))
  {
    OrderFacts(s);
    forall id | id in TriedIds(s) ensures id in s.vvTried.Values {
      assert TriedPlaced(s, id);
      assert s.vvTried[TriedSlot(s, Svc(s, id))] == id;
    }
    forall slot | slot in s.vvTried ensures slot.bucket < ADDRMAN_TRIED_BUCKET_COUNT && slot.pos < ADDRMAN_BUCKET_SIZE {
      assert TriedHolder(s, slot);
    }
    HoldersBound(TriedIds(s), s.vvTried, ADDRMAN_TRIED_BUCKET_COUNT);
    forall id | id in NewIds(s) ensures id in s.vvNew.Values {
      assert NewPlaced(s, {}, id);
      var b :| b in Buckets(s, id, Svc(s, id));
      assert s.vvNew[NewSlot(s, Svc(s, id), b)] == id;
    }
    forall slot | slot in s.vvNew ensures slot.bucket < ADDRMAN_NEW_BUCKET_COUNT && slot.pos < ADDRMAN_BUCKET_SIZE {
      assert NewHolder(s, slot);
    }
    HoldersBound(NewIds(s), s.vvNew, ADDRMAN_NEW_BUCKET_COUNT);
  }

  /** Different entries have different addresses. */
  lemma AddressesDiffer(s: State, i: nat, j: nat)
    requires Inv(s) && i < |Order(s)| && j < |Order(s)|
    ensures Order(s)[i] in s.mapInfo && Order(s)[j] in s.mapInfo
    ensures i != j ==> Svc(s, Order(s)[i]).ip != Svc(s, Order(s)[j]).ip
  {
    OrderFacts(s);
    assert AddrFwd(s, Order(s)[i]) && AddrFwd(s, Order(s)[j]);
  }

  // ---------------------------------------------------------------- reading the entries

  /** The entries 0..n of the numbering have been read; no slot of the new table is filled yet. */
  ghost predicate EntriesRead(s: State, t: State, n: nat)
    requires Inv(s) && n <= |Order(s)|
  {
    && t.h == s.h && t.nKey == s.nKey && t.nNew == s.nNew && t.nTried == s.nTried && t.vvNew == map[]
    && t.vRandom == seq(n, i => i)
    && (forall i :: i in t.mapInfo <==> 0 <= i < n)
    && (forall i {:trigger EntryRead(s, t, i)} :: 0 <= i < n ==> EntryRead(s, t, i))
    && (forall ip {:trigger AddrRead(s, t, n, ip)} :: ip in t.mapAddr ==> AddrRead(s, t, n, ip))
    && (forall slot {:trigger TriedRead(s, t, n, slot)} :: slot in t.vvTried ==> TriedRead(s, t, n, slot))
  }

  ghost predicate EntryRead(s: State, t: State, i: nat)
    requires Inv(s)
  {
    && i < |Order(s)| && i in t.mapInfo && Order(s)[i] in s.mapInfo
    && var info := s.mapInfo[Order(s)[i]];
    && t.mapInfo[i] == Restored(info, i).(nRefCount := 0)
    && info.addr.svc.ip in t.mapAddr && t.mapAddr[info.addr.svc.ip] == i
    && (info.fInTried ==> TriedSlot(s, info.addr.svc) in t.vvTried && t.vvTried[TriedSlot(s, info.addr.svc)] == i)
  }

  ghost predicate AddrRead(s: State, t: State, n: nat, ip: NetAddr)
    requires Inv(s) && ip in t.mapAddr
  {
    && 0 <= t.mapAddr[ip] < n <= |Order(s)| && Order(s)[t.mapAddr[ip]] in s.mapInfo
    && Svc(s, Order(s)[t.mapAddr[ip]]).ip == ip
  }

  ghost predicate TriedRead(s: State, t: State, n: nat, slot: Slot)
    requires Inv(s) && slot in t.vvTried
  {
    && 0 <= t.vvTried[slot] < n <= |Order(s)| && Order(s)[t.vvTried[slot]] in s.mapInfo
    && var info := s.mapInfo[Order(s)[t.vvTried[slot]]];
    && info.fInTried && TriedSlot(s, info.addr.svc) == slot
  }

  /** What the reading loops need to know about the stream written for s. */
  ghost predicate Describes(strm: Stream, s: State)
    requires Inv(s)
  {
    && Readable(strm) && UsesBuckets(strm)
    && strm.nKey == s.nKey && strm.nNew == s.nNew && strm.nTried == s.nTried
    && |Order(s)| == s.nNew + s.nTried
    && (forall i {:trigger Numbered(s, i)} :: 0 <= i < |Order(s)| ==> Numbered(s, i))
    && (forall i {:trigger Written(strm, s, i)} :: 0 <= i < |Order(s)| ==> Written(strm, s, i))
    && (forall b {:trigger BucketWritten(strm, s, b)} :: 0 <= b < ADDRMAN_NEW_BUCKET_COUNT ==> BucketWritten(strm, s, b))
  }

  predicate BucketWritten(strm: Stream, s: State, b: nat)
    requires Readable(strm) && UsesBuckets(strm)
  {
    b < |strm.buckets| && strm.buckets[b] == BucketIndexes(s, NewOrder(s), b, ADDRMAN_BUCKET_SIZE)
  }

  ghost predicate Numbered(s: State, i: nat)
    requires Inv(s) && i < |Order(s)|
  {
    Order(s)[i] in s.mapInfo && (s.mapInfo[Order(s)[i]].fInTried <==> i >= s.nNew)
  }

  ghost predicate Written(strm: Stream, s: State, i: nat)
    requires Inv(s) && Readable(strm) && i < |Order(s)| == strm.nNew + strm.nTried
  {
    && Order(s)[i] in s.mapInfo
    && (if i < strm.nNew then strm.newInfos[i] else strm.triedInfos[i - strm.nNew]) == ToDisk(s.mapInfo[Order(s)[i]])
  }

  lemma SerializedDescribes(s: State)
    requires Inv(s)
    ensures Describes(Serialize(s), s)
  {
    SerializedReadable(s);
    OrderFacts(s);
    forall i | 0 <= i < |Order(s)| ensures Numbered(s, i) && Written(Serialize(s), s, i) {}
  }

  /** A cleared manager of the same network. */
  predicate Blank(c: State)
  {
    && c.mapInfo == map[] && c.mapAddr == map[] && c.vRandom == [] && c.vvTried == map[] && c.vvNew == map[]
  }

  ghost predicate SameRest(t: State, c: State) { t.collisions == c.collisions && t.nLastGood == c.nLastGood }

  lemma {:induction false} ReadNewRestores(s: State, c: State, strm: Stream, n: nat)
    requires Inv(s) && Describes(strm, s) && Blank(c) && c.h == s.h && n <= s.nNew
    ensures EntriesRead(s, ReadNew(c, strm, n), n) && SameRest(ReadNew(c, strm, n), c)
  {
    if n > 0 {
      ReadNewRestores(s, c, strm, n - 1);
      ReadNewStep(s, ReadNew(c, strm, n - 1), strm, n - 1);
    }
  }

  lemma ReadNewStep(s: State, t: State, strm: Stream, k: nat)
    requires Inv(s) && Describes(strm, s) && k < s.nNew && EntriesRead(s, t, k)
    ensures EntriesRead(s, ReadNewEntry(t, strm, k), k + 1) && SameRest(ReadNewEntry(t, strm, k), t)
  {
    assert Numbered(s, k) && Written(strm, s, k);
    NewEntryFromDisk(s, Order(s)[k], k);
    EntryAdded(s, t, ReadNewEntry(t, strm, k), k + 1);
  }

  lemma NewEntryFromDisk(s: State, id: int, pos: nat)
    requires Inv(s) && id in s.mapInfo
    ensures FromDisk(ToDisk(s.mapInfo[id])).(nRandomPos := pos, fInTried := s.mapInfo[id].fInTried)
         == Restored(s.mapInfo[id], pos).(nRefCount := 0)
  {
  }

  /** One more entry has been appended under the next number. */
  lemma EntryAdded(s: State, t: State, u: State, n: nat)
    requires Inv(s) && 0 < n <= |Order(s)| && EntriesRead(s, t, n - 1) && Order(s)[n - 1] in s.mapInfo
    requires var info := s.mapInfo[Order(s)[n - 1]];
             var slot := TriedSlot(s, info.addr.svc);
             && u.mapInfo == t.mapInfo[n - 1 := Restored(info, n - 1).(nRefCount := 0)]
             && u.mapAddr == t.mapAddr[info.addr.svc.ip := n - 1] && u.vRandom == t.vRandom + [n - 1]
             && u.vvTried == (if info.fInTried then t.vvTried[slot := n - 1] else t.vvTried)
             && (info.fInTried ==> slot !in t.vvTried)
    requires u.h == t.h && u.nKey == t.nKey && u.nNew == t.nNew && u.nTried == t.nTried && u.vvNew == t.vvNew
    ensures EntriesRead(s, u, n)
  {
    forall i | 0 <= i < n ensures EntryRead(s, u, i) {
      if i < n - 1 {
        assert EntryRead(s, t, i);
        AddressesDiffer(s, i, n - 1);
      }
    }
    forall ip | ip in u.mapAddr ensures AddrRead(s, u, n, ip) {
      if ip in t.mapAddr { assert AddrRead(s, t, n - 1, ip); }
    }
    forall slot | slot in u.vvTried ensures TriedRead(s, u, n, slot) {
      if slot in t.vvTried { assert TriedRead(s, t, n - 1, slot); }
    }
  }

  lemma {:induction false} ReadTriedRestores(s: State, c: State, strm: Stream, n: nat)
    requires Inv(s) && Describes(strm, s) && Blank(c) && c.h == s.h && n <= s.nTried
    ensures TriedSoFar(s, c, ReadTried(c, strm, n), s.nNew + n)
  {
    if n == 0 {
      ReadNewRestores(s, c, strm, s.nNew);
      IdCountFrame(s, ReadNew(c, strm, s.nNew), s.nNew);
    } else {
      ReadTriedRestores(s, c, strm, n - 1);
      var (t, lost) := ReadTried(c, strm, n - 1);
      ReadTriedStep(s, t, strm, s.nNew + n - 1);
    }
  }

  ghost predicate TriedSoFar(s: State, c: State, r: (State, nat), n: nat)
    requires Inv(s) && n <= |Order(s)|
  {
    EntriesRead(s, r.0, n) && r.1 == 0 && r.0.nIdCount == n && SameRest(r.0, c)
  }

  lemma IdCountFrame(s: State, t: State, n: nat)
    requires Inv(s) && n <= |Order(s)| && EntriesRead(s, t, n)
    ensures EntriesRead(s, t.(nIdCount := n), n)
  {
    var u := t.(nIdCount := n);
    forall i | 0 <= i < n ensures EntryRead(s, u, i) { assert EntryRead(s, t, i); }
    forall ip | ip in u.mapAddr ensures AddrRead(s, u, n, ip) { assert AddrRead(s, t, n, ip); }
    forall slot | slot in u.vvTried ensures TriedRead(s, u, n, slot) { assert TriedRead(s, t, n, slot); }
  }

  /** The tried slot of the next entry is still free, so it is not lost. */
  lemma NextTriedFree(s: State, t: State, k: nat)
    requires Inv(s) && k < |Order(s)| && Order(s)[k] in s.mapInfo && s.mapInfo[Order(s)[k]].fInTried && EntriesRead(s, t, k)
    ensures TriedSlot(s, s.mapInfo[Order(s)[k]].addr.svc) !in t.vvTried
  {
    var id := Order(s)[k];
    var slot := TriedSlot(s, s.mapInfo[id].addr.svc);
    assert TriedPlaced(s, id);
    if slot in t.vvTried {
      assert TriedRead(s, t, k, slot);
      assert TriedPlaced(s, Order(s)[t.vvTried[slot]]);
      AddressesDiffer(s, k, t.vvTried[slot]);
    }
  }

  lemma ReadTriedStep(s: State, t: State, strm: Stream, k: nat)
    requires Inv(s) && Describes(strm, s) && s.nNew <= k < |Order(s)| && EntriesRead(s, t, k) && t.nIdCount == k
    ensures TriedSoFar(s, t, ReadTriedEntry(t, 0, strm, k - s.nNew), k + 1)
  {
    var r := ReadTriedEntry(t, 0, strm, k - s.nNew);
    TriedEntryMade(s, t, strm, k);
    assert r.1 == 0 && r.0.nIdCount == k + 1 && SameRest(r.0, t);
    EntryAdded(s, t, r.0, k + 1);
  }

  lemma TriedEntryMade(s: State, t: State, strm: Stream, k: nat)
    requires Inv(s) && Describes(strm, s) && s.nNew <= k < |Order(s)| && EntriesRead(s, t, k) && t.nIdCount == k
    ensures Order(s)[k] in s.mapInfo
    ensures var info := s.mapInfo[Order(s)[k]];
            var slot := TriedSlot(s, info.addr.svc);
            && info.fInTried && slot !in t.vvTried
            && ReadTriedEntry(t, 0, strm, k - s.nNew)
            == (t.(mapInfo := t.mapInfo[k := Restored(info, k).(nRefCount := 0)],
                   mapAddr := t.mapAddr[info.addr.svc.ip := k], vRandom := t.vRandom + [k],
                   vvTried := t.vvTried[slot := k], nIdCount := k + 1), 0)
  {
    assert Numbered(s, k) && Written(strm, s, k);
    NewEntryFromDisk(s, Order(s)[k], k);
    NextTriedFree(s, t, k);
  }

  // ---------------------------------------------------------------- reading the buckets

  /** The slots written before position p of bucket b. */
  predicate Before(slot: Slot, b: nat, p: nat)
  {
    slot.bucket < b || (slot.bucket == b && slot.pos < p)
  }

  function BucketsBefore(s: State, id: int, b: nat, p: nat): (r: set<nat>)
    requires id in s.mapInfo
  {
    set x | x in Buckets(s, id, Svc(s, id)) && Before(NewSlot(s, Svc(s, id), x), b, p)
  }

  /** The slots before position p of bucket b are restored; t0 is the manager before the third loop. */
  ghost predicate SlotsRead(s: State, t0: State, t: State, b: nat, p: nat)
    requires Inv(s)
  {
    && t == t0.(mapInfo := t.mapInfo, vvNew := t.vvNew)
    && (forall i :: i in t.mapInfo <==> 0 <= i < |Order(s)|)
    && (forall i {:trigger EntryCounted(s, t, b, p, i)} :: 0 <= i < |Order(s)| ==> EntryCounted(s, t, b, p, i))
    && (forall slot {:trigger SlotRead(s, t, b, p, slot)} :: SlotRead(s, t, b, p, slot))
  }

  ghost predicate EntryCounted(s: State, t: State, b: nat, p: nat, i: nat)
    requires Inv(s)
  {
    && i < |Order(s)| && Order(s)[i] in s.mapInfo && i in t.mapInfo
    && t.mapInfo[i] == Restored(s.mapInfo[Order(s)[i]], i).(nRefCount := |BucketsBefore(s, Order(s)[i], b, p)|)
  }

  ghost predicate SlotRead(s: State, t: State, b: nat, p: nat, slot: Slot)
    requires Inv(s)
  {
    && (slot in t.vvNew <==> slot in s.vvNew && Before(slot, b, p))
    && (slot in t.vvNew ==> 0 <= t.vvNew[slot] < |Order(s)| && Order(s)[t.vvNew[slot]] == s.vvNew[slot])
  }

  lemma NothingReadYet(s: State, t: State)
    requires Inv(s) && EntriesRead(s, t, |Order(s)|)
    ensures SlotsRead(s, t, t, 0, 0)
  {
    forall i | 0 <= i < |Order(s)| ensures EntryCounted(s, t, 0, 0, i) {
      assert EntryRead(s, t, i);
      assert BucketsBefore(s, Order(s)[i], 0, 0) == {};
    }
  }

  /** Only the entry whose slot was just passed has one more bucket behind it. */
  lemma BucketsGrow(s: State, id: int, b: nat, p: nat)
    requires Inv(s) && id in s.mapInfo && b < ADDRMAN_NEW_BUCKET_COUNT
    ensures if Slot(b, p) in s.vvNew && s.vvNew[Slot(b, p)] == id
            then BucketsBefore(s, id, b, p + 1) == BucketsBefore(s, id, b, p) + {b} && b !in BucketsBefore(s, id, b, p)
            else BucketsBefore(s, id, b, p + 1) == BucketsBefore(s, id, b, p)
  {
    var svc := Svc(s, id);
    if Slot(b, p) in s.vvNew && s.vvNew[Slot(b, p)] == id {
      assert NewHolder(s, Slot(b, p));
      assert NewSlot(s, svc, b) == Slot(b, p) && b in Buckets(s, id, svc);
    } else {
      forall x | x in BucketsBefore(s, id, b, p + 1) ensures x in BucketsBefore(s, id, b, p) {
        assert NewSlot(s, svc, x) != Slot(b, p);
      }
    }
  }

  /** An empty slot writes nothing and is skipped by the reader. */
  lemma SkipSlot(s: State, t0: State, t: State, b: nat, p: nat)
    requires Inv(s) && b < ADDRMAN_NEW_BUCKET_COUNT && SlotsRead(s, t0, t, b, p) && Slot(b, p) !in s.vvNew
    ensures SlotsRead(s, t0, t, b, p + 1)
  {
    var q := p + 1;
    forall i | 0 <= i < |Order(s)| ensures EntryCounted(s, t, b, q, i) {
      assert EntryCounted(s, t, b, p, i);
      BucketsGrow(s, Order(s)[i], b, p);
    }
    forall slot ensures SlotRead(s, t, b, q, slot) {
      assert SlotRead(s, t, b, p, slot);
      assert slot == Slot(slot.bucket, slot.pos);
    }
  }

  /** The index written for a slot names its holder, and the reader puts it back into the same slot. */
  lemma FillSlot(s: State, t0: State, t: State, strm: Stream, b: nat, p: nat)
    requires Inv(s) && Describes(strm, s) && b < ADDRMAN_NEW_BUCKET_COUNT && SlotsRead(s, t0, t, b, p)
    requires t.h == s.h && t.nKey == s.nKey && Slot(b, p) in s.vvNew
    requires forall i :: 0 <= i < strm.nNew ==> i in t.mapInfo
    ensures var index := Index(NewOrder(s), s.vvNew[Slot(b, p)]);
            SlotsRead(s, t0, ReadIndex(t, strm, b, index), b, p + 1)
  {
    var slot := Slot(b, p);
    var id := s.vvNew[slot];
    assert NewHolder(s, slot) && NewPlaced(s, {}, id) && TriedPlaced(s, id);
    OrderFacts(s);
    assert id in Referenced(s) && id in NewOrder(s);
    var index := Index(NewOrder(s), id);
    assert Order(s)[index] == id;
    assert EntryCounted(s, t, b, p, index) && SlotRead(s, t, b, p, slot);
    BucketsGrow(s, id, b, p);
    BucketsBeforeFew(s, id, b, p);
    var u := ReadIndex(t, strm, b, index);
    assert u == Place(t, slot, index);
    FilledSlot(s, t0, t, u, b, p, index);
  }

  lemma BucketsBeforeFew(s: State, id: int, b: nat, p: nat)
    requires Inv(s) && id in s.mapInfo && !s.mapInfo[id].fInTried && b < ADDRMAN_NEW_BUCKET_COUNT
    requires Slot(b, p) in s.vvNew && s.vvNew[Slot(b, p)] == id
    ensures |BucketsBefore(s, id, b, p)| < ADDRMAN_NEW_BUCKETS_PER_ADDRESS
  {
    BucketsGrow(s, id, b, p);
    assert NewPlaced(s, {}, id);
    var all := Buckets(s, id, Svc(s, id));
    var before := BucketsBefore(s, id, b, p + 1);
    assert before <= all && all == before + (all - before);
  }

  lemma FilledSlot(s: State, t0: State, t: State, u: State, b: nat, p: nat, index: nat)
    requires Inv(s) && b < ADDRMAN_NEW_BUCKET_COUNT && SlotsRead(s, t0, t, b, p) && Slot(b, p) in s.vvNew
    requires index < |Order(s)| && index in t.mapInfo && Order(s)[index] == s.vvNew[Slot(b, p)]
    requires u == Place(t, Slot(b, p), index)
    ensures SlotsRead(s, t0, u, b, p + 1)
  {
    OrderFacts(s);
    var q := p + 1;
    forall i | 0 <= i < |Order(s)| ensures EntryCounted(s, u, b, q, i) {
      assert EntryCounted(s, t, b, p, i);
      BucketsGrow(s, Order(s)[i], b, p);
    }
    forall slot ensures SlotRead(s, u, b, q, slot) {
      assert SlotRead(s, t, b, p, slot);
      assert slot == Slot(slot.bucket, slot.pos);
    }
  }

  lemma {:induction false} IndexesPrefix(s: State, order: seq<int>, b: nat, p: nat, q: nat)
    requires p <= q
    ensures BucketIndexes(s, order, b, p) <= BucketIndexes(s, order, b, q)
  {
    if p < q { IndexesPrefix(s, order, b, p, q - 1); }
  }

  /** Reading back the indexes of the first p positions of a bucket. */
  lemma {:induction false} ReadBucketRestores(s: State, t0: State, t: State, strm: Stream, b: nat, p: nat)
    requires Inv(s) && Describes(strm, s) && b < ADDRMAN_NEW_BUCKET_COUNT && p <= ADDRMAN_BUCKET_SIZE
    requires SlotsRead(s, t0, t, b, 0) && t.h == s.h && t.nKey == s.nKey
    requires forall i :: 0 <= i < strm.nNew ==> i in t.mapInfo
    ensures |BucketIndexes(s, NewOrder(s), b, p)| <= |strm.buckets[b]|
    ensures SlotsRead(s, t0, ReadBucket(t, strm, b, |BucketIndexes(s, NewOrder(s), b, p)|), b, p)
  {
    IndexesPrefix(s, NewOrder(s), b, p, ADDRMAN_BUCKET_SIZE);
    assert BucketWritten(strm, s, b);
    if p > 0 {
      ReadBucketRestores(s, t0, t, strm, b, p - 1);
      ReadBucketStep(s, t0, t, strm, b, p - 1);
    }
  }

  /** The next slot's index is the next one written, if it is occupied at all. */
  lemma NextIndex(s: State, strm: Stream, b: nat, p: nat)
    requires Inv(s) && Describes(strm, s) && b < ADDRMAN_NEW_BUCKET_COUNT && p < ADDRMAN_BUCKET_SIZE
    ensures var n := |BucketIndexes(s, NewOrder(s), b, p)|;
      |BucketIndexes(s, NewOrder(s), b, p + 1)| <= |strm.buckets[b]|
      && if Slot(b, p) in s.vvNew
         then |BucketIndexes(s, NewOrder(s), b, p + 1)| == n + 1
           && strm.buckets[b][n] == Index(NewOrder(s), s.vvNew[Slot(b, p)])
         else |BucketIndexes(s, NewOrder(s), b, p + 1)| == n
  {
    assert BucketWritten(strm, s, b);
    IndexesPrefix(s, NewOrder(s), b, p + 1, ADDRMAN_BUCKET_SIZE);
    if Slot(b, p) in s.vvNew {
      var indexes := BucketIndexes(s, NewOrder(s), b, p);
      assert BucketIndexes(s, NewOrder(s), b, p + 1) == indexes + [Index(NewOrder(s), s.vvNew[Slot(b, p)])];
    }
  }

  lemma ReadBucketStep(s: State, t0: State, t: State, strm: Stream, b: nat, p: nat)
    requires Inv(s) && Describes(strm, s) && b < ADDRMAN_NEW_BUCKET_COUNT && t0.h == s.h && t0.nKey == s.nKey
    requires forall i :: 0 <= i < strm.nNew ==> i in t.mapInfo
    requires p < ADDRMAN_BUCKET_SIZE && |BucketIndexes(s, NewOrder(s), b, p)| <= |strm.buckets[b]|
    requires SlotsRead(s, t0, ReadBucket(t, strm, b, |BucketIndexes(s, NewOrder(s), b, p)|), b, p)
    ensures |BucketIndexes(s, NewOrder(s), b, p + 1)| <= |strm.buckets[b]|
    ensures SlotsRead(s, t0, ReadBucket(t, strm, b, |BucketIndexes(s, NewOrder(s), b, p + 1)|), b, p + 1)
  {
    NextIndex(s, strm, b, p);
    var u := ReadBucket(t, strm, b, |BucketIndexes(s, NewOrder(s), b, p)|);
    if Slot(b, p) in s.vvNew {
      FillSlot(s, t0, u, strm, b, p);
    } else {
      SkipSlot(s, t0, u, b, p);
    }
  }

  lemma NextBucket(s: State, t0: State, t: State, b: nat)
    requires Inv(s) && SlotsRead(s, t0, t, b, ADDRMAN_BUCKET_SIZE)
    ensures SlotsRead(s, t0, t, b + 1, 0)
  {
    var next := b + 1;
    forall i | 0 <= i < |Order(s)| ensures EntryCounted(s, t, next, 0, i) {
      assert EntryCounted(s, t, b, ADDRMAN_BUCKET_SIZE, i);
      assert BucketsBefore(s, Order(s)[i], next, 0) == BucketsBefore(s, Order(s)[i], b, ADDRMAN_BUCKET_SIZE);
    }
    forall slot ensures SlotRead(s, t, next, 0, slot) {
      assert SlotRead(s, t, b, ADDRMAN_BUCKET_SIZE, slot);
      if slot in s.vvNew { assert NewHolder(s, slot); }
    }
  }

  lemma {:induction false} ReadBucketsRestores(s: State, t0: State, strm: Stream, n: nat)
    requires Inv(s) && Describes(strm, s) && n <= ADDRMAN_NEW_BUCKET_COUNT
    requires EntriesRead(s, t0, |Order(s)|)
    requires forall i :: 0 <= i < strm.nNew ==> i in t0.mapInfo
    ensures SlotsRead(s, t0, ReadBuckets(t0, strm, n), n, 0)
  {
    if n == 0 {
      NothingReadYet(s, t0);
    } else {
      ReadBucketsRestores(s, t0, strm, n - 1);
      var t := ReadBuckets(t0, strm, n - 1);
      ReadBucketRestores(s, t0, t, strm, n - 1, ADDRMAN_BUCKET_SIZE);
      assert BucketWritten(strm, s, n - 1);
      NextBucket(s, t0, ReadBuckets(t0, strm, n), n - 1);
    }
  }

  // ---------------------------------------------------------------- the round trip

  lemma AllRead(s: State, t0: State, t: State)
    requires Inv(s) && EntriesRead(s, t0, |Order(s)|) && t0.nIdCount == |Order(s)|
    requires SlotsRead(s, t0, t, ADDRMAN_NEW_BUCKET_COUNT, 0)
    ensures SameManager(s, t, Order(s)) && Lost(t) == {}
  {
    OrderNumbers(s);
    OrderFacts(s);
    forall i | 0 <= i < |Order(s)|
      ensures t.mapInfo[i] == Restored(s.mapInfo[Order(s)[i]], i)
      ensures t.mapInfo[i].fInTried || t.mapInfo[i].nRefCount > 0
    {
      assert EntryCounted(s, t, ADDRMAN_NEW_BUCKET_COUNT, 0, i);
      EveryBucketBefore(s, Order(s)[i]);
    }
    AddrsRestored(s, t0);
    TriedRestored(s, t0);
    NewRestored(s, t0, t);
    forall i: int ensures i in Lost(t) <==> i in {} {}
  }

  lemma EveryBucketBefore(s: State, id: int)
    requires Inv(s) && id in s.mapInfo
    ensures |BucketsBefore(s, id, ADDRMAN_NEW_BUCKET_COUNT, 0)| == s.mapInfo[id].nRefCount
    ensures s.mapInfo[id].fInTried || s.mapInfo[id].nRefCount > 0
  {
    assert NewPlaced(s, {}, id) && TriedPlaced(s, id);
    assert BucketsBefore(s, id, ADDRMAN_NEW_BUCKET_COUNT, 0) == Buckets(s, id, Svc(s, id));
    if s.mapInfo[id].fInTried {
      forall b | b in s.vvNew ensures s.vvNew[b] != id { assert NewHolder(s, b); }
      assert Buckets(s, id, Svc(s, id)) == {};
    }
  }

  lemma AddrsRestored(s: State, t: State)
    requires Inv(s) && EntriesRead(s, t, |Order(s)|)
    ensures RestoredAddr(s, t, Order(s))
  {
    OrderNumbers(s);
    forall ip | ip in t.mapAddr
      ensures ip in s.mapAddr && 0 <= t.mapAddr[ip] < |Order(s)| && Order(s)[t.mapAddr[ip]] == s.mapAddr[ip]
    {
      assert AddrRead(s, t, |Order(s)|, ip);
      assert AddrFwd(s, Order(s)[t.mapAddr[ip]]);
    }
    forall ip | ip in s.mapAddr ensures ip in t.mapAddr {
      assert AddrBwd(s, ip);
      var i :| 0 <= i < |Order(s)| && Order(s)[i] == s.mapAddr[ip];
      assert EntryRead(s, t, i);
    }
  }

  lemma TriedRestored(s: State, t: State)
    requires Inv(s) && EntriesRead(s, t, |Order(s)|)
    ensures RestoredTable(s.vvTried, t.vvTried, Order(s))
  {
    OrderNumbers(s);
    forall slot | slot in t.vvTried
      ensures slot in s.vvTried && 0 <= t.vvTried[slot] < |Order(s)| && Order(s)[t.vvTried[slot]] == s.vvTried[slot]
    {
      assert TriedRead(s, t, |Order(s)|, slot);
      assert TriedPlaced(s, Order(s)[t.vvTried[slot]]);
    }
    forall slot | slot in s.vvTried ensures slot in t.vvTried {
      assert TriedHolder(s, slot);
      var i :| 0 <= i < |Order(s)| && Order(s)[i] == s.vvTried[slot];
      assert EntryRead(s, t, i);
    }
  }

  lemma NewRestored(s: State, t0: State, t: State)
    requires Inv(s) && SlotsRead(s, t0, t, ADDRMAN_NEW_BUCKET_COUNT, 0)
    ensures RestoredTable(s.vvNew, t.vvNew, Order(s))
  {
    forall slot
      ensures slot in t.vvNew <==> slot in s.vvNew
      ensures slot in t.vvNew ==> 0 <= t.vvNew[slot] < |Order(s)| && Order(s)[t.vvNew[slot]] == s.vvNew[slot]
    {
      assert SlotRead(s, t, ADDRMAN_NEW_BUCKET_COUNT, 0, slot);
      if slot in s.vvNew { assert NewHolder(s, slot); }
    }
  }

  /** Writing a consistent manager and reading it into a cleared one restores it: nothing is lost, every
      slot of both tables goes back to the same address, counters and reference counts match, and only
      the ids, the order of vRandom and the memory-only fields differ. */
  lemma RoundTrip(s: State, collisions: set<int>)
    requires Inv(s)
    ensures Unserialize(s.h, collisions, Serialize(s)).Some?
    ensures var t := Unserialize(s.h, collisions, Serialize(s)).value;
            SameManager(s, t, Order(s)) && t.collisions == collisions
  {
    SerializedDescribes(s);
    UnserializeRestores(s, collisions, Serialize(s));
  }

  lemma UnserializeRestores(s: State, collisions: set<int>, strm: Stream)
    requires Inv(s) && Describes(strm, s)
    ensures Unserialize(s.h, collisions, strm).Some?
    ensures var t := Unserialize(s.h, collisions, strm).value;
            SameManager(s, t, Order(s)) && t.collisions == collisions
  {
    var c := Cleared(s.h, NULL_HASH, collisions);
    ReadAllRestores(s, c, strm);
    NothingPruned(ReadAll(c, strm));
  }

  lemma NothingPruned(t: State)
    requires Lost(t) == {}
    ensures Prune(t, Ascending(Lost(t), Max(0, t.nIdCount))) == Some(t)
  {
    AscendingEmpty(Max(0, t.nIdCount));
  }

  lemma {:induction false} AscendingEmpty(n: nat)
    ensures Ascending({}, n) == []
  {
    if n > 0 { AscendingEmpty(n - 1); }
  }

  lemma WellDescribed(s: State, strm: Stream)
    requires Inv(s) && Describes(strm, s)
    ensures Readable(strm) && strm.nTried == s.nTried && strm.nNew == s.nNew && |strm.buckets| == ADDRMAN_NEW_BUCKET_COUNT
  {
  }

  /** From the entries, read as they were written, to the whole manager. */
  lemma ReadSlotsRestore(s: State, c: State, strm: Stream, t0: State)
    requires Inv(s) && Describes(strm, s) && Readable(strm) && EntriesRead(s, t0, |Order(s)|) && SameRest(t0, c)
    requires |strm.buckets| == ADDRMAN_NEW_BUCKET_COUNT
    requires t0.nIdCount == |Order(s)| && forall i :: 0 <= i < strm.nNew ==> i in t0.mapInfo
    ensures var t := ReadBuckets(t0, strm, ADDRMAN_NEW_BUCKET_COUNT); SameManager(s, t, Order(s)) && Lost(t) == {} && SameRest(t, c)
  {
    hide Describes, EntriesRead, ReadBuckets, SameManager, Lost, Inv;
    ReadBucketsRestores(s, t0, strm, ADDRMAN_NEW_BUCKET_COUNT);
    AllRead(s, t0, ReadBuckets(t0, strm, ADDRMAN_NEW_BUCKET_COUNT));
  }

  lemma ReadEntriesRestore(s: State, c: State, strm: Stream)
    requires Inv(s) && Describes(strm, s) && Readable(strm) && Blank(c) && c.h == s.h
    ensures var t0 := ReadEntries(c, strm);
      EntriesRead(s, t0, |Order(s)|) && SameRest(t0, c) && t0.nIdCount == |Order(s)|
  {
    hide ReadTried, EntryRead, AddrRead, TriedRead, Blank, Inv;
    OrderFacts(s);
    ReadTriedRestores(s, c, strm, s.nTried);
    var (t0, lost) := ReadTried(c, strm, strm.nTried);
    assert t0.(nTried := t0.nTried - lost) == t0;
  }

  lemma ReadAllRestores(s: State, c: State, strm: Stream)
    requires Inv(s) && Describes(strm, s) && Blank(c) && c.h == s.h
    ensures SameManager(s, ReadAll(c, strm), Order(s)) && Lost(ReadAll(c, strm)) == {}
    ensures SameRest(ReadAll(c, strm), c)
  {
    hide Describes, EntriesRead, ReadEntries, ReadBuckets, SameManager, Lost, Blank, Inv;
    WellDescribed(s, strm);
    ReadEntriesRestore(s, c, strm);
    ReadSlotsRestore(s, c, strm, ReadEntries(c, strm));
  }

  // ---------------------------------------------------------------- and it is consistent again

  /** Any manager that differs from a consistent one in its numbering only is consistent. */
  lemma SameManagerInv(s: State, t: State, orig: seq<int>)
    requires Inv(s) && SameManager(s, t, orig) && t.collisions == {}
    ensures Inv(t)
  {
    SameLookups(s, t, orig);
    SameTried(s, t, orig);
    SameNew(s, t, orig);
    SameCounts(s, t, orig);
  }

  lemma SameLookups(s: State, t: State, orig: seq<int>)
    requires AddrOk(s) && SameManager(s, t, orig)
    ensures IdsOk(t) && AddrOk(t) && RandomOk(t)
  {
    forall i | i in t.mapInfo ensures AddrFwd(t, i) && RandomFwd(t, i) {
      assert AddrFwd(s, orig[i]);
    }
    forall ip | ip in t.mapAddr ensures AddrBwd(t, ip) { assert AddrBwd(s, ip); }
  }

  lemma SameTried(s: State, t: State, orig: seq<int>)
    requires TriedOk(s) && SameManager(s, t, orig)
    ensures TriedOk(t)
  {
    forall i | i in t.mapInfo ensures TriedPlaced(t, i) { assert TriedPlaced(s, orig[i]); }
    forall slot | slot in t.vvTried ensures TriedHolder(t, slot) { assert TriedHolder(s, slot); }
  }

  lemma SameNew(s: State, t: State, orig: seq<int>)
    requires NewOk(s, {}) && SameManager(s, t, orig)
    ensures NewOk(t, {})
  {
    forall i | i in t.mapInfo ensures NewPlaced(t, {}, i) {
      assert NewPlaced(s, {}, orig[i]);
      SameBuckets(s, t, orig, i);
    }
    forall slot | slot in t.vvNew ensures NewHolder(t, slot) { assert NewHolder(s, slot); }
  }

  lemma SameBuckets(s: State, t: State, orig: seq<int>, i: nat)
    requires SameManager(s, t, orig) && i < |orig|
    ensures i in t.mapInfo && orig[i] in s.mapInfo
    ensures Buckets(t, i, t.mapInfo[i].addr.svc) == Buckets(s, orig[i], s.mapInfo[orig[i]].addr.svc)
  {
    var svc := s.mapInfo[orig[i]].addr.svc;
    forall b: nat | b < ADDRMAN_NEW_BUCKET_COUNT
      ensures b in Buckets(t, i, svc) <==> b in Buckets(s, orig[i], svc)
    {
      assert NewSlot(t, svc, b) == NewSlot(s, svc, b);
    }
  }

  function Below(ids: set<int>, n: nat): (r: set<int>) { set i | 0 <= i < n && i in ids }

  function Originals(ids: set<int>, orig: seq<int>, n: nat): (r: set<int>)
    requires n <= |orig|
  {
    set i | 0 <= i < n && i in ids :: orig[i]
  }

  /** Distinct originals are as many as their new numbers. */
  lemma {:induction false} OriginalsSize(ids: set<int>, orig: seq<int>, n: nat)
    requires n <= |orig| && forall i, j :: 0 <= i < j < |orig| ==> orig[i] != orig[j]
    ensures |Originals(ids, orig, n)| == |Below(ids, n)|
  {
    if n == 0 {
      forall x: int ensures x in Below(ids, 0) <==> x in {} {}
      forall x: int ensures x in Originals(ids, orig, 0) <==> x in {} {}
    } else {
      OriginalsSize(ids, orig, n - 1);
      BelowGrows(ids, n);
      OriginalsGrow(ids, orig, n);
    }
  }

  lemma BelowGrows(ids: set<int>, n: nat)
    requires n > 0
    ensures Below(ids, n) == Below(ids, n - 1) + if n - 1 in ids then {n - 1} else {}
  {}

  lemma OriginalsGrow(ids: set<int>, orig: seq<int>, n: nat)
    requires 0 < n <= |orig| && forall i, j :: 0 <= i < j < |orig| ==> orig[i] != orig[j]
    ensures Originals(ids, orig, n) == Originals(ids, orig, n - 1) + if n - 1 in ids then {orig[n - 1]} else {}
    ensures orig[n - 1] !in Originals(ids, orig, n - 1)
  {}

  lemma SameSize(s: State, t: State, orig: seq<int>, mine: set<int>, theirs: set<int>)
    requires Numbering(s, orig) && (forall i :: i in mine ==> 0 <= i < |orig|) && theirs <= s.mapInfo.Keys
    requires forall i :: 0 <= i < |orig| ==> (i in mine <==> orig[i] in theirs)
    ensures |mine| == |theirs|
  {
    OriginalsSize(mine, orig, |orig|);
    assert Below(mine, |orig|) == mine;
    forall id | id in theirs ensures id in Originals(mine, orig, |orig|) {
      var i :| 0 <= i < |orig| && orig[i] == id;
      assert i in mine;
    }
    assert Originals(mine, orig, |orig|) == theirs;
  }

  lemma SameCounts(s: State, t: State, orig: seq<int>)
    requires CountsOk(s, 0) && SameManager(s, t, orig)
    ensures CountsOk(t, 0)
  {
    SameSize(s, t, orig, TriedIds(t), TriedIds(s));
    SameSize(s, t, orig, NewIds(t), NewIds(s));
  }
}
