/**
  The consistency of the address manager's indexes: the structural part of CAddrMan::Check_
  (src/addrman.cpp) as an invariant that every operation keeps, so that every assert on the way holds.
 */
module AddrManInv {
  import opened Prelude
  import opened AddrManSpec

  // ---------------------------------------------------------------- the invariant

  predicate IdsOk(s: State)
  {
    s.nIdCount >= 0 && forall id :: id in s.mapInfo ==> 0 <= id < s.nIdCount
  }

  /** mapAddr and mapInfo are inverse to each other. */
  predicate AddrOk(s: State)
  {
    && (forall id {:trigger AddrFwd(s, id)} :: id in s.mapInfo ==> AddrFwd(s, id))
    && (forall ip {:trigger AddrBwd(s, ip)} :: ip in s.mapAddr ==> AddrBwd(s, ip))
  }

  predicate AddrFwd(s: State, id: int)
    requires id in s.mapInfo
  {
    s.mapInfo[id].addr.svc.ip in s.mapAddr && s.mapAddr[s.mapInfo[id].addr.svc.ip] == id
  }

  predicate AddrBwd(s: State, ip: NetAddr)
    requires ip in s.mapAddr
  {
    s.mapAddr[ip] in s.mapInfo && s.mapInfo[s.mapAddr[ip]].addr.svc.ip == ip
  }

  /** vRandom and nRandomPos are inverse to each other. */
  predicate RandomOk(s: State)
  {
    && (forall id {:trigger RandomFwd(s, id)} :: id in s.mapInfo ==> RandomFwd(s, id))
    && (forall i {:trigger RandomBwd(s, i)} :: 0 <= i < |s.vRandom| ==> RandomBwd(s, i))
  }

  predicate RandomFwd(s: State, id: int)
    requires id in s.mapInfo
  {
    0 <= s.mapInfo[id].nRandomPos < |s.vRandom| && s.vRandom[s.mapInfo[id].nRandomPos] == id
  }

  predicate RandomBwd(s: State, i: int)
    requires 0 <= i < |s.vRandom|
  {
    s.vRandom[i] in s.mapInfo && s.mapInfo[s.vRandom[i]].nRandomPos == i
  }

  function TriedIds(s: State): (r: set<int>) { set id | id in s.mapInfo && s.mapInfo[id].fInTried }

  function NewIds(s: State): (r: set<int>) { set id | id in s.mapInfo && !s.mapInfo[id].fInTried }

  /** The counters, with `uncounted` entries of the new table not in nNew at the moment. */
  predicate CountsOk(s: State, uncounted: int)
  {
    s.nTried == |TriedIds(s)| && s.nNew + uncounted == |NewIds(s)|
  }

  /** Tried entries sit in their one slot and nowhere else. */
  predicate TriedOk(s: State)
  {
    && (forall slot {:trigger TriedHolder(s, slot)} :: slot in s.vvTried ==> TriedHolder(s, slot))
    && (forall id {:trigger TriedPlaced(s, id)} :: id in s.mapInfo ==> TriedPlaced(s, id))
  }

  predicate TriedHolder(s: State, slot: Slot)
    requires slot in s.vvTried
  {
    var id := s.vvTried[slot];
    id in s.mapInfo && s.mapInfo[id].fInTried && slot == TriedSlot(s, s.mapInfo[id].addr.svc)
  }

  predicate TriedPlaced(s: State, id: int)
    requires id in s.mapInfo
  {
    var slot := TriedSlot(s, s.mapInfo[id].addr.svc);
    s.mapInfo[id].fInTried ==> s.mapInfo[id].nRefCount == 0 && slot in s.vvTried && s.vvTried[slot] == id
  }

  /** New entries are in as many buckets as their reference count says, between 1 and 8, each time in the
      right position; the entries of `limbo` may be in none. */
  predicate NewOk(s: State, limbo: set<int>)
  {
    && (forall slot {:trigger NewHolder(s, slot)} :: slot in s.vvNew ==> NewHolder(s, slot))
    && (forall id {:trigger NewPlaced(s, limbo, id)} :: id in s.mapInfo ==> NewPlaced(s, limbo, id))
  }

  predicate NewHolder(s: State, slot: Slot)
    requires slot in s.vvNew
  {
    var id := s.vvNew[slot];
    && slot.bucket < ADDRMAN_NEW_BUCKET_COUNT
    && id in s.mapInfo && !s.mapInfo[id].fInTried && slot == NewSlot(s, s.mapInfo[id].addr.svc, slot.bucket)
  }

  predicate NewPlaced(s: State, limbo: set<int>, id: int)
    requires id in s.mapInfo
  {
    !s.mapInfo[id].fInTried ==>
      && s.mapInfo[id].nRefCount == |Buckets(s, id, s.mapInfo[id].addr.svc)| <= ADDRMAN_NEW_BUCKETS_PER_ADDRESS
      && (id !in limbo ==> s.mapInfo[id].nRefCount > 0)
  }

  /** A colliding id that still exists has an occupied tried slot. */
  predicate CollisionsOk(s: State)
  {
    forall id {:trigger Collides(s, id)} :: id in s.collisions ==> Collides(s, id)
  }

  predicate Collides(s: State, id: int)
  {
    0 <= id < s.nIdCount && (id in s.mapInfo ==> TriedSlot(s, s.mapInfo[id].addr.svc) in s.vvTried)
  }

  /** The invariant inside an operation. */
  predicate Holds(s: State, limbo: set<int>, uncounted: int)
  {
    IdsOk(s) && AddrOk(s) && RandomOk(s) && CountsOk(s, uncounted) && TriedOk(s) && NewOk(s, limbo)
  }

  /** The invariant between operations. */
  predicate Inv(s: State)
  {
    Holds(s, {}, 0) && CollisionsOk(s)
  }

  // ---------------------------------------------------------------- frames

  /** The parts of an entry the table indexes depend on. */
  predicate SameCore(a: Info, b: Info)
  {
    a.addr.svc == b.addr.svc && a.fInTried == b.fInTried && a.nRefCount == b.nRefCount
  }

  predicate SameCores(s: State, t: State)
  {
    s.mapInfo.Keys == t.mapInfo.Keys && forall id :: id in s.mapInfo ==> SameCore(s.mapInfo[id], t.mapInfo[id])
  }

  ghost predicate SameTables(s: State, t: State)
  {
    && s.h == t.h && s.nKey == t.nKey && s.nIdCount == t.nIdCount && s.mapAddr == t.mapAddr
    && s.nTried == t.nTried && s.vvTried == t.vvTried && s.vvNew == t.vvNew
  }

  /** Statistics and random positions do not matter to the other indexes. */
  lemma CoreFrame(s: State, t: State, limbo: set<int>, uncounted: int)
    requires IdsOk(s) && AddrOk(s) && CountsOk(s, uncounted) && TriedOk(s) && NewOk(s, limbo)
    requires SameCores(s, t) && SameTables(s, t)
    ensures IdsOk(t) && AddrOk(t) && CountsOk(t, uncounted + s.nNew - t.nNew) && TriedOk(t) && NewOk(t, limbo)
  {
    forall id | id in t.mapInfo ensures AddrFwd(t, id) && TriedPlaced(t, id) && NewPlaced(t, limbo, id) {
      assert AddrFwd(s, id) && TriedPlaced(s, id) && NewPlaced(s, limbo, id);
      assert Buckets(t, id, t.mapInfo[id].addr.svc) == Buckets(s, id, s.mapInfo[id].addr.svc);
    }
    forall ip | ip in t.mapAddr ensures AddrBwd(t, ip) {
      assert AddrBwd(s, ip);
      var id: int := s.mapAddr[ip];
      assert SameCore(s.mapInfo[id], t.mapInfo[id]);
    }
    forall slot | slot in t.vvTried ensures TriedHolder(t, slot) { assert TriedHolder(s, slot); }
    forall slot | slot in t.vvNew ensures NewHolder(t, slot) { assert NewHolder(s, slot); }
    forall id | id in t.mapInfo ensures t.mapInfo[id].fInTried == s.mapInfo[id].fInTried {
      assert SameCore(s.mapInfo[id], t.mapInfo[id]);
    }
    assert TriedIds(t) == TriedIds(s) && NewIds(t) == NewIds(s);
  }

  /** The address and random indexes depend on addresses and positions only. */
  lemma LookupFrame(s: State, t: State)
    requires IdsOk(s) && AddrOk(s) && RandomOk(s)
    requires s.mapInfo.Keys == t.mapInfo.Keys && s.mapAddr == t.mapAddr && s.vRandom == t.vRandom && s.nIdCount == t.nIdCount
    requires forall id {:trigger t.mapInfo[id]} :: id in s.mapInfo ==>
      s.mapInfo[id].addr.svc == t.mapInfo[id].addr.svc && s.mapInfo[id].nRandomPos == t.mapInfo[id].nRandomPos
    ensures IdsOk(t) && AddrOk(t) && RandomOk(t)
  {
    forall id | id in t.mapInfo ensures AddrFwd(t, id) && RandomFwd(t, id) {
      assert AddrFwd(s, id) && RandomFwd(s, id);
    }
    forall ip | ip in t.mapAddr ensures AddrBwd(t, ip) {
      assert AddrBwd(s, ip);
      var id: int := s.mapAddr[ip];
      assert t.mapInfo[id].addr.svc == s.mapInfo[id].addr.svc;
    }
    forall i | 0 <= i < |t.vRandom| ensures RandomBwd(t, i) {
      assert RandomBwd(s, i);
      var id: int := s.vRandom[i];
      assert t.mapInfo[id].nRandomPos == s.mapInfo[id].nRandomPos;
    }
  }

  /** The clock, the collision set and nNew are no part of the indexes; moving nNew moves the number of
      uncounted entries. */
  lemma SameIndexesKeep(s: State, t: State, limbo: set<int>, uncounted: int)
    requires Holds(s, limbo, uncounted)
    requires SameTables(s, t) && s.mapInfo == t.mapInfo && s.vRandom == t.vRandom
    ensures Holds(t, limbo, uncounted + s.nNew - t.nNew)
  {
    CoreFrame(s, t, limbo, uncounted);
    LookupFrame(s, t);
  }

  /** Updating statistics of one entry keeps everything. */
  lemma StatsKeep(s: State, id: int, info: Info, limbo: set<int>, uncounted: int)
    requires Holds(s, limbo, uncounted) && id in s.mapInfo
    requires SameCore(s.mapInfo[id], info) && s.mapInfo[id].nRandomPos == info.nRandomPos
    ensures Holds(WithInfo(s, id, info), limbo, uncounted)
  {
    var t := WithInfo(s, id, info);
    CoreFrame(s, t, limbo, uncounted);
    LookupFrame(s, t);
  }

  /** What an operation may do to the collision set and the tried table. */
  ghost predicate Advances(s: State, t: State)
  {
    && s.h == t.h && s.nKey == t.nKey && s.nIdCount <= t.nIdCount
    && s.vvTried.Keys <= t.vvTried.Keys
    && forall id :: id in t.mapInfo && id < s.nIdCount ==>
         id in s.mapInfo && t.mapInfo[id].addr.svc == s.mapInfo[id].addr.svc
  }

  /** Tried slots never empty and ids are never reused, so collisions stay collisions. */
  lemma CollisionsKeep(s: State, t: State)
    requires CollisionsOk(s) && Advances(s, t) && t.collisions <= s.collisions
    ensures CollisionsOk(t)
  {
    forall id | id in t.collisions ensures Collides(t, id) { assert Collides(s, id); }
  }

  // ---------------------------------------------------------------- vRandom

  lemma SwapRandomDefined(s: State, i: nat, j: nat)
    requires RandomOk(s) && i < |s.vRandom| && j < |s.vRandom|
    ensures s.vRandom[i] in s.mapInfo && s.vRandom[j] in s.mapInfo
  {
    assert RandomBwd(s, i) && RandomBwd(s, j);
  }

  /** SwapRandom exchanges two positions and keeps vRandom and nRandomPos inverse. */
  lemma SwapRandomKeeps(s: State, i: nat, j: nat, limbo: set<int>, uncounted: int)
    requires Holds(s, limbo, uncounted) && i < |s.vRandom| && j < |s.vRandom|
    ensures s.vRandom[i] in s.mapInfo && s.vRandom[j] in s.mapInfo
    ensures Holds(SwapRandom(s, i, j), limbo, uncounted) && SameCores(s, SwapRandom(s, i, j))
    ensures multiset(SwapRandom(s, i, j).vRandom) == multiset(s.vRandom)
  {
    SwapRandomDefined(s, i, j);
    var t := SwapRandom(s, i, j);
    assert RandomBwd(s, i) && RandomBwd(s, j);
    CoreFrame(s, t, limbo, uncounted);
    forall x | x in t.mapInfo ensures RandomFwd(t, x) { assert RandomFwd(s, x); }
    forall k | 0 <= k < |t.vRandom| ensures RandomBwd(t, k) { assert RandomBwd(s, k); }
  }

  // ---------------------------------------------------------------- Delete

  lemma CanDeleteHolds(s: State, limbo: set<int>, uncounted: int, id: int)
    requires Holds(s, limbo, uncounted) && id in s.mapInfo && !s.mapInfo[id].fInTried && s.mapInfo[id].nRefCount == 0
    ensures CanDelete(s, id)
  {
    assert RandomFwd(s, id) && RandomBwd(s, |s.vRandom| - 1);
  }

  lemma DeleteKeeps(s: State, limbo: set<int>, uncounted: int, id: int)
    requires Holds(s, limbo, uncounted) && id in s.mapInfo && !s.mapInfo[id].fInTried && s.mapInfo[id].nRefCount == 0
    ensures CanDelete(s, id)
    ensures Holds(Delete(s, id), limbo - {id}, uncounted)
    ensures Delete(s, id).mapInfo.Keys == s.mapInfo.Keys - {id}
    ensures forall x :: x in Delete(s, id).mapInfo ==> SameCore(s.mapInfo[x], Delete(s, id).mapInfo[x])
  {
    CanDeleteHolds(s, limbo, uncounted, id);
    assert RandomFwd(s, id);
    var t := SwapRandom(s, s.mapInfo[id].nRandomPos, |s.vRandom| - 1);
    SwapRandomKeeps(s, s.mapInfo[id].nRandomPos, |s.vRandom| - 1, limbo, uncounted);
    assert t.vRandom[|t.vRandom| - 1] == id;
    EraseKeeps(t, limbo, uncounted, id);
  }

  function Erase(s: State, id: int): (r: State)
    requires id in s.mapInfo && |s.vRandom| > 0
  {
    s.(vRandom := s.vRandom[..|s.vRandom| - 1],
       mapAddr := s.mapAddr - {s.mapInfo[id].addr.svc.ip},
       mapInfo := s.mapInfo - {id},
       nNew := s.nNew - 1)
  }

  lemma EraseKeeps(s: State, limbo: set<int>, uncounted: int, id: int)
    requires Holds(s, limbo, uncounted) && id in s.mapInfo && !s.mapInfo[id].fInTried && s.mapInfo[id].nRefCount == 0
    requires |s.vRandom| > 0 && s.vRandom[|s.vRandom| - 1] == id
    ensures Holds(Erase(s, id), limbo - {id}, uncounted)
  {
    EraseLookups(s, id);
    var t := Erase(s, id);
    forall x | x in t.mapInfo ensures TriedPlaced(t, x) && NewPlaced(t, limbo - {id}, x) {
      assert TriedPlaced(s, x) && NewPlaced(s, limbo, x);
      assert Buckets(t, x, t.mapInfo[x].addr.svc) == Buckets(s, x, s.mapInfo[x].addr.svc);
    }
    forall slot | slot in t.vvTried ensures TriedHolder(t, slot) { assert TriedHolder(s, slot); }
    forall slot | slot in t.vvNew ensures NewHolder(t, slot) {
      assert NewHolder(s, slot);
      NoBucketsNoSlots(s, limbo, id, slot);
    }
    assert TriedIds(t) == TriedIds(s) && NewIds(t) == NewIds(s) - {id};
  }

  lemma EraseLookups(s: State, id: int)
    requires IdsOk(s) && AddrOk(s) && RandomOk(s) && id in s.mapInfo
    requires |s.vRandom| > 0 && s.vRandom[|s.vRandom| - 1] == id
    ensures IdsOk(Erase(s, id)) && AddrOk(Erase(s, id)) && RandomOk(Erase(s, id))
  {
    var t := Erase(s, id);
    assert AddrFwd(s, id) && RandomBwd(s, |s.vRandom| - 1);
    forall x | x in t.mapInfo ensures AddrFwd(t, x) && RandomFwd(t, x) {
      assert AddrFwd(s, x) && RandomFwd(s, x);
    }
    forall ip | ip in t.mapAddr ensures AddrBwd(t, ip) { assert AddrBwd(s, ip); }
    forall k | 0 <= k < |t.vRandom| ensures RandomBwd(t, k) { assert RandomBwd(s, k); }
  }

  /** An entry without references holds no slot. */
  lemma NoBucketsNoSlots(s: State, limbo: set<int>, id: int, slot: Slot)
    requires NewOk(s, limbo) && id in s.mapInfo && !s.mapInfo[id].fInTried && s.mapInfo[id].nRefCount == 0
    requires slot in s.vvNew
    ensures s.vvNew[slot] != id
  {
    assert NewHolder(s, slot) && NewPlaced(s, limbo, id);
    assert slot.bucket !in Buckets(s, id, s.mapInfo[id].addr.svc);
  }

  // ---------------------------------------------------------------- one slot of the new table

  lemma UnplaceKeeps(s: State, limbo: set<int>, uncounted: int, slot: Slot)
    requires Holds(s, limbo, uncounted) && slot in s.vvNew
    ensures s.vvNew[slot] in s.mapInfo && s.mapInfo[s.vvNew[slot]].nRefCount > 0
    ensures Holds(Unplace(s, slot), limbo + {s.vvNew[slot]}, uncounted)
  {
    assert NewHolder(s, slot);
    var id := s.vvNew[slot];
    var svc := s.mapInfo[id].addr.svc;
    assert NewPlaced(s, limbo, id) && slot.bucket in Buckets(s, id, svc);
    var t := Unplace(s, slot);
    assert Buckets(t, id, svc) == Buckets(s, id, svc) - {slot.bucket};
    forall x | x in t.vvNew && t.vvNew[x] == id ensures NewHolder(t, x) { assert NewHolder(s, x); }
    NewTableFrame(s, t, limbo, limbo + {id}, uncounted, id);
  }

  /** Changing who holds slots, and one entry's reference count with it, leaves the other indexes alone. */
  lemma NewTableFrame(s: State, t: State, limbo: set<int>, limbo': set<int>, uncounted: int, id: int)
    requires Holds(s, limbo, uncounted) && id in s.mapInfo && !s.mapInfo[id].fInTried
    requires t == s.(mapInfo := t.mapInfo, vvNew := t.vvNew)
    requires id in t.mapInfo && t.mapInfo == s.mapInfo[id := s.mapInfo[id].(nRefCount := t.mapInfo[id].nRefCount)]
    requires NewPlaced(t, limbo', id) && limbo <= limbo' + {id}
    requires forall slot :: slot in t.vvNew && t.vvNew[slot] == id ==> NewHolder(t, slot)
    requires forall slot :: slot in t.vvNew && t.vvNew[slot] != id ==> slot in s.vvNew && s.vvNew[slot] == t.vvNew[slot]
    requires forall slot :: slot in s.vvNew && s.vvNew[slot] != id ==> slot in t.vvNew && s.vvNew[slot] == t.vvNew[slot]
    ensures Holds(t, limbo', uncounted)
  {
    LookupFrame(s, t);
    forall x | x in t.mapInfo ensures TriedPlaced(t, x) && NewPlaced(t, limbo', x) {
      assert TriedPlaced(s, x) && NewPlaced(s, limbo, x);
      if x != id {
        assert Buckets(t, x, t.mapInfo[x].addr.svc) == Buckets(s, x, s.mapInfo[x].addr.svc);
      }
    }
    forall slot | slot in t.vvTried ensures TriedHolder(t, slot) { assert TriedHolder(s, slot); }
    forall slot | slot in t.vvNew ensures NewHolder(t, slot) {
      if t.vvNew[slot] != id { assert NewHolder(s, slot); }
    }
    assert TriedIds(t) == TriedIds(s) && NewIds(t) == NewIds(s);
  }

  /** ClearNew never fails, and afterwards the slot is free. */
  lemma ClearNewKeeps(s: State, limbo: set<int>, uncounted: int, slot: Slot)
    requires Holds(s, limbo, uncounted)
    ensures CanClearNew(s, slot)
    ensures Holds(ClearNew(s, slot), limbo, uncounted) && slot !in ClearNew(s, slot).vvNew
    ensures var t := ClearNew(s, slot);
            && t.mapInfo.Keys <= s.mapInfo.Keys
            && (forall x :: x in t.mapInfo ==> t.mapInfo[x].addr.svc == s.mapInfo[x].addr.svc)
            && (forall x :: x in s.mapInfo && !(slot in s.vvNew && s.vvNew[slot] == x) ==>
                  x in t.mapInfo && SameCore(s.mapInfo[x], t.mapInfo[x]))
  {
    if slot in s.vvNew {
      UnplaceKeeps(s, limbo, uncounted, slot);
      var id := s.vvNew[slot];
      var t := Unplace(s, slot);
      assert NewHolder(s, slot);
      if t.mapInfo[id].nRefCount == 0 {
        DeleteKeeps(t, limbo + {id}, uncounted, id);
        LimboShrinks(Delete(t, id), limbo + {id} - {id}, limbo, uncounted);
      } else {
        LimboShrinks(t, limbo + {id}, limbo, uncounted);
      }
    }
  }

  /** Entries with references need no exemption. */
  lemma LimboShrinks(s: State, limbo: set<int>, limbo': set<int>, uncounted: int)
    requires Holds(s, limbo, uncounted)
    requires forall id :: id in limbo && id !in limbo' && id in s.mapInfo ==> s.mapInfo[id].fInTried || s.mapInfo[id].nRefCount > 0
    ensures Holds(s, limbo', uncounted)
  {
    forall id | id in s.mapInfo ensures NewPlaced(s, limbo', id) { assert NewPlaced(s, limbo, id); }
  }

  lemma PlaceKeeps(s: State, limbo: set<int>, uncounted: int, id: int, bucket: nat)
    requires Holds(s, limbo, uncounted) && id in s.mapInfo && !s.mapInfo[id].fInTried
    requires s.mapInfo[id].nRefCount < ADDRMAN_NEW_BUCKETS_PER_ADDRESS && bucket < ADDRMAN_NEW_BUCKET_COUNT
    requires NewSlot(s, s.mapInfo[id].addr.svc, bucket) !in s.vvNew
    ensures Holds(Place(s, NewSlot(s, s.mapInfo[id].addr.svc, bucket), id), limbo - {id}, uncounted)
  {
    var svc := s.mapInfo[id].addr.svc;
    var slot := NewSlot(s, svc, bucket);
    var t := Place(s, slot, id);
    assert NewPlaced(s, limbo, id);
    assert Buckets(t, id, svc) == Buckets(s, id, svc) + {bucket};
    forall x | x in t.vvNew && t.vvNew[x] == id ensures NewHolder(t, x) {
      if x != slot { assert NewHolder(s, x); }
    }
    NewTableFrame(s, t, limbo, limbo - {id}, uncounted, id);
  }

  // ---------------------------------------------------------------- a further entry

  /** An entry that is not tried and has no references is appended, under the next id. */
  ghost predicate Appended(s: State, t: State, info: Info)
  {
    && !info.fInTried && info.nRefCount == 0 && info.nRandomPos == |s.vRandom|
    && t == s.(nIdCount := s.nIdCount + 1, mapInfo := s.mapInfo[s.nIdCount := info],
               mapAddr := s.mapAddr[info.addr.svc.ip := s.nIdCount], vRandom := s.vRandom + [s.nIdCount])
  }

  lemma AppendKeeps(s: State, t: State, limbo: set<int>, uncounted: int, info: Info)
    requires Holds(s, limbo, uncounted) && Appended(s, t, info) && info.addr.svc.ip !in s.mapAddr
    ensures Holds(t, limbo + {s.nIdCount}, uncounted + 1)
  {
    hide Appended, AddrOk, RandomOk, TriedOk, NewOk, CountsOk;
    AppendLookups(s, t, info);
    AppendNew(s, t, limbo, info);
    AppendTried(s, t, info);
    AppendCounts(s, t, uncounted, info);
  }

  lemma AppendTried(s: State, t: State, info: Info)
    requires IdsOk(s) && TriedOk(s) && Appended(s, t, info)
    ensures TriedOk(t)
  {
    forall x | x in t.mapInfo ensures TriedPlaced(t, x) { if x != s.nIdCount { assert TriedPlaced(s, x); } }
    forall slot | slot in t.vvTried ensures TriedHolder(t, slot) { assert TriedHolder(s, slot); }
  }

  lemma AppendCounts(s: State, t: State, uncounted: int, info: Info)
    requires IdsOk(s) && CountsOk(s, uncounted) && Appended(s, t, info)
    ensures CountsOk(t, uncounted + 1)
  {
    assert TriedIds(t) == TriedIds(s) && NewIds(t) == NewIds(s) + {s.nIdCount};
  }

  lemma AppendLookups(s: State, t: State, info: Info)
    requires IdsOk(s) && AddrOk(s) && RandomOk(s) && Appended(s, t, info) && info.addr.svc.ip !in s.mapAddr
    ensures IdsOk(t) && AddrOk(t) && RandomOk(t)
  {
    forall x | x in t.mapInfo ensures AddrFwd(t, x) && RandomFwd(t, x) {
      if x != s.nIdCount { assert AddrFwd(s, x) && RandomFwd(s, x); }
    }
    forall ip | ip in t.mapAddr ensures AddrBwd(t, ip) {
      if ip != info.addr.svc.ip { assert AddrBwd(s, ip); }
    }
    forall k | 0 <= k < |t.vRandom| ensures RandomBwd(t, k) {
      if k < |s.vRandom| { assert RandomBwd(s, k); }
    }
  }

  lemma AppendNew(s: State, t: State, limbo: set<int>, info: Info)
    requires IdsOk(s) && NewOk(s, limbo) && Appended(s, t, info)
    ensures NewOk(t, limbo + {s.nIdCount})
  {
    var id := s.nIdCount;
    forall slot | slot in s.vvNew ensures s.vvNew[slot] != id { assert NewHolder(s, slot); }
    forall x | x in t.mapInfo ensures NewPlaced(t, limbo + {id}, x) {
      if x != id {
        assert NewPlaced(s, limbo, x);
        assert Buckets(t, x, t.mapInfo[x].addr.svc) == Buckets(s, x, s.mapInfo[x].addr.svc);
      } else {
        assert Buckets(t, id, info.addr.svc) == {};
      }
    }
    forall slot | slot in t.vvNew ensures NewHolder(t, slot) { assert NewHolder(s, slot); }
  }
}
