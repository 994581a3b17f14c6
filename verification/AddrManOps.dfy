/**
  Every operation of the address manager (src/addrman.cpp) keeps its indexes consistent and meets the
  asserts on its way; so does every run of operations.
 */
module AddrManOps {
  import opened Prelude
  import opened AddrManSpec
  import opened AddrManInv

  // ---------------------------------------------------------------- Create

  lemma CreateKeeps(s: State, addr: Address, source: NetAddr)
    requires Holds(s, {}, 0) && addr.svc.ip !in s.mapAddr
    ensures Holds(Create(s, addr, source).(nNew := s.nNew + 1), {s.nIdCount}, 0)
  {
    var t := Create(s, addr, source);
    AppendKeeps(s, t, {}, 0, t.mapInfo[s.nIdCount]);
    SameIndexesKeep(t, t.(nNew := s.nNew + 1), {} + {s.nIdCount}, 1);
    assert {} + {s.nIdCount} == {s.nIdCount};
  }

  // ---------------------------------------------------------------- MakeTried

  /** t keeps the entries of s, or some of them, at their addresses. */
  predicate Within(s: State, t: State)
  {
    t.mapInfo.Keys <= s.mapInfo.Keys
    && forall id :: id in t.mapInfo ==> t.mapInfo[id].addr.svc == s.mapInfo[id].addr.svc
  }

  /** Leaving the new table drops exactly the entry's references. */
  lemma LeaveNewKeeps(s: State, id: int)
    requires Holds(s, {}, 0) && id in s.mapInfo && !s.mapInfo[id].fInTried
    ensures Holds(LeaveNew(s, id), {id}, 1) && LeaveNew(s, id).mapInfo[id].nRefCount == 0
  {
    var svc := s.mapInfo[id].addr.svc;
    var t := LeaveNew(s, id);
    var u := t.(nNew := s.nNew);
    assert NewPlaced(s, {}, id);
    forall slot | slot in s.vvNew && s.vvNew[slot] == id ensures slot !in u.vvNew {
      assert NewHolder(s, slot);
      assert slot.bucket in Buckets(s, id, svc);
    }
    assert Buckets(u, id, svc) == {};
    NewTableFrame(s, u, {}, {id}, 0, id);
    SameIndexesKeep(u, t, {id}, 0);
  }

  /** The new table does not notice an entry without buckets changing sides. */
  lemma SwitchKeepsNew(s: State, t: State, limbo: set<int>, limbo': set<int>, id: int)
    requires NewOk(s, limbo) && limbo <= limbo' + {id} && id in s.mapInfo && s.mapInfo[id].nRefCount == 0
    requires forall b {:trigger s.vvNew[b]} :: b in s.vvNew ==> s.vvNew[b] != id
    requires t.vvNew == s.vvNew && t.h == s.h && t.nKey == s.nKey
    requires id in t.mapInfo && t.mapInfo == s.mapInfo[id := s.mapInfo[id].(fInTried := t.mapInfo[id].fInTried)]
    requires id in limbo' || t.mapInfo[id].fInTried
    ensures NewOk(t, limbo')
  {
    forall x | x in t.mapInfo ensures NewPlaced(t, limbo', x) {
      assert NewPlaced(s, limbo, x);
      if x != id {
        assert Buckets(t, x, t.mapInfo[x].addr.svc) == Buckets(s, x, s.mapInfo[x].addr.svc);
      } else {
        assert Buckets(t, id, t.mapInfo[id].addr.svc) == {};
      }
    }
    forall b | b in t.vvNew ensures NewHolder(t, b) { assert NewHolder(s, b); }
  }

  lemma SwitchCounts(s: State, t: State, uncounted: int, id: int)
    requires CountsOk(s, uncounted) && id in s.mapInfo && t.nNew == s.nNew
    requires id in t.mapInfo && t.mapInfo == s.mapInfo[id := s.mapInfo[id].(fInTried := t.mapInfo[id].fInTried)]
    ensures s.mapInfo[id].fInTried && !t.mapInfo[id].fInTried && t.nTried == s.nTried - 1 ==> CountsOk(t, uncounted + 1)
    ensures !s.mapInfo[id].fInTried && t.mapInfo[id].fInTried && t.nTried == s.nTried + 1 ==> CountsOk(t, uncounted - 1)
  {
    if s.mapInfo[id].fInTried && !t.mapInfo[id].fInTried {
      SwitchSides(s, t, id);
    } else if !s.mapInfo[id].fInTried && t.mapInfo[id].fInTried {
      assert s.mapInfo == t.mapInfo[id := s.mapInfo[id]];
      SwitchSides(t, s, id);
    }
  }

  lemma SwitchSides(s: State, t: State, id: int)
    requires id in s.mapInfo && id in t.mapInfo && s.mapInfo[id].fInTried && !t.mapInfo[id].fInTried
    requires t.mapInfo == s.mapInfo[id := t.mapInfo[id]]
    ensures |TriedIds(t)| == |TriedIds(s)| - 1 && |NewIds(t)| == |NewIds(s)| + 1
  {
    assert TriedIds(t) == TriedIds(s) - {id};
    assert NewIds(t) == NewIds(s) + {id};
  }

  lemma LeaveTriedKeeps(s: State, limbo: set<int>, uncounted: int, slot: Slot)
    requires Holds(s, limbo, uncounted) && slot in s.vvTried
    ensures s.vvTried[slot] in s.mapInfo
    ensures Holds(LeaveTried(s, slot), limbo + {s.vvTried[slot]}, uncounted + 1)
    ensures LeaveTried(s, slot).mapInfo[s.vvTried[slot]].nRefCount == 0
  {
    assert TriedHolder(s, slot);
    var id := s.vvTried[slot];
    var t := LeaveTried(s, slot);
    LookupFrame(s, t);
    assert TriedPlaced(s, id);
    forall b | b in s.vvNew ensures s.vvNew[b] != id { assert NewHolder(s, b); }
    SwitchKeepsNew(s, t, limbo, limbo + {id}, id);
    SwitchCounts(s, t, uncounted, id);
    forall x | x in t.mapInfo ensures TriedPlaced(t, x) { assert TriedPlaced(s, x); }
    forall b | b in t.vvTried ensures TriedHolder(t, b) { assert TriedHolder(s, b); }
  }

  lemma EnterTriedKeeps(s: State, limbo: set<int>, uncounted: int, id: int)
    requires Holds(s, limbo, uncounted) && id in s.mapInfo && !s.mapInfo[id].fInTried && s.mapInfo[id].nRefCount == 0
    requires TriedSlot(s, s.mapInfo[id].addr.svc) !in s.vvTried
    ensures Holds(EnterTried(s, TriedSlot(s, s.mapInfo[id].addr.svc), id), limbo - {id}, uncounted - 1)
  {
    var slot := TriedSlot(s, s.mapInfo[id].addr.svc);
    var t := EnterTried(s, slot, id);
    LookupFrame(s, t);
    forall b | b in s.vvNew ensures s.vvNew[b] != id { NoBucketsNoSlots(s, limbo, id, b); }
    SwitchKeepsNew(s, t, limbo, limbo - {id}, id);
    SwitchCounts(s, t, uncounted, id);
    forall x | x in t.mapInfo ensures TriedPlaced(t, x) { assert TriedPlaced(s, x); }
    forall b | b in t.vvTried ensures TriedHolder(t, b) { if b != slot { assert TriedHolder(s, b); } }
  }

  /** Clearing a slot cannot remove an entry that holds no slot. */
  lemma BystanderKept(s: State, limbo: set<int>, uncounted: int, slot: Slot, id: int)
    requires Holds(s, limbo, uncounted) && id in s.mapInfo && !s.mapInfo[id].fInTried && s.mapInfo[id].nRefCount == 0
    ensures CanClearNew(s, slot)
    ensures id in ClearNew(s, slot).mapInfo && SameCore(s.mapInfo[id], ClearNew(s, slot).mapInfo[id])
  {
    ClearNewKeeps(s, limbo, uncounted, slot);
    if slot in s.vvNew { NoBucketsNoSlots(s, limbo, id, slot); }
  }

  /** A bystander with no references outlives a clearing of any slot. */
  predicate Unreferenced(s: State, id: int)
  {
    id in s.mapInfo && !s.mapInfo[id].fInTried && s.mapInfo[id].nRefCount == 0
  }

  predicate BackInNew(s: State, id: int)
  {
    id in s.mapInfo && !s.mapInfo[id].fInTried && s.mapInfo[id].nRefCount == 1
  }

  lemma ReturnToNewDefined(s: State, limbo: set<int>, uncounted: int, id: int)
    requires Holds(s, limbo, uncounted) && Unreferenced(s, id)
    ensures CanReturnToNew(s, id)
    ensures var t := ClearNew(s, EvictSlot(s, id));
            && Holds(t, limbo, uncounted) && Unreferenced(t, id) && SameCore(s.mapInfo[id], t.mapInfo[id])
            && ReturnToNew(s, id) == Place(t, EvictSlot(s, id), id).(nNew := t.nNew + 1)
  {
    ClearNewKeeps(s, limbo, uncounted, EvictSlot(s, id));
    BystanderKept(s, limbo, uncounted, EvictSlot(s, id), id);
  }

  lemma ReturnToNewKeeps(s: State, limbo: set<int>, uncounted: int, id: int)
    requires Holds(s, limbo, uncounted) && Unreferenced(s, id)
    ensures CanReturnToNew(s, id) && Holds(ReturnToNew(s, id), limbo - {id}, uncounted - 1)
  {
    ReturnToNewDefined(s, limbo, uncounted, id);
    var slot := EvictSlot(s, id);
    var t := ClearNew(s, slot);
    assert slot == NewSlot(t, t.mapInfo[id].addr.svc, slot.bucket);
    PlaceKeeps(t, limbo, uncounted, id, slot.bucket);
    SameIndexesKeep(Place(t, slot, id), ReturnToNew(s, id), limbo - {id}, uncounted);
  }

  lemma ReturnToNewFrame(s: State, limbo: set<int>, uncounted: int, id: int, other: int)
    requires Holds(s, limbo, uncounted) && Unreferenced(s, id) && Unreferenced(s, other) && other != id
    ensures CanReturnToNew(s, id)
    ensures var t := ReturnToNew(s, id);
            && Within(s, t) && t.vvTried == s.vvTried && t.nIdCount == s.nIdCount && t.collisions == s.collisions
            && t.h == s.h && t.nKey == s.nKey
            && Unreferenced(t, other) && BackInNew(t, id)
  {
    ReturnToNewDefined(s, limbo, uncounted, id);
    ClearNewKeeps(s, limbo, uncounted, EvictSlot(s, id));
    BystanderKept(s, limbo, uncounted, EvictSlot(s, id), other);
  }

  /** The holder of a tried slot is moved back to the new table, none of the asserts fails, and the entry
      about to be promoted stays as it is. */
  lemma EvictKeeps(s: State, id: int, slot: Slot)
    requires Holds(s, {id}, 1) && Unreferenced(s, id)
    ensures CanEvict(s, slot) && Holds(Evict(s, slot), {id}, 1)
  {
    if slot in s.vvTried {
      LeaveTriedKeeps(s, {id}, 1, slot);
      assert TriedHolder(s, slot);
      var old_ := s.vvTried[slot];
      ReturnToNewKeeps(LeaveTried(s, slot), {id} + {old_}, 2, old_);
      assert {id} + {old_} - {old_} == {id};
    }
  }

  lemma EvictFrame(s: State, id: int, slot: Slot)
    requires Holds(s, {id}, 1) && Unreferenced(s, id) && CanEvict(s, slot)
    ensures var t := Evict(s, slot);
            && Within(s, t) && t.vvTried == s.vvTried - {slot} && t.nIdCount == s.nIdCount
            && t.collisions == s.collisions && t.h == s.h && t.nKey == s.nKey && Unreferenced(t, id)
            && (slot in s.vvTried ==> BackInNew(t, s.vvTried[slot]))
  {
    if slot in s.vvTried {
      LeaveTriedKeeps(s, {id}, 1, slot);
      assert TriedHolder(s, slot);
      var old_ := s.vvTried[slot];
      ReturnToNewFrame(LeaveTried(s, slot), {id} + {old_}, 2, old_, id);
    } else {
      assert s.vvTried - {slot} == s.vvTried;
    }
  }

  /** MakeTried: every assert holds and the indexes stay consistent. */
  lemma MakeTriedKeeps(s: State, id: int)
    requires Holds(s, {}, 0) && id in s.mapInfo && !s.mapInfo[id].fInTried
    ensures CanMakeTried(s, id) && Holds(MakeTried(s, id), {}, 0)
  {
    var slot := TriedSlot(s, s.mapInfo[id].addr.svc);
    LeaveNewKeeps(s, id);
    var t := LeaveNew(s, id);
    EvictKeeps(t, id, slot);
    EvictFrame(t, id, slot);
    EnterTriedKeeps(Evict(t, slot), {id}, 1, id);
    assert {id} - {id} == {};
  }

  /** The entry ends up in its tried slot, and an entry evicted from there is back in the new table with
      one reference. */
  lemma MakeTriedMoves(s: State, id: int)
    requires Holds(s, {}, 0) && id in s.mapInfo && !s.mapInfo[id].fInTried && CanMakeTried(s, id)
    ensures var slot := TriedSlot(s, s.mapInfo[id].addr.svc);
            var t := MakeTried(s, id);
            && t.vvTried == s.vvTried[slot := id] && Within(s, t) && id in t.mapInfo && t.mapInfo[id].fInTried
            && t.nIdCount == s.nIdCount && t.collisions == s.collisions && t.h == s.h && t.nKey == s.nKey
            && (slot in s.vvTried ==> BackInNew(t, s.vvTried[slot]))
  {
    var slot := TriedSlot(s, s.mapInfo[id].addr.svc);
    LeaveNewKeeps(s, id);
    var t := LeaveNew(s, id);
    EvictKeeps(t, id, slot);
    EvictFrame(t, id, slot);
    EnterTriedFrame(Evict(t, slot), slot, id);
    if slot in s.vvTried {
      assert TriedHolder(s, slot) && s.vvTried[slot] != id;
    }
  }

  lemma EnterTriedFrame(s: State, slot: Slot, id: int)
    requires id in s.mapInfo
    ensures var t := EnterTried(s, slot, id);
            && Within(s, t) && id in t.mapInfo && t.mapInfo[id].fInTried && t.vvTried == s.vvTried[slot := id]
            && (forall x :: x != id && BackInNew(s, x) ==> BackInNew(t, x))
  {
  }

  // ---------------------------------------------------------------- Good_

  lemma FindSound(s: State, ip: NetAddr)
    requires AddrOk(s)
    ensures Find(s, ip).None? <==> ip !in s.mapAddr
    ensures Find(s, ip).Some? ==> s.mapInfo[Find(s, ip).value].addr.svc.ip == ip
  {
    if ip in s.mapAddr { assert AddrBwd(s, ip); }
  }

  /** An entry of the new table is always found in some bucket. */
  lemma NewEntryHasBucket(s: State, id: int)
    requires Holds(s, {}, 0) && id in s.mapInfo && !s.mapInfo[id].fInTried
    ensures Buckets(s, id, s.mapInfo[id].addr.svc) != {}
  {
    assert NewPlaced(s, {}, id);
  }

  lemma MarkedKeeps(s: State, id: int, nTime: int)
    requires Inv(s) && id in s.mapInfo
    ensures Inv(MarkGood(s, id, nTime))
  {
    var t := WithInfo(s, id, s.mapInfo[id].(nLastSuccess := nTime, nLastTry := nTime, nAttempts := 0));
    StatsKeep(s, id, t.mapInfo[id], {}, 0);
    SameIndexesKeep(t, MarkGood(s, id, nTime), {}, 0);
    CollisionsKeep(s, MarkGood(s, id, nTime));
  }

  lemma MoveOrCollideKeeps(s: State, id: int, svc: Service, testBeforeEvict: bool)
    requires Inv(s) && id in s.mapInfo && !s.mapInfo[id].fInTried && s.mapInfo[id].addr.svc == svc
    ensures CanMoveOrCollide(s, id, svc, testBeforeEvict)
    ensures Inv(MoveOrCollide(s, id, svc, testBeforeEvict))
    ensures testBeforeEvict || MoveOrCollide(s, id, svc, testBeforeEvict).collisions == s.collisions
  {
    NewEntryHasBucket(s, id);
    if testBeforeEvict && TriedSlot(s, svc) in s.vvTried {
      CollideKeeps(s, id);
    } else {
      MakeTriedKeeps(s, id);
      MakeTriedMoves(s, id);
      CollisionsKeep(s, MakeTried(s, id));
    }
  }

  /** Good_ meets every assert of MakeTried and keeps the invariant. */
  lemma GoodKeeps(s: State, svc: Service, testBeforeEvict: bool, nTime: int)
    requires Inv(s)
    ensures CanGood(s, svc, testBeforeEvict, nTime)
    ensures Inv(Good(s, svc, testBeforeEvict, nTime))
    ensures testBeforeEvict || Good(s, svc, testBeforeEvict, nTime).collisions == s.collisions
  {
    FindSound(s, svc.ip);
    var found := Exact(s, svc);
    if found.Some? {
      MarkedKeeps(s, found.value, nTime);
      if !s.mapInfo[found.value].fInTried {
        MoveOrCollideKeeps(MarkGood(s, found.value, nTime), found.value, svc, testBeforeEvict);
      }
    } else {
      SameIndexesKeep(s, s.(nLastGood := nTime), {}, 0);
      CollisionsKeep(s, s.(nLastGood := nTime));
    }
  }

  /** What Good_ is for: a known new entry whose tried slot is free, or may be taken, ends up in that slot,
      and a previous holder is back in the new table. */
  lemma GoodPromotes(s: State, svc: Service, testBeforeEvict: bool, nTime: int)
    requires Inv(s) && Exact(s, svc).Some? && !s.mapInfo[Exact(s, svc).value].fInTried
    requires !(testBeforeEvict && TriedSlot(s, svc) in s.vvTried)
    requires CanGood(s, svc, testBeforeEvict, nTime)
    ensures var id := Exact(s, svc).value;
            var t := Good(s, svc, testBeforeEvict, nTime);
            && id in t.mapInfo && t.mapInfo[id].fInTried && t.vvTried == s.vvTried[TriedSlot(s, svc) := id]
            && (TriedSlot(s, svc) in s.vvTried ==> BackInNew(t, s.vvTried[TriedSlot(s, svc)]))
  {
    var id := Exact(s, svc).value;
    MarkedKeeps(s, id, nTime);
    NewEntryHasBucket(MarkGood(s, id, nTime), id);
    MakeTriedKeeps(MarkGood(s, id, nTime), id);
    MakeTriedMoves(MarkGood(s, id, nTime), id);
  }

  lemma CollideKeeps(s: State, id: int)
    requires Inv(s) && id in s.mapInfo && TriedSlot(s, s.mapInfo[id].addr.svc) in s.vvTried
    ensures Inv(s.(collisions := s.collisions + {id}))
  {
    var t := s.(collisions := s.collisions + {id});
    SameIndexesKeep(s, t, {}, 0);
    forall x | x in t.collisions ensures Collides(t, x) { if x != id { assert Collides(s, x); } }
  }

  // ---------------------------------------------------------------- Add_

  /** An entry of the new table that may take one more slot. */
  predicate CanGrow(s: State, slot: Slot, id: int)
  {
    && id in s.mapInfo && !s.mapInfo[id].fInTried && s.mapInfo[id].nRefCount < ADDRMAN_NEW_BUCKETS_PER_ADDRESS
    && slot == NewSlot(s, s.mapInfo[id].addr.svc, slot.bucket) && slot.bucket < ADDRMAN_NEW_BUCKET_COUNT
  }

  lemma AddTakesKeeps(s: State, limbo: set<int>, slot: Slot, id: int)
    requires Holds(s, limbo, 0) && limbo <= {id} && CanGrow(s, slot, id)
    requires !(slot in s.vvNew && s.vvNew[slot] == id)
    ensures CanClearNew(s, slot) && id in ClearNew(s, slot).mapInfo
    ensures Holds(Place(ClearNew(s, slot), slot, id), {}, 0)
    ensures Within(s, Place(ClearNew(s, slot), slot, id))
  {
    ClearNewKeeps(s, limbo, 0, slot);
    var t := ClearNew(s, slot);
    assert SameCore(s.mapInfo[id], t.mapInfo[id]);
    assert slot == NewSlot(t, t.mapInfo[id].addr.svc, slot.bucket);
    PlaceKeeps(t, limbo, 0, id, slot.bucket);
    assert limbo - {id} == {};
  }

  lemma AddDropsKeeps(s: State, limbo: set<int>, id: int)
    requires Holds(s, limbo, 0) && limbo <= {id} && Unreferenced(s, id)
    ensures CanDelete(s, id) && Holds(Delete(s, id), {}, 0) && Within(s, Delete(s, id))
  {
    DeleteKeeps(s, limbo, 0, id);
    assert limbo - {id} == {};
  }

  lemma AddPlaceKeeps(s: State, limbo: set<int>, slot: Slot, id: int, nNow: int)
    requires Holds(s, limbo, 0) && limbo <= {id} && CanGrow(s, slot, id)
    ensures CanAddPlace(s, slot, id, nNow)
    ensures Holds(AddPlace(s, slot, id, nNow), {}, 0)
    ensures Within(s, AddPlace(s, slot, id, nNow))
  {
    assert NewPlaced(s, limbo, id);
    if slot in s.vvNew { assert NewHolder(s, slot); }
    if slot in s.vvNew && s.vvNew[slot] == id {
      assert slot.bucket in Buckets(s, id, s.mapInfo[id].addr.svc);
      LimboShrinks(s, limbo, {}, 0);
    } else if TakesSlot(s, slot, id, nNow) {
      AddTakesKeeps(s, limbo, slot, id);
    } else if s.mapInfo[id].nRefCount == 0 {
      AddDropsKeeps(s, limbo, id);
    } else {
      LimboShrinks(s, limbo, {}, 0);
    }
  }

  lemma AddPlaceFrame(s: State, slot: Slot, id: int, nNow: int)
    requires CanAddPlace(s, slot, id, nNow)
    ensures var t := AddPlace(s, slot, id, nNow);
            t.h == s.h && t.nKey == s.nKey && t.nIdCount == s.nIdCount && t.vvTried == s.vvTried && t.collisions == s.collisions
  {
    hide TakesSlot, Delete, ClearNew;
    if CanClearNew(s, slot) { ClearNewFrame(s, slot); }
    if CanDelete(s, id) { DeleteFrame(s, id); }
  }

  lemma DeleteFrame(s: State, id: int)
    requires CanDelete(s, id)
    ensures var t := Delete(s, id);
            t.h == s.h && t.nKey == s.nKey && t.nIdCount == s.nIdCount && t.vvTried == s.vvTried && t.collisions == s.collisions
  {
  }

  lemma ClearNewFrame(s: State, slot: Slot)
    requires CanClearNew(s, slot)
    ensures var t := ClearNew(s, slot);
            t.h == s.h && t.nKey == s.nKey && t.nIdCount == s.nIdCount && t.vvTried == s.vvTried && t.collisions == s.collisions
  {
    hide Delete;
    if slot in s.vvNew && CanDelete(Unplace(s, slot), s.vvNew[slot]) { DeleteFrame(Unplace(s, slot), s.vvNew[slot]); }
  }

  lemma AddPrepareKeeps(s: State, addr: Address, source: NetAddr, nTimePenalty: int, nNow: int, dice: bool)
    requires Inv(s)
    ensures var (t, go) := AddPrepare(s, addr, source, nTimePenalty, nNow, dice);
            && (go.None? ==> Holds(t, {}, 0))
            && (go.Some? ==>
                  var limbo := if go.value.1 then {go.value.0} else {};
                  && Holds(t, limbo, 0) && go.value.0 in t.mapInfo && !t.mapInfo[go.value.0].fInTried
                  && t.mapInfo[go.value.0].nRefCount < ADDRMAN_NEW_BUCKETS_PER_ADDRESS)
  {
    FindSound(s, addr.svc.ip);
    var found := Find(s, addr.svc.ip);
    var (t, go) := AddPrepare(s, addr, source, nTimePenalty, nNow, dice);
    if found.Some? {
      assert NewPlaced(s, {}, found.value);
      StatsKeep(s, found.value, t.mapInfo[found.value], {}, 0);
    } else {
      var penalty := if addr.svc.ip == source then 0 else nTimePenalty;
      CreateKeeps(s, addr.(nTime := Max(0, addr.nTime - penalty)), source);
    }
  }

  lemma AddPrepareFrame(s: State, addr: Address, source: NetAddr, nTimePenalty: int, nNow: int, dice: bool)
    requires Inv(s)
    ensures var t := AddPrepare(s, addr, source, nTimePenalty, nNow, dice).0;
            Advances(s, t) && t.vvTried == s.vvTried && t.collisions == s.collisions
  {
  }

  /** Add_ meets the asserts of ClearNew and Delete and keeps the invariant. */
  lemma AddKeeps(s: State, addr: Address, source: NetAddr, nTimePenalty: int, nNow: int, dice: bool)
    requires Inv(s)
    ensures CanAdd(s, addr, source, nTimePenalty, nNow, dice)
    ensures Inv(Add(s, addr, source, nTimePenalty, nNow, dice).0)
  {
    if s.h.isRoutable(addr.svc.ip) {
      AddPrepareKeeps(s, addr, source, nTimePenalty, nNow, dice);
      AddPrepareFrame(s, addr, source, nTimePenalty, nNow, dice);
      var (t, go) := AddPrepare(s, addr, source, nTimePenalty, nNow, dice);
      if go.Some? {
        var id := go.value.0;
        var slot := SourceSlot(t, t.mapInfo[id].addr.svc, source);
        AddPlaceKeeps(t, if go.value.1 then {id} else {}, slot, id, nNow);
        AddPlaceFrame(t, slot, id, nNow);
        CollisionsKeep(s, AddPlace(t, slot, id, nNow));
      } else {
        CollisionsKeep(s, t);
      }
    }
  }

  // ---------------------------------------------------------------- statistics

  lemma StatsOpKeeps(s: State, t: State, id: int)
    requires Inv(s) && id in s.mapInfo && id in t.mapInfo && t == WithInfo(s, id, t.mapInfo[id])
    requires SameCore(s.mapInfo[id], t.mapInfo[id]) && s.mapInfo[id].nRandomPos == t.mapInfo[id].nRandomPos
    ensures Inv(t)
  {
    StatsKeep(s, id, t.mapInfo[id], {}, 0);
    CollisionsKeep(s, t);
  }

  lemma AttemptKeeps(s: State, svc: Service, fCountFailure: bool, nTime: int)
    requires Inv(s)
    ensures Inv(Attempt(s, svc, fCountFailure, nTime))
  {
    if Exact(s, svc).Some? { StatsOpKeeps(s, Attempt(s, svc, fCountFailure, nTime), Exact(s, svc).value); }
  }

  lemma ConnectedKeeps(s: State, svc: Service, nTime: int)
    requires Inv(s)
    ensures Inv(Connected(s, svc, nTime))
  {
    if Connected(s, svc, nTime) != s { StatsOpKeeps(s, Connected(s, svc, nTime), Exact(s, svc).value); }
  }

  lemma SetServicesKeeps(s: State, svc: Service, nServices: set<nat>)
    requires Inv(s)
    ensures Inv(SetServices(s, svc, nServices))
  {
    if Exact(s, svc).Some? { StatsOpKeeps(s, SetServices(s, svc, nServices), Exact(s, svc).value); }
  }

  // ---------------------------------------------------------------- collisions

  /** One round of ResolveCollisions_. */
  function ResolveOne(s: State, id: int, nNow: int): (r: State)
    requires Inv(s)
    ensures Inv(r) && r.collisions <= s.collisions
  {
    if id in s.mapInfo && TriedSlot(s, s.mapInfo[id].addr.svc) in s.vvTried then
      assert TriedHolder(s, TriedSlot(s, s.mapInfo[id].addr.svc));
      Resolved(s, id, nNow)
    else
      Resolved(s, id, nNow)
  }

  function Resolved(s: State, id: int, nNow: int): (r: State)
    requires Inv(s) && ResolveVerdict.requires(s, id, nNow)
    ensures Inv(r) && r.collisions <= s.collisions
  {
    var (erase, promote) := ResolveVerdict(s, id, nNow);
    var t :=
      if promote then
        GoodKeeps(s, s.mapInfo[id].addr.svc, false, nNow);
        Good(s, s.mapInfo[id].addr.svc, false, nNow)
      else s;
    if erase then
      ForgetKeeps(t, id);
      t.(collisions := t.collisions - {id})
    else t
  }

  lemma ForgetKeeps(s: State, id: int)
    requires Inv(s)
    ensures Inv(s.(collisions := s.collisions - {id}))
  {
    SameIndexesKeep(s, s.(collisions := s.collisions - {id}), {}, 0);
    CollisionsKeep(s, s.(collisions := s.collisions - {id}));
  }

  /** ResolveCollisions_ from the id at position i of the iteration order on. */
  function ResolveCollisions(s: State, order: seq<int>, nNow: int): (r: State)
    requires Inv(s)
    ensures Inv(r)
    decreases |order|
  {
    if order == [] then s else ResolveCollisions(ResolveOne(s, order[0], nNow), order[1..], nNow)
  }

  /** SelectTriedCollision_ on the chosen id: a colliding id that still exists always has an occupied tried
      slot, so the entry returned is a real one and mapInfo gains no entry by being indexed. */
  function SelectTriedCollision(s: State, id: int): (r: (State, Option<Info>))
    requires Inv(s) && id in s.collisions
    ensures Inv(r.0) && r.0.mapInfo == s.mapInfo
    ensures r.1.Some? <==> id in s.mapInfo
    ensures r.1.Some? ==> r.1.value.fInTried && Find(s, r.1.value.addr.svc.ip).Some?
  {
    if id !in s.mapInfo then
      ForgetKeeps(s, id);
      (s.(collisions := s.collisions - {id}), None)
    else
      var slot := TriedSlot(s, s.mapInfo[id].addr.svc);
      assert Collides(s, id) && TriedHolder(s, slot);
      assert AddrFwd(s, s.vvTried[slot]);
      (s, Some(s.mapInfo[s.vvTried[slot]]))
  }

  // ---------------------------------------------------------------- GetAddr_

  const ADDRMAN_GETADDR_MAX_PCT := 23
  const ADDRMAN_GETADDR_MAX := 2500

  function GetAddrLimit(s: State): (r: nat)
  {
    Min(ADDRMAN_GETADDR_MAX, ADDRMAN_GETADDR_MAX_PCT * |s.vRandom| / 100)
  }

  /** Nothing but positions in vRandom differs between the entries. */
  predicate OnlyMoved(s: State, t: State)
  {
    && s.mapInfo.Keys == t.mapInfo.Keys
    && forall id :: id in s.mapInfo ==> t.mapInfo[id] == s.mapInfo[id].(nRandomPos := t.mapInfo[id].nRandomPos)
  }

  /** The address belongs to an entry that is not terrible. */
  predicate Offered(s: State, a: Address, nNow: int)
  {
    exists id :: id in s.mapInfo && s.mapInfo[id].addr == a && !s.mapInfo[id].IsTerrible(nNow)
  }

  /** One swap of GetAddr_'s partial shuffle. */
  function Shuffle(s: State, i: nat, j: nat): (r: State)
    requires Inv(s) && i < |s.vRandom| && j < |s.vRandom|
    ensures Inv(r) && multiset(r.vRandom) == multiset(s.vRandom) && SameCores(s, r) && OnlyMoved(s, r)
    ensures |r.vRandom| == |s.vRandom| && r.vRandom[i] in r.mapInfo
  {
    SwapRandomKeeps(s, i, j, {}, 0);
    CollisionsKeep(s, SwapRandom(s, i, j));
    SwapRandom(s, i, j)
  }

  /** GetAddr_ from position n on, with the addresses gathered so far and RandomInt as a parameter. */
  function GetAddr(s: State, n: nat, vAddr: seq<Address>, rnd: nat -> nat, nNow: int): (r: (State, seq<Address>))
    requires Inv(s) && n <= |s.vRandom| && |vAddr| <= GetAddrLimit(s)
    ensures Inv(r.0) && multiset(r.0.vRandom) == multiset(s.vRandom) && SameCores(s, r.0)
    ensures |r.1| <= GetAddrLimit(s)
    decreases |s.vRandom| - n
  {
    if n == |s.vRandom| || |vAddr| >= GetAddrLimit(s) then (s, vAddr)
    else
      var t := Shuffle(s, n, n + rnd(n) % (|s.vRandom| - n));
      var info := t.mapInfo[t.vRandom[n]];
      GetAddr(t, n + 1, if info.IsTerrible(nNow) then vAddr else vAddr + [info.addr], rnd, nNow)
  }

  // ---------------------------------------------------------------- runs

  datatype Op =
    | OpAdd(addr: Address, source: NetAddr, nTimePenalty: int, nNow: int, dice: bool)
    | OpGood(svc: Service, testBeforeEvict: bool, nTime: int)
    | OpAttempt(svc: Service, fCountFailure: bool, nTime: int)
    | OpConnected(svc: Service, nTime: int)
    | OpSetServices(svc: Service, nServices: set<nat>)
    | OpGetAddr(rnd: nat -> nat, nNow: int)
    | OpResolveCollisions(order: seq<int>, nNow: int)
    | OpSelectTriedCollision(id: int)

  function Step(s: State, op: Op): (r: State)
    requires Inv(s)
    ensures Inv(r)
  {
    match op
    case OpAdd(addr, source, penalty, nNow, dice) =>
      AddKeeps(s, addr, source, penalty, nNow, dice);
      Add(s, addr, source, penalty, nNow, dice).0
    case OpGood(svc, test, nTime) => GoodKeeps(s, svc, test, nTime); Good(s, svc, test, nTime)
    case OpAttempt(svc, count, nTime) => AttemptKeeps(s, svc, count, nTime); Attempt(s, svc, count, nTime)
    case OpConnected(svc, nTime) => ConnectedKeeps(s, svc, nTime); Connected(s, svc, nTime)
    case OpSetServices(svc, nServices) => SetServicesKeeps(s, svc, nServices); SetServices(s, svc, nServices)
    case OpGetAddr(rnd, nNow) => GetAddr(s, 0, [], rnd, nNow).0
    case OpResolveCollisions(order, nNow) => ResolveCollisions(s, order, nNow)
    case OpSelectTriedCollision(id) => if id in s.collisions then SelectTriedCollision(s, id).0 else s
  }

  function Run(s: State, ops: seq<Op>): (r: State)
    requires Inv(s)
    ensures Inv(r)
    decreases |ops|
  {
    if ops == [] then s else Run(Step(s, ops[0]), ops[1..])
  }

  /** A cleared manager is consistent when no collisions are left over from before. */
  lemma ClearedInv(h: Oracle, nKey: Hash)
    ensures Inv(Cleared(h, nKey, {}))
  {
  }

  /** Clear keeps the collision set: the cleared manager is consistent if and only if that set was empty. */
  lemma ClearedInvExact(h: Oracle, nKey: Hash, collisions: set<int>)
    ensures Inv(Cleared(h, nKey, collisions)) <==> collisions == {}
  {
    var s := Cleared(h, nKey, collisions);
    if Inv(s) {
      forall id: int ensures id in collisions <==> id in {} {
        assert id in s.collisions ==> Collides(s, id);
      }
    } else if collisions == {} {
      ClearedInv(h, nKey);
    }
  }

  /** SelectTriedCollision_ on such an id would read the holder of a free tried slot, that is mapInfo[-1]. */
  predicate ReadsNoEntry(s: State, id: int)
  {
    id in s.collisions && id in s.mapInfo && TriedSlot(s, s.mapInfo[id].addr.svc) !in s.vvTried
  }

  /** An id left over from before Clear is given out again: after one routable address has been added, it
      belongs to an entry of the new table whose tried slot is free. */
  lemma LeftOverCollision(h: Oracle, nKey: Hash, collisions: set<int>, addr: Address, source: NetAddr, nTimePenalty: int,
                          nNow: int, dice: bool)
    requires 0 in collisions && h.isRoutable(addr.svc.ip)
    ensures var s := Cleared(h, nKey, collisions);
      && CanAdd(s, addr, source, nTimePenalty, nNow, dice)
      && ReadsNoEntry(Add(s, addr, source, nTimePenalty, nNow, dice).0, 0)
      && !Inv(Add(s, addr, source, nTimePenalty, nNow, dice).0)
  {
    var t := Add(Cleared(h, nKey, collisions), addr, source, nTimePenalty, nNow, dice).0;
    assert !Collides(t, 0);
  }

  /** Every run from a cleared manager keeps both tables disjoint, complete and correctly counted. */
  lemma EveryRunConsistent(h: Oracle, nKey: Hash, ops: seq<Op>)
    ensures Inv(Cleared(h, nKey, {}))
    ensures var s := Run(Cleared(h, nKey, {}), ops);
            && Inv(s) && |s.vRandom| == |s.mapInfo| == s.nTried + s.nNew
            && forall id :: id in s.mapInfo ==>
                 if s.mapInfo[id].fInTried then s.mapInfo[id].nRefCount == 0
                 else 1 <= s.mapInfo[id].nRefCount <= ADDRMAN_NEW_BUCKETS_PER_ADDRESS
  {
    ClearedInv(h, nKey);
    var s := Run(Cleared(h, nKey, {}), ops);
    SizesAgree(s);
    forall id | id in s.mapInfo
      ensures if s.mapInfo[id].fInTried then s.mapInfo[id].nRefCount == 0
              else 1 <= s.mapInfo[id].nRefCount <= ADDRMAN_NEW_BUCKETS_PER_ADDRESS
    {
      assert TriedPlaced(s, id) && NewPlaced(s, {}, id);
    }
  }

  function SetOf(ids: seq<int>): (r: set<int>) { set x | x in ids }

  lemma SizesAgree(s: State)
    requires Inv(s)
    ensures |s.vRandom| == |s.mapInfo| == s.nTried + s.nNew
  {
    assert s.mapInfo.Keys == TriedIds(s) + NewIds(s);
    DistinctSize(s, |s.vRandom|);
    assert s.vRandom[..|s.vRandom|] == s.vRandom;
    forall id | id in s.mapInfo ensures id in s.vRandom { assert RandomFwd(s, id); }
    forall i | 0 <= i < |s.vRandom| ensures s.vRandom[i] in s.mapInfo { assert RandomBwd(s, i); }
    assert SetOf(s.vRandom) == s.mapInfo.Keys;
  }

  lemma {:induction false} DistinctSize(s: State, n: nat)
    requires RandomOk(s) && n <= |s.vRandom|
    ensures |SetOf(s.vRandom[..n])| == n
  {
    if n > 0 {
      DistinctSize(s, n - 1);
      assert RandomBwd(s, n - 1);
      forall i | 0 <= i < n - 1 ensures s.vRandom[i] != s.vRandom[n - 1] { assert RandomBwd(s, i); }
      assert s.vRandom[..n] == s.vRandom[..n - 1] + [s.vRandom[n - 1]];
      assert SetOf(s.vRandom[..n]) == SetOf(s.vRandom[..n - 1]) + {s.vRandom[n - 1]};
    }
  }
}
