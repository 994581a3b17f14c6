/**
  What the operations of the address manager do to its entries and tables, told by the fields of the entries
  (src/addrman.cpp).
 */
module AddrManLaws {
  import opened Prelude
  import opened AddrManSpec
  import opened AddrManInv
  import opened AddrManOps

  const HOUR := 3600
  const DAY := 86400

  /** Tried within the last minute, an entry is never terrible; otherwise it is when it comes from the future, has
      no time or was not seen for 30 days, failed three times and never succeeded, or failed ten times and did not
      succeed for a week. */
  lemma TerribleExactly(info: Info, nNow: int)
    ensures info.IsTerrible(nNow) <==>
      && (info.nLastTry == 0 || info.nLastTry < nNow - 60)
      && (|| info.addr.nTime > nNow + 600
          || info.addr.nTime == 0 || info.addr.nTime < nNow - 30 * DAY
          || (info.nLastSuccess == 0 && info.nAttempts >= 3)
          || (info.nLastSuccess < nNow - 7 * DAY && info.nAttempts >= 10))
  {}

  // ---------------------------------------------------------------- taking a slot

  /** Nothing but positions in vRandom differs between two entries. */
  predicate SameBut(a: Info, b: Info)
  {
    b == a.(nRandomPos := b.nRandomPos)
  }

  /** The entries of t are those of s without `gone`, and `changed` has the given reference count. */
  predicate Rest(s: State, t: State, gone: set<int>, changed: set<int>)
  {
    && t.mapInfo.Keys - changed == s.mapInfo.Keys - gone - changed
    && forall x :: x in t.mapInfo && x in s.mapInfo && x !in changed ==> SameBut(s.mapInfo[x], t.mapInfo[x])
  }

  lemma DeleteExactly(s: State, id: int)
    requires CanDelete(s, id)
    ensures var t := Delete(s, id);
      && Rest(s, t, {id}, {}) && id !in t.mapInfo && t.vvNew == s.vvNew && t.vvTried == s.vvTried
      && t.h == s.h && t.nKey == s.nKey
  {
  }

  /** Whoever holds a slot loses one reference, and is deleted when that was the last. */
  lemma ClearNewExactly(s: State, slot: Slot)
    requires CanClearNew(s, slot) && slot in s.vvNew
    ensures var (h, t) := (s.vvNew[slot], ClearNew(s, slot));
      && t.vvNew == s.vvNew - {slot} && t.vvTried == s.vvTried && t.h == s.h && t.nKey == s.nKey
      && if s.mapInfo[h].nRefCount == 1 then Rest(s, t, {h}, {})
         else Rest(s, t, {}, {h}) && h in t.mapInfo && t.mapInfo[h] == s.mapInfo[h].(nRefCount := s.mapInfo[h].nRefCount - 1)
  {
    if s.mapInfo[s.vvNew[slot]].nRefCount == 1 { DeleteExactly(Unplace(s, slot), s.vvNew[slot]); }
  }

  /** The slot holds id, which has one reference more; a previous holder has one fewer or is gone, and every other
      entry and slot is as before. */
  predicate Taken(s: State, t: State, slot: Slot, id: int)
  {
    && id in s.mapInfo && id in t.mapInfo
    && t.vvNew == s.vvNew[slot := id] && t.vvTried == s.vvTried
    && SameBut(s.mapInfo[id].(nRefCount := s.mapInfo[id].nRefCount + 1), t.mapInfo[id])
    && if slot !in s.vvNew then Rest(s, t, {}, {id})
       else
         var h := s.vvNew[slot];
         && h in s.mapInfo && h != id
         && if s.mapInfo[h].nRefCount == 1 then Rest(s, t, {h}, {id}) && h !in t.mapInfo
            else Rest(s, t, {}, {h, id}) && h in t.mapInfo
                 && SameBut(s.mapInfo[h].(nRefCount := s.mapInfo[h].nRefCount - 1), t.mapInfo[h])
  }

  lemma TakenExactly(s: State, slot: Slot, id: int)
    requires id in s.mapInfo && CanClearNew(s, slot) && id in ClearNew(s, slot).mapInfo
    requires slot in s.vvNew ==> s.vvNew[slot] != id
    ensures Taken(s, Place(ClearNew(s, slot), slot, id), slot, id)
  {
    if slot in s.vvNew { ClearNewExactly(s, slot); }
  }

  // ---------------------------------------------------------------- Add_

  /** The entry Add_ creates. */
  function Fresh(s: State, addr: Address, source: NetAddr, nTimePenalty: int): (info: Info)
  {
    Info(addr.(nTime := Max(0, addr.nTime - if addr.svc.ip == source then 0 else nTimePenalty)),
         source, 0, 0, 0, 0, 0, false, |s.vRandom|)
  }

  /** The new slot may be used by another entry when it is free, or its holder is terrible or has other slots. */
  lemma AddUnknown(s: State, addr: Address, source: NetAddr, nTimePenalty: int, nNow: int, dice: bool)
    requires Inv(s) && s.h.isRoutable(addr.svc.ip) && addr.svc.ip !in s.mapAddr
    ensures CanAdd(s, addr, source, nTimePenalty, nNow, dice)
    ensures var (r, fNew) := Add(s, addr, source, nTimePenalty, nNow, dice);
      var (id, slot, entry) := (s.nIdCount, SourceSlot(s, addr.svc, source), Fresh(s, addr, source, nTimePenalty));
      && fNew && id !in s.mapInfo && (slot in s.vvNew ==> s.vvNew[slot] in s.mapInfo)
      && if slot !in s.vvNew || s.mapInfo[s.vvNew[slot]].IsTerrible(nNow) || s.mapInfo[s.vvNew[slot]].nRefCount > 1
         then Taken(s.(mapInfo := s.mapInfo[id := entry]), r, slot, id)
         else r == s.(nIdCount := id + 1)
  {
    AddKeeps(s, addr, source, nTimePenalty, nNow, dice);
    FindSound(s, addr.svc.ip);
    var (id, slot) := (s.nIdCount, SourceSlot(s, addr.svc, source));
    var (t, go) := AddPrepare(s, addr, source, nTimePenalty, nNow, dice);
    if slot in s.vvNew { assert NewHolder(s, slot); }
    assert CanAddPlace(t, slot, id, nNow);
    Created(s, t, slot, id, nNow);
  }

  lemma Created(s: State, t: State, slot: Slot, id: int, nNow: int)
    requires IdsOk(s) && id == s.nIdCount && id in t.mapInfo && t.mapInfo[id].nRefCount == 0 && CanAddPlace(t, slot, id, nNow)
    requires t.mapInfo[id].addr.svc.ip !in s.mapAddr && t.mapInfo[id].nRandomPos == |s.vRandom|
    requires t == s.(nIdCount := id + 1, mapInfo := s.mapInfo[id := t.mapInfo[id]], vRandom := s.vRandom + [id],
                     mapAddr := s.mapAddr[t.mapInfo[id].addr.svc.ip := id], nNew := s.nNew + 1)
    requires slot in s.vvNew ==> s.vvNew[slot] in s.mapInfo
    ensures if slot !in s.vvNew || s.mapInfo[s.vvNew[slot]].IsTerrible(nNow) || s.mapInfo[s.vvNew[slot]].nRefCount > 1
            then Taken(s.(mapInfo := t.mapInfo), AddPlace(t, slot, id, nNow), slot, id)
            else AddPlace(t, slot, id, nNow) == s.(nIdCount := id + 1)
  {
    hide ClearNew, Delete, CanClearNew;
    if slot !in s.vvNew || s.mapInfo[s.vvNew[slot]].IsTerrible(nNow) || s.mapInfo[s.vvNew[slot]].nRefCount > 1 {
      TakenExactly(t, slot, id);
    } else {
      DeleteLast(s, t, id);
    }
  }

  lemma DeleteLast(s: State, t: State, id: int)
    requires id !in s.mapInfo && id in t.mapInfo && CanDelete(t, id)
    requires t.mapInfo[id].addr.svc.ip !in s.mapAddr && t.mapInfo[id].nRandomPos == |s.vRandom|
    requires t == s.(nIdCount := id + 1, mapInfo := s.mapInfo[id := t.mapInfo[id]], vRandom := s.vRandom + [id],
                     mapAddr := s.mapAddr[t.mapInfo[id].addr.svc.ip := id], nNew := s.nNew + 1)
    ensures Delete(t, id) == s.(nIdCount := id + 1)
  {
    assert s.mapInfo[id := t.mapInfo[id]] - {id} == s.mapInfo;
    assert s.mapAddr[t.mapInfo[id].addr.svc.ip := id] - {t.mapInfo[id].addr.svc.ip} == s.mapAddr;
    assert (s.vRandom + [id])[..|s.vRandom|] == s.vRandom;
  }

  /** What Add_ writes into a known entry: the services are joined, and the time moves up when it is an hour behind
      the one received, a day behind for an address not seen lately, with the penalty on top. */
  function Refreshed(info: Info, addr: Address, source: NetAddr, nTimePenalty: int, nNow: int): (r: Info)
  {
    var penalty := if addr.svc.ip == source then 0 else nTimePenalty;
    var interval := if nNow - addr.nTime < DAY then HOUR else DAY;
    var newer := addr.nTime != 0 && (info.addr.nTime == 0 || info.addr.nTime < addr.nTime - interval - penalty);
    info.(addr := Address(info.addr.svc, info.addr.nServices + addr.nServices,
                          if newer then Max(0, addr.nTime - penalty) else info.addr.nTime))
  }

  /** A known address is never new. Its entry is brought up to date; it gains a slot exactly when the time received
      is news, it is not tried, has fewer than eight slots, wins the throw, and the slot its source leads to is free
      or held by a terrible entry. */
  lemma AddKnown(s: State, addr: Address, source: NetAddr, nTimePenalty: int, nNow: int, dice: bool)
    requires Inv(s) && s.h.isRoutable(addr.svc.ip) && addr.svc.ip in s.mapAddr
    ensures CanAdd(s, addr, source, nTimePenalty, nNow, dice) && s.mapAddr[addr.svc.ip] in s.mapInfo
    ensures var (r, fNew) := Add(s, addr, source, nTimePenalty, nNow, dice);
      var id := s.mapAddr[addr.svc.ip];
      var (info, now) := (s.mapInfo[id], Refreshed(s.mapInfo[id], addr, source, nTimePenalty, nNow));
      var (known, slot) := (s.(mapInfo := s.mapInfo[id := now]), SourceSlot(s, info.addr.svc, source));
      && !fNew && (slot in s.vvNew ==> s.vvNew[slot] in s.mapInfo)
      && if addr.nTime != 0 && (now.addr.nTime == 0 || addr.nTime > now.addr.nTime)
            && !info.fInTried && info.nRefCount < 8 && dice
            && (slot in s.vvNew ==> s.vvNew[slot] != id && s.mapInfo[s.vvNew[slot]].IsTerrible(nNow))
         then Taken(known, r, slot, id)
         else r == known
  {
    AddKeeps(s, addr, source, nTimePenalty, nNow, dice);
    FindSound(s, addr.svc.ip);
    assert AddrBwd(s, addr.svc.ip);
    var id := s.mapAddr[addr.svc.ip];
    var info := s.mapInfo[id];
    var slot := SourceSlot(s, info.addr.svc, source);
    assert NewPlaced(s, {}, id);
    if slot in s.vvNew { assert NewHolder(s, slot); }
    var t := s.(mapInfo := s.mapInfo[id := Refreshed(info, addr, source, nTimePenalty, nNow)]);
    assert AddPrepare(s, addr, source, nTimePenalty, nNow, dice).0 == t;
    if AddPrepare(s, addr, source, nTimePenalty, nNow, dice).1.Some? {
      assert CanAddPlace(t, slot, id, nNow);
      Revisited(s, t, slot, id, nNow);
    }
  }

  lemma Revisited(s: State, t: State, slot: Slot, id: int, nNow: int)
    requires id in s.mapInfo && t.mapInfo.Keys == s.mapInfo.Keys && t == s.(mapInfo := s.mapInfo[id := t.mapInfo[id]])
    requires CanAddPlace(t, slot, id, nNow) && t.mapInfo[id].nRefCount > 0 && (slot in s.vvNew ==> s.vvNew[slot] in s.mapInfo)
    ensures if slot in s.vvNew ==> s.vvNew[slot] != id && s.mapInfo[s.vvNew[slot]].IsTerrible(nNow)
            then Taken(t, AddPlace(t, slot, id, nNow), slot, id)
            else AddPlace(t, slot, id, nNow) == t
  {
    hide ClearNew, Delete, CanClearNew;
    if slot in s.vvNew ==> s.vvNew[slot] != id && s.mapInfo[s.vvNew[slot]].IsTerrible(nNow) { TakenExactly(t, slot, id); }
  }

  /** Add_ reports exactly the routable addresses it did not know, and ignores the others. */
  lemma AddReports(s: State, addr: Address, source: NetAddr, nTimePenalty: int, nNow: int, dice: bool)
    requires Inv(s)
    ensures CanAdd(s, addr, source, nTimePenalty, nNow, dice)
    ensures var (r, fNew) := Add(s, addr, source, nTimePenalty, nNow, dice);
      && (fNew <==> s.h.isRoutable(addr.svc.ip) && addr.svc.ip !in s.mapAddr)
      && (!s.h.isRoutable(addr.svc.ip) ==> r == s)
  {
    hide Add, Inv;
    AddKeeps(s, addr, source, nTimePenalty, nNow, dice);
    if s.h.isRoutable(addr.svc.ip) {
      if addr.svc.ip in s.mapAddr {
        AddKnown(s, addr, source, nTimePenalty, nNow, dice);
      } else {
        AddUnknown(s, addr, source, nTimePenalty, nNow, dice);
      }
    } else {
      NotRoutable(s, addr, source, nTimePenalty, nNow, dice);
    }
  }

  lemma NotRoutable(s: State, addr: Address, source: NetAddr, nTimePenalty: int, nNow: int, dice: bool)
    requires !s.h.isRoutable(addr.svc.ip)
    ensures CanAdd(s, addr, source, nTimePenalty, nNow, dice) && Add(s, addr, source, nTimePenalty, nNow, dice) == (s, false)
  {}

  // ---------------------------------------------------------------- Good_

  /** The entry with this address and port. */
  predicate Knows(s: State, svc: Service)
  {
    && svc.ip in s.mapAddr && s.mapAddr[svc.ip] in s.mapInfo
    && s.mapInfo[s.mapAddr[svc.ip]].addr.svc == svc
  }

  lemma ExactIs(s: State, svc: Service)
    ensures Exact(s, svc) == if Knows(s, svc) then Some(s.mapAddr[svc.ip]) else None
  {}

  /** The entry is in its tried slot and in no new one; a previous holder is back in the new slot that its own
      source leads to, with that one reference. */
  predicate Promoted(s: State, t: State, slot: Slot, id: int)
  {
    && id in s.mapInfo && id in t.mapInfo && t.vvTried == s.vvTried[slot := id] && id !in t.vvNew.Values
    && SameBut(s.mapInfo[id].(fInTried := true, nRefCount := 0), t.mapInfo[id])
    && (slot in s.vvTried ==>
          var old_ := s.vvTried[slot];
          && old_ in s.mapInfo && old_ in t.mapInfo
          && SameBut(s.mapInfo[old_].(fInTried := false, nRefCount := 1), t.mapInfo[old_])
          && var home := SourceSlot(s, s.mapInfo[old_].addr.svc, s.mapInfo[old_].source);
          && home in t.vvNew && t.vvNew[home] == old_)
  }

  lemma ReturnExactly(s: State, limbo: set<int>, uncounted: int, id: int, other: int)
    requires Holds(s, limbo, uncounted) && Unreferenced(s, id) && Unreferenced(s, other) && other != id
    ensures CanReturnToNew(s, id)
    ensures var t := ReturnToNew(s, id);
      && id in t.mapInfo && other in t.mapInfo && SameBut(s.mapInfo[other], t.mapInfo[other])
      && SameBut(s.mapInfo[id].(nRefCount := 1), t.mapInfo[id])
      && EvictSlot(s, id) in t.vvNew && t.vvNew[EvictSlot(s, id)] == id
  {
    hide ClearNew;
    ReturnToNewDefined(s, limbo, uncounted, id);
    var slot := EvictSlot(s, id);
    if slot in s.vvNew {
      NoBucketsNoSlots(s, limbo, id, slot);
      NoBucketsNoSlots(s, limbo, other, slot);
      BystanderKept(s, limbo, uncounted, slot, other);
      ClearNewExactly(s, slot);
    } else {
      NothingCleared(s, slot);
    }
  }

  lemma NothingCleared(s: State, slot: Slot)
    requires slot !in s.vvNew && CanClearNew(s, slot)
    ensures ClearNew(s, slot) == s
  {}

  lemma MakeTriedExactly(s: State, id: int)
    requires Inv(s) && id in s.mapInfo && !s.mapInfo[id].fInTried
    ensures CanMakeTried(s, id)
    ensures Promoted(s, MakeTried(s, id), TriedSlot(s, s.mapInfo[id].addr.svc), id)
  {
    hide ReturnToNew, CanReturnToNew;
    MakeTriedKeeps(s, id);
    MakeTriedMoves(s, id);
    LeaveNewKeeps(s, id);
    var (slot, t) := (TriedSlot(s, s.mapInfo[id].addr.svc), LeaveNew(s, id));
    if slot in s.vvTried {
      assert TriedHolder(s, slot);
      var old_ := s.vvTried[slot];
      LeaveTriedKeeps(t, {id}, 1, slot);
      ReturnExactly(LeaveTried(t, slot), {id} + {old_}, 2, old_, id);
    }
    forall x | x in MakeTried(s, id).vvNew ensures MakeTried(s, id).vvNew[x] != id { assert NewHolder(MakeTried(s, id), x); }
  }

  lemma GoodExactly(s: State, svc: Service, testBeforeEvict: bool, nTime: int)
    requires Inv(s)
    ensures CanGood(s, svc, testBeforeEvict, nTime)
    ensures !Knows(s, svc) ==> Good(s, svc, testBeforeEvict, nTime) == s.(nLastGood := nTime)
    ensures Knows(s, svc) ==>
      var (id, slot, r) := (s.mapAddr[svc.ip], TriedSlot(s, svc), Good(s, svc, testBeforeEvict, nTime));
      var marked := s.(mapInfo := s.mapInfo[id := s.mapInfo[id].(nLastSuccess := nTime, nLastTry := nTime, nAttempts := 0)],
                       nLastGood := nTime);
      if s.mapInfo[id].fInTried then r == marked
      else if testBeforeEvict && slot in s.vvTried then
        r == if |s.collisions| < 10 then marked.(collisions := s.collisions + {id}) else marked
      else Promoted(marked, r, slot, id)
  {
    hide MakeTried, CanMakeTried, Buckets;
    GoodKeeps(s, svc, testBeforeEvict, nTime);
    ExactIs(s, svc);
    if Knows(s, svc) && !s.mapInfo[s.mapAddr[svc.ip]].fInTried {
      var id := s.mapAddr[svc.ip];
      MarkedKeeps(s, id, nTime);
      NewEntryHasBucket(MarkGood(s, id, nTime), id);
      MakeTriedExactly(MarkGood(s, id, nTime), id);
    }
  }

  // ---------------------------------------------------------------- statistics

  /** Attempt_ notes the time of the attempt. It counts as a failure once between two successes of any entry. */
  lemma AttemptExactly(s: State, svc: Service, fCountFailure: bool, nTime: int)
    ensures !Knows(s, svc) ==> Attempt(s, svc, fCountFailure, nTime) == s
    ensures Knows(s, svc) ==>
      var (id, r) := (s.mapAddr[svc.ip], Attempt(s, svc, fCountFailure, nTime));
      var (was, counts) := (s.mapInfo[id], fCountFailure && s.mapInfo[id].nLastCountAttempt < s.nLastGood);
      && r == s.(mapInfo := s.mapInfo[id := r.mapInfo[id]])
      && r.mapInfo[id] == was.(nLastTry := nTime, nAttempts := was.nAttempts + if counts then 1 else 0,
                               nLastCountAttempt := if counts then nTime else was.nLastCountAttempt)
  {
    ExactIs(s, svc);
  }

  /** Connected_ moves the time up when it is more than 20 minutes old. */
  lemma ConnectedExactly(s: State, svc: Service, nTime: int)
    ensures !Knows(s, svc) ==> Connected(s, svc, nTime) == s
    ensures Knows(s, svc) ==>
      var (id, r) := (s.mapAddr[svc.ip], Connected(s, svc, nTime));
      var was := s.mapInfo[id];
      && r == s.(mapInfo := s.mapInfo[id := r.mapInfo[id]])
      && r.mapInfo[id].addr.nTime == (if was.addr.nTime < nTime - 1200 then nTime else was.addr.nTime)
      && r.mapInfo[id] == was.(addr := was.addr.(nTime := r.mapInfo[id].addr.nTime))
  {
    ExactIs(s, svc);
  }

  lemma SetServicesExactly(s: State, svc: Service, nServices: set<nat>)
    ensures !Knows(s, svc) ==> SetServices(s, svc, nServices) == s
    ensures Knows(s, svc) ==>
      var id := s.mapAddr[svc.ip];
      SetServices(s, svc, nServices) == s.(mapInfo :=
        s.mapInfo[id := s.mapInfo[id].(addr := Address(svc, nServices, s.mapInfo[id].addr.nTime))])
  {
    ExactIs(s, svc);
  }

  // ---------------------------------------------------------------- collisions

  /** A colliding id is forgotten when its entry is gone, no longer valid, or the holder of its tried slot connected
      within four hours; it takes the slot when that is free, or its holder was tried within four hours but more
      than a minute ago; otherwise it stays. */
  lemma ResolveExactly(s: State, id: int, nNow: int)
    requires Inv(s)
    ensures id !in s.mapInfo || !s.h.isValid(s.mapInfo[id].addr.svc.ip) ==>
      ResolveOne(s, id, nNow) == s.(collisions := s.collisions - {id})
    ensures id in s.mapInfo && s.h.isValid(s.mapInfo[id].addr.svc.ip) ==>
      var (svc, slot, r) := (s.mapInfo[id].addr.svc, TriedSlot(s, s.mapInfo[id].addr.svc), ResolveOne(s, id, nNow));
      && (slot in s.vvTried ==> s.vvTried[slot] in s.mapInfo) && CanGood(s, svc, false, nNow)
      && var promoted := Good(s, svc, false, nNow);
      if slot !in s.vvTried then r == promoted.(collisions := s.collisions - {id})
      else
        var old_ := s.mapInfo[s.vvTried[slot]];
        if old_.nLastSuccess > nNow - 4 * HOUR then r == s.(collisions := s.collisions - {id})
        else if nNow - 4 * HOUR < old_.nLastTry < nNow - 60 then r == promoted.(collisions := s.collisions - {id})
        else r == s
  {
    hide Good, CanGood, Inv, Holds;
    if id in s.mapInfo {
      GoodKeeps(s, s.mapInfo[id].addr.svc, false, nNow);
      Occupied(s, TriedSlot(s, s.mapInfo[id].addr.svc));
    }
  }

  lemma Occupied(s: State, slot: Slot)
    requires Inv(s)
    ensures slot in s.vvTried ==> s.vvTried[slot] in s.mapInfo && s.mapInfo[s.vvTried[slot]].fInTried
  {
    if slot in s.vvTried { assert TriedHolder(s, slot); }
  }

  /** SelectTriedCollision_ hands out the holder of the contested slot. */
  lemma SelectExactly(s: State, id: int)
    requires Inv(s) && id in s.collisions
    ensures id in s.mapInfo ==>
      var slot := TriedSlot(s, s.mapInfo[id].addr.svc);
      slot in s.vvTried && s.vvTried[slot] in s.mapInfo
      && SelectTriedCollision(s, id) == (s, Some(s.mapInfo[s.vvTried[slot]]))
    ensures id !in s.mapInfo ==> SelectTriedCollision(s, id) == (s.(collisions := s.collisions - {id}), None)
  {
    if id in s.mapInfo {
      assert Collides(s, id);
      Occupied(s, TriedSlot(s, s.mapInfo[id].addr.svc));
    }
  }

  // ---------------------------------------------------------------- GetAddr_

  /** Every address of the first n positions that is not terrible has been gathered. */
  predicate Gathered(s: State, n: nat, vAddr: seq<Address>, nNow: int)
  {
    && n <= |s.vRandom|
    && forall i :: 0 <= i < n && s.vRandom[i] in s.mapInfo && !s.mapInfo[s.vRandom[i]].IsTerrible(nNow) ==>
         s.mapInfo[s.vRandom[i]].addr in vAddr
  }

  lemma GatherOne(s: State, n: nat, j: nat, vAddr: seq<Address>, nNow: int)
    requires Inv(s) && n <= j < |s.vRandom| && Gathered(s, n, vAddr, nNow)
    ensures var t := Shuffle(s, n, j);
      var info := t.mapInfo[t.vRandom[n]];
      |t.vRandom| == |s.vRandom| && Gathered(t, n + 1, if info.IsTerrible(nNow) then vAddr else vAddr + [info.addr], nNow)
  {
    var t := Shuffle(s, n, j);
    assert s.vRandom[n] in s.mapInfo && s.vRandom[j] in s.mapInfo by { assert RandomBwd(s, n) && RandomBwd(s, j); }
    forall i | 0 <= i < n ensures t.vRandom[i] == s.vRandom[i] && t.vRandom[i] in s.mapInfo { assert RandomBwd(s, i); }
  }

  lemma LimitIs(s: State, n: nat)
    ensures n <= GetAddrLimit(s) <==> n <= 2500 && 100 * n <= 23 * |s.vRandom|
  {}

  lemma MovedTwice(s: State, t: State, u: State)
    requires OnlyMoved(s, t) && OnlyMoved(t, u)
    ensures OnlyMoved(s, u)
  {}

  lemma NotMoved(s: State)
    ensures OnlyMoved(s, s)
  {}

  lemma GetAddrStep(s: State, n: nat, vAddr: seq<Address>, rnd: nat -> nat, nNow: int) returns (j: nat)
    requires Inv(s) && n < |s.vRandom| && |vAddr| < GetAddrLimit(s)
    ensures n <= j < |s.vRandom|
    ensures var t := Shuffle(s, n, j);
      var info := t.mapInfo[t.vRandom[n]];
      var more := if info.IsTerrible(nNow) then vAddr else vAddr + [info.addr];
      && GetAddrLimit(t) == GetAddrLimit(s)
      && GetAddr(s, n, vAddr, rnd, nNow) == GetAddr(t, n + 1, more, rnd, nNow)
  {
    hide Inv, Shuffle;
    j := n + rnd(n) % (|s.vRandom| - n);
  }

  /** Unless the limit is reached, every address that is not terrible is offered. */
  lemma {:induction false} GetAddrGathers(s: State, n: nat, vAddr: seq<Address>, rnd: nat -> nat, nNow: int)
    requires Inv(s) && n <= |s.vRandom| && |vAddr| <= GetAddrLimit(s) && Gathered(s, n, vAddr, nNow)
    ensures var (r, offered) := GetAddr(s, n, vAddr, rnd, nNow);
      && OnlyMoved(s, r) && |r.vRandom| == |s.vRandom|
      && (|offered| < GetAddrLimit(s) ==> Gathered(r, |r.vRandom|, offered, nNow))
    decreases |s.vRandom| - n
  {
    hide Inv, Gathered, OnlyMoved, Shuffle, GetAddrLimit, Info.IsTerrible;
    if n < |s.vRandom| && |vAddr| < GetAddrLimit(s) {
      var j := GetAddrStep(s, n, vAddr, rnd, nNow);
      hide GetAddr;
      var t := Shuffle(s, n, j);
      var info := t.mapInfo[t.vRandom[n]];
      GatherOne(s, n, j, vAddr, nNow);
      GetAddrGathers(t, n + 1, if info.IsTerrible(nNow) then vAddr else vAddr + [info.addr], rnd, nNow);
      MovedTwice(s, t, GetAddr(s, n, vAddr, rnd, nNow).0);
    } else {
      NotMoved(s);
    }
  }

  /** GetAddr_ offers at most 2500 addresses and at most 23 percent of them, and below that limit every one that is
      not terrible. */
  lemma GetAddrOffers(s: State, rnd: nat -> nat, nNow: int)
    requires Inv(s)
    ensures var offered := GetAddr(s, 0, [], rnd, nNow).1;
      && |offered| <= 2500 && 100 * |offered| <= 23 * |s.vRandom|
      && (|offered| < 2500 && 100 * (|offered| + 1) <= 23 * |s.vRandom| ==>
            forall id :: id in s.mapInfo && !s.mapInfo[id].IsTerrible(nNow) ==> s.mapInfo[id].addr in offered)
  {
    hide GetAddr, GetAddrLimit;
    var (r, offered) := GetAddr(s, 0, [], rnd, nNow);
    GetAddrGathers(s, 0, [], rnd, nNow);
    LimitIs(s, |offered|);
    LimitIs(s, |offered| + 1);
    if |offered| < GetAddrLimit(s) { AllOffered(s, r, offered, nNow); }
  }

  lemma AllOffered(s: State, r: State, offered: seq<Address>, nNow: int)
    requires RandomOk(r) && OnlyMoved(s, r) && Gathered(r, |r.vRandom|, offered, nNow)
    ensures forall id :: id in s.mapInfo && !s.mapInfo[id].IsTerrible(nNow) ==> s.mapInfo[id].addr in offered
  {
    forall id | id in s.mapInfo && !s.mapInfo[id].IsTerrible(nNow) ensures s.mapInfo[id].addr in offered {
      assert RandomFwd(r, id);
    }
  }
}
