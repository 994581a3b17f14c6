/**
  The CAddrMan class of src/addrman.cpp and src/addrman.h: bucket tables as arrays, updated in place.
  Every method performs the operation of AddrManSpec on the value the fields represent.
 */
module AddrMan {
  import opened Prelude
  import opened AddrManSpec
  import opened AddrManInv
  import opened AddrManOps
  import opened AddrManLaws
  import AddrManSerialize

  /** The occupied slots of a bucket table; -1 marks a free slot. */
  ghost function TableOf(a: array2<int>): (r: Table)
    reads a
    ensures forall slot :: slot in r <==>
      slot.bucket < a.Length0 && slot.pos < a.Length1 && a[slot.bucket, slot.pos] != -1
    ensures forall slot :: slot in r ==> r[slot] == a[slot.bucket, slot.pos]
  {
    map b: nat, p: nat | b < a.Length0 && p < a.Length1 && a[b, p] != -1 :: Slot(b, p) := a[b, p]
  }

  method Write(a: array2<int>, slot: Slot, id: int)
    requires slot.bucket < a.Length0 && slot.pos < a.Length1
    modifies a
    ensures TableOf(a) == if id == -1 then old(TableOf(a)) - {slot} else old(TableOf(a))[slot := id]
  {
    a[slot.bucket, slot.pos] := id;
  }

  class CAddrMan {
    const h: Oracle
    const vvTried: array2<int>
    const vvNew: array2<int>
    var nKey: Hash
    var nIdCount: int
    var mapInfo: map<int, Info>
    var mapAddr: map<NetAddr, int>
    var vRandom: seq<int>
    var nTried: int
    var nNew: int
    var nLastGood: int
    var m_tried_collisions: set<int>

    ghost predicate Shaped() {
      && vvTried.Length0 == ADDRMAN_TRIED_BUCKET_COUNT && vvTried.Length1 == ADDRMAN_BUCKET_SIZE
      && vvNew.Length0 == ADDRMAN_NEW_BUCKET_COUNT && vvNew.Length1 == ADDRMAN_BUCKET_SIZE
      && vvNew != vvTried
    }

    ghost function Abs(): (r: State)
      reads this, vvTried, vvNew
    {
      State(h, nKey, nIdCount, mapInfo, mapAddr, vRandom, nTried, TableOf(vvTried), nNew, TableOf(vvNew),
            nLastGood, m_tried_collisions)
    }

    constructor (h: Oracle, nKey: Hash)
      ensures Shaped() && fresh(vvTried) && fresh(vvNew) && this.h == h
      ensures Abs() == Cleared(h, nKey, {})
    {
      this.h := h;
      vvTried := new int[ADDRMAN_TRIED_BUCKET_COUNT, ADDRMAN_BUCKET_SIZE]((_, _) => -1);
      vvNew := new int[ADDRMAN_NEW_BUCKET_COUNT, ADDRMAN_BUCKET_SIZE]((_, _) => -1);
      this.nKey := nKey;
      nIdCount, mapInfo, mapAddr, vRandom := 0, map[], map[], [];
      nTried, nNew, nLastGood, m_tried_collisions := 0, 0, 1, {};
      new;
      assert TableOf(vvTried) == map[] && TableOf(vvNew) == map[];
    }

    // ------------------------------------------------------------ bucket functions of a CAddrInfo

    method TriedSlotOf(svc: Service) returns (slot: Slot)
      ensures slot == TriedSlot(Abs(), svc)
    {
      var bucket := h.triedBucket(nKey, svc) % ADDRMAN_TRIED_BUCKET_COUNT;
      return Slot(bucket, h.position(nKey, false, bucket, svc) % ADDRMAN_BUCKET_SIZE);
    }

    method NewSlotOf(svc: Service, bucket: nat) returns (slot: Slot)
      ensures slot == NewSlot(Abs(), svc, bucket)
    {
      return Slot(bucket, h.position(nKey, true, bucket, svc) % ADDRMAN_BUCKET_SIZE);
    }

    method SourceSlotOf(svc: Service, source: NetAddr) returns (slot: Slot)
      ensures slot == SourceSlot(Abs(), svc, source)
    {
      slot := NewSlotOf(svc, h.newBucket(nKey, svc.ip, source) % ADDRMAN_NEW_BUCKET_COUNT);
    }

    // ------------------------------------------------------------ private helpers

    method Find(ip: NetAddr) returns (id: Option<int>)
      ensures id == AddrManSpec.Find(Abs(), ip)
    {
      if ip in mapAddr && mapAddr[ip] in mapInfo { return Some(mapAddr[ip]); }
      return None;
    }

    method Create(addr: Address, source: NetAddr) returns (id: int)
      modifies this`nIdCount, this`mapInfo, this`mapAddr, this`vRandom
      ensures Abs() == AddrManSpec.Create(old(Abs()), addr, source) && id == old(nIdCount)
    {
      id := nIdCount;
      nIdCount := nIdCount + 1;
      mapInfo := mapInfo[id := Info(addr, source, 0, 0, 0, 0, 0, false, |vRandom|)];
      mapAddr := mapAddr[addr.svc.ip := id];
      vRandom := vRandom + [id];
    }

    /** An entry's own fields change. */
    method Amend(id: int, info: Info)
      modifies this`mapInfo
      ensures Abs() == WithInfo(old(Abs()), id, info)
    {
      mapInfo := mapInfo[id := info];
    }

    method SwapRandom(i: nat, j: nat)
      requires i == j || (i < |vRandom| && j < |vRandom| && vRandom[i] in mapInfo && vRandom[j] in mapInfo)
      modifies this`mapInfo, this`vRandom
      ensures Abs() == AddrManSpec.SwapRandom(old(Abs()), i, j)
    {
      if i == j { return; }
      var id1, id2 := vRandom[i], vRandom[j];
      mapInfo := mapInfo[id1 := mapInfo[id1].(nRandomPos := j)];
      mapInfo := mapInfo[id2 := mapInfo[id2].(nRandomPos := i)];
      vRandom := vRandom[i := id2];
      vRandom := vRandom[j := id1];
    }

    method Delete(id: int)
      requires CanDelete(Abs(), id)
      modifies this`mapInfo, this`mapAddr, this`vRandom, this`nNew
      ensures Abs() == AddrManSpec.Delete(old(Abs()), id)
    {
      var info := mapInfo[id];
      SwapRandom(info.nRandomPos, |vRandom| - 1);
      vRandom := vRandom[..|vRandom| - 1];
      mapAddr := mapAddr - {info.addr.svc.ip};
      mapInfo := mapInfo - {id};
      nNew := nNew - 1;
    }

    method ClearNew(slot: Slot)
      requires Shaped() && slot.bucket < ADDRMAN_NEW_BUCKET_COUNT && slot.pos < ADDRMAN_BUCKET_SIZE
      requires CanClearNew(Abs(), slot)
      modifies this`mapInfo, this`mapAddr, this`vRandom, this`nNew, vvNew
      ensures Abs() == AddrManSpec.ClearNew(old(Abs()), slot)
    {
      if vvNew[slot.bucket, slot.pos] != -1 {
        var id := vvNew[slot.bucket, slot.pos];
        ghost var before := Abs();
        mapInfo := mapInfo[id := mapInfo[id].(nRefCount := mapInfo[id].nRefCount - 1)];
        Write(vvNew, slot, -1);
        assert Abs() == Unplace(before, slot);
        if mapInfo[id].nRefCount == 0 {
          Delete(id);
        }
      }
    }

    method ReleaseSlot(slot: Slot, id: int)
      requires Shaped() && id in mapInfo && slot.bucket < ADDRMAN_NEW_BUCKET_COUNT && slot.pos < ADDRMAN_BUCKET_SIZE
      modifies this`mapInfo, vvNew
      ensures var s := old(Abs());
        Abs() == WithInfo(s, id, s.mapInfo[id].(nRefCount := s.mapInfo[id].nRefCount - 1)).(vvNew := s.vvNew - {slot})
    {
      Amend(id, mapInfo[id].(nRefCount := mapInfo[id].nRefCount - 1));
      Write(vvNew, slot, -1);
    }

    /** One round of MakeTried's loop. */
    method LeaveBucket(id: int, bucket: nat)
      requires Shaped() && id in mapInfo && id != -1 && bucket < ADDRMAN_NEW_BUCKET_COUNT
      modifies this`mapInfo, vvNew
      ensures Abs() == AddrManSpec.LeaveBucket(old(Abs()), id, bucket)
    {
      var slot := NewSlotOf(mapInfo[id].addr.svc, bucket);
      if vvNew[slot.bucket, slot.pos] == id {
        ReleaseSlot(slot, id);
      }
    }

    /** The holder of a tried slot leaves it. */
    method LeaveTried(slot: Slot) returns (id: int)
      requires Shaped() && slot in TableOf(vvTried) && TableOf(vvTried)[slot] in mapInfo
      modifies this`mapInfo, this`nTried, vvTried
      ensures id == old(TableOf(vvTried))[slot] && Abs() == AddrManSpec.LeaveTried(old(Abs()), slot)
    {
      id := vvTried[slot.bucket, slot.pos];
      mapInfo := mapInfo[id := mapInfo[id].(fInTried := false)];
      Write(vvTried, slot, -1);
      nTried := nTried - 1;
    }

    method Settle(slot: Slot, id: int)
      requires Shaped() && id in mapInfo && id != -1
      requires slot.bucket < ADDRMAN_NEW_BUCKET_COUNT && slot.pos < ADDRMAN_BUCKET_SIZE
      modifies this`mapInfo, this`nNew, vvNew
      ensures Abs() == AddrManSpec.Settle(old(Abs()), slot, id)
    {
      mapInfo := mapInfo[id := mapInfo[id].(nRefCount := 1)];
      Write(vvNew, slot, id);
      nNew := nNew + 1;
    }

    method EnterTried(slot: Slot, id: int)
      requires Shaped() && id in mapInfo && id != -1
      requires slot.bucket < ADDRMAN_TRIED_BUCKET_COUNT && slot.pos < ADDRMAN_BUCKET_SIZE
      modifies this`mapInfo, this`nTried, vvTried
      ensures Abs() == AddrManSpec.EnterTried(old(Abs()), slot, id)
    {
      Write(vvTried, slot, id);
      nTried := nTried + 1;
      mapInfo := mapInfo[id := mapInfo[id].(fInTried := true)];
    }

    /** The loop of MakeTried over all new buckets. */
    method LeaveNew(id: int)
      requires Shaped() && id != -1 && id in mapInfo
      modifies this`mapInfo, this`nNew, vvNew
      ensures Abs() == AddrManSpec.LeaveNew(old(Abs()), id)
    {
      LeaveBuckets(id);
      LeavePartAll(old(Abs()), id);
      nNew := nNew - 1;
    }

    method LeaveBuckets(id: int)
      requires Shaped() && id != -1 && id in mapInfo
      modifies this`mapInfo, vvNew
      ensures Abs() == LeavePart(old(Abs()), id, ADDRMAN_NEW_BUCKET_COUNT)
    {
      ghost var s := Abs();
      for bucket := 0 to ADDRMAN_NEW_BUCKET_COUNT
        invariant id in mapInfo && Abs() == LeavePart(s, id, bucket)
      {
        LeaveNext(id, bucket, s);
      }
    }

    /** One round of the loop. */
    method LeaveNext(id: int, bucket: nat, ghost s: State)
      requires Shaped() && id in mapInfo && id != -1 && bucket < ADDRMAN_NEW_BUCKET_COUNT
      requires id in s.mapInfo && Abs() == LeavePart(s, id, bucket)
      modifies this`mapInfo, vvNew
      ensures id in mapInfo && Abs() == LeavePart(s, id, bucket + 1)
    {
      LeaveBucket(id, bucket);
    }

    method MakeTried(id: int)
      requires Shaped() && id != -1 && CanMakeTried(Abs(), id)
      modifies this`mapInfo, this`mapAddr, this`vRandom, this`nNew, this`nTried, vvNew, vvTried
      ensures Abs() == AddrManSpec.MakeTried(old(Abs()), id)
    {
      var slot := TriedSlotOf(mapInfo[id].addr.svc);
      LeaveNew(id);
      Evict(slot);
      EnterTried(slot, id);
    }

    /** Whoever holds a tried slot goes back to the new table. */
    method Evict(slot: Slot)
      requires Shaped() && CanEvict(Abs(), slot)
      requires slot.bucket < ADDRMAN_TRIED_BUCKET_COUNT && slot.pos < ADDRMAN_BUCKET_SIZE
      modifies this`mapInfo, this`mapAddr, this`vRandom, this`nNew, this`nTried, vvNew, vvTried
      ensures Abs() == AddrManSpec.Evict(old(Abs()), slot)
    {
      if vvTried[slot.bucket, slot.pos] != -1 {
        var idEvict := LeaveTried(slot);
        var newSlot := SourceSlotOf(mapInfo[idEvict].addr.svc, mapInfo[idEvict].source);
        ClearNew(newSlot);
        Settle(newSlot, idEvict);
      }
    }

    // ------------------------------------------------------------ public operations

    /** The search of Good_ for a bucket the entry is in, from a random bucket on. */
    method FindBucket(id: int, nRnd: nat) returns (nUBucket: int)
      requires Shaped() && id in mapInfo && id != -1
      ensures nUBucket == -1 <==> Buckets(Abs(), id, mapInfo[id].addr.svc) == {}
    {
      var svc := mapInfo[id].addr.svc;
      for n := 0 to ADDRMAN_NEW_BUCKET_COUNT
        invariant forall m: nat :: m < n ==> Probe(m, nRnd) !in Buckets(Abs(), id, svc)
      {
        var nB := Probe(n, nRnd);
        var slot := NewSlotOf(svc, nB);
        if vvNew[slot.bucket, slot.pos] == id {
          assert nB in Buckets(Abs(), id, svc);
          return nB;
        }
      }
      forall b: nat ensures b !in Buckets(Abs(), id, svc) {
        if b < ADDRMAN_NEW_BUCKET_COUNT { EveryBucketTried(b, nRnd); }
      }
      assert Buckets(Abs(), id, svc) == {};
      return -1;
    }

    method Good_(svc: Service, test_before_evict: bool, nTime: int)
      requires Shaped() && Inv(Abs())
      modifies this`mapInfo, this`mapAddr, this`vRandom, this`nNew, this`nTried, this`nLastGood, this`m_tried_collisions,
               vvNew, vvTried
      ensures AddrManSpec.CanGood(old(Abs()), svc, test_before_evict, nTime)
      ensures Abs() == AddrManSpec.Good(old(Abs()), svc, test_before_evict, nTime) && Inv(Abs())
    {
      GoodKeeps(Abs(), svc, test_before_evict, nTime);
      nLastGood := nTime;
      var found := Find(svc.ip);
      if found.None? || mapInfo[found.value].addr.svc != svc {
        return;
      }
      var id := found.value;
      mapInfo := mapInfo[id := mapInfo[id].(nLastSuccess := nTime, nLastTry := nTime, nAttempts := 0)];
      assert Abs() == MarkGood(old(Abs()), id, nTime);
      if mapInfo[id].fInTried {
        return;
      }
      MoveOrCollide(id, svc, test_before_evict);
    }

    /** The end of Good_. */
    method MoveOrCollide(id: int, svc: Service, test_before_evict: bool)
      requires Shaped() && id in mapInfo && id != -1 && mapInfo[id].addr.svc == svc
      requires CanMoveOrCollide(Abs(), id, svc, test_before_evict)
      modifies this`mapInfo, this`mapAddr, this`vRandom, this`nNew, this`nTried, this`m_tried_collisions, vvNew, vvTried
      ensures Abs() == AddrManSpec.MoveOrCollide(old(Abs()), id, svc, test_before_evict)
    {
      var nRnd: nat := *;
      var nUBucket := FindBucket(id, nRnd);
      if nUBucket == -1 {
        return;
      }
      var slot := TriedSlotOf(svc);
      if test_before_evict && vvTried[slot.bucket, slot.pos] != -1 {
        if |m_tried_collisions| < ADDRMAN_SET_TRIED_COLLISION_SIZE {
          m_tried_collisions := m_tried_collisions + {id};
        }
      } else {
        MakeTried(id);
      }
    }

    /** The random test of Add_: with n references it passes one time in 2^n. */
    method Dice(nRefCount: int) returns (pass: bool)
      ensures nRefCount <= 0 ==> pass
    {
      var nFactor := 1;
      for n := 0 to Max(0, nRefCount)
        invariant nFactor >= 1 && (nRefCount <= 0 ==> nFactor == 1)
      {
        nFactor := nFactor * 2;
      }
      var random: nat := *;
      return !(nFactor > 1 && random % nFactor != 0);
    }

    method Place(slot: Slot, id: int)
      requires Shaped() && id in mapInfo && id != -1
      requires slot.bucket < ADDRMAN_NEW_BUCKET_COUNT && slot.pos < ADDRMAN_BUCKET_SIZE
      modifies this`mapInfo, vvNew
      ensures Abs() == AddrManSpec.Place(old(Abs()), slot, id)
    {
      Amend(id, mapInfo[id].(nRefCount := mapInfo[id].nRefCount + 1));
      Write(vvNew, slot, id);
    }

    /** From the choice of a bucket on. */
    method PlaceAdded(id: int, slot: Slot, nNow: int)
      requires Shaped() && id != -1 && CanAddPlace(Abs(), slot, id, nNow)
      requires slot.bucket < ADDRMAN_NEW_BUCKET_COUNT && slot.pos < ADDRMAN_BUCKET_SIZE
      modifies this`mapInfo, this`mapAddr, this`vRandom, this`nNew, vvNew
      ensures Abs() == AddPlace(old(Abs()), slot, id, nNow)
    {
      if vvNew[slot.bucket, slot.pos] != id {
        var fInsert := vvNew[slot.bucket, slot.pos] == -1;
        if !fInsert {
          var existing := mapInfo[vvNew[slot.bucket, slot.pos]];
          fInsert := existing.IsTerrible(nNow) || (existing.nRefCount > 1 && mapInfo[id].nRefCount == 0);
        }
        if fInsert {
          ClearNew(slot);
          Place(slot, id);
        } else if mapInfo[id].nRefCount == 0 {
          Delete(id);
        }
      }
    }

    /** Add_ before the choice of a bucket: update a known entry or create a new one. */
    method PrepareAdd(addr: Address, source: NetAddr, nTimePenaltyIn: int, nNow: int)
      returns (go: Option<(int, bool)>, ghost dice: bool)
      requires Shaped() && Inv(Abs())
      modifies this`nIdCount, this`mapInfo, this`mapAddr, this`vRandom, this`nNew
      ensures (Abs(), go) == AddPrepare(old(Abs()), addr, source, nTimePenaltyIn, nNow, dice)
    {
      var nTimePenalty := if addr.svc.ip == source then 0 else nTimePenaltyIn;
      dice := true;
      var found := Find(addr.svc.ip);
      if found.Some? {
        var id := found.value;
        var info := mapInfo[id];
        var nUpdateInterval := if nNow - addr.nTime < 24 * 60 * 60 then 60 * 60 else 24 * 60 * 60;
        var time := info.addr.nTime;
        if addr.nTime != 0 && (time == 0 || time < addr.nTime - nUpdateInterval - nTimePenalty) {
          time := Max(0, addr.nTime - nTimePenalty);
        }
        mapInfo := mapInfo[id := info.(addr := Address(info.addr.svc, info.addr.nServices + addr.nServices, time))];
        if addr.nTime == 0 || (time != 0 && addr.nTime <= time) { return None, dice; }
        if info.fInTried { return None, dice; }
        if info.nRefCount == ADDRMAN_NEW_BUCKETS_PER_ADDRESS { return None, dice; }
        var pass := Dice(info.nRefCount);
        dice := pass;
        if !pass { return None, dice; }
        return Some((id, false)), dice;
      }
      var id := Create(addr.(nTime := Max(0, addr.nTime - nTimePenalty)), source);
      nNew := nNew + 1;
      return Some((id, true)), dice;
    }

    method Add_(addr: Address, source: NetAddr, nTimePenalty: int, nNow: int) returns (fNew: bool, ghost dice: bool)
      requires Shaped() && Inv(Abs())
      modifies this`nIdCount, this`mapInfo, this`mapAddr, this`vRandom, this`nNew, vvNew
      ensures CanAdd(old(Abs()), addr, source, nTimePenalty, nNow, dice)
      ensures (Abs(), fNew) == AddrManSpec.Add(old(Abs()), addr, source, nTimePenalty, nNow, dice) && Inv(Abs())
    {
      dice := true;
      fNew := false;
      if h.isRoutable(addr.svc.ip) {
        var go;
        go, dice := PrepareAdd(addr, source, nTimePenalty, nNow);
        AddKeeps(old(Abs()), addr, source, nTimePenalty, nNow, dice);
        if go.Some? {
          var slot := SourceSlotOf(mapInfo[go.value.0].addr.svc, source);
          IdNotFree(old(Abs()), addr, source, nTimePenalty, nNow, dice);
          PlaceAdded(go.value.0, slot, nNow);
          fNew := go.value.1;
        }
      }
    }

    method Attempt_(svc: Service, fCountFailure: bool, nTime: int)
      requires Inv(Abs())
      modifies this`mapInfo
      ensures Abs() == AddrManSpec.Attempt(old(Abs()), svc, fCountFailure, nTime) && Inv(Abs())
    {
      AttemptKeeps(Abs(), svc, fCountFailure, nTime);
      var found := Find(svc.ip);
      if found.None? || mapInfo[found.value].addr.svc != svc { return; }
      var info := mapInfo[found.value].(nLastTry := nTime);
      if fCountFailure && info.nLastCountAttempt < nLastGood {
        info := info.(nLastCountAttempt := nTime, nAttempts := info.nAttempts + 1);
      }
      Amend(found.value, info);
    }

    method Connected_(svc: Service, nTime: int)
      requires Inv(Abs())
      modifies this`mapInfo
      ensures Abs() == AddrManSpec.Connected(old(Abs()), svc, nTime) && Inv(Abs())
    {
      ConnectedKeeps(Abs(), svc, nTime);
      var found := Find(svc.ip);
      if found.None? || mapInfo[found.value].addr.svc != svc { return; }
      var info := mapInfo[found.value];
      if nTime - info.addr.nTime > 20 * 60 {
        Amend(found.value, info.(addr := info.addr.(nTime := nTime)));
      }
    }

    method SetServices_(svc: Service, nServices: set<nat>)
      requires Inv(Abs())
      modifies this`mapInfo
      ensures Abs() == AddrManSpec.SetServices(old(Abs()), svc, nServices) && Inv(Abs())
    {
      SetServicesKeeps(Abs(), svc, nServices);
      var found := Find(svc.ip);
      if found.None? || mapInfo[found.value].addr.svc != svc { return; }
      var info := mapInfo[found.value];
      Amend(found.value, info.(addr := info.addr.(nServices := nServices)));
    }

    /** GetAddr_: a partial shuffle of vRandom; at most 23 percent of the entries, none of them terrible. */
    method GetAddr_(nNow: int) returns (vAddr: seq<Address>)
      requires Inv(Abs())
      modifies this`mapInfo, this`vRandom
      ensures Inv(Abs()) && multiset(vRandom) == multiset(old(vRandom)) && OnlyMoved(old(Abs()), Abs())
      ensures |vAddr| <= 2500 && 100 * |vAddr| <= 23 * |vRandom| && forall a :: a in vAddr ==> Offered(old(Abs()), a, nNow)
      ensures |vAddr| < 2500 && 100 * (|vAddr| + 1) <= 23 * |vRandom| ==>
        forall id :: id in old(mapInfo) && !old(mapInfo)[id].IsTerrible(nNow) ==> old(mapInfo)[id].addr in vAddr
    {
      ghost var s0 := Abs();
      vAddr := [];
      var nNodes := Min(ADDRMAN_GETADDR_MAX, ADDRMAN_GETADDR_MAX_PCT * |vRandom| / 100);
      var n := 0;
      while n < |vRandom| && |vAddr| < nNodes
        invariant Inv(Abs()) && multiset(vRandom) == multiset(old(vRandom)) && |vRandom| == |old(vRandom)|
        invariant OnlyMoved(s0, Abs()) && |vAddr| <= nNodes
        invariant n <= |vRandom| && Gathered(Abs(), n, vAddr, nNow)
        invariant forall a :: a in vAddr ==> Offered(s0, a, nNow)
      {
        ghost var s := Abs();
        var ai, j := ShuffleNext(n);
        OfferedBefore(s0, s, Abs(), vRandom[n], nNow);
        GatherOne(s, n, j, vAddr, nNow);
        if !ai.IsTerrible(nNow) {
          vAddr := vAddr + [ai.addr];
        }
        n := n + 1;
      }
      LimitIs(s0, |vAddr|);
      LimitIs(s0, |vAddr| + 1);
      if |vAddr| < nNodes { AllOffered(s0, Abs(), vAddr, nNow); }
    }

    /** One random swap; the entry that ends up at position n, and the position it comes from. */
    method ShuffleNext(n: nat) returns (ai: Info, ghost j: nat)
      requires Inv(Abs()) && n < |vRandom|
      modifies this`mapInfo, this`vRandom
      ensures Inv(Abs()) && multiset(vRandom) == multiset(old(vRandom)) && |vRandom| == |old(vRandom)|
      ensures OnlyMoved(old(Abs()), Abs()) && vRandom[n] in mapInfo && ai == mapInfo[vRandom[n]]
      ensures n <= j < |vRandom| && Abs() == Shuffle(old(Abs()), n, j)
    {
      var random: nat := *;
      var nRndPos := random % (|vRandom| - n) + n;
      j := nRndPos;
      ghost var s := Abs();
      SwapRandomDefined(s, n, nRndPos);
      SwapRandom(n, nRndPos);
      ghost var t := Shuffle(s, n, nRndPos);
      assert Abs() == t;
      ai := mapInfo[vRandom[n]];
    }

    /** ResolveCollisions_: the colliding ids in ascending order. */
    method ResolveCollisions_(nNow: int)
      requires Shaped() && Inv(Abs())
      modifies this`mapInfo, this`mapAddr, this`vRandom, this`nNew, this`nTried, this`nLastGood, this`m_tried_collisions,
               vvNew, vvTried
      ensures var order := AddrManSerialize.Ascending(old(m_tried_collisions), Max(0, old(nIdCount)));
              Abs() == ResolveCollisions(old(Abs()), order, nNow) && Inv(Abs())
    {
      ghost var s0 := Abs();
      var order := AddrManSerialize.Ascending(m_tried_collisions, Max(0, nIdCount));
      for i := 0 to |order|
        invariant Inv(Abs()) && ResolveCollisions(Abs(), order[i..], nNow) == ResolveCollisions(s0, order, nNow)
      {
        assert order[i..][0] == order[i] && order[i..][1..] == order[i + 1..];
        ResolveOne(order[i], nNow);
      }
      assert order[|order|..] == [];
    }

    method ResolveOne(id_new: int, nNow: int)
      requires Shaped() && Inv(Abs())
      modifies this`mapInfo, this`mapAddr, this`vRandom, this`nNew, this`nTried, this`nLastGood, this`m_tried_collisions,
               vvNew, vvTried
      ensures Abs() == AddrManOps.ResolveOne(old(Abs()), id_new, nNow) && Inv(Abs())
    {
      TriedHolderKnown(Abs(), id_new);
      var erase_collision, promote := Judge(id_new, nNow);
      if promote {
        Good_(mapInfo[id_new].addr.svc, false, nNow);
      }
      if erase_collision {
        m_tried_collisions := m_tried_collisions - {id_new};
      }
    }

    /** The nested conditions of ResolveCollisions_. */
    method Judge(id_new: int, nNow: int) returns (erase_collision: bool, promote: bool)
      requires Shaped() && Inv(Abs()) && ResolveVerdict.requires(Abs(), id_new, nNow)
      ensures (erase_collision, promote) == ResolveVerdict(Abs(), id_new, nNow)
    {
      erase_collision, promote := false, false;
      if id_new !in mapInfo {
        erase_collision := true;
      } else {
        var svc := mapInfo[id_new].addr.svc;
        var slot := TriedSlotOf(svc);
        if !h.isValid(svc.ip) {
          erase_collision := true;
        } else if vvTried[slot.bucket, slot.pos] != -1 {
          var info_old := mapInfo[vvTried[slot.bucket, slot.pos]];
          if nNow - info_old.nLastSuccess < ADDRMAN_REPLACEMENT_HOURS * (60 * 60) {
            erase_collision := true;
          } else if nNow - info_old.nLastTry < ADDRMAN_REPLACEMENT_HOURS * (60 * 60) {
            if nNow - info_old.nLastTry > 60 {
              promote := true;
              erase_collision := true;
            }
          }
        } else {
          promote := true;
          erase_collision := true;
        }
      }
    }

    /** SelectTriedCollision_ on one of the colliding ids. */
    method SelectTriedCollision_(id_new: int) returns (info: Option<Info>)
      requires Shaped() && Inv(Abs()) && id_new in m_tried_collisions
      modifies this`m_tried_collisions
      ensures (Abs(), info) == SelectTriedCollision(old(Abs()), id_new)
    {
      if id_new !in mapInfo {
        m_tried_collisions := m_tried_collisions - {id_new};
        return None;
      }
      var slot := TriedSlotOf(mapInfo[id_new].addr.svc);
      assert Collides(Abs(), id_new) && TriedHolder(Abs(), slot);
      return Some(mapInfo[vvTried[slot.bucket, slot.pos]]);
    }
  }

  // -------------------------------------------------------------- leaving the new buckets one by one

  lemma OfferedBefore(s0: State, s: State, t: State, id: int, nNow: int)
    requires OnlyMoved(s0, s) && OnlyMoved(s, t) && id in t.mapInfo
    ensures OnlyMoved(s0, t)
    ensures !t.mapInfo[id].IsTerrible(nNow) ==> Offered(s0, t.mapInfo[id].addr, nNow)
  {
    assert id in s0.mapInfo && t.mapInfo[id] == s0.mapInfo[id].(nRandomPos := t.mapInfo[id].nRandomPos);
  }

  ghost function LeavePart(s: State, id: int, k: nat): (r: State)
    requires id in s.mapInfo
    ensures id in r.mapInfo && r.mapInfo[id].addr == s.mapInfo[id].addr && r.nNew == s.nNew
  {
    if k == 0 then s else AddrManSpec.LeaveBucket(LeavePart(s, id, k - 1), id, k - 1)
  }

  ghost function BucketsBelow(s: State, id: int, k: nat): (r: set<nat>)
    requires id in s.mapInfo
  {
    set b | b in Buckets(s, id, s.mapInfo[id].addr.svc) && b < k
  }

  /** The loop removes exactly the references that the entry's buckets account for. */
  lemma {:induction false} LeavePartClosed(s: State, id: int, k: nat)
    requires id in s.mapInfo && k <= ADDRMAN_NEW_BUCKET_COUNT
    ensures LeavePart(s, id, k) == Without(s, id, k)
  {
    if k == 0 {
      assert BucketsBelow(s, id, 0) == {};
      assert s.mapInfo[id := s.mapInfo[id]] == s.mapInfo;
      assert s.vvNew - SlotsOf(s, s.mapInfo[id].addr.svc, {}) == s.vvNew;
    } else {
      LeavePartClosed(s, id, k - 1);
      LeaveBucketClosed(s, id, k - 1);
    }
  }

  ghost function Without(s: State, id: int, k: nat): (r: State)
    requires id in s.mapInfo
  {
    Released(s, id, BucketsBelow(s, id, k))
  }

  lemma LeaveBucketClosed(s: State, id: int, b: nat)
    requires id in s.mapInfo && b < ADDRMAN_NEW_BUCKET_COUNT
    ensures AddrManSpec.LeaveBucket(Without(s, id, b), id, b) == Without(s, id, b + 1)
  {
    BelowGrows(s, id, b);
    var t, u := AddrManSpec.LeaveBucket(Without(s, id, b), id, b), Without(s, id, b + 1);
    assert t.mapInfo == u.mapInfo && t.vvNew == u.vvNew;
  }

  lemma BelowGrows(s: State, id: int, b: nat)
    requires id in s.mapInfo && b < ADDRMAN_NEW_BUCKET_COUNT
    ensures var svc := s.mapInfo[id].addr.svc;
            var slots := SlotsOf(s, svc, BucketsBelow(s, id, b));
            && NewSlot(s, svc, b) !in slots
            && if b in Buckets(s, id, svc)
               then BucketsBelow(s, id, b + 1) == BucketsBelow(s, id, b) + {b}
                 && s.vvNew - SlotsOf(s, svc, BucketsBelow(s, id, b + 1)) == s.vvNew - slots - {NewSlot(s, svc, b)}
               else BucketsBelow(s, id, b + 1) == BucketsBelow(s, id, b)
  {
    var svc := s.mapInfo[id].addr.svc;
    if b in Buckets(s, id, svc) {
      assert BucketsBelow(s, id, b + 1) == BucketsBelow(s, id, b) + {b};
      assert SlotsOf(s, svc, BucketsBelow(s, id, b + 1)) == SlotsOf(s, svc, BucketsBelow(s, id, b)) + {NewSlot(s, svc, b)};
    } else {
      assert BucketsBelow(s, id, b + 1) == BucketsBelow(s, id, b);
    }
  }

  lemma LeavePartAll(s: State, id: int)
    requires id in s.mapInfo
    ensures LeavePart(s, id, ADDRMAN_NEW_BUCKET_COUNT).(nNew := s.nNew - 1) == LeaveNew(s, id)
  {
    LeavePartClosed(s, id, ADDRMAN_NEW_BUCKET_COUNT);
    AllBelow(s, id);
  }

  lemma AllBelow(s: State, id: int)
    requires id in s.mapInfo
    ensures BucketsBelow(s, id, ADDRMAN_NEW_BUCKET_COUNT) == Buckets(s, id, s.mapInfo[id].addr.svc)
  {}

  // -------------------------------------------------------------- searching all buckets

  function Probe(n: nat, nRnd: nat): (r: nat) { (n + nRnd) % ADDRMAN_NEW_BUCKET_COUNT }

  lemma EveryBucketTried(b: nat, nRnd: nat)
    requires b < ADDRMAN_NEW_BUCKET_COUNT
    ensures exists m: nat :: m < ADDRMAN_NEW_BUCKET_COUNT && Probe(m, nRnd) == b
  {
    var r := nRnd % ADDRMAN_NEW_BUCKET_COUNT;
    var m: nat := if b >= r then b - r else b - r + ADDRMAN_NEW_BUCKET_COUNT;
    assert Probe(m, nRnd) == b;
  }

  lemma TriedHolderKnown(s: State, id: int)
    requires Inv(s)
    ensures forall nNow :: ResolveVerdict.requires(s, id, nNow)
  {
    if id in s.mapInfo && TriedSlot(s, s.mapInfo[id].addr.svc) in s.vvTried {
      assert TriedHolder(s, TriedSlot(s, s.mapInfo[id].addr.svc));
    }
  }

  /** The id Add_ is about to place is a real one, not the -1 of a free slot. */
  lemma IdNotFree(s: State, addr: Address, source: NetAddr, nTimePenalty: int, nNow: int, dice: bool)
    requires Inv(s)
    ensures var go := AddPrepare(s, addr, source, nTimePenalty, nNow, dice).1;
            go.Some? ==> go.value.0 >= 0
  {
  }
}
