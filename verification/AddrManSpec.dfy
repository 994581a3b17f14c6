/**
  The address manager of src/addrman.cpp on values: its indexes and the operations on them. Hashes and
  address predicates are parameters (`Oracle`), random choices and the clock are arguments.
 */
module AddrManSpec {
  import opened Prelude

  const ADDRMAN_TRIED_BUCKET_COUNT := 256
  const ADDRMAN_NEW_BUCKET_COUNT := 1024
  const ADDRMAN_BUCKET_SIZE := 64
  const ADDRMAN_NEW_BUCKETS_PER_ADDRESS := 8
  const ADDRMAN_HORIZON_DAYS := 30
  const ADDRMAN_RETRIES := 3
  const ADDRMAN_MAX_FAILURES := 10
  const ADDRMAN_MIN_FAIL_DAYS := 7
  const ADDRMAN_REPLACEMENT_HOURS := 4
  const ADDRMAN_SET_TRIED_COLLISION_SIZE := 10

  /** A CNetAddr, the key of mapAddr. */
  type NetAddr = nat

  /** A CService: what bucket positions are derived from. */
  datatype Service = Service(ip: NetAddr, port: nat)

  /** Service flags are the set of their bits. */
  datatype Address = Address(svc: Service, nServices: set<nat>, nTime: int)

  datatype Oracle = Oracle(
    triedBucket: (Hash, Service) -> nat,
    newBucket: (Hash, NetAddr, NetAddr) -> nat,
    position: (Hash, bool, nat, Service) -> nat,
    isRoutable: NetAddr -> bool,
    isValid: NetAddr -> bool)

  /** CAddrInfo. */
  datatype Info = Info(addr: Address, source: NetAddr, nLastTry: int, nLastCountAttempt: int, nLastSuccess: int,
                       nAttempts: int, nRefCount: int, fInTried: bool, nRandomPos: int)
  {
    predicate IsTerrible(nNow: int) {
      if nLastTry != 0 && nLastTry >= nNow - 60 then false
      else
        || addr.nTime > nNow + 10 * 60
        || addr.nTime == 0 || nNow - addr.nTime > ADDRMAN_HORIZON_DAYS * 24 * 60 * 60
        || (nLastSuccess == 0 && nAttempts >= ADDRMAN_RETRIES)
        || (nNow - nLastSuccess > ADDRMAN_MIN_FAIL_DAYS * 24 * 60 * 60 && nAttempts >= ADDRMAN_MAX_FAILURES)
    }
  }

  datatype Slot = Slot(bucket: nat, pos: nat)

  /** The occupied slots of a table; an absent slot holds -1 in the C++ arrays. */
  type Table = map<Slot, int>

  datatype State = State(h: Oracle, nKey: Hash, nIdCount: int, mapInfo: map<int, Info>, mapAddr: map<NetAddr, int>,
                         vRandom: seq<int>, nTried: int, vvTried: Table, nNew: int, vvNew: Table,
                         nLastGood: int, collisions: set<int>)

  function Cleared(h: Oracle, nKey: Hash, collisions: set<int>): (r: State)
  {
    State(h, nKey, 0, map[], map[], [], 0, map[], 0, map[], 1, collisions)
  }

  // ---------------------------------------------------------------- slots

  function TriedSlot(s: State, svc: Service): (r: Slot)
    ensures r.bucket < ADDRMAN_TRIED_BUCKET_COUNT && r.pos < ADDRMAN_BUCKET_SIZE
  {
    var bucket := s.h.triedBucket(s.nKey, svc) % ADDRMAN_TRIED_BUCKET_COUNT;
    Slot(bucket, s.h.position(s.nKey, false, bucket, svc) % ADDRMAN_BUCKET_SIZE)
  }

  /** The one position of a new bucket where this service may be. */
  function NewSlot(s: State, svc: Service, bucket: nat): (r: Slot)
    ensures r.bucket == bucket && r.pos < ADDRMAN_BUCKET_SIZE
  {
    Slot(bucket, s.h.position(s.nKey, true, bucket, svc) % ADDRMAN_BUCKET_SIZE)
  }

  function SourceSlot(s: State, svc: Service, source: NetAddr): (r: Slot)
    ensures r.bucket < ADDRMAN_NEW_BUCKET_COUNT && r.pos < ADDRMAN_BUCKET_SIZE
  {
    NewSlot(s, svc, s.h.newBucket(s.nKey, svc.ip, source) % ADDRMAN_NEW_BUCKET_COUNT)
  }

  /** The new buckets that hold id. */
  function Buckets(s: State, id: int, svc: Service): (r: set<nat>)
  {
    set b: nat | b < ADDRMAN_NEW_BUCKET_COUNT && NewSlot(s, svc, b) in s.vvNew && s.vvNew[NewSlot(s, svc, b)] == id
  }

  // ---------------------------------------------------------------- the indexes

  function Find(s: State, ip: NetAddr): (r: Option<int>)
  {
    if ip in s.mapAddr && s.mapAddr[ip] in s.mapInfo then Some(s.mapAddr[ip]) else None
  }

  function WithInfo(s: State, id: int, info: Info): (r: State)
  {
    s.(mapInfo := s.mapInfo[id := info])
  }

  function Create(s: State, addr: Address, source: NetAddr): (r: State)
  {
    var id := s.nIdCount;
    s.(nIdCount := id + 1,
       mapInfo := s.mapInfo[id := Info(addr, source, 0, 0, 0, 0, 0, false, |s.vRandom|)],
       mapAddr := s.mapAddr[addr.svc.ip := id],
       vRandom := s.vRandom + [id])
  }

  function SwapRandom(s: State, i: nat, j: nat): (r: State)
    requires i == j || (i < |s.vRandom| && j < |s.vRandom| && s.vRandom[i] in s.mapInfo && s.vRandom[j] in s.mapInfo)
  {
    if i == j then s
    else
      var a, b := s.vRandom[i], s.vRandom[j];
      var m := s.mapInfo[a := s.mapInfo[a].(nRandomPos := j)];
      s.(mapInfo := m[b := m[b].(nRandomPos := i)],
         vRandom := s.vRandom[i := b][j := a])
  }

  /** What SwapRandom and the erasures of Delete assert and index. */
  predicate CanDelete(s: State, id: int)
  {
    && id in s.mapInfo && !s.mapInfo[id].fInTried && s.mapInfo[id].nRefCount == 0
    && var last := |s.vRandom| - 1;
    && 0 <= s.mapInfo[id].nRandomPos <= last
    && s.vRandom[s.mapInfo[id].nRandomPos] in s.mapInfo && s.vRandom[last] in s.mapInfo
  }

  function Delete(s: State, id: int): (r: State)
    requires CanDelete(s, id)
  {
    var t := SwapRandom(s, s.mapInfo[id].nRandomPos, |s.vRandom| - 1);
    t.(vRandom := t.vRandom[..|t.vRandom| - 1],
       mapAddr := t.mapAddr - {s.mapInfo[id].addr.svc.ip},
       mapInfo := t.mapInfo - {id},
       nNew := t.nNew - 1)
  }

  /** The slot is emptied and its holder loses a reference. */
  function Unplace(s: State, slot: Slot): (r: State)
    requires slot in s.vvNew && s.vvNew[slot] in s.mapInfo
  {
    var id := s.vvNew[slot];
    WithInfo(s, id, s.mapInfo[id].(nRefCount := s.mapInfo[id].nRefCount - 1)).(vvNew := s.vvNew - {slot})
  }

  predicate CanClearNew(s: State, slot: Slot)
  {
    slot in s.vvNew ==>
      && s.vvNew[slot] in s.mapInfo && s.mapInfo[s.vvNew[slot]].nRefCount > 0
      && (s.mapInfo[s.vvNew[slot]].nRefCount == 1 ==> CanDelete(Unplace(s, slot), s.vvNew[slot]))
  }

  function ClearNew(s: State, slot: Slot): (r: State)
    requires CanClearNew(s, slot)
  {
    if slot !in s.vvNew then s
    else
      var id := s.vvNew[slot];
      var t := Unplace(s, slot);
      if t.mapInfo[id].nRefCount == 0 then Delete(t, id) else t
  }

  function Place(s: State, slot: Slot, id: int): (r: State)
    requires id in s.mapInfo
  {
    WithInfo(s, id, s.mapInfo[id].(nRefCount := s.mapInfo[id].nRefCount + 1)).(vvNew := s.vvNew[slot := id])
  }

  // ---------------------------------------------------------------- MakeTried

  /** id leaves one new bucket if it is there. */
  function LeaveBucket(s: State, id: int, bucket: nat): (r: State)
    requires id in s.mapInfo
  {
    var slot := NewSlot(s, s.mapInfo[id].addr.svc, bucket);
    if slot in s.vvNew && s.vvNew[slot] == id
    then WithInfo(s, id, s.mapInfo[id].(nRefCount := s.mapInfo[id].nRefCount - 1)).(vvNew := s.vvNew - {slot})
    else s
  }

  /** The positions of one address in the given new buckets. */
  function SlotsOf(s: State, svc: Service, buckets: set<nat>): (r: set<Slot>)
  {
    set b | b in buckets :: NewSlot(s, svc, b)
  }

  /** id leaves the given buckets. */
  function Released(s: State, id: int, buckets: set<nat>): (r: State)
    requires id in s.mapInfo
  {
    WithInfo(s, id, s.mapInfo[id].(nRefCount := s.mapInfo[id].nRefCount - |buckets|))
    .(vvNew := s.vvNew - SlotsOf(s, s.mapInfo[id].addr.svc, buckets))
  }

  /** id leaves every new bucket; nNew no longer counts it. */
  function LeaveNew(s: State, id: int): (r: State)
    requires id in s.mapInfo
  {
    Released(s, id, Buckets(s, id, s.mapInfo[id].addr.svc)).(nNew := s.nNew - 1)
  }

  /** The holder of a tried slot leaves it. */
  function LeaveTried(s: State, slot: Slot): (r: State)
    requires slot in s.vvTried && s.vvTried[slot] in s.mapInfo
  {
    var id := s.vvTried[slot];
    WithInfo(s, id, s.mapInfo[id].(fInTried := false)).(vvTried := s.vvTried - {slot}, nTried := s.nTried - 1)
  }

  function EvictSlot(s: State, id: int): (r: Slot)
    requires id in s.mapInfo
  {
    SourceSlot(s, s.mapInfo[id].addr.svc, s.mapInfo[id].source)
  }

  predicate CanReturnToNew(s: State, id: int)
  {
    && id in s.mapInfo && CanClearNew(s, EvictSlot(s, id))
    && var t := ClearNew(s, EvictSlot(s, id));
    && id in t.mapInfo && EvictSlot(s, id) !in t.vvNew
  }

  /** An entry just taken out of the tried table enters its own new bucket, pushing out what is there. */
  function ReturnToNew(s: State, id: int): (r: State)
    requires CanReturnToNew(s, id)
  {
    Settle(ClearNew(s, EvictSlot(s, id)), EvictSlot(s, id), id)
  }

  function Settle(s: State, slot: Slot, id: int): (r: State)
    requires id in s.mapInfo
  {
    WithInfo(s, id, s.mapInfo[id].(nRefCount := 1)).(vvNew := s.vvNew[slot := id], nNew := s.nNew + 1)
  }

  predicate CanEvict(s: State, slot: Slot)
  {
    slot in s.vvTried ==> s.vvTried[slot] in s.mapInfo && CanReturnToNew(LeaveTried(s, slot), s.vvTried[slot])
  }

  function Evict(s: State, slot: Slot): (r: State)
    requires CanEvict(s, slot)
  {
    if slot in s.vvTried then ReturnToNew(LeaveTried(s, slot), s.vvTried[slot]) else s
  }

  function EnterTried(s: State, slot: Slot, id: int): (r: State)
    requires id in s.mapInfo
  {
    WithInfo(s, id, s.mapInfo[id].(fInTried := true)).(vvTried := s.vvTried[slot := id], nTried := s.nTried + 1)
  }

  /** All asserts of MakeTried hold. */
  predicate CanMakeTried(s: State, id: int)
  {
    && id in s.mapInfo
    && var t := LeaveNew(s, id);
       var slot := TriedSlot(s, s.mapInfo[id].addr.svc);
    && t.mapInfo[id].nRefCount == 0
    && CanEvict(t, slot)
    && id in Evict(t, slot).mapInfo && slot !in Evict(t, slot).vvTried
  }

  function MakeTried(s: State, id: int): (r: State)
    requires CanMakeTried(s, id)
  {
    var slot := TriedSlot(s, s.mapInfo[id].addr.svc);
    EnterTried(Evict(LeaveNew(s, id), slot), slot, id)
  }

  // ---------------------------------------------------------------- the public operations

  /** The entry Good_, Attempt_, Connected_ and SetServices_ work on: same address and port. */
  function Exact(s: State, svc: Service): (r: Option<int>)
  {
    var found := Find(s, svc.ip);
    if found.Some? && s.mapInfo[found.value].addr.svc == svc then found else None
  }

  function MarkGood(s: State, id: int, nTime: int): (r: State)
    requires id in s.mapInfo
  {
    WithInfo(s, id, s.mapInfo[id].(nLastSuccess := nTime, nLastTry := nTime, nAttempts := 0)).(nLastGood := nTime)
  }

  predicate CanMoveOrCollide(s: State, id: int, svc: Service, testBeforeEvict: bool)
  {
    Buckets(s, id, svc) == {} || (testBeforeEvict && TriedSlot(s, svc) in s.vvTried) || CanMakeTried(s, id)
  }

  /** The end of Good_: move a new entry to tried, or remember that its place there is taken. */
  function MoveOrCollide(s: State, id: int, svc: Service, testBeforeEvict: bool): (r: State)
    requires CanMoveOrCollide(s, id, svc, testBeforeEvict)
  {
    if Buckets(s, id, svc) == {} then s
    else if testBeforeEvict && TriedSlot(s, svc) in s.vvTried then
      if |s.collisions| < ADDRMAN_SET_TRIED_COLLISION_SIZE then s.(collisions := s.collisions + {id}) else s
    else MakeTried(s, id)
  }

  predicate CanGood(s: State, svc: Service, testBeforeEvict: bool, nTime: int)
  {
    var found := Exact(s, svc);
    found.Some? && !s.mapInfo[found.value].fInTried ==>
      CanMoveOrCollide(MarkGood(s, found.value, nTime), found.value, svc, testBeforeEvict)
  }

  function Good(s: State, svc: Service, testBeforeEvict: bool, nTime: int): (r: State)
    requires CanGood(s, svc, testBeforeEvict, nTime)
  {
    var found := Exact(s, svc);
    if found.None? then s.(nLastGood := nTime)
    else
      var t := MarkGood(s, found.value, nTime);
      if s.mapInfo[found.value].fInTried then t else MoveOrCollide(t, found.value, svc, testBeforeEvict)
  }

  /** Add_ up to the choice of a bucket; `dice` is the outcome of RandomInt(nFactor) == 0. The result says
      which entry to place and whether it was created, or None to stop. */
  function AddPrepare(s: State, addr: Address, source: NetAddr, nTimePenalty: int, nNow: int, dice: bool)
    : (r: (State, Option<(int, bool)>))
  {
    var penalty := if addr.svc.ip == source then 0 else nTimePenalty;
    var found := Find(s, addr.svc.ip);
    if found.Some? then
      var id := found.value;
      var info := s.mapInfo[id];
      var interval := if nNow - addr.nTime < 24 * 60 * 60 then 60 * 60 else 24 * 60 * 60;
      var time := if addr.nTime != 0 && (info.addr.nTime == 0 || info.addr.nTime < addr.nTime - interval - penalty)
                  then Max(0, addr.nTime - penalty) else info.addr.nTime;
      var t := WithInfo(s, id, info.(addr := Address(info.addr.svc, info.addr.nServices + addr.nServices, time)));
      if addr.nTime == 0 || (time != 0 && addr.nTime <= time) then (t, None)
      else if info.fInTried then (t, None)
      else if info.nRefCount == ADDRMAN_NEW_BUCKETS_PER_ADDRESS then (t, None)
      else if info.nRefCount > 0 && !dice then (t, None)
      else (t, Some((id, false)))
    else
      var created := Create(s, addr.(nTime := Max(0, addr.nTime - penalty)), source);
      (created.(nNew := created.nNew + 1), Some((s.nIdCount, true)))
  }

  /** Whether Add_ takes the slot: it is free, or its holder is terrible or has other references. */
  predicate TakesSlot(s: State, slot: Slot, id: int, nNow: int)
    requires id in s.mapInfo && (slot in s.vvNew ==> s.vvNew[slot] in s.mapInfo)
  {
    slot !in s.vvNew
    || s.mapInfo[s.vvNew[slot]].IsTerrible(nNow)
    || (s.mapInfo[s.vvNew[slot]].nRefCount > 1 && s.mapInfo[id].nRefCount == 0)
  }

  predicate CanAddPlace(s: State, slot: Slot, id: int, nNow: int)
  {
    && id in s.mapInfo && (slot in s.vvNew ==> s.vvNew[slot] in s.mapInfo)
    && (if slot in s.vvNew && s.vvNew[slot] == id then true
        else if TakesSlot(s, slot, id, nNow) then CanClearNew(s, slot) && id in ClearNew(s, slot).mapInfo
        else s.mapInfo[id].nRefCount == 0 ==> CanDelete(s, id))
  }

  function AddPlace(s: State, slot: Slot, id: int, nNow: int): (r: State)
    requires CanAddPlace(s, slot, id, nNow)
  {
    if slot in s.vvNew && s.vvNew[slot] == id then s
    else if TakesSlot(s, slot, id, nNow) then Place(ClearNew(s, slot), slot, id)
    else if s.mapInfo[id].nRefCount == 0 then Delete(s, id)
    else s
  }

  predicate CanAdd(s: State, addr: Address, source: NetAddr, nTimePenalty: int, nNow: int, dice: bool)
  {
    s.h.isRoutable(addr.svc.ip) ==>
      var (t, go) := AddPrepare(s, addr, source, nTimePenalty, nNow, dice);
      go.None? ||
      (go.value.0 in t.mapInfo &&
       CanAddPlace(t, SourceSlot(t, t.mapInfo[go.value.0].addr.svc, source), go.value.0, nNow))
  }

  /** Add_; the second component is its result. */
  function Add(s: State, addr: Address, source: NetAddr, nTimePenalty: int, nNow: int, dice: bool): (r: (State, bool))
    requires CanAdd(s, addr, source, nTimePenalty, nNow, dice)
  {
    if !s.h.isRoutable(addr.svc.ip) then (s, false)
    else
      var (t, go) := AddPrepare(s, addr, source, nTimePenalty, nNow, dice);
      match go
      case None => (t, false)
      case Some((id, created)) =>
        (AddPlace(t, SourceSlot(t, t.mapInfo[id].addr.svc, source), id, nNow), created)
  }

  function Attempt(s: State, svc: Service, fCountFailure: bool, nTime: int): (r: State)
  {
    var found := Exact(s, svc);
    if found.None? then s
    else
      var info := s.mapInfo[found.value].(nLastTry := nTime);
      WithInfo(s, found.value,
        if fCountFailure && info.nLastCountAttempt < s.nLastGood
        then info.(nLastCountAttempt := nTime, nAttempts := info.nAttempts + 1) else info)
  }

  function Connected(s: State, svc: Service, nTime: int): (r: State)
  {
    var found := Exact(s, svc);
    if found.None? then s
    else
      var info := s.mapInfo[found.value];
      if nTime - info.addr.nTime > 20 * 60
      then WithInfo(s, found.value, info.(addr := info.addr.(nTime := nTime))) else s
  }

  function SetServices(s: State, svc: Service, nServices: set<nat>): (r: State)
  {
    var found := Exact(s, svc);
    if found.None? then s
    else
      var info := s.mapInfo[found.value];
      WithInfo(s, found.value, info.(addr := info.addr.(nServices := nServices)))
  }

  /** What ResolveCollisions_ decides about one colliding id: forget it, and before that move it to tried. */
  function ResolveVerdict(s: State, id: int, nNow: int): (r: (bool, bool))
    requires id in s.mapInfo && TriedSlot(s, s.mapInfo[id].addr.svc) in s.vvTried ==>
               s.vvTried[TriedSlot(s, s.mapInfo[id].addr.svc)] in s.mapInfo
  {
    if id !in s.mapInfo then (true, false)
    else
      var info := s.mapInfo[id];
      var slot := TriedSlot(s, info.addr.svc);
      if !s.h.isValid(info.addr.svc.ip) then (true, false)
      else if slot in s.vvTried then
        var old_ := s.mapInfo[s.vvTried[slot]];
        if nNow - old_.nLastSuccess < ADDRMAN_REPLACEMENT_HOURS * (60 * 60) then (true, false)
        else if nNow - old_.nLastTry < ADDRMAN_REPLACEMENT_HOURS * (60 * 60) && nNow - old_.nLastTry > 60 then (true, true)
        else (false, false)
      else (true, true)
  }
}
