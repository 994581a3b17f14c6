/**
  What a compact announcement's slots hold after the matching of src/blockencodings.cpp, and for which
  announcements that is what it should be.
 */
module CompactKnown {
  import opened Prelude
  import opened IndexCoding
  import opened CompactSlots
  import opened CompactScan

  /** What is available after InitData: the prefilled transactions, and behind each short id what SlotKnown says. */
  predicate Known(c: Announcement, sid: ShortId, pool: seq<Entry>, extra: seq<Entry>, avail: Slots)
    requires Accepts(c)
  {
    var placed := Placed(c, |c.prefilledtxn|);
    && |avail| == |placed| && |Free(placed)| == |c.shorttxids|
    && (forall j :: 0 <= j < |placed| && placed[j].Some? ==> avail[j] == placed[j])
    && (forall i :: 0 <= i < |c.shorttxids| ==> SlotKnown(sid, pool, extra, c.shorttxids[i], avail[Free(placed)[i]]))
  }

  /** The mempool scan has looked at k entries and passed over none that matters. */
  predicate PoolDone(sid: ShortId, m: map<nat, nat>, base: Slots, pool: seq<Entry>, extra: seq<Entry>, k: nat, g: Progress)
  {
    && k <= |pool| && ScanOk(sid, m, base, pool, extra, pool[..k], g)
    && forall id {:trigger id in m} :: id in m && Seen(sid, pool, id) ==> g.have[m[id]]
  }

  predicate ExtraDone(sid: ShortId, m: map<nat, nat>, base: Slots, pool: seq<Entry>, extra: seq<Entry>, k: nat, i: nat, g: Progress)
  {
    && k <= |pool| && i <= |extra| && ScanOk(sid, m, base, pool, extra, pool[..k] + extra[..i], g)
    && forall id {:trigger id in m} :: id in m && Seen(sid, pool, id) ==> g.have[m[id]]
  }

  /** The result of both scans. */
  predicate Settled(sid: ShortId, m: map<nat, nat>, base: Slots, pool: seq<Entry>, extra: seq<Entry>, avail: Slots)
  {
    && |avail| == |base| && (forall j :: 0 <= j < |base| && j !in m.Values ==> avail[j] == base[j])
    && forall id {:trigger id in m} :: id in m ==> m[id] < |avail| && SlotKnown(sid, pool, extra, id, avail[m[id]])
  }

  lemma PoolStep(sid: ShortId, m: map<nat, nat>, base: Slots, pool: seq<Entry>, extra: seq<Entry>, i: nat, g: Progress)
    requires Injective(m) && i < |pool| && ScanOk(sid, m, base, pool, extra, pool[..i], g)
    ensures ScanOk(sid, m, base, pool, extra, pool[..i + 1], Consider(m, g, sid(pool[i].hash), pool[i].tx, true))
  {
    ConsiderOk(sid, m, base, pool, extra, pool[..i], g, pool[i], true);
    assert pool[..i] + [pool[i]] == pool[..i + 1];
  }

  lemma PoolSeen(sid: ShortId, m: map<nat, nat>, base: Slots, pool: seq<Entry>, extra: seq<Entry>, k: nat, g: Progress, done: bool)
    requires k <= |pool| && ScanOk(sid, m, base, pool, extra, pool[..k], g)
    requires if done then forall id :: id in m ==> g.have[m[id]] else k == |pool|
    ensures PoolDone(sid, m, base, pool, extra, k, g)
  {
    assert pool[..|pool|] == pool;
    forall id {:trigger id in m} | id in m && Seen(sid, pool, id) ensures g.have[m[id]] {
      assert IdOk(sid, pool, extra, pool[..k], id, g.avail[m[id]], g.have[m[id]]);
    }
  }

  lemma ExtraStep(sid: ShortId, m: map<nat, nat>, base: Slots, pool: seq<Entry>, extra: seq<Entry>, k: nat, i: nat, g: Progress)
    requires Injective(m) && ExtraDone(sid, m, base, pool, extra, k, i, g) && i < |extra|
    ensures ExtraDone(sid, m, base, pool, extra, k, i + 1, Consider(m, g, sid(extra[i].hash), extra[i].tx, false))
  {
    ConsiderOk(sid, m, base, pool, extra, pool[..k] + extra[..i], g, extra[i], false);
    assert pool[..k] + extra[..i] + [extra[i]] == pool[..k] + extra[..i + 1];
  }

  lemma SeenEither(sid: ShortId, pool: seq<Entry>, extra: seq<Entry>, scanned: seq<Entry>, id: nat, done: bool)
    requires !done ==> forall e :: e in extra ==> e in scanned
    ensures Seen(sid, pool + extra, id) ==> done || Seen(sid, pool, id) || Seen(sid, scanned, id)
  {
    if Seen(sid, pool + extra, id) {
      var e :| e in pool + extra && sid(e.hash) == id;
    }
  }

  lemma ExtraSettled(sid: ShortId, m: map<nat, nat>, base: Slots, pool: seq<Entry>, extra: seq<Entry>, k: nat, i: nat, g: Progress,
                     done: bool)
    requires ExtraDone(sid, m, base, pool, extra, k, i, g)
    requires if done then forall id :: id in m ==> g.have[m[id]] else i == |extra|
    ensures Settled(sid, m, base, pool, extra, g.avail)
  {
    var scanned := pool[..k] + extra[..i];
    forall id {:trigger id in m} | id in m ensures SlotKnown(sid, pool, extra, id, g.avail[m[id]]) {
      assert IdOk(sid, pool, extra, scanned, id, g.avail[m[id]], g.have[m[id]]);
      SeenEither(sid, pool, extra, scanned, id, done);
      IdKnown(sid, pool, extra, scanned, id, g.avail[m[id]], g.have[m[id]]);
    }
  }

  /** The whole of one scan from entry i on, with its early exit. */
  function Scan(sid: ShortId, m: map<nat, nat>, es: seq<Entry>, i: nat, g: Progress, n: nat, strict: bool): (h: Progress)
    requires Fits(g, m) && i <= |es|
    ensures Fits(h, m) && |h.avail| == |g.avail|
    decreases |es| - i
  {
    if i == |es| then g
    else
      var next := Consider(m, g, sid(es[i].hash), es[i].tx, strict);
      if next.count == n then next else Scan(sid, m, es, i + 1, next, n, strict)
  }

  lemma {:induction false} PoolScanOk(sid: ShortId, m: map<nat, nat>, base: Slots, pool: seq<Entry>, extra: seq<Entry>, i: nat,
                                      g: Progress, n: nat)
    returns (k: nat)
    requires Injective(m) && Counted(m, g) && |m.Values| <= n && i <= |pool|
    requires ScanOk(sid, m, base, pool, extra, pool[..i], g)
    ensures Counted(m, Scan(sid, m, pool, i, g, n, true))
    ensures PoolDone(sid, m, base, pool, extra, k, Scan(sid, m, pool, i, g, n, true))
    decreases |pool| - i
  {
    if i == |pool| {
      k := i;
      PoolSeen(sid, m, base, pool, extra, i, g, false);
    } else {
      var next := Consider(m, g, sid(pool[i].hash), pool[i].tx, true);
      ConsiderCounted(m, g, sid(pool[i].hash), pool[i].tx, true);
      PoolStep(sid, m, base, pool, extra, i, g);
      if next.count == n {
        k := i + 1;
        AllFilled(m, next);
        PoolSeen(sid, m, base, pool, extra, i + 1, next, true);
      } else {
        k := PoolScanOk(sid, m, base, pool, extra, i + 1, next, n);
      }
    }
  }

  lemma {:induction false} ExtraScanOk(sid: ShortId, m: map<nat, nat>, base: Slots, pool: seq<Entry>, extra: seq<Entry>, k: nat,
                                       i: nat, g: Progress, n: nat)
    requires Injective(m) && Counted(m, g) && |m.Values| <= n && ExtraDone(sid, m, base, pool, extra, k, i, g)
    ensures Settled(sid, m, base, pool, extra, Scan(sid, m, extra, i, g, n, false).avail)
    decreases |extra| - i
  {
    if i == |extra| {
      ExtraSettled(sid, m, base, pool, extra, k, i, g, false);
    } else {
      var next := Consider(m, g, sid(extra[i].hash), extra[i].tx, false);
      ConsiderCounted(m, g, sid(extra[i].hash), extra[i].tx, false);
      ExtraStep(sid, m, base, pool, extra, k, i, g);
      if next.count == n {
        AllFilled(m, next);
        ExtraSettled(sid, m, base, pool, extra, k, i + 1, next, true);
      } else {
        ExtraScanOk(sid, m, base, pool, extra, k, i + 1, next, n);
      }
    }
  }

  /** Different short ids have different slots, all free at first. */
  predicate Sound(m: map<nat, nat>, base: Slots)
  {
    Injective(m) && forall id {:trigger id in m} :: id in m ==> m[id] < |base| && base[m[id]].None?
  }

  /** The map the scans work with. */
  function MapOf(c: Announcement): (m: map<nat, nat>)
    requires Accepts(c) && |Free(Placed(c, |c.prefilledtxn|))| == |c.shorttxids|
  {
    SlotMap(c.shorttxids, Free(Placed(c, |c.prefilledtxn|)))
  }

  lemma StartOk(m: map<nat, nat>, base: Slots, sid: ShortId, pool: seq<Entry>, extra: seq<Entry>, have: seq<bool>)
    requires |have| == |base| && (forall i :: 0 <= i < |have| ==> !have[i]) && forall id :: id in m ==> m[id] < |base|
    ensures Counted(m, Progress(base, have, 0))
    ensures Sound(m, base) ==> ScanOk(sid, m, base, pool, extra, [], Progress(base, have, 0))
  {
    assert Filled(m, Progress(base, have, 0)) == {};
  }

  lemma MapFits(ids: seq<nat>, base: Slots)
    requires |ids| <= |Free(base)|
    ensures forall id :: id in SlotMap(ids, Free(base)) ==> SlotMap(ids, Free(base))[id] < |base|
  {
    var free := Free(base);
    MapKeys(ids, free);
    forall id | id in SlotMap(ids, free) ensures SlotMap(ids, free)[id] < |base| {
      var i :| 0 <= i < |ids| && SlotMap(ids, free)[id] == free[i] % LIMIT;
      ModAtMost(free[i], LIMIT);
    }
  }

  lemma ModAtMost(x: nat, m: nat)
    requires m > 0
    ensures x % m <= x
  {}

  lemma MapApart(ids: seq<nat>, base: Slots, x: nat, y: nat)
    requires |ids| == |Free(base)| && |base| <= LIMIT && Distinct(ids) && x != y
    requires x in SlotMap(ids, Free(base)) && y in SlotMap(ids, Free(base))
    ensures SlotMap(ids, Free(base))[x] != SlotMap(ids, Free(base))[y]
  {
    var i := MapIndex(ids, Free(base), x);
    var j := MapIndex(ids, Free(base), y);
    if i < j { FreeSorted(base, i, j); } else { FreeSorted(base, j, i); }
  }

  /** Within 65536 slots, distinct short ids are mapped one to one to slots that are free. */
  lemma MapSound(c: Announcement)
    requires Accepts(c) && |Free(Placed(c, |c.prefilledtxn|))| == |c.shorttxids|
    requires Distinct(c.shorttxids) && BlockTxCount(c) <= LIMIT
    ensures Sound(MapOf(c), Placed(c, |c.prefilledtxn|))
  {
    var base := Placed(c, |c.prefilledtxn|);
    var (ids, free, m) := (c.shorttxids, Free(base), MapOf(c));
    MapKeys(ids, free);
    forall x, y | x in m && y in m && x != y ensures m[x] != m[y] { MapApart(ids, base, x, y); }
    forall x | x in m ensures m[x] < |base| && base[m[x]].None? {
      var i := MapIndex(ids, free, x);
    }
  }

  lemma SettledKnown(c: Announcement, sid: ShortId, pool: seq<Entry>, extra: seq<Entry>, avail: Slots)
    requires Accepts(c) && |Free(Placed(c, |c.prefilledtxn|))| == |c.shorttxids|
    requires Distinct(c.shorttxids) && BlockTxCount(c) <= LIMIT
    requires Settled(sid, MapOf(c), Placed(c, |c.prefilledtxn|), pool, extra, avail)
    ensures Known(c, sid, pool, extra, avail)
  {
    var placed := Placed(c, |c.prefilledtxn|);
    MapSound(c);
    forall j | 0 <= j < |placed| && placed[j].Some? ensures avail[j] == placed[j] {
      assert j !in MapOf(c).Values;
    }
    forall i | 0 <= i < |c.shorttxids| ensures SlotKnown(sid, pool, extra, c.shorttxids[i], avail[Free(placed)[i]]) {
      MapAt(c.shorttxids, Free(placed), i);
    }
  }

  /** What InitData starts the scans with. */
  function Start(base: Slots): (g: Progress)
  {
    Progress(base, seq(|base|, _ => false), 0)
  }

  /** Both scans, one after the other. */
  function BothScans(sid: ShortId, m: map<nat, nat>, base: Slots, pool: seq<Entry>, extra: seq<Entry>, n: nat): (g: Progress)
    requires forall id :: id in m ==> m[id] < |base|
    ensures |g.avail| == |base|
  {
    Scan(sid, m, extra, 0, Scan(sid, m, pool, 0, Start(base), n, true), n, false)
  }

  /** txn_available after InitData. */
  function Matched(c: Announcement, sid: ShortId, pool: seq<Entry>, extra: seq<Entry>): (avail: Slots)
    requires Accepts(c)
  {
    PlacedFree(c, |c.prefilledtxn|);
    MapFits(c.shorttxids, Placed(c, |c.prefilledtxn|));
    BothScans(sid, MapOf(c), Placed(c, |c.prefilledtxn|), pool, extra, |c.shorttxids|).avail
  }

  lemma ScansSettle(sid: ShortId, m: map<nat, nat>, base: Slots, pool: seq<Entry>, extra: seq<Entry>, n: nat)
    requires Sound(m, base) && |m.Values| <= n
    ensures Settled(sid, m, base, pool, extra, BothScans(sid, m, base, pool, extra, n).avail)
  {
    StartOk(m, base, sid, pool, extra, Start(base).have);
    assert pool[..0] == [];
    var k := PoolScanOk(sid, m, base, pool, extra, 0, Start(base), n);
    assert pool[..k] + extra[..0] == pool[..k];
    ExtraScanOk(sid, m, base, pool, extra, k, 0, Scan(sid, m, pool, 0, Start(base), n, true), n);
  }

  /** Up to 65536 transactions, matching does what it should, whatever is known. */
  lemma MatchedKnown(c: Announcement, sid: ShortId, pool: seq<Entry>, extra: seq<Entry>)
    requires Accepts(c) && Distinct(c.shorttxids) && BlockTxCount(c) <= LIMIT
    ensures Known(c, sid, pool, extra, Matched(c, sid, pool, extra))
  {
    var base := Placed(c, |c.prefilledtxn|);
    PlacedFree(c, |c.prefilledtxn|);
    MapSound(c);
    ValuesAtMost(c.shorttxids, Free(base));
    ScansSettle(sid, MapOf(c), base, pool, extra, |c.shorttxids|);
    SettledKnown(c, sid, pool, extra, Matched(c, sid, pool, extra));
  }

  /** Beyond that the last slot belongs to a short id whose position does not fit 16 bits: a pool that holds
      just its transaction leaves it unfilled. */
  lemma MatchedUnknown(c: Announcement, tx: Tx) returns (pool: seq<Entry>)
    requires Accepts(c) && Distinct(c.shorttxids) && BlockTxCount(c) > LIMIT
    ensures !Known(c, h => h, pool, [], Matched(c, h => h, pool, []))
  {
    var (base, ids, sid) := (Placed(c, |c.prefilledtxn|), c.shorttxids, (h: nat) => h);
    PlacedFree(c, |c.prefilledtxn|);
    LastSlotFree(c);
    var i := FreeComplete(base, |base| - 1);
    pool := [Entry(ids[i], tx)];
    MapFits(ids, base);
    MapAt(ids, Free(base), i);
    var m := MapOf(c);
    var g := Scan(sid, m, pool, 0, Start(base), |ids|, true);
    var next := Consider(m, Start(base), sid(pool[0].hash), pool[0].tx, true);
    assert Scan(sid, m, pool, 1, next, |ids|, true) == next;
    assert g == next && next.avail[|base| - 1].None?;
    assert Scan(sid, m, [], 0, g, |ids|, false) == g;
    assert pool[0] in pool + [] && Seen(sid, pool + [], ids[i]) && Clear(sid, pool, [], ids[i]);
  }

  /** Prefilled places stay below 65536. */
  lemma LastSlotFree(c: Announcement)
    requires Accepts(c) && BlockTxCount(c) > LIMIT
    ensures Placed(c, |c.prefilledtxn|)[BlockTxCount(c) - 1].None?
  {
    PlacedAt(c, |c.prefilledtxn|, BlockTxCount(c) - 1);
    PlacesBelow(c, |c.prefilledtxn|, BlockTxCount(c) - 1);
  }

  lemma {:induction false} PlacesBelow(c: Announcement, k: nat, j: nat)
    requires k <= |c.prefilledtxn| && PlacesOk(c, k) && j >= LIMIT
    ensures !IsPlace(c.prefilledtxn, k, j)
  {
    if k > 0 {
      assert PlaceOk(c, k - 1);
      PlacesBelow(c, k - 1, j);
    }
  }

  predicate AlwaysKnown(c: Announcement, sid: ShortId, pool: seq<Entry>, extra: seq<Entry>)
    requires Accepts(c)
  {
    Known(c, sid, pool, extra, Matched(c, sid, pool, extra))
  }

  /** An accepted announcement of more than 65536 transactions, for which a pool of this kind therefore exists. */
  lemma LargeAnnouncement(header: nat, tx: Tx) returns (c: Announcement, pool: seq<Entry>)
    ensures c == Announcement(Some(header), seq(LIMIT + 1, i => i), [])
    ensures Accepts(c) && !AlwaysKnown(c, h => h, pool, [])
  {
    c := Announcement(Some(header), seq(LIMIT + 1, i => i), []);
    pool := MatchedUnknown(c, tx);
  }

  /** Matching is right for every mempool and every list of extra transactions if and only if the block has at
      most 65536 transactions. */
  lemma KnownExact(c: Announcement)
    requires Accepts(c) && Distinct(c.shorttxids)
    ensures (forall sid, pool, extra :: AlwaysKnown(c, sid, pool, extra)) <==> BlockTxCount(c) <= LIMIT
  {
    if BlockTxCount(c) <= LIMIT {
      forall sid, pool, extra ensures AlwaysKnown(c, sid, pool, extra) { MatchedKnown(c, sid, pool, extra); }
    } else {
      var pool := MatchedUnknown(c, Tx(0, 0, 0, false));
      assert !AlwaysKnown(c, h => h, pool, []);
    }
  }
}
