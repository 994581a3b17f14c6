/**
  Matching known transactions against short ids in src/blockencodings.cpp: the id map, and the two scans over
  the mempool and the extra transactions.
 */
module CompactScan {
  import opened Prelude
  import opened IndexCoding
  import opened CompactSlots

  /** GetShortID of one announcement. */
  type ShortId = nat -> nat

  /** A transaction together with the hash it is listed under. */
  datatype Entry = Entry(hash: nat, tx: Tx)

  // ---------------------------------------------------------------- the id map

  /** Positions are stored in 16 bits. */
  function SlotMap(ids: seq<nat>, slots: seq<nat>): (m: map<nat, nat>)
    requires |ids| <= |slots|
  {
    if ids == [] then map[]
    else
      var n := |ids| - 1;
      SlotMap(ids[..n], slots)[ids[n] := slots[n] % LIMIT]
  }

  predicate Distinct(ids: seq<nat>)
  {
    forall i, j :: 0 <= i < j < |ids| ==> ids[i] != ids[j]
  }

  lemma {:induction false} MapKeys(ids: seq<nat>, slots: seq<nat>)
    requires |ids| <= |slots|
    ensures forall x :: x in SlotMap(ids, slots) <==> x in ids
    ensures forall x :: x in SlotMap(ids, slots) ==> exists i :: 0 <= i < |ids| && SlotMap(ids, slots)[x] == slots[i] % LIMIT
  {
    if ids != [] {
      var n := |ids| - 1;
      MapKeys(ids[..n], slots);
      assert ids == ids[..n] + [ids[n]];
    }
  }

  lemma DistinctStep(ids: seq<nat>, n: nat)
    requires |ids| == n + 1
    ensures Distinct(ids) <==> Distinct(ids[..n]) && ids[n] !in ids[..n]
  {
    if Distinct(ids[..n]) && ids[n] !in ids[..n] {
      forall i, j | 0 <= i < j < |ids| ensures ids[i] != ids[j] {
        assert ids[i] == ids[..n][i];
        if j < n { assert ids[j] == ids[..n][j]; }
      }
    }
  }

  lemma SizeStep(m: map<nat, nat>, x: nat, y: nat)
    ensures |m[x := y]| == |m| + if x in m then 0 else 1
  {
    if x in m {
      assert m[x := y].Keys == m.Keys;
    } else {
      assert m[x := y].Keys == m.Keys + {x};
    }
  }

  /** The map is as large as the list exactly if no two short ids collide. */
  lemma {:induction false} MapSize(ids: seq<nat>, slots: seq<nat>)
    requires |ids| <= |slots|
    ensures |SlotMap(ids, slots)| <= |ids|
    ensures |SlotMap(ids, slots)| == |ids| <==> Distinct(ids)
  {
    if ids != [] {
      var n := |ids| - 1;
      MapSize(ids[..n], slots);
      MapKeys(ids[..n], slots);
      DistinctStep(ids, n);
      SizeStep(SlotMap(ids[..n], slots), ids[n], slots[n] % LIMIT);
    }
  }

  /** A short id is mapped to its own slot exactly if that is one of the first 65536; a later one is cut to
      16 bits and points to an earlier slot. */
  lemma {:induction false} MapAt(ids: seq<nat>, slots: seq<nat>, i: nat)
    requires |ids| <= |slots| && Distinct(ids) && i < |ids|
    ensures ids[i] in SlotMap(ids, slots)
    ensures SlotMap(ids, slots)[ids[i]] == slots[i] <==> slots[i] < LIMIT
    decreases |ids|
  {
    var n := |ids| - 1;
    if i < n { MapAt(ids[..n], slots, i); }
  }

  lemma MapStep(ids: seq<nat>, slots: seq<nat>, i: nat)
    requires i < |ids| <= |slots|
    ensures SlotMap(ids[..i + 1], slots) == SlotMap(ids[..i], slots)[ids[i] := slots[i] % LIMIT]
  {
    assert ids[..i + 1][..i] == ids[..i];
  }

  lemma MapIndex(ids: seq<nat>, slots: seq<nat>, x: nat) returns (i: nat)
    requires |ids| <= |slots| && Distinct(ids) && x in SlotMap(ids, slots)
    requires forall k :: 0 <= k < |slots| ==> slots[k] < LIMIT
    ensures i < |ids| && ids[i] == x && SlotMap(ids, slots)[x] == slots[i]
  {
    MapKeys(ids, slots);
    i :| 0 <= i < |ids| && ids[i] == x;
    MapAt(ids, slots, i);
  }

  // ---------------------------------------------------------------- the scans

  /** txn_available, have_txn and mempool_count. */
  datatype Progress = Progress(avail: Slots, have: seq<bool>, count: int)

  predicate Fits(g: Progress, m: map<nat, nat>)
  {
    |g.avail| == |g.have| && forall id :: id in m ==> m[id] < |g.avail|
  }

  /** One round of a scan; `strict` is the mempool's, which drops every second match. */
  function Consider(m: map<nat, nat>, g: Progress, id: nat, tx: Tx, strict: bool): (h: Progress)
    requires Fits(g, m)
    ensures Fits(h, m) && |h.avail| == |g.avail|
  {
    if id !in m then g
    else
      var s := m[id];
      if !g.have[s] then Progress(g.avail[s := Some(tx)], g.have[s := true], g.count + 1)
      else if g.avail[s].Some? && (strict || g.avail[s].value.witnessHash != tx.witnessHash) then
        Progress(g.avail[s := None], g.have, g.count - 1)
      else g
  }

  /** The first entry under an id fills its slot. A later one empties it: from the mempool in any case, from the
      extra transactions if it is a different one. Once emptied the slot stays empty. */
  lemma ConsiderExactly(m: map<nat, nat>, g: Progress, id: nat, tx: Tx, strict: bool)
    requires Fits(g, m)
    ensures var h := Consider(m, g, id, tx, strict);
      && (id !in m ==> h == g)
      && (id in m ==>
            && h.have == g.have[m[id] := true]
            && h.avail == g.avail[m[id] := h.avail[m[id]]]
            && (!g.have[m[id]] ==> h.avail[m[id]] == Some(tx) && h.count == g.count + 1)
            && (g.have[m[id]] && g.avail[m[id]] == None ==> h == g)
            && (g.have[m[id]] && g.avail[m[id]] != None ==>
                  if strict || g.avail[m[id]].value.witnessHash != tx.witnessHash
                  then h.avail[m[id]] == None && h.count == g.count - 1
                  else h == g))
  {
    if id in m && g.have[m[id]] { assert g.have[m[id] := true] == g.have && g.avail[m[id] := g.avail[m[id]]] == g.avail; }
  }

  /** The slots a scan has filled. */
  function Filled(m: map<nat, nat>, g: Progress): (r: set<nat>)
    requires Fits(g, m)
  {
    set s | s in m.Values && g.have[s] && g.avail[s].Some?
  }

  predicate Counted(m: map<nat, nat>, g: Progress)
  {
    Fits(g, m) && g.count == |Filled(m, g)|
  }

  lemma ConsiderCounted(m: map<nat, nat>, g: Progress, id: nat, tx: Tx, strict: bool)
    requires Counted(m, g)
    ensures Counted(m, Consider(m, g, id, tx, strict))
  {
    if id in m {
      assert m[id] in m.Values;
      if !g.have[m[id]] {
        SlotFilled(m, g, m[id], tx);
      } else if g.avail[m[id]].Some? && (strict || g.avail[m[id]].value.witnessHash != tx.witnessHash) {
        SlotCleared(m, g, m[id]);
      }
    }
  }

  lemma SlotFilled(m: map<nat, nat>, g: Progress, s: nat, tx: Tx)
    requires Counted(m, g) && s in m.Values && s < |g.avail| && !g.have[s]
    ensures Counted(m, Progress(g.avail[s := Some(tx)], g.have[s := true], g.count + 1))
  {
    var h := Progress(g.avail[s := Some(tx)], g.have[s := true], g.count + 1);
    assert Filled(m, h) == Filled(m, g) + {s};
  }

  lemma SlotCleared(m: map<nat, nat>, g: Progress, s: nat)
    requires Counted(m, g) && s in m.Values && s < |g.avail| && g.have[s] && g.avail[s].Some?
    ensures Counted(m, Progress(g.avail[s := None], g.have, g.count - 1))
  {
    var h := Progress(g.avail[s := None], g.have, g.count - 1);
    assert Filled(m, h) == Filled(m, g) - {s};
  }

  predicate Seen(sid: ShortId, es: seq<Entry>, id: nat)
  {
    exists e :: e in es && sid(e.hash) == id
  }

  /** tx is listed under the short id. */
  predicate Listed(sid: ShortId, es: seq<Entry>, id: nat, tx: Tx)
  {
    exists e :: e in es && sid(e.hash) == id && e.tx == tx
  }

  /** The mempool matches the id at most once, and all matches are the same transaction. */
  predicate Clear(sid: ShortId, pool: seq<Entry>, extra: seq<Entry>, id: nat)
  {
    && (forall a, b :: 0 <= a < b < |pool| && sid(pool[a].hash) == id ==> sid(pool[b].hash) != id)
    && (forall e, f :: e in pool + extra && f in pool + extra && sid(e.hash) == id && sid(f.hash) == id ==>
          e.tx.witnessHash == f.tx.witnessHash)
  }

  predicate Injective(m: map<nat, nat>)
  {
    forall x, y :: x in m && y in m && x != y ==> m[x] != m[y]
  }

  /** What is known of one short id once the entries have been scanned. */
  predicate IdOk(sid: ShortId, pool: seq<Entry>, extra: seq<Entry>, scanned: seq<Entry>, id: nat, slot: Option<Tx>, have: bool)
  {
    && (have <==> Seen(sid, scanned, id))
    && (slot.Some? ==> Listed(sid, scanned, id, slot.value) && Agreed(sid, scanned, id, slot.value))
    && (Clear(sid, pool, extra, id) && have ==> slot.Some?)
  }

  /** All entries under the short id are this transaction. */
  predicate Agreed(sid: ShortId, es: seq<Entry>, id: nat, tx: Tx)
  {
    forall e :: e in es && sid(e.hash) == id ==> e.tx.witnessHash == tx.witnessHash
  }

  /** The state of the scans: slots outside the map are untouched. */
  predicate ScanOk(sid: ShortId, m: map<nat, nat>, base: Slots, pool: seq<Entry>, extra: seq<Entry>, scanned: seq<Entry>, g: Progress)
  {
    && Fits(g, m) && |g.avail| == |base|
    && (forall j :: 0 <= j < |base| && j !in m.Values ==> g.avail[j] == base[j])
    && (forall id {:trigger id in m} :: id in m ==> IdOk(sid, pool, extra, scanned, id, g.avail[m[id]], g.have[m[id]]))
  }

  /** One more entry keeps what is known. */
  lemma ConsiderOk(sid: ShortId, m: map<nat, nat>, base: Slots, pool: seq<Entry>, extra: seq<Entry>, scanned: seq<Entry>,
                   g: Progress, e: Entry, strict: bool)
    requires ScanOk(sid, m, base, pool, extra, scanned, g) && Injective(m)
    requires if strict then |scanned| < |pool| && scanned == pool[..|scanned|] && e == pool[|scanned|]
             else e in extra && forall f :: f in scanned ==> f in pool + extra
    ensures ScanOk(sid, m, base, pool, extra, scanned + [e], Consider(m, g, sid(e.hash), e.tx, strict))
  {}

  /** The scans may stop early once every slot is filled. */
  lemma AllFilled(m: map<nat, nat>, g: Progress)
    requires Counted(m, g) && |m.Values| <= g.count
    ensures forall id :: id in m ==> g.have[m[id]] && g.avail[m[id]].Some?
  {
    SubsetEqual(Filled(m, g), m.Values);
    forall id | id in m ensures g.have[m[id]] && g.avail[m[id]].Some? {
      assert m[id] in m.Values;
    }
  }

  lemma {:induction false} ValuesAtMost(ids: seq<nat>, slots: seq<nat>)
    requires |ids| <= |slots|
    ensures |SlotMap(ids, slots).Values| <= |ids|
  {
    if ids != [] {
      var n := |ids| - 1;
      ValuesAtMost(ids[..n], slots);
      ValuesStep(SlotMap(ids[..n], slots), ids[n], slots[n] % LIMIT);
    } else {
      assert SlotMap(ids, slots).Values == {};
    }
  }

  lemma ValuesStep(m: map<nat, nat>, x: nat, y: nat)
    ensures |m[x := y].Values| <= |m.Values| + 1
  {
    assert m[x := y].Values <= m.Values + {y};
    SubsetAtMost(m[x := y].Values, m.Values + {y});
  }

  lemma {:induction false} SubsetAtMost(a: set<nat>, b: set<nat>)
    requires a <= b
    ensures |a| <= |b|
    decreases |a|
  {
    if a != {} {
      var x :| x in a;
      SubsetAtMost(a - {x}, b - {x});
    }
  }

  lemma {:induction false} SubsetEqual(a: set<nat>, b: set<nat>)
    requires a <= b && |a| >= |b|
    ensures a == b
    decreases |a|
  {
    if a == {} {
      assert |b| == 0;
    } else {
      var x :| x in a;
      SubsetEqual(a - {x}, b - {x});
      assert a == (a - {x}) + {x} && b == (b - {x}) + {x};
    }
  }

  // ---------------------------------------------------------------- the result

  /** What InitData promises of a slot with a short id: any transaction in it is listed under that id, and an
      unambiguous id has one exactly if one is listed. */
  predicate SlotKnown(sid: ShortId, pool: seq<Entry>, extra: seq<Entry>, id: nat, slot: Option<Tx>)
  {
    && (slot.Some? ==> Listed(sid, pool + extra, id, slot.value))
    && (Clear(sid, pool, extra, id) ==> (slot.Some? <==> Seen(sid, pool + extra, id)))
  }

  lemma IdKnown(sid: ShortId, pool: seq<Entry>, extra: seq<Entry>, scanned: seq<Entry>, id: nat, slot: Option<Tx>, have: bool)
    requires IdOk(sid, pool, extra, scanned, id, slot, have)
    requires forall f :: f in scanned ==> f in pool + extra
    requires Seen(sid, pool + extra, id) ==> have
    ensures SlotKnown(sid, pool, extra, id, slot)
  {
    if slot.Some? {
      var f :| f in scanned && sid(f.hash) == id && f.tx == slot.value;
      assert f in pool + extra;
    }
  }
}
