/**
  The layered UTXO view of src/coins.cpp on values.

  A `Stack` is a bottom coin database with any number of write-back caches on top of it. The functions
  follow the branches of the C++ methods; `View` says which coins a layer shows, and the lemmas relate
  every operation to the same operation on plain outpoint maps.
 */
module CoinsSpec {
  import opened Prelude

  datatype OutPoint = OutPoint(hash: Hash, n: nat)

  /** `heap` is the heap memory the script's vector holds, what memusage::DynamicUsage reports for it. */
  datatype Script = Script(bytes: seq<bv8>, heap: nat) {
    predicate IsUnspendable() {
      (|bytes| > 0 && bytes[0] == OP_RETURN) || |bytes| > MAX_SCRIPT_SIZE
    }
  }

  const OP_RETURN: bv8 := 0x6a
  const MAX_SCRIPT_SIZE := 10000

  datatype TxOut = TxOut(nValue: int, scriptPubKey: Script) {
    predicate IsNull() { nValue == -1 }
  }

  datatype Coin = Coin(out: TxOut, nHeight: nat, fCoinBase: bool) {
    predicate IsSpent() { out.IsNull() }

    function DynamicMemoryUsage(): (r: nat) { out.scriptPubKey.heap }
  }

  /** What Coin::Clear leaves behind, and the default-constructed coin. */
  const COIN_EMPTY := Coin(TxOut(-1, Script([], 0)), 0, false)

  datatype CacheEntry = CacheEntry(coin: Coin, isDirty: bool, isFresh: bool)

  type CoinsMap = map<OutPoint, CacheEntry>
  type PlainView = map<OutPoint, Coin>

  datatype Stack =
    | Base(db: PlainView, hashBlock: Hash)
    | Cache(cacheCoins: CoinsMap, cachedCoinsUsage: int, hashBlock: Hash, base: Stack)

  // ---------------------------------------------------------------- the operations

  /** CCoinsViewCache::FetchCoin: a miss reads through, filling every layer below on the way. */
  function FetchCoin(s: Stack, o: OutPoint): (r: Stack)
    requires s.Cache?
    ensures r.Cache?
    decreases s, 0
  {
    if o in s.cacheCoins then
      s
    else
      var (below, tmp) := GetCoin(s.base, o);
      match tmp
      case None => s.(base := below)
      case Some(coin) =>
        s.(base := below,
           cacheCoins := s.cacheCoins[o := CacheEntry(coin, false, coin.IsSpent())],
           cachedCoinsUsage := s.cachedCoinsUsage + coin.DynamicMemoryUsage())
  }

  function GetCoin(s: Stack, o: OutPoint): (r: (Stack, Option<Coin>))
    decreases s, 1
  {
    match s
    case Base(db, _) => (s, if o in db then Some(db[o]) else None)
    case Cache(_, _, _, _) =>
      var f := FetchCoin(s, o);
      (f, if o in f.cacheCoins && !f.cacheCoins[o].coin.IsSpent() then Some(f.cacheCoins[o].coin) else None)
  }

  /** CCoinsViewCache::AddCoin; the second component is true when it throws its logic_error. */
  function AddCoin(s: Stack, o: OutPoint, coin: Coin, overwrite: bool): (r: (Stack, bool))
    requires s.Cache?
    ensures r.0.Cache? && r.0.base == s.base
  {
    if coin.out.scriptPubKey.IsUnspendable() then
      (s, false)
    else
      var inserted := o !in s.cacheCoins;
      var entry := if inserted then CacheEntry(COIN_EMPTY, false, false) else s.cacheCoins[o];
      var usage := if inserted then s.cachedCoinsUsage else s.cachedCoinsUsage - entry.coin.DynamicMemoryUsage();
      if !overwrite && !entry.coin.IsSpent() then
        (s.(cachedCoinsUsage := usage), true)
      else
        var isFresh := !overwrite && !entry.isDirty;
        (s.(cacheCoins := s.cacheCoins[o := CacheEntry(coin, true, entry.isFresh || isFresh)],
            cachedCoinsUsage := usage + coin.DynamicMemoryUsage()),
         false)
  }

  /** CCoinsViewCache::SpendCoin; `Some` carries what is moved out when it returns true. */
  function SpendCoin(s: Stack, o: OutPoint): (r: (Stack, Option<Coin>))
    requires s.Cache?
    ensures r.0.Cache?
  {
    var f := FetchCoin(s, o);
    if o !in f.cacheCoins then
      (f, None)
    else
      var entry := f.cacheCoins[o];
      var usage := f.cachedCoinsUsage - entry.coin.DynamicMemoryUsage();
      if entry.isFresh then
        (f.(cacheCoins := f.cacheCoins - {o}, cachedCoinsUsage := usage), Some(entry.coin))
      else
        (f.(cacheCoins := f.cacheCoins[o := CacheEntry(COIN_EMPTY, true, false)], cachedCoinsUsage := usage),
         Some(entry.coin))
  }

  /** CCoinsViewCache::Uncache drops an entry that carries no flags. */
  function Uncache(s: Stack, o: OutPoint): (r: Stack)
    requires s.Cache?
  {
    if o in s.cacheCoins && !s.cacheCoins[o].isDirty && !s.cacheCoins[o].isFresh then
      s.(cachedCoinsUsage := s.cachedCoinsUsage - s.cacheCoins[o].coin.DynamicMemoryUsage(),
         cacheCoins := s.cacheCoins - {o})
    else
      s
  }

  /** The entry of one outpoint after a parent cache has received the child's entry. */
  function MergeEntry(ours: Option<CacheEntry>, child: Option<CacheEntry>): (r: Option<CacheEntry>)
  {
    if child.None? || !child.value.isDirty then
      ours
    else if ours.None? then
      if child.value.isFresh && child.value.coin.IsSpent() then None
      else Some(CacheEntry(child.value.coin, true, child.value.isFresh))
    else if ours.value.isFresh && child.value.coin.IsSpent() then
      None
    else
      Some(CacheEntry(child.value.coin, true, ours.value.isFresh))
  }

  function EntryAt(m: CoinsMap, o: OutPoint): (r: Option<CacheEntry>)
  {
    if o in m then Some(m[o]) else None
  }

  function MergeMap(ours: CoinsMap, child: CoinsMap): (r: CoinsMap)
    ensures forall o :: EntryAt(r, o) == MergeEntry(EntryAt(ours, o), EntryAt(child, o))
  {
    map o | o in ours.Keys + child.Keys && MergeEntry(EntryAt(ours, o), EntryAt(child, o)).Some?
      :: MergeEntry(EntryAt(ours, o), EntryAt(child, o)).value
  }

  /** True for an entry on which the parent's BatchWrite throws: FRESH although the parent shows a coin. */
  predicate Misapplied(ours: CoinsMap, child: CoinsMap, o: OutPoint)
  {
    o in child && o in ours && child[o].isDirty && child[o].isFresh && !ours[o].coin.IsSpent()
  }

  /** CCoinsViewDB::BatchWrite: isDirty entries overwrite the database, spent ones are erased. */
  function MergeDb(db: PlainView, child: CoinsMap): (r: PlainView)
  {
    map o | o in db.Keys + child.Keys
            && (if o in child && child[o].isDirty then !child[o].coin.IsSpent() else o in db)
      :: if o in child && child[o].isDirty then child[o].coin else db[o]
  }

  ghost function BatchWrite(s: Stack, child: CoinsMap, hashBlock: Hash): (r: Stack)
  {
    match s
    case Base(db, _) => Base(MergeDb(db, child), hashBlock)
    case Cache(cache, usage, _, base) =>
      var merged := MergeMap(cache, child);
      Cache(merged, usage - SumUsage(cache) + SumUsage(merged), hashBlock, base)
  }

  predicate BatchWriteThrows(s: Stack, child: CoinsMap)
  {
    s.Cache? && exists o :: o in child && Misapplied(s.cacheCoins, child, o)
  }

  ghost function Flush(s: Stack): (r: Stack)
    requires s.Cache?
  {
    Cache(map[], 0, s.hashBlock, BatchWrite(s.base, s.cacheCoins, s.hashBlock))
  }

  // ---------------------------------------------------------------- memory accounting

  /** The exact sum of the cached coins' memory. */
  ghost function SumUsage(m: CoinsMap): (r: nat)
    decreases |m|
  {
    if m == map[] then 0
    else
      var o :| o in m;
      m[o].coin.DynamicMemoryUsage() + SumUsage(m - {o})
  }

  lemma {:induction false} SumRemove(m: CoinsMap, o: OutPoint)
    requires o in m
    ensures SumUsage(m) == m[o].coin.DynamicMemoryUsage() + SumUsage(m - {o})
    decreases |m|
  {
    var k :| k in m && SumUsage(m) == m[k].coin.DynamicMemoryUsage() + SumUsage(m - {k});
    if k != o {
      SumRemove(m - {k}, o);
      SumRemove(m - {o}, k);
      assert m - {k} - {o} == m - {o} - {k};
    }
  }

  lemma SumUpdate(m: CoinsMap, o: OutPoint, e: CacheEntry)
    ensures SumUsage(m[o := e])
         == SumUsage(m) + e.coin.DynamicMemoryUsage() - (if o in m then m[o].coin.DynamicMemoryUsage() else 0)
  {
    SumRemove(m[o := e], o);
    assert m[o := e] - {o} == m - {o};
    if o in m {
      SumRemove(m, o);
    } else {
      assert m - {o} == m;
    }
  }

  // ---------------------------------------------------------------- what a layer shows

  function View(s: Stack): (v: PlainView)
  {
    match s
    case Base(db, _) => db
    case Cache(cache, _, _, base) =>
      var below := View(base);
      map o | o in cache.Keys + below.Keys && (o in cache ==> !cache[o].coin.IsSpent())
        :: if o in cache then cache[o].coin else below[o]
  }

  /** The views of all layers, top first. */
  function Views(s: Stack): (vs: seq<PlainView>)
    ensures |vs| > 0 && vs[0] == View(s)
  {
    [View(s)] + if s.Cache? then Views(s.base) else []
  }

  function Lookup(v: PlainView, o: OutPoint): (r: Option<Coin>)
  {
    if o in v then Some(v[o]) else None
  }

  /** The meaning of the flags: an entry that is not DIRTY repeats the parent's coin, and FRESH promises
      that the parent shows no coin. */
  predicate EntryOk(e: CacheEntry, o: OutPoint, below: PlainView)
  {
    && (!e.isDirty ==> !e.isFresh && o in below && below[o] == e.coin)
    && (e.isFresh ==> o !in below && !e.coin.IsSpent())
  }

  ghost predicate Valid(s: Stack)
  {
    match s
    case Base(db, _) => forall o :: o in db ==> !db[o].IsSpent()
    case Cache(cache, usage, _, base) =>
      && Valid(base)
      && (forall o :: o in cache ==> EntryOk(cache[o], o, View(base)))
      && usage == SumUsage(cache)
  }

  lemma {:induction false} ViewUnspent(s: Stack, o: OutPoint)
    requires Valid(s) && o in View(s)
    ensures !View(s)[o].IsSpent()
  {
    if s.Cache? && o !in s.cacheCoins {
      ViewUnspent(s.base, o);
    }
  }

  /** What one layer shows at one outpoint. */
  lemma ViewAt(s: Stack, o: OutPoint)
    requires s.Cache?
    ensures Lookup(View(s), o)
         == if o in s.cacheCoins then
              if s.cacheCoins[o].coin.IsSpent() then None else Some(s.cacheCoins[o].coin)
            else Lookup(View(s.base), o)
  {
  }

  /** A layer cannot tell its base from another one that shows the same coins. */
  lemma RebaseKeeps(s: Stack, below: Stack)
    requires s.Cache? && Valid(s) && Valid(below) && View(below) == View(s.base)
    ensures Valid(s.(base := below)) && View(s.(base := below)) == View(s)
  {
  }

  // ---------------------------------------------------------------- one operation on the top layer

  /** Reads return the visible coin; they fill caches at every layer but no layer's view changes. */
  lemma {:induction false} GetCoinRefines(s: Stack, o: OutPoint)
    requires Valid(s)
    ensures GetCoin(s, o).1 == Lookup(View(s), o)
    ensures Valid(GetCoin(s, o).0) && Views(GetCoin(s, o).0) == Views(s)
    decreases s, 1
  {
    if s.Cache? {
      FetchCoinRefines(s, o);
    }
  }

  lemma {:induction false} FetchCoinRefines(s: Stack, o: OutPoint)
    requires s.Cache? && Valid(s)
    ensures Valid(FetchCoin(s, o)) && Views(FetchCoin(s, o)) == Views(s)
    ensures View(FetchCoin(s, o).base) == View(s.base)
    ensures o in View(s) ==> o in FetchCoin(s, o).cacheCoins && FetchCoin(s, o).cacheCoins[o].coin == View(s)[o]
    ensures o !in View(s) && o in FetchCoin(s, o).cacheCoins ==> FetchCoin(s, o).cacheCoins[o].coin.IsSpent()
    decreases s, 0
  {
    if o !in s.cacheCoins {
      GetCoinRefines(s.base, o);
      var (below, tmp) := GetCoin(s.base, o);
      RebaseKeeps(s, below);
      if tmp.Some? {
        ViewUnspent(s.base, o);
        FillKeeps(s.(base := below), o, tmp.value);
      }
    }
  }

  /** Caching a clean copy of the parent's coin is invisible. */
  lemma FillKeeps(s: Stack, o: OutPoint, coin: Coin)
    requires s.Cache? && Valid(s) && o !in s.cacheCoins && o in View(s.base) && coin == View(s.base)[o]
    ensures var t := s.(cacheCoins := s.cacheCoins[o := CacheEntry(coin, false, false)],
                        cachedCoinsUsage := s.cachedCoinsUsage + coin.DynamicMemoryUsage());
      Valid(t) && View(t) == View(s)
  {
    ViewUnspent(s.base, o);
    SumUpdate(s.cacheCoins, o, CacheEntry(coin, false, false));
    var t := s.(cacheCoins := s.cacheCoins[o := CacheEntry(coin, false, false)],
                cachedCoinsUsage := s.cachedCoinsUsage + coin.DynamicMemoryUsage());
    forall p ensures Lookup(View(t), p) == Lookup(View(s), p) {
      ViewAt(t, p);
      ViewAt(s, p);
    }
    SameLookups(View(t), View(s));
  }

  /** An honest AddCoin never throws and is the map update; unspendable outputs are ignored. */
  lemma AddCoinRefines(s: Stack, o: OutPoint, coin: Coin, overwrite: bool)
    requires s.Cache? && Valid(s) && !coin.IsSpent()
    requires overwrite || o !in View(s)
    ensures !AddCoin(s, o, coin, overwrite).1
    ensures Valid(AddCoin(s, o, coin, overwrite).0)
    ensures View(AddCoin(s, o, coin, overwrite).0)
         == if coin.out.scriptPubKey.IsUnspendable() then View(s) else View(s)[o := coin]
  {
    if !coin.out.scriptPubKey.IsUnspendable() {
      AddedEntryOk(s, o, coin, overwrite);
      var r := AddCoin(s, o, coin, overwrite).0;
      SumUpdate(s.cacheCoins, o, r.cacheCoins[o]);
      forall p ensures Lookup(View(r), p) == Lookup(View(s)[o := coin], p) {
        ViewAt(r, p);
        ViewAt(s, p);
      }
      SameLookups(View(r), View(s)[o := coin]);
    }
  }

  lemma AddedEntryOk(s: Stack, o: OutPoint, coin: Coin, overwrite: bool)
    requires s.Cache? && Valid(s) && !coin.IsSpent() && !coin.out.scriptPubKey.IsUnspendable()
    requires overwrite || o !in View(s)
    ensures var (r, threw) := AddCoin(s, o, coin, overwrite);
            && !threw && o in r.cacheCoins
            && r.cacheCoins == s.cacheCoins[o := r.cacheCoins[o]] && r.cacheCoins[o].coin == coin
            && EntryOk(r.cacheCoins[o], o, View(s.base))
  {
    ViewAt(s, o);
    assert Lookup(View(s.base), o).Some? <==> o in View(s.base);
    if o in s.cacheCoins { assert EntryOk(s.cacheCoins[o], o, View(s.base)); }
    if o in View(s.base) { ViewUnspent(s.base, o); }
  }

  /** Exactly the honest calls keep the invariant: any other call throws or sets FRESH wrongly. */
  lemma AddCoinValidIffHonest(s: Stack, o: OutPoint, coin: Coin, overwrite: bool)
    requires s.Cache? && Valid(s) && !coin.IsSpent() && !coin.out.scriptPubKey.IsUnspendable()
    ensures (!AddCoin(s, o, coin, overwrite).1 && Valid(AddCoin(s, o, coin, overwrite).0))
       <==> (overwrite || o !in View(s))
  {
    if overwrite || o !in View(s) {
      AddCoinRefines(s, o, coin, overwrite);
    } else if o !in s.cacheCoins {
      var r := AddCoin(s, o, coin, overwrite).0;
      assert r.cacheCoins[o].isFresh && o in View(r.base);
    }
  }

  /** The throwing path has already lowered the usage counter: it is short by the replaced coin. */
  lemma AddCoinThrowLosesUsage(s: Stack, o: OutPoint, coin: Coin, overwrite: bool)
    requires s.Cache? && Valid(s) && AddCoin(s, o, coin, overwrite).1
    ensures o in View(s)
    ensures AddCoin(s, o, coin, overwrite).0.cacheCoins == s.cacheCoins
    ensures AddCoin(s, o, coin, overwrite).0.cachedCoinsUsage
         == SumUsage(s.cacheCoins) - View(s)[o].DynamicMemoryUsage()
  {
  }

  /** AddCoin throws exactly when it may not overwrite and this layer caches an unspent coin. */
  predicate AddCoinThrows(s: Stack, o: OutPoint, coin: Coin, overwrite: bool)
    requires s.Cache?
  {
    && !coin.out.scriptPubKey.IsUnspendable() && !overwrite
    && o in s.cacheCoins && !s.cacheCoins[o].coin.IsSpent()
  }

  lemma AddCoinThrowsExactly(s: Stack, o: OutPoint, coin: Coin, overwrite: bool)
    requires s.Cache?
    ensures AddCoin(s, o, coin, overwrite).1 <==> AddCoinThrows(s, o, coin, overwrite)
  {
    assert COIN_EMPTY.IsSpent();
  }

  /** The counter stays the exact sum if and only if the call does not throw, or the coin that stays in place
      holds no heap memory. */
  lemma AddCoinUsageExact(s: Stack, o: OutPoint, coin: Coin, overwrite: bool)
    requires s.Cache? && s.cachedCoinsUsage == SumUsage(s.cacheCoins)
    ensures var r := AddCoin(s, o, coin, overwrite).0;
      r.cachedCoinsUsage == SumUsage(r.cacheCoins)
      <==> (AddCoinThrows(s, o, coin, overwrite) ==> s.cacheCoins[o].coin.DynamicMemoryUsage() == 0)
  {
    var (r, threw) := AddCoin(s, o, coin, overwrite);
    if !threw && !coin.out.scriptPubKey.IsUnspendable() {
      SumUpdate(s.cacheCoins, o, r.cacheCoins[o]);
    }
  }

  /** A cached coin with 40 bytes on the heap: the throw leaves the counter at zero. */
  lemma AddCoinThrowWitness()
    ensures var o := OutPoint(1, 0);
      var coin := Coin(TxOut(5, Script([], 40)), 1, false);
      var s := Cache(map[o := CacheEntry(coin, false, false)], 40, NULL_HASH, Base(map[o := coin], NULL_HASH));
      Valid(s) && AddCoin(s, o, coin, false).1
      && AddCoin(s, o, coin, false).0.cachedCoinsUsage != SumUsage(AddCoin(s, o, coin, false).0.cacheCoins)
  {
    var o := OutPoint(1, 0);
    var coin := Coin(TxOut(5, Script([], 40)), 1, false);
    var none: CoinsMap := map[];
    SumUpdate(none, o, CacheEntry(coin, false, false));
    assert none[o := CacheEntry(coin, false, false)] == map[o := CacheEntry(coin, false, false)];
  }

  /** SpendCoin removes the coin from the view, and hands out the coin the view had. */
  lemma SpendCoinRefines(s: Stack, o: OutPoint)
    requires s.Cache? && Valid(s)
    ensures Valid(SpendCoin(s, o).0)
    ensures View(SpendCoin(s, o).0) == View(s) - {o}
    ensures Views(SpendCoin(s, o).0.base) == Views(s.base)
    ensures o in View(s) ==> SpendCoin(s, o).1 == Some(View(s)[o])
    ensures o !in View(s) ==> SpendCoin(s, o).1.None? || SpendCoin(s, o).1.value.IsSpent()
  {
    FetchCoinRefines(s, o);
    var f := FetchCoin(s, o);
    assert Views(f)[1..] == Views(f.base) && Views(s)[1..] == Views(s.base);
    if o in f.cacheCoins {
      SpendCachedRefines(f, o);
    } else {
      assert View(s) - {o} == View(s);
    }
  }

  lemma SpendCachedRefines(f: Stack, o: OutPoint)
    requires f.Cache? && Valid(f) && o in f.cacheCoins
    ensures Valid(SpendCoin(f, o).0) && View(SpendCoin(f, o).0) == View(f) - {o}
    ensures SpendCoin(f, o).0.base == f.base
  {
    var r := SpendCoin(f, o).0;
    assert EntryOk(f.cacheCoins[o], o, View(f.base));
    if f.cacheCoins[o].isFresh {
      SumRemove(f.cacheCoins, o);
    } else {
      SumUpdate(f.cacheCoins, o, r.cacheCoins[o]);
    }
    forall p ensures Lookup(View(r), p) == Lookup(View(f) - {o}, p) {
      ViewAt(r, p);
      ViewAt(f, p);
    }
    SameLookups(View(r), View(f) - {o});
  }

  /** SpendCoin reports success a second time when the first spend left a pruned entry behind. */
  lemma SpendTwiceSucceedsTwice(s: Stack, o: OutPoint)
    requires s.Cache? && Valid(s) && o in View(s) && o in View(s.base)
    ensures var once := SpendCoin(s, o).0;
            o !in View(once) && SpendCoin(once, o).1 == Some(COIN_EMPTY)
  {
    FetchCoinRefines(s, o);
    SpendCoinRefines(s, o);
    var f := FetchCoin(s, o);
    assert EntryOk(f.cacheCoins[o], o, View(f.base));
  }

  /** SpendCoin reports success exactly when the view has the coin or this layer caches any entry for it. The
      report tells whether there was a coin to spend if and only if no spent entry is cached beforehand. */
  lemma SpendCoinReports(s: Stack, o: OutPoint)
    requires s.Cache? && Valid(s)
    ensures SpendCoin(s, o).1.Some? <==> o in View(s) || o in s.cacheCoins
    ensures (SpendCoin(s, o).1.Some? <==> o in View(s))
       <==> (o in s.cacheCoins ==> !s.cacheCoins[o].coin.IsSpent())
  {
    FetchCoinRefines(s, o);
    SpendCoinRefines(s, o);
    ViewAt(s, o);
    ViewAt(FetchCoin(s, o), o);
    if o !in s.cacheCoins {
      GetCoinRefines(s.base, o);
      if o in View(s.base) { ViewUnspent(s.base, o); }
    }
  }

  /** A stack with a pruned entry: success is reported though there is no coin. */
  lemma SpendReportWitness()
    ensures var o := OutPoint(1, 0);
      var coin := Coin(TxOut(5, Script([], 0)), 1, false);
      var s := Cache(map[o := CacheEntry(COIN_EMPTY, true, false)], 0, NULL_HASH, Base(map[o := coin], NULL_HASH));
      Valid(s) && o !in View(s) && SpendCoin(s, o).1 == Some(COIN_EMPTY)
  {
    var o := OutPoint(1, 0);
    var none: CoinsMap := map[];
    SumUpdate(none, o, CacheEntry(COIN_EMPTY, true, false));
    assert none[o := CacheEntry(COIN_EMPTY, true, false)] == map[o := CacheEntry(COIN_EMPTY, true, false)];
  }

  lemma UncacheRefines(s: Stack, o: OutPoint)
    requires s.Cache? && Valid(s)
    ensures Valid(Uncache(s, o)) && Views(Uncache(s, o)) == Views(s)
  {
    var r := Uncache(s, o);
    if r != s {
      SumRemove(s.cacheCoins, o);
      assert EntryOk(s.cacheCoins[o], o, View(s.base));
      ViewUnspent(s.base, o);
      assert View(r) == View(s);
    }
  }

  // ---------------------------------------------------------------- flushing

  /** The coins a child's entries show over the coins `below`. */
  function Overlay(child: CoinsMap, below: PlainView): (v: PlainView)
  {
    View(Cache(child, 0, NULL_HASH, Base(below, NULL_HASH)))
  }

  lemma OverlayAt(child: CoinsMap, below: PlainView, o: OutPoint)
    ensures Lookup(Overlay(child, below), o)
         == if o in child then if child[o].coin.IsSpent() then None else Some(child[o].coin)
            else Lookup(below, o)
  {
    ViewAt(Cache(child, 0, NULL_HASH, Base(below, NULL_HASH)), o);
  }

  /** Writing a batch of well-flagged entries makes the parent show what the child showed. */
  lemma BatchWriteRefines(s: Stack, child: CoinsMap, hashBlock: Hash)
    requires Valid(s)
    requires forall o :: o in child ==> EntryOk(child[o], o, View(s))
    ensures !BatchWriteThrows(s, child)
    ensures Valid(BatchWrite(s, child, hashBlock))
    ensures View(BatchWrite(s, child, hashBlock)) == Overlay(child, View(s))
  {
    var r := BatchWrite(s, child, hashBlock);
    if s.Cache? {
      forall o ensures !Misapplied(s.cacheCoins, child, o) {}
      forall o | o in r.cacheCoins ensures EntryOk(r.cacheCoins[o], o, View(s.base)) {
        MergedEntryOk(s, child, o);
      }
      forall o ensures Lookup(View(r), o) == Lookup(Overlay(child, View(s)), o) {
        MergedEntryShows(s, child, hashBlock, o);
      }
    } else {
      forall o ensures Lookup(View(r), o) == Lookup(Overlay(child, View(s)), o) {
        if o in child { assert EntryOk(child[o], o, View(s)); }
        if o in View(s) { ViewUnspent(s, o); }
        OverlayAt(child, View(s), o);
      }
    }
    SameLookups(View(r), Overlay(child, View(s)));
  }

  lemma SameLookups(v: PlainView, w: PlainView)
    requires forall o :: Lookup(v, o) == Lookup(w, o)
    ensures v == w
  {
    forall o ensures o in v <==> o in w { assert Lookup(v, o) == Lookup(w, o); }
    forall o | o in v ensures v[o] == w[o] { assert Lookup(v, o) == Lookup(w, o); }
  }

  lemma MergedEntryOk(s: Stack, child: CoinsMap, o: OutPoint)
    requires s.Cache? && Valid(s)
    requires o in child ==> EntryOk(child[o], o, View(s))
    requires o in MergeMap(s.cacheCoins, child)
    ensures EntryOk(MergeMap(s.cacheCoins, child)[o], o, View(s.base))
  {
    assert EntryAt(MergeMap(s.cacheCoins, child), o)
        == MergeEntry(EntryAt(s.cacheCoins, o), EntryAt(child, o));
    if o in s.cacheCoins { assert EntryOk(s.cacheCoins[o], o, View(s.base)); }
  }

  lemma MergedEntryShows(s: Stack, child: CoinsMap, hashBlock: Hash, o: OutPoint)
    requires s.Cache? && Valid(s)
    requires o in child ==> EntryOk(child[o], o, View(s))
    ensures Lookup(View(BatchWrite(s, child, hashBlock)), o) == Lookup(Overlay(child, View(s)), o)
  {
    assert EntryAt(MergeMap(s.cacheCoins, child), o)
        == MergeEntry(EntryAt(s.cacheCoins, o), EntryAt(child, o));
    if o in s.cacheCoins { assert EntryOk(s.cacheCoins[o], o, View(s.base)); }
    if o in View(s) { ViewUnspent(s, o); }
    ViewAt(s, o);
    ViewAt(BatchWrite(s, child, hashBlock), o);
    OverlayAt(child, View(s), o);
  }

  /** Flush never throws on a valid stack, is invisible from above, and brings the parent up to date. */
  lemma FlushRefines(s: Stack)
    requires s.Cache? && Valid(s)
    ensures !BatchWriteThrows(s.base, s.cacheCoins)
    ensures Valid(Flush(s))
    ensures View(Flush(s)) == View(s) && View(Flush(s).base) == View(s)
  {
    BatchWriteRefines(s.base, s.cacheCoins, s.hashBlock);
    forall o
      ensures Lookup(Overlay(s.cacheCoins, View(s.base)), o) == Lookup(View(s), o)
      ensures Lookup(View(Flush(s)), o) == Lookup(View(Flush(s).base), o)
    {
      OverlayAt(s.cacheCoins, View(s.base), o);
      ViewAt(s, o);
      ViewAt(Flush(s), o);
    }
    SameLookups(Overlay(s.cacheCoins, View(s.base)), View(s));
    SameLookups(View(Flush(s)), View(Flush(s).base));
  }

  /** Without honest flags the other logic_error is reachable: add over a coin the base shows, mark it
      FRESH, and flush into a cache that holds the coin. */
  lemma DishonestAddThrowsOnFlush(s: Stack, o: OutPoint, coin: Coin)
    requires s.Cache? && s.base.Cache? && Valid(s)
    requires o !in s.cacheCoins && o in s.base.cacheCoins && o in View(s)
    requires !coin.IsSpent() && !coin.out.scriptPubKey.IsUnspendable()
    ensures var (r, threw) := AddCoin(s, o, coin, false);
            !threw && BatchWriteThrows(r.base, r.cacheCoins)
  {
    var r := AddCoin(s, o, coin, false).0;
    assert Misapplied(r.base.cacheCoins, r.cacheCoins, o);
  }
}
