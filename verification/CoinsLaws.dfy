/**
  What the FRESH flag and Uncache are for (src/coins.h, src/coins.cpp): entries that need not reach the parent leave
  the cache without a trace.
 */
module CoinsLaws {
  import opened Prelude
  import opened CoinsSpec

  /** Uncache drops exactly an entry without flags, and takes its memory off the counter. */
  lemma UncacheExactly(s: Stack, o: OutPoint)
    requires s.Cache?
    ensures var r := Uncache(s, o);
      && r.Cache? && r.base == s.base && r.hashBlock == s.hashBlock
      && (o in r.cacheCoins <==> o in s.cacheCoins && (s.cacheCoins[o].isDirty || s.cacheCoins[o].isFresh))
      && (forall p :: p in r.cacheCoins ==> p in s.cacheCoins && r.cacheCoins[p] == s.cacheCoins[p])
      && (forall p :: p in s.cacheCoins && p != o ==> p in r.cacheCoins)
      && r.cachedCoinsUsage + (if o in s.cacheCoins && o !in r.cacheCoins then s.cacheCoins[o].coin.DynamicMemoryUsage() else 0)
           == s.cachedCoinsUsage
  {}

  /** A coin that no layer holds is added as FRESH; spending it again restores the cache, counter included. */
  lemma AddThenSpend(s: Stack, o: OutPoint, coin: Coin)
    requires s.Cache? && o !in s.cacheCoins && !coin.out.scriptPubKey.IsUnspendable()
    ensures !AddCoin(s, o, coin, false).1
    ensures SpendCoin(AddCoin(s, o, coin, false).0, o) == (s, Some(coin))
  {
    var t := AddCoin(s, o, coin, false).0;
    assert t.cacheCoins - {o} == s.cacheCoins;
    assert COIN_EMPTY.IsSpent();
  }

  /** FRESH is set when the caller rules out an overwrite and the entry has not been changed; it is never taken
      away. */
  lemma AddSetsFlags(s: Stack, o: OutPoint, coin: Coin, overwrite: bool)
    requires s.Cache? && !coin.out.scriptPubKey.IsUnspendable() && !AddCoin(s, o, coin, overwrite).1
    ensures var r := AddCoin(s, o, coin, overwrite).0;
      && o in r.cacheCoins && r.cacheCoins[o].coin == coin && r.cacheCoins[o].isDirty
      && (r.cacheCoins[o].isFresh <==>
            || (o in s.cacheCoins && s.cacheCoins[o].isFresh)
            || (!overwrite && (o in s.cacheCoins ==> !s.cacheCoins[o].isDirty)))
      && forall p :: p != o ==> EntryAt(r.cacheCoins, p) == EntryAt(s.cacheCoins, p)
  {}

  /** Spending a FRESH coin erases its entry; any other is kept as a spent, DIRTY one, for the parent to see. */
  lemma SpendErasesFresh(s: Stack, o: OutPoint)
    requires s.Cache? && o in s.cacheCoins
    ensures var (r, moved) := SpendCoin(s, o);
      && moved == Some(s.cacheCoins[o].coin)
      && (o in r.cacheCoins <==> !s.cacheCoins[o].isFresh)
      && (o in r.cacheCoins ==> r.cacheCoins[o].coin.IsSpent() && r.cacheCoins[o].isDirty && !r.cacheCoins[o].isFresh)
      && forall p :: p != o ==> EntryAt(r.cacheCoins, p) == EntryAt(s.cacheCoins, p)
  {}

  /** Flushing into a cache: what the child did not change leaves the parent's entry alone; a coin spent in the
      child disappears where the parent held it as FRESH; a FRESH coin stays FRESH in a parent without an entry. */
  lemma FlushIntoCache(s: Stack, o: OutPoint)
    requires s.Cache? && s.base.Cache?
    ensures var (child, ours, merged) := (EntryAt(s.cacheCoins, o), EntryAt(s.base.cacheCoins, o), Flush(s).base);
      && merged.Cache? && merged.base == s.base.base
      && var now := EntryAt(merged.cacheCoins, o);
      && (child.None? || !child.value.isDirty ==> now == ours)
      && (child.Some? && child.value.isDirty && child.value.coin.IsSpent() ==>
            (now.None? <==> if ours.Some? then ours.value.isFresh else child.value.isFresh))
      && (child.Some? && child.value.isDirty && now.Some? ==>
            && now.value.coin == child.value.coin && now.value.isDirty
            && now.value.isFresh == if ours.Some? then ours.value.isFresh else child.value.isFresh)
      && (child.Some? && child.value.isDirty && !child.value.coin.IsSpent() ==> now.Some?)
  {}

  lemma SpendThrough(s: Stack, o: OutPoint)
    requires s.Cache? && o !in s.cacheCoins && s.base.Cache? && o in s.base.cacheCoins
    requires !s.base.cacheCoins[o].coin.IsSpent()
    ensures var (r, moved) := SpendCoin(s, o);
      && moved == Some(s.base.cacheCoins[o].coin) && r.base == s.base
      && r.cacheCoins == s.cacheCoins[o := CacheEntry(COIN_EMPTY, true, false)]
  {
    assert FetchCoin(s.base, o) == s.base;
    assert GetCoin(s.base, o) == (s.base, Some(s.base.cacheCoins[o].coin));
  }

  /** A coin created in one layer, flushed into the next, and then spent above that leaves nothing there either. */
  lemma NoTraceInParent(s: Stack, o: OutPoint, coin: Coin)
    requires s.Cache? && s.base.Cache? && !coin.IsSpent() && !coin.out.scriptPubKey.IsUnspendable()
    requires o !in s.cacheCoins && o !in s.base.cacheCoins
    ensures var added := Flush(AddCoin(s, o, coin, false).0);
      var spent := Flush(SpendCoin(added, o).0);
      o in added.base.cacheCoins && spent.base.Cache? && o !in spent.base.cacheCoins && o !in spent.cacheCoins
  {
    hide AddCoin, SpendCoin, BatchWrite;
    var t := AddCoin(s, o, coin, false).0;
    AddThenSpend(s, o, coin);
    AddSetsFlags(s, o, coin, false);
    FlushIntoCache(t, o);
    var added := Flush(t);
    SpendThrough(added, o);
    var u := SpendCoin(added, o).0;
    assert u.cacheCoins[o] == CacheEntry(COIN_EMPTY, true, false) && COIN_EMPTY.IsSpent();
    FlushIntoCache(u, o);
  }
}
