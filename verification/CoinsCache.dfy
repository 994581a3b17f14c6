/**
  The classes of src/coins.h and src/coins.cpp: a coin database and the write-back caches stacked on it.
  Every method is proved against the function of CoinsSpec it performs on the stack below it.
 */
module CoinsCache {
  import opened Prelude
  import opened CoinsSpec

  /** The bottom of a stack, CCoinsViewDB, as a map of its records. */
  class CoinsViewDB {
    var coins: PlainView
    var hashBlock: Hash

    constructor (coins: PlainView, hashBlock: Hash)
      ensures this.coins == coins && this.hashBlock == hashBlock
    {
      this.coins := coins;
      this.hashBlock := hashBlock;
    }

    method GetCoin(o: OutPoint) returns (coin: Option<Coin>)
      ensures coin == Lookup(coins, o)
    {
      if o in coins { return Some(coins[o]); } else { return None; }
    }

    method BatchWrite(mapCoins: CoinsMap, hashBlockIn: Hash)
      modifies this
      ensures coins == MergeDb(old(coins), mapCoins) && hashBlock == hashBlockIn
    {
      var rest := mapCoins;
      ghost var done: CoinsMap := map[];
      while rest != map[]
        invariant Split(mapCoins, done, rest)
        invariant coins == MergeDb(old(coins), done)
        decreases |rest|
      {
        var o :| o in rest;
        ghost var before := coins;
        if rest[o].isDirty {
          if rest[o].coin.IsSpent() {
            coins := coins - {o};
          } else {
            coins := coins[o := rest[o].coin];
          }
        }
        MergeDbOneMore(old(coins), done, o, rest[o], before, coins);
        SplitMove(mapCoins, done, rest, o);
        done := done[o := rest[o]];
        rest := rest - {o};
      }
      SplitAll(mapCoins, done);
      hashBlock := hashBlockIn;
    }
  }

  class CoinsViewCache {
    // CCoinsViewBacked::base: another cache, or the database when `base` is null.
    const base: CoinsViewCache?
    const db: CoinsViewDB
    var cacheCoins: CoinsMap
    var cachedCoinsUsage: int
    var hashBlock: Hash

    ghost const depth: nat
    ghost const Repr: set<object>

    /** The objects form a stack. They are never relinked, so this depends on no mutable state. */
    ghost predicate Linked()
      decreases depth
    {
      && this in Repr && db in Repr
      && if base == null then depth == 0 && Repr == {this, db}
         else base.depth < depth && base.Linked() && base.db == db && this !in base.Repr && Repr == {this} + base.Repr
    }

    /** The value of the stack whose top this is. */
    ghost function Abs(): (r: Stack)
      requires Linked()
      reads Repr
      decreases depth
    {
      Cache(cacheCoins, cachedCoinsUsage, hashBlock, Below())
    }

    ghost function BelowRepr(): (r: set<object>)
    {
      if base == null then {db} else base.Repr
    }

    ghost function Below(): (r: Stack)
      requires Linked()
      reads BelowRepr()
      decreases depth, 0
    {
      if base == null then Base(db.coins, db.hashBlock) else base.Abs()
    }

    constructor OnDatabase(db: CoinsViewDB)
      ensures Linked() && Repr == {this, db}
      ensures Abs() == Cache(map[], 0, NULL_HASH, Base(db.coins, db.hashBlock))
    {
      this.base := null;
      this.db := db;
      cacheCoins, cachedCoinsUsage, hashBlock := map[], 0, NULL_HASH;
      depth := 0;
      Repr := {this, db};
    }

    constructor OnCache(base: CoinsViewCache)
      requires base.Linked()
      ensures Linked() && Repr == {this} + base.Repr && this.base == base
      ensures Abs() == Cache(map[], 0, NULL_HASH, base.Abs())
    {
      this.base := base;
      this.db := base.db;
      cacheCoins, cachedCoinsUsage, hashBlock := map[], 0, NULL_HASH;
      depth := base.depth + 1;
      Repr := {this} + base.Repr;
    }

    method FetchCoin(o: OutPoint) returns (found: bool)
      requires Linked()
      modifies Repr
      ensures Abs() == CoinsSpec.FetchCoin(old(Abs()), o)
      ensures found == (o in cacheCoins)
      decreases depth, 0
    {
      if o in cacheCoins {
        return true;
      }
      var tmp;
      if base == null {
        tmp := db.GetCoin(o);
      } else {
        tmp := base.GetCoin(o);
      }
      if tmp.None? {
        return false;
      }
      cacheCoins := cacheCoins[o := CacheEntry(tmp.value, false, tmp.value.IsSpent())];
      cachedCoinsUsage := cachedCoinsUsage + tmp.value.DynamicMemoryUsage();
      return true;
    }

    method GetCoin(o: OutPoint) returns (coin: Option<Coin>)
      requires Linked()
      modifies Repr
      ensures (Abs(), coin) == CoinsSpec.GetCoin(old(Abs()), o)
      decreases depth, 1
    {
      var found := FetchCoin(o);
      if found && !cacheCoins[o].coin.IsSpent() {
        return Some(cacheCoins[o].coin);
      }
      return None;
    }

    method HaveCoin(o: OutPoint) returns (have: bool)
      requires Linked()
      modifies Repr
      ensures Abs() == CoinsSpec.GetCoin(old(Abs()), o).0
      ensures have == CoinsSpec.GetCoin(old(Abs()), o).1.Some?
    {
      var found := FetchCoin(o);
      return found && !cacheCoins[o].coin.IsSpent();
    }

    method AddCoin(o: OutPoint, coin: Coin, possible_overwrite: bool) returns (threw: bool)
      requires Linked() && !coin.IsSpent()
      modifies this
      ensures (Abs(), threw) == CoinsSpec.AddCoin(old(Abs()), o, coin, possible_overwrite)
    {
      if coin.out.scriptPubKey.IsUnspendable() {
        return false;
      }
      var inserted := o !in cacheCoins;
      var entry := CacheEntry(COIN_EMPTY, false, false);
      if !inserted {
        entry := cacheCoins[o];
        cachedCoinsUsage := cachedCoinsUsage - entry.coin.DynamicMemoryUsage();
      }
      var isFresh := false;
      if !possible_overwrite {
        if !entry.coin.IsSpent() {
          return true;
        }
        isFresh := !entry.isDirty;
      }
      cacheCoins := cacheCoins[o := CacheEntry(coin, true, entry.isFresh || isFresh)];
      cachedCoinsUsage := cachedCoinsUsage + coin.DynamicMemoryUsage();
      return false;
    }

    method SpendCoin(o: OutPoint) returns (moveout: Option<Coin>)
      requires Linked()
      modifies Repr
      ensures (Abs(), moveout) == CoinsSpec.SpendCoin(old(Abs()), o)
    {
      var found := FetchCoin(o);
      if !found {
        return None;
      }
      var entry := cacheCoins[o];
      cachedCoinsUsage := cachedCoinsUsage - entry.coin.DynamicMemoryUsage();
      if entry.isFresh {
        cacheCoins := cacheCoins - {o};
      } else {
        cacheCoins := cacheCoins[o := CacheEntry(COIN_EMPTY, true, false)];
      }
      return Some(entry.coin);
    }

    method Uncache(o: OutPoint)
      requires Linked()
      modifies this
      ensures Abs() == CoinsSpec.Uncache(old(Abs()), o)
    {
      if o in cacheCoins && !cacheCoins[o].isDirty && !cacheCoins[o].isFresh {
        cachedCoinsUsage := cachedCoinsUsage - cacheCoins[o].coin.DynamicMemoryUsage();
        cacheCoins := cacheCoins - {o};
      }
    }

    /** Receives a child's entries in any order. On a logic_error an unspecified part has been merged. */
    method BatchWrite(mapCoins: CoinsMap, hashBlockIn: Hash) returns (threw: bool)
      requires Linked()
      modifies this
      ensures threw == BatchWriteThrows(old(Abs()), mapCoins)
      ensures !threw ==> Abs() == CoinsSpec.BatchWrite(old(Abs()), mapCoins, hashBlockIn)
      ensures threw ==> PartlyMerged(old(cacheCoins), mapCoins, cacheCoins)
    {
      threw := MergeAll(mapCoins);
      if !threw {
        hashBlock := hashBlockIn;
      }
    }

    /** BatchWrite's loop. */
    method MergeAll(mapCoins: CoinsMap) returns (threw: bool)
      modifies this`cacheCoins, this`cachedCoinsUsage
      ensures threw <==> exists o :: o in mapCoins && Misapplied(old(cacheCoins), mapCoins, o)
      ensures threw ==> PartlyMerged(old(cacheCoins), mapCoins, cacheCoins)
      ensures !threw ==> cacheCoins == MergeMap(old(cacheCoins), mapCoins)
      ensures cachedCoinsUsage - SumUsage(cacheCoins) == old(cachedCoinsUsage - SumUsage(cacheCoins))
    {
      var rest := mapCoins;
      ghost var ours := cacheCoins;
      ghost var done: CoinsMap := map[];
      MergeNothing(ours);
      while rest != map[]
        invariant Split(mapCoins, done, rest)
        invariant cacheCoins == MergeMap(ours, done)
        invariant cachedCoinsUsage - SumUsage(cacheCoins) == old(cachedCoinsUsage) - SumUsage(ours)
        invariant NoneMisapplied(ours, done)
        decreases |rest|
      {
        var o :| o in rest;
        ghost var before := cacheCoins;
        NotYetMerged(ours, done, o, cacheCoins);
        threw := MergeOne(o, rest[o]);
        if threw {
          assert Misapplied(ours, mapCoins, o);
          assert PartlyMerged(ours, mapCoins, cacheCoins);
          return;
        }
        MergeOneMore(ours, done, o, rest[o], before, cacheCoins);
        SplitMove(mapCoins, done, rest, o);
        StillNoneMisapplied(ours, done, o, rest[o], before);
        done := done[o := rest[o]];
        rest := rest - {o};
      }
      SplitAll(mapCoins, done);
      return false;
    }

    /** The body of BatchWrite's loop. */
    method MergeOne(o: OutPoint, child: CacheEntry) returns (threw: bool)
      modifies this`cacheCoins, this`cachedCoinsUsage
      ensures threw == Misapplied(old(cacheCoins), map[o := child], o)
      ensures threw ==> cacheCoins == old(cacheCoins) && cachedCoinsUsage == old(cachedCoinsUsage)
      ensures !threw ==> EntryAt(cacheCoins, o) == MergeEntry(EntryAt(old(cacheCoins), o), Some(child))
      ensures forall p :: p != o ==> EntryAt(cacheCoins, p) == EntryAt(old(cacheCoins), p)
      ensures cachedCoinsUsage - SumUsage(cacheCoins) == old(cachedCoinsUsage - SumUsage(cacheCoins))
    {
      if !child.isDirty {
        return false;
      }
      if o !in cacheCoins {
        if !(child.isFresh && child.coin.IsSpent()) {
          SumUpdate(cacheCoins, o, CacheEntry(child.coin, true, child.isFresh));
          cacheCoins := cacheCoins[o := CacheEntry(child.coin, true, child.isFresh)];
          cachedCoinsUsage := cachedCoinsUsage + child.coin.DynamicMemoryUsage();
        }
      } else {
        if child.isFresh && !cacheCoins[o].coin.IsSpent() {
          return true;
        }
        cachedCoinsUsage := cachedCoinsUsage - cacheCoins[o].coin.DynamicMemoryUsage();
        if cacheCoins[o].isFresh && child.coin.IsSpent() {
          SumRemove(cacheCoins, o);
          cacheCoins := cacheCoins - {o};
        } else {
          SumUpdate(cacheCoins, o, CacheEntry(child.coin, true, cacheCoins[o].isFresh));
          cachedCoinsUsage := cachedCoinsUsage + child.coin.DynamicMemoryUsage();
          cacheCoins := cacheCoins[o := CacheEntry(child.coin, true, cacheCoins[o].isFresh)];
        }
      }
      return false;
    }

    method Flush() returns (threw: bool)
      requires Linked()
      modifies Repr
      ensures threw == BatchWriteThrows(old(Below()), old(cacheCoins))
      ensures !threw ==> Abs() == CoinsSpec.Flush(old(Abs()))
    {
      threw := false;
      if base == null {
        db.BatchWrite(cacheCoins, hashBlock);
      } else {
        threw := base.BatchWrite(cacheCoins, hashBlock);
      }
      if !threw {
        cacheCoins := map[];
        cachedCoinsUsage := 0;
      }
    }
  }

  // ---------------------------------------------------------------- merging in any order

  /** `done` and `rest` are the two parts of m. */
  ghost predicate Split(m: CoinsMap, done: CoinsMap, rest: CoinsMap)
  {
    && done.Keys !! rest.Keys && done.Keys + rest.Keys == m.Keys
    && (forall o :: o in done ==> done[o] == m[o])
    && (forall o :: o in rest ==> rest[o] == m[o])
  }

  ghost predicate PartlyMerged(ours: CoinsMap, child: CoinsMap, now: CoinsMap)
  {
    exists done, rest :: Split(child, done, rest) && now == MergeMap(ours, done)
  }

  lemma SplitMove(m: CoinsMap, done: CoinsMap, rest: CoinsMap, o: OutPoint)
    requires Split(m, done, rest) && o in rest
    ensures Split(m, done[o := rest[o]], rest - {o})
  {
  }

  lemma SplitAll(m: CoinsMap, done: CoinsMap)
    requires Split(m, done, map[])
    ensures done == m
  {
  }

  ghost predicate NoneMisapplied(ours: CoinsMap, child: CoinsMap)
  {
    forall o :: o in child ==> !Misapplied(ours, child, o)
  }

  lemma StillNoneMisapplied(ours: CoinsMap, done: CoinsMap, o: OutPoint, e: CacheEntry, now: CoinsMap)
    requires NoneMisapplied(ours, done) && o !in done
    requires EntryAt(now, o) == EntryAt(ours, o) && !Misapplied(now, map[o := e], o)
    ensures NoneMisapplied(ours, done[o := e])
  {
    var more := done[o := e];
    forall p | p in more ensures !Misapplied(ours, more, p) {
      if p != o { assert !Misapplied(ours, done, p); }
    }
  }

  lemma MergeNothing(ours: CoinsMap)
    ensures MergeMap(ours, map[]) == ours
  {
    SameEntries(MergeMap(ours, map[]), ours);
  }

  lemma NotYetMerged(ours: CoinsMap, done: CoinsMap, o: OutPoint, now: CoinsMap)
    requires now == MergeMap(ours, done) && o !in done
    ensures EntryAt(now, o) == EntryAt(ours, o)
  {
    assert EntryAt(now, o) == MergeEntry(EntryAt(ours, o), EntryAt(done, o));
  }

  lemma SameEntries(a: CoinsMap, b: CoinsMap)
    requires forall o :: EntryAt(a, o) == EntryAt(b, o)
    ensures a == b
  {
    forall o ensures o in a <==> o in b { assert EntryAt(a, o) == EntryAt(b, o); }
    forall o | o in a ensures a[o] == b[o] { assert EntryAt(a, o) == EntryAt(b, o); }
  }

  /** Merging one more of the child's entries into what has been merged so far. */
  lemma MergeOneMore(ours: CoinsMap, done: CoinsMap, o: OutPoint, e: CacheEntry, before: CoinsMap, after: CoinsMap)
    requires o !in done && before == MergeMap(ours, done)
    requires forall p :: p != o ==> EntryAt(after, p) == EntryAt(before, p)
    requires EntryAt(after, o) == MergeEntry(EntryAt(before, o), Some(e))
    ensures after == MergeMap(ours, done[o := e])
  {
    var m := MergeMap(ours, done[o := e]);
    forall p ensures EntryAt(after, p) == EntryAt(m, p) {
      assert EntryAt(before, p) == MergeEntry(EntryAt(ours, p), EntryAt(done, p));
      assert EntryAt(m, p) == MergeEntry(EntryAt(ours, p), EntryAt(done[o := e], p));
    }
    SameEntries(after, m);
  }

  lemma MergeDbOneMore(ours: PlainView, done: CoinsMap, o: OutPoint, e: CacheEntry, before: PlainView, after: PlainView)
    requires o !in done && before == MergeDb(ours, done)
    requires after == if !e.isDirty then before else if e.coin.IsSpent() then before - {o} else before[o := e.coin]
    ensures after == MergeDb(ours, done[o := e])
  {
    var m := MergeDb(ours, done[o := e]);
    forall p ensures Lookup(after, p) == Lookup(m, p) {
      assert Lookup(before, p) == Lookup(MergeDb(ours, done), p);
    }
    SameLookups(after, m);
  }

  // ---------------------------------------------------------------- AddCoins

  datatype Transaction = Transaction(txid: Hash, vout: seq<TxOut>, isCoinBase: bool)

  /** The plain view after a transaction's first n outputs have been added. */
  function WithOutputs(v: PlainView, tx: Transaction, nHeight: nat, n: nat): (r: PlainView)
    requires n <= |tx.vout|
  {
    if n == 0 then v
    else
      var w := WithOutputs(v, tx, nHeight, n - 1);
      if tx.vout[n - 1].scriptPubKey.IsUnspendable() then w
      else w[OutPoint(tx.txid, n - 1) := Coin(tx.vout[n - 1], nHeight, tx.isCoinBase)]
  }

  lemma {:induction false} OtherOutputsKept(v: PlainView, tx: Transaction, nHeight: nat, n: nat, o: OutPoint)
    requires n <= |tx.vout| && (o.hash != tx.txid || n <= o.n)
    ensures o in WithOutputs(v, tx, nHeight, n) <==> o in v
  {
    if n > 0 { OtherOutputsKept(v, tx, nHeight, n - 1, o); }
  }

  /** The AddCoins function: with `check`, or for a coinbase, or when none of the outputs is there yet,
      it never throws and adds exactly the spendable outputs. */
  method AddCoins(cache: CoinsViewCache, tx: Transaction, nHeight: nat, check: bool) returns (threw: bool)
    requires cache.Linked() && Valid(cache.Abs())
    requires forall i :: 0 <= i < |tx.vout| ==> !tx.vout[i].IsNull()
    requires check || tx.isCoinBase || forall i: nat :: i < |tx.vout| ==> OutPoint(tx.txid, i) !in View(cache.Abs())
    modifies cache.Repr
    ensures !threw && Valid(cache.Abs())
    ensures View(cache.Abs()) == WithOutputs(old(View(cache.Abs())), tx, nHeight, |tx.vout|)
  {
    for i := 0 to |tx.vout|
      invariant Valid(cache.Abs())
      invariant View(cache.Abs()) == WithOutputs(old(View(cache.Abs())), tx, nHeight, i)
    {
      var o := OutPoint(tx.txid, i);
      OtherOutputsKept(old(View(cache.Abs())), tx, nHeight, i, o);
      var overwrite := tx.isCoinBase;
      if check {
        GetCoinRefines(cache.Abs(), o);
        overwrite := cache.HaveCoin(o);
      }
      var coin := Coin(tx.vout[i], nHeight, tx.isCoinBase);
      assert overwrite || o !in View(cache.Abs());
      AddCoinRefines(cache.Abs(), o, coin, overwrite);
      threw := cache.AddCoin(o, coin, overwrite);
    }
    return false;
  }
}
