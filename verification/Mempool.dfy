/**
  The memory pool as the block assembler sees it: a finite acyclic graph of entries. Ancestor and
  descendant sets and the cached ancestor totals are exact; how txmempool.cpp maintains them is not
  part of this model.
 */
module Mempool {
  /** Transactions are named by hash, which also breaks ties between equal ancestor counts. */
  type TxId = nat

  datatype TxEntry = TxEntry(size: nat, weight: nat, sigOpCost: nat, fee: int, modifiedFee: int,
                             isFinal: bool, hasWitness: bool, parents: set<TxId>)

  /** Sums over a set of entries. */
  datatype Totals = Totals(size: int, weight: int, sigOpCost: int, fee: int, modifiedFee: int) {
    function Plus(t: Totals): (r: Totals) {
      Totals(size + t.size, weight + t.weight, sigOpCost + t.sigOpCost, fee + t.fee, modifiedFee + t.modifiedFee)
    }

    predicate AtLeast(t: Totals) { size >= t.size && sigOpCost >= t.sigOpCost }
  }

  const NOTHING := Totals(0, 0, 0, 0, 0)

  datatype Pool = Pool(entries: map<TxId, TxEntry>, anc: map<TxId, set<TxId>>, cached: map<TxId, Totals>) {
    predicate Shape() { anc.Keys == entries.Keys && cached.Keys == entries.Keys }

    /** `anc` is the strict ancestor relation of an acyclic parent graph, `cached` the totals over it. */
    ghost predicate Valid() {
      && Shape()
      && (forall x {:trigger EntryOk(x)} :: x in entries ==> EntryOk(x))
      && (forall x, a {:trigger ThroughParent(x, a)} ::
            x in entries && a in anc[x] && a !in entries[x].parents ==> ThroughParent(x, a))
    }

    ghost predicate EntryOk(x: TxId)
      requires Shape() && x in entries
    {
      && cached[x] == Cost(anc[x] + {x})
      && entries[x].parents <= entries.Keys
      && entries[x].weight <= 4 * entries[x].size
      && x !in anc[x]
      && entries[x].parents <= anc[x] <= entries.Keys
      && forall p :: p in entries[x].parents ==> anc[p] <= anc[x]
    }

    predicate ThroughParent(x: TxId, a: TxId)
      requires x in entries
    {
      exists p :: p in entries[x].parents && p in anc && a in anc[p]
    }

    /** The transaction and its in-pool ancestors. */
    function Package(x: TxId): (r: set<TxId>)
      requires x in anc
    {
      anc[x] + {x}
    }

    function Descendants(x: TxId): (r: set<TxId>)
    {
      set d | d in anc && (d == x || x in anc[d])
    }

    function CountWithAncestors(x: TxId): (r: nat)
      requires x in anc
    {
      |anc[x]| + 1
    }

    function Entry(x: TxId): (r: Totals)
    {
      if x in entries then
        var e := entries[x];
        Totals(e.size, e.weight, e.sigOpCost, e.fee, e.modifiedFee)
      else NOTHING
    }

    /** The total over a set of entries. */
    ghost function Cost(s: set<TxId>): (t: Totals)
      decreases |s|
    {
      if s == {} then NOTHING
      else
        var x :| x in s;
        Entry(x).Plus(Cost(s - {x}))
    }
  }

  lemma PlusLaws(a: Totals, b: Totals, c: Totals)
    ensures a.Plus(b).Plus(c) == a.Plus(b.Plus(c)) && a.Plus(b) == b.Plus(a)
  {
  }

  lemma {:induction false} CostRemove(pool: Pool, s: set<TxId>, x: TxId)
    requires x in s
    ensures pool.Cost(s) == pool.Entry(x).Plus(pool.Cost(s - {x}))
    decreases |s|
  {
    var y :| y in s && pool.Cost(s) == pool.Entry(y).Plus(pool.Cost(s - {y}));
    if x != y {
      CostRemove(pool, s - {y}, x);
      CostRemove(pool, s - {x}, y);
      var rest := s - {x} - {y};
      assert s - {y} - {x} == rest;
      PlusLaws(pool.Entry(x), pool.Entry(y), pool.Cost(rest));
      PlusLaws(pool.Entry(y), pool.Entry(x), pool.Cost(rest));
    }
  }

  lemma CostAdd(pool: Pool, s: set<TxId>, x: TxId)
    requires x !in s
    ensures pool.Cost(s + {x}) == pool.Entry(x).Plus(pool.Cost(s))
  {
    CostRemove(pool, s + {x}, x);
    assert s + {x} - {x} == s;
  }

  lemma {:induction false} CostUnion(pool: Pool, s: set<TxId>, t: set<TxId>)
    requires s !! t
    ensures pool.Cost(s + t) == pool.Cost(s).Plus(pool.Cost(t))
    decreases |t|
  {
    if t == {} {
      assert s + t == s;
    } else {
      var x :| x in t;
      CostUnion(pool, s, t - {x});
      CostRemove(pool, t, x);
      assert s + t == (s + (t - {x})) + {x};
      CostAdd(pool, s + (t - {x}), x);
      var a, b, c := pool.Entry(x), pool.Cost(s), pool.Cost(t - {x});
      PlusLaws(a, b, c);
      PlusLaws(b, a, c);
    }
  }

  /** Nothing in a set costs less than nothing, and weight is at most four times size. */
  lemma {:induction false} CostBounds(pool: Pool, s: set<TxId>)
    requires pool.Valid()
    ensures pool.Cost(s).size >= 0 && pool.Cost(s).sigOpCost >= 0
    ensures 0 <= pool.Cost(s).weight <= 4 * pool.Cost(s).size
    decreases |s|
  {
    if s != {} {
      var x :| x in s;
      CostRemove(pool, s, x);
      CostBounds(pool, s - {x});
      if x in pool.entries {
        assert pool.EntryOk(x);
        assert 0 <= pool.entries[x].weight <= 4 * pool.entries[x].size && pool.entries[x].sigOpCost >= 0;
      }
    }
  }

  lemma CostMonotone(pool: Pool, s: set<TxId>, t: set<TxId>)
    requires pool.Valid() && s <= t
    ensures pool.Cost(t).AtLeast(pool.Cost(s))
  {
    CostUnion(pool, s, t - s);
    assert s + (t - s) == t;
    CostBounds(pool, t - s);
  }

  /** Ancestors of ancestors are ancestors. */
  lemma {:induction false} AncestorsClosed(pool: Pool, x: TxId, a: TxId)
    requires pool.Valid() && x in pool.entries && a in pool.anc[x]
    ensures a in pool.anc && pool.anc[a] <= pool.anc[x]
    decreases |pool.anc[x]|
  {
    assert pool.EntryOk(x);
    if a !in pool.entries[x].parents {
      assert pool.ThroughParent(x, a);
      var p :| p in pool.entries[x].parents && p in pool.anc && a in pool.anc[p];
      assert pool.EntryOk(p);
      ProperSubsetSmaller(pool.anc[p], pool.anc[x], p);
      AncestorsClosed(pool, p, a);
    }
  }

  lemma ProperSubsetSmaller(s: set<TxId>, t: set<TxId>, x: TxId)
    requires s <= t && x in t && x !in s
    ensures |s| < |t|
  {
    assert t == s + (t - s);
    assert |t - s| > 0;
  }

  /** What makes sorting by ancestor count a valid block order. */
  lemma AncestorCountsLess(pool: Pool, x: TxId, a: TxId)
    requires pool.Valid() && x in pool.entries && a in pool.anc[x]
    ensures a in pool.anc && pool.CountWithAncestors(a) < pool.CountWithAncestors(x)
  {
    AncestorsClosed(pool, x, a);
    assert pool.EntryOk(a);
    ProperSubsetSmaller(pool.anc[a], pool.anc[x], a);
  }
}
