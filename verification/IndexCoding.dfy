/**
  The index list of BlockTransactionsRequest in src/blockencodings.h: each index is sent as its distance from the
  one before, and read back with a running 16-bit offset.
 */
module IndexCoding {
  import opened Prelude

  /** One more than the largest 16-bit index. */
  const LIMIT: nat := 0x1_0000

  /** The signed difference as the 64-bit number that is written. */
  function Difference(indexes: seq<nat>, i: nat): (d: nat)
    requires i < |indexes|
  {
    var previous: int := if i == 0 then 0 else indexes[i - 1] + 1;
    (indexes[i] as int - previous) % 0x1_0000_0000_0000_0000
  }

  function Encode(indexes: seq<nat>): (r: seq<nat>)
  {
    seq(|indexes|, i requires 0 <= i < |indexes| => Difference(indexes, i))
  }

  /** The second reading loop; None stands for the exception. */
  function Accumulate(ds: seq<nat>, offset: nat): (r: Option<seq<nat>>)
    ensures r.Some? ==> |r.value| == |ds|
  {
    if ds == [] then Some([])
    else if ds[0] + offset >= LIMIT then None
    else
      var rest := Accumulate(ds[1..], (ds[0] + offset + 1) % LIMIT);
      if rest.None? then None else Some([ds[0] + offset] + rest.value)
  }

  predicate AllNarrow(ds: seq<nat>)
  {
    forall i :: 0 <= i < |ds| ==> ds[i] < LIMIT
  }

  function Decode(ds: seq<nat>): (r: Option<seq<nat>>)
  {
    if AllNarrow(ds) then Accumulate(ds, 0) else None
  }

  predicate Increasing(indexes: seq<nat>)
  {
    forall i :: 0 < i < |indexes| ==> indexes[i - 1] < indexes[i]
  }

  /** Each index is its distance plus the 16-bit successor of the one before. */
  predicate Linked(ds: seq<nat>, indexes: seq<nat>, offset: nat)
  {
    && |ds| == |indexes| && (ds != [] ==> indexes[0] == ds[0] + offset)
    && forall i :: 0 < i < |ds| ==> indexes[i] == ds[i] + (indexes[i - 1] + 1) % LIMIT
  }

  lemma {:induction false} AccumulateLinks(ds: seq<nat>, offset: nat)
    requires offset < LIMIT
    ensures var r := Accumulate(ds, offset);
      r.Some? ==> AllNarrow(r.value) && Linked(ds, r.value, offset)
  {
    var r := Accumulate(ds, offset);
    if ds != [] && r.Some? {
      var next := (ds[0] + offset + 1) % LIMIT;
      AccumulateLinks(ds[1..], next);
      var rest := Accumulate(ds[1..], next).value;
      forall i | 0 < i < |ds| ensures r.value[i] == ds[i] + (r.value[i - 1] + 1) % LIMIT {
        assert r.value[i] == rest[i - 1] && ds[1..][i - 1] == ds[i];
        if i > 1 { assert r.value[i - 1] == rest[i - 2]; }
      }
    }
  }

  /** A sequence of links is what reading yields. */
  lemma {:induction false} LinksAccumulate(ds: seq<nat>, indexes: seq<nat>, offset: nat)
    requires AllNarrow(indexes) && offset < LIMIT && Linked(ds, indexes, offset)
    ensures Accumulate(ds, offset) == Some(indexes)
  {
    if ds != [] {
      forall i | 0 < i < |ds[1..]| ensures indexes[1..][i] == ds[1..][i] + (indexes[1..][i - 1] + 1) % LIMIT {
        assert indexes[1..][i] == indexes[i + 1] && ds[1..][i] == ds[i + 1] && indexes[1..][i - 1] == indexes[i];
      }
      LinksAccumulate(ds[1..], indexes[1..], (indexes[0] + 1) % LIMIT);
      assert indexes == [indexes[0]] + indexes[1..];
    } else {
      assert indexes == [];
    }
  }

  /** Reading back what was written restores the indexes exactly if they strictly increase; otherwise reading
      throws. */
  lemma RoundTripExact(indexes: seq<nat>)
    requires AllNarrow(indexes)
    ensures Decode(Encode(indexes)) == if Increasing(indexes) then Some(indexes) else None
  {
    var ds := Encode(indexes);
    if Increasing(indexes) {
      forall i | 0 < i < |ds| ensures indexes[i] == ds[i] + (indexes[i - 1] + 1) % LIMIT {
        assert ds[i] == indexes[i] - (indexes[i - 1] + 1);
      }
      LinksAccumulate(ds, indexes, 0);
    } else {
      var i :| 0 < i < |indexes| && !(indexes[i - 1] < indexes[i]);
      assert ds[i] == indexes[i] as int - (indexes[i - 1] + 1) + 0x1_0000_0000_0000_0000;
    }
  }

  /** The i-th index as the sender means it: all differences up to i, each but the first counted from one behind. */
  function Meant(ds: seq<nat>, i: nat): (index: nat)
    requires i < |ds|
  {
    if i == 0 then ds[0] else Meant(ds, i - 1) + ds[i] + 1
  }

  lemma {:induction false} MeantGrows(ds: seq<nat>, i: nat, j: nat)
    requires i < j < |ds|
    ensures Meant(ds, i) < Meant(ds, j)
    decreases j
  {
    if i < j - 1 { MeantGrows(ds, i, j - 1); }
  }

  /** Up to the first index 65535 the indexes read are the ones meant. */
  lemma {:induction false} ReadAsMeant(ds: seq<nat>, indexes: seq<nat>, i: nat)
    requires AllNarrow(indexes) && Linked(ds, indexes, 0) && i < |ds|
    requires forall j :: 0 <= j < i ==> Meant(ds, j) < LIMIT - 1
    ensures indexes[i] == Meant(ds, i)
  {
    if i > 0 { ReadAsMeant(ds, indexes, i - 1); }
  }

  /** An index that wraps the offset: 65535 is reached before the last index. */
  predicate Wraps(ds: seq<nat>, i: nat)
  {
    i + 1 < |ds| && Meant(ds, i) == LIMIT - 1
  }

  /** Reading accepts lists that do not increase, exactly when the differences received add up to 65535 before
      the last index: there the 16-bit offset wraps to zero. */
  lemma DecodedIncreasing(ds: seq<nat>)
    requires Decode(ds).Some?
    ensures Increasing(Decode(ds).value) <==> !exists i :: Wraps(ds, i)
  {
    AccumulateLinks(ds, 0);
    var r := Decode(ds).value;
    if i: nat :| Wraps(ds, i) {
      forall j | 0 <= j < i ensures Meant(ds, j) < LIMIT - 1 { MeantGrows(ds, j, i); }
      ReadAsMeant(ds, r, i);
      assert r[i + 1 - 1] == LIMIT - 1 && r[i + 1] < LIMIT;
    } else {
      forall i | 0 < i < |ds| ensures r[i - 1] < r[i] { StepUp(ds, r, i); }
    }
  }

  lemma StepUp(ds: seq<nat>, indexes: seq<nat>, i: nat)
    requires AllNarrow(indexes) && Linked(ds, indexes, 0) && 0 < i < |ds|
    requires !exists k :: Wraps(ds, k)
    ensures indexes[i - 1] < indexes[i]
  {
    MeantBelow(ds, indexes, i - 1);
    ReadAsMeant(ds, indexes, i - 1);
    assert !Wraps(ds, i - 1);
  }

  /** Without a wrap the meant indexes stay below 65535. */
  lemma {:induction false} MeantBelow(ds: seq<nat>, indexes: seq<nat>, i: nat)
    requires AllNarrow(indexes) && Linked(ds, indexes, 0) && i + 1 < |ds|
    requires !exists k :: Wraps(ds, k)
    ensures forall j :: 0 <= j <= i ==> Meant(ds, j) < LIMIT - 1
  {
    if i > 0 { MeantBelow(ds, indexes, i - 1); }
    ReadAsMeant(ds, indexes, i);
    assert !Wraps(ds, i);
  }

  /** Two differences that are read back as the indexes 65535 and 0. */
  lemma DecodedNotIncreasing()
    ensures Decode([LIMIT - 1, 0]) == Some([LIMIT - 1, 0]) && !Increasing([LIMIT - 1, 0])
  {
    LinksAccumulate([LIMIT - 1, 0], [LIMIT - 1, 0], 0);
    assert !([LIMIT - 1, 0][1 - 1] < [LIMIT - 1, 0][1]);
  }

  lemma LinkedEncodes(ds: seq<nat>, indexes: seq<nat>)
    requires AllNarrow(indexes) && Linked(ds, indexes, 0) && Increasing(indexes)
    ensures Encode(indexes) == ds
  {
    forall i | 0 <= i < |ds| ensures Difference(indexes, i) == ds[i] {
      if i > 0 { Undone(indexes[i], indexes[i - 1], ds[i]); }
    }
  }

  lemma Undone(index: int, previous: int, d: int)
    requires 0 <= previous < index < LIMIT && index == d + (previous + 1) % LIMIT
    ensures (index - (previous + 1)) % 0x1_0000_0000_0000_0000 == d
  {}

  /** An increasing list has only one encoding. */
  lemma DecodeEncode(ds: seq<nat>)
    requires Decode(ds).Some? && Increasing(Decode(ds).value)
    ensures Encode(Decode(ds).value) == ds
  {
    AccumulateLinks(ds, 0);
    LinkedEncodes(ds, Decode(ds).value);
  }

  class BlockTransactionsRequest {
    var indexes: seq<nat>

    constructor (indexes: seq<nat>)
      ensures this.indexes == indexes
    {
      this.indexes := indexes;
    }

    /** The writing branch of SerializationOp. */
    method Serialize() returns (written: seq<nat>)
      requires AllNarrow(indexes)
      ensures written == Encode(indexes)
    {
      written := [];
      for i := 0 to |indexes|
        invariant written == Encode(indexes)[..i]
      {
        var previous: int := if i == 0 then 0 else indexes[i - 1] + 1;
        var index := (indexes[i] as int - previous) % 0x1_0000_0000_0000_0000;
        written := written + [index];
      }
    }

    /** The reading branch. Returning false is the exception. */
    method Unserialize(stream: seq<nat>) returns (ok: bool)
      modifies this
      ensures ok <==> Decode(stream).Some?
      ensures ok ==> indexes == Decode(stream).value
    {
      ok := ReadIndexes(stream);
      if ok {
        ok := AddOffsets();
      }
    }

    /** The first loop, which reads in portions of at most a thousand. */
    method ReadIndexes(stream: seq<nat>) returns (ok: bool)
      modifies this
      ensures ok <==> AllNarrow(stream)
      ensures ok ==> indexes == stream
    {
      indexes := [];
      var i := 0;
      while |indexes| < |stream|
        invariant i == |indexes| <= |stream| && indexes == stream[..i] && AllNarrow(indexes)
      {
        var size := Min(1000 + |indexes|, |stream|);
        indexes := indexes + seq(size - |indexes|, _ => 0);
        while i < |indexes|
          invariant i <= |indexes| == size <= |stream| && indexes[..i] == stream[..i] && AllNarrow(indexes[..i])
        {
          var index := stream[i];
          if index >= LIMIT {
            return false;
          }
          indexes := indexes[i := index];
          i := i + 1;
          assert indexes[..i] == indexes[..i - 1] + [index];
        }
        assert indexes[..i] == indexes;
      }
      return true;
    }

    /** The second loop, in place. */
    method AddOffsets() returns (ok: bool)
      modifies this
      ensures ok <==> Accumulate(old(indexes), 0).Some?
      ensures ok ==> indexes == Accumulate(old(indexes), 0).value
    {
      ghost var ds := indexes;
      ghost var result := Accumulate(ds, 0);
      assert ds[0..] == ds && (result.Some? ==> [] + result.value == result.value);
      var offset: nat := 0;
      for j := 0 to |indexes|
        invariant |indexes| == |ds| && offset < LIMIT && indexes[j..] == ds[j..]
        invariant Accumulate(ds[j..], offset).None? ==> result.None?
        invariant Accumulate(ds[j..], offset).Some? ==> result == Some(indexes[..j] + Accumulate(ds[j..], offset).value)
      {
        assert ds[j..][0] == indexes[j..][0] == indexes[j] && ds[j..][1..] == ds[j + 1..];
        if indexes[j] + offset >= LIMIT {
          return false;
        }
        ghost var was := indexes;
        ghost var rest := Accumulate(ds[j..], offset);
        indexes := indexes[j := indexes[j] + offset];
        offset := (indexes[j] + 1) % LIMIT;
        assert indexes[..j + 1] == was[..j] + [indexes[j]];
        ghost var next := Accumulate(ds[j + 1..], offset);
        if rest.Some? {
          assert rest.value == [indexes[j]] + next.value;
          assert was[..j] + rest.value == indexes[..j + 1] + next.value;
        }
      }
      assert ds[|ds|..] == [] && indexes[..|ds|] == indexes;
      return true;
    }
  }
}
