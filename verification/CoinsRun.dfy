/**
  Whole runs over a stack of coin caches (src/coins.cpp): every honest run behaves like a stack of plain
  outpoint maps, whatever is read, cached, uncached and flushed at whichever level in between.
 */
module CoinsRun {
  import opened Prelude
  import opened CoinsSpec

  /** One call on the stack. Levels count from the top layer, level 0. */
  datatype Op =
    | Add(o: OutPoint, coin: Coin, overwrite: bool)
    | Spend(o: OutPoint)
    | Read(level: nat, o: OutPoint)
    | Drop(level: nat, o: OutPoint)
    | FlushLayer(level: nat)
    | SetBestBlock(hashBlock: Hash)
    | NewLayer
    | Discard

  /** What a caller observes. */
  datatype Outcome = Quiet | Shown(coin: Option<Coin>) | LogicError

  function Usable(c: Option<Coin>): (r: Option<Coin>)
  {
    if c.Some? && c.value.IsSpent() then None else c
  }

  // ---------------------------------------------------------------- the real stack

  function ReadAt(s: Stack, level: nat, o: OutPoint): (r: (Stack, Option<Coin>))
    requires level < |Views(s)|
  {
    if level == 0 then GetCoin(s, o)
    else
      var (below, c) := ReadAt(s.base, level - 1, o);
      (s.(base := below), c)
  }

  function UncacheAt(s: Stack, level: nat, o: OutPoint): (r: Stack)
    requires level + 1 < |Views(s)|
  {
    if level == 0 then Uncache(s, o) else s.(base := UncacheAt(s.base, level - 1, o))
  }

  ghost function FlushAt(s: Stack, level: nat): (r: (Stack, bool))
    requires level + 1 < |Views(s)|
  {
    if level == 0 then
      (Flush(s), BatchWriteThrows(s.base, s.cacheCoins))
    else
      var (below, threw) := FlushAt(s.base, level - 1);
      (s.(base := below), threw)
  }

  ghost function Step(s: Stack, op: Op): (r: (Stack, Outcome))
    requires Legal(Views(s), op)
  {
    match op
    case Add(o, coin, overwrite) =>
      var (t, threw) := AddCoin(s, o, coin, overwrite);
      (t, if threw then LogicError else Quiet)
    case Spend(o) =>
      var (t, moved) := SpendCoin(s, o);
      (t, Shown(Usable(moved)))
    case Read(level, o) =>
      var (t, c) := ReadAt(s, level, o);
      (t, Shown(c))
    case Drop(level, o) => (UncacheAt(s, level, o), Quiet)
    case FlushLayer(level) =>
      var (t, threw) := FlushAt(s, level);
      (t, if threw then LogicError else Quiet)
    case SetBestBlock(h) => (s.(hashBlock := h), Quiet)
    case NewLayer => (Cache(map[], 0, NULL_HASH, s), Quiet)
    case Discard => (s.base, Quiet)
  }

  // ---------------------------------------------------------------- the plain maps

  /** What callers promise: operations name existing layers, and `overwrite` is passed honestly. */
  predicate Legal(vs: seq<PlainView>, op: Op)
  {
    |vs| > 0 &&
    match op
    case Add(o, coin, overwrite) =>
      |vs| > 1 && !coin.IsSpent() && (overwrite || o !in vs[0])
    case Spend(_) => |vs| > 1
    case Read(level, _) => level < |vs|
    case Drop(level, _) => level + 1 < |vs|
    case FlushLayer(level) => level + 1 < |vs|
    case SetBestBlock(_) => true
    case NewLayer => true
    case Discard => |vs| > 1
  }

  /** The same calls on plain maps: only Add, Spend and a flush into the parent change anything. */
  function PlainStep(vs: seq<PlainView>, op: Op): (r: (seq<PlainView>, Outcome))
    requires Legal(vs, op)
  {
    match op
    case Add(o, coin, _) =>
      (if coin.out.scriptPubKey.IsUnspendable() then vs else vs[0 := vs[0][o := coin]], Quiet)
    case Spend(o) => (vs[0 := vs[0] - {o}], Shown(Lookup(vs[0], o)))
    case Read(level, o) => (vs, Shown(Lookup(vs[level], o)))
    case Drop(_, _) => (vs, Quiet)
    case FlushLayer(level) => (vs[level + 1 := vs[level]], Quiet)
    case SetBestBlock(_) => (vs, Quiet)
    case NewLayer => ([vs[0]] + vs, Quiet)
    case Discard => (vs[1..], Quiet)
  }

  predicate LegalRun(vs: seq<PlainView>, ops: seq<Op>)
    decreases |ops|
  {
    ops == [] || (Legal(vs, ops[0]) && LegalRun(PlainStep(vs, ops[0]).0, ops[1..]))
  }

  function PlainRun(vs: seq<PlainView>, ops: seq<Op>): (r: (seq<PlainView>, seq<Outcome>))
    requires LegalRun(vs, ops)
    decreases |ops|
  {
    if ops == [] then (vs, [])
    else
      var (vs1, out) := PlainStep(vs, ops[0]);
      var (vs2, outs) := PlainRun(vs1, ops[1..]);
      (vs2, [out] + outs)
  }

  /** The real stack driven by the same calls, stopping after a logic_error. */
  ghost function Run(s: Stack, ops: seq<Op>): (r: (Stack, seq<Outcome>))
    decreases |ops|
  {
    if ops == [] || !Legal(Views(s), ops[0]) then (s, [])
    else
      var (t, out) := Step(s, ops[0]);
      if out == LogicError then (t, [out])
      else
        var (u, outs) := Run(t, ops[1..]);
        (u, [out] + outs)
  }

  // ---------------------------------------------------------------- refinement

  lemma RebaseViews(s: Stack, below: Stack)
    requires s.Cache? && Valid(s) && Valid(below) && View(below) == View(s.base)
    ensures Valid(s.(base := below))
    ensures Views(s.(base := below)) == [View(s)] + Views(below)
  {
    RebaseKeeps(s, below);
  }

  lemma RebaseSame(s: Stack, below: Stack)
    requires s.Cache? && Valid(s) && Valid(below) && Views(below) == Views(s.base)
    ensures Valid(s.(base := below)) && Views(s.(base := below)) == Views(s)
  {
    assert View(below) == Views(below)[0] == View(s.base);
    RebaseViews(s, below);
  }

  lemma {:induction false} ReadAtRefines(s: Stack, level: nat, o: OutPoint)
    requires Valid(s) && level < |Views(s)|
    ensures Valid(ReadAt(s, level, o).0) && Views(ReadAt(s, level, o).0) == Views(s)
    ensures ReadAt(s, level, o).1 == Lookup(Views(s)[level], o)
  {
    if level == 0 {
      GetCoinRefines(s, o);
    } else {
      ReadAtRefines(s.base, level - 1, o);
      RebaseSame(s, ReadAt(s.base, level - 1, o).0);
    }
  }

  lemma {:induction false} UncacheAtRefines(s: Stack, level: nat, o: OutPoint)
    requires Valid(s) && level + 1 < |Views(s)|
    ensures Valid(UncacheAt(s, level, o)) && Views(UncacheAt(s, level, o)) == Views(s)
  {
    if level == 0 {
      UncacheRefines(s, o);
    } else {
      UncacheAtRefines(s.base, level - 1, o);
      RebaseSame(s, UncacheAt(s.base, level - 1, o));
    }
  }

  lemma FlushTopViews(s: Stack)
    requires s.Cache? && Valid(s)
    ensures !FlushAt(s, 0).1 && Valid(FlushAt(s, 0).0)
    ensures Views(FlushAt(s, 0).0) == Views(s)[1 := View(s)]
  {
    FlushRefines(s);
    BatchWriteTail(s.base, s.cacheCoins, s.hashBlock);
    assert Views(Flush(s))[1..] == Views(Flush(s).base);
  }

  lemma BatchWriteTail(s: Stack, child: CoinsMap, hashBlock: Hash)
    ensures Views(BatchWrite(s, child, hashBlock))[1..] == Views(s)[1..]
  {
  }

  lemma FlushBelow(s: Stack, below: Stack, level: nat)
    requires s.Cache? && Valid(s) && Valid(below) && 0 < level < |Views(s.base)|
    requires Views(below) == Views(s.base)[level := Views(s.base)[level - 1]]
    ensures Valid(s.(base := below))
    ensures Views(s.(base := below)) == Views(s)[level + 1 := Views(s)[level]]
  {
    var v, w := View(s), Views(s.base);
    assert View(below) == Views(below)[0] == View(s.base);
    RebaseViews(s, below);
    assert Views(s) == [v] + w;
    PrependUpdate(v, w, level);
  }

  lemma PrependUpdate(v: PlainView, w: seq<PlainView>, level: nat)
    requires 0 < level < |w|
    ensures [v] + w[level := w[level - 1]] == ([v] + w)[level + 1 := ([v] + w)[level]]
  {}

  /** Flushing any layer never throws, changes the view of its parent only, and nothing above or below. */
  lemma {:induction false} FlushAtRefines(s: Stack, level: nat)
    requires Valid(s) && level + 1 < |Views(s)|
    ensures !FlushAt(s, level).1 && Valid(FlushAt(s, level).0)
    ensures Views(FlushAt(s, level).0) == Views(s)[level + 1 := Views(s)[level]]
  {
    if level == 0 {
      FlushTopViews(s);
    } else {
      FlushAtRefines(s.base, level - 1);
      FlushBelow(s, FlushAt(s.base, level - 1).0, level);
    }
  }

  lemma TopOnly(vs: seq<PlainView>, ws: seq<PlainView>)
    requires |vs| == |ws| > 0 && vs[1..] == ws[1..]
    ensures ws == vs[0 := ws[0]]
  {
    assert vs == [vs[0]] + vs[1..] && ws == [ws[0]] + ws[1..];
  }

  lemma AddStepRefines(s: Stack, o: OutPoint, coin: Coin, overwrite: bool)
    requires Valid(s) && Legal(Views(s), Add(o, coin, overwrite))
    ensures var (t, out) := Step(s, Add(o, coin, overwrite));
      Valid(t) && (Views(t), out) == PlainStep(Views(s), Add(o, coin, overwrite)) && out != LogicError
  {
    AddCoinRefines(s, o, coin, overwrite);
    var t := AddCoin(s, o, coin, overwrite).0;
    TopOnly(Views(s), Views(t));
  }

  lemma SpendStepRefines(s: Stack, o: OutPoint)
    requires Valid(s) && Legal(Views(s), Spend(o))
    ensures var (t, out) := Step(s, Spend(o));
      Valid(t) && (Views(t), out) == PlainStep(Views(s), Spend(o)) && out != LogicError
  {
    SpendCoinRefines(s, o);
    var t := SpendCoin(s, o).0;
    TopOnly(Views(s), Views(t));
    if o in View(s) { ViewUnspent(s, o); }
  }

  /** One legal call keeps the invariant, never throws, and is the plain call on the views. */
  lemma StepRefines(s: Stack, op: Op)
    requires Valid(s) && Legal(Views(s), op)
    ensures Valid(Step(s, op).0)
    ensures Views(Step(s, op).0) == PlainStep(Views(s), op).0
    ensures Step(s, op).1 == PlainStep(Views(s), op).1 && Step(s, op).1 != LogicError
  {
    match op
    case Add(o, coin, overwrite) => AddStepRefines(s, o, coin, overwrite);
    case Spend(o) => SpendStepRefines(s, o);
    case Read(level, o) => ReadAtRefines(s, level, o);
    case Drop(level, o) => UncacheAtRefines(s, level, o);
    case FlushLayer(level) => FlushAtRefines(s, level);
    case SetBestBlock(h) =>
    case NewLayer => assert View(Cache(map[], 0, NULL_HASH, s)) == View(s);
    case Discard => assert Views(s)[1..] == Views(s.base);
  }

  /** Every honest run completes without a logic_error, ends in a valid stack, and shows at every layer
      and in every observed result what the plain maps show. */
  lemma {:induction false} RunRefines(s: Stack, ops: seq<Op>)
    requires Valid(s) && LegalRun(Views(s), ops)
    ensures Valid(Run(s, ops).0)
    ensures Views(Run(s, ops).0) == PlainRun(Views(s), ops).0
    ensures Run(s, ops).1 == PlainRun(Views(s), ops).1 && |Run(s, ops).1| == |ops|
    decreases |ops|
  {
    if ops != [] {
      StepRefines(s, ops[0]);
      RunRefines(Step(s, ops[0]).0, ops[1..]);
    }
  }
}
