/**
  The critical sections of CCheckQueue (src/checkqueue.h): what each thread does to the shared fields
  while it holds the mutex. CheckQueueProtocol interleaves them.
 */
module CheckQueue {
  import opened Prelude

  /** A verification; running it returns `passes`. */
  datatype Check = Check(id: nat, passes: bool)

  /** The fields the mutex protects. */
  datatype Shared = Shared(queue: seq<Check>, nIdle: int, nTotal: int, fAllOk: bool, nTodo: int)

  /** How a thread leaves the critical section at the top of Loop. */
  datatype Exit =
    | Return(result: bool)                        // the master is done
    | Sleep                                       // cond.wait
    | Work(batch: seq<Check>, fOk: bool)          // run a batch without the lock

  function Reverse(s: seq<Check>): (r: seq<Check>)
    ensures |r| == |s|
  {
    if s == [] then [] else Reverse(s[1..]) + [s[0]]
  }

  lemma {:induction false} ReversePermutes(s: seq<Check>)
    ensures multiset(Reverse(s)) == multiset(s)
  {
    if s != [] {
      ReversePermutes(s[1..]);
      assert s == [s[0]] + s[1..];
    }
  }

  function BatchSize(q: nat, nTotal: int, nIdle: int, nBatchSize: nat): (n: nat)
    requires q > 0
    ensures 1 <= n <= q && n <= Max(1, nBatchSize)
  {
    var workers := nTotal + nIdle + 1;
    Max(1, Min(nBatchSize, if workers > 0 then q / workers else 0))
  }

  /** The clean-up of the previous batch; nNow is zero on a thread's first iteration. */
  function CleanUp(s: Shared, nNow: nat, fOk: bool): (r: Shared)
  {
    if nNow != 0 then s.(fAllOk := s.fAllOk && fOk, nTodo := s.nTodo - nNow)
    else s.(nTotal := s.nTotal + 1)
  }

  /** From the test of `queue.empty()` to the end of the critical section. */
  function Top(s: Shared, fMaster: bool, nBatchSize: nat): (r: (Shared, Exit))
  {
    if s.queue == [] then
      if fMaster && s.nTodo == 0 then
        (s.(nTotal := s.nTotal - 1, fAllOk := true), Return(s.fAllOk))
      else
        (s.(nIdle := s.nIdle + 1), Sleep)
    else
      var n := BatchSize(|s.queue|, s.nTotal, s.nIdle, nBatchSize);
      var keep := |s.queue| - n;
      (s.(queue := s.queue[..keep]), Work(Reverse(s.queue[keep..]), s.fAllOk))
  }

  function AddAll(s: Shared, checks: seq<Check>): (r: Shared)
  {
    s.(queue := s.queue + checks, nTodo := s.nTodo + |checks|)
  }

  /** The mutable object itself. Its methods are the critical sections, proved against the functions above. */
  class CCheckQueue {
    var queue: seq<Check>
    var nIdle: int
    var nTotal: int
    var fAllOk: bool
    var nTodo: int
    const nBatchSize: nat

    ghost function Abs(): (r: Shared)
      reads this
    {
      Shared(queue, nIdle, nTotal, fAllOk, nTodo)
    }

    constructor (nBatchSizeIn: nat)
      ensures Abs() == Shared([], 0, 0, true, 0) && nBatchSize == nBatchSizeIn
    {
      queue, nIdle, nTotal, fAllOk, nTodo := [], 0, 0, true, 0;
      nBatchSize := nBatchSizeIn;
    }

    /** Pushes the checks; `notify` says how many sleeping workers to wake: none, one or all of them. */
    method Add(vChecks: seq<Check>) returns (notifyOne: bool, notifyAll: bool)
      modifies this
      ensures Abs() == AddAll(old(Abs()), vChecks)
      ensures notifyOne == (|vChecks| == 1) && notifyAll == (|vChecks| > 1)
    {
      for i := 0 to |vChecks|
        invariant Abs() == old(Abs()).(queue := old(queue) + vChecks[..i])
      {
        queue := queue + [vChecks[i]];
        assert vChecks[..i + 1] == vChecks[..i] + [vChecks[i]];
      }
      nTodo := nTodo + |vChecks|;
      return |vChecks| == 1, |vChecks| > 1;
    }

    /** The critical section a thread enters at the head of the do loop. */
    method EnterLoop(fMaster: bool, nNow: nat, fOk: bool) returns (exit: Exit, notifyMaster: bool)
      requires nTotal >= 0 && nIdle >= 0
      modifies this
      ensures (Abs(), exit) == Top(CleanUp(old(Abs()), nNow, fOk), fMaster, nBatchSize)
      ensures notifyMaster == (nNow != 0 && !fMaster && CleanUp(old(Abs()), nNow, fOk).nTodo == 0)
    {
      notifyMaster := false;
      if nNow != 0 {
        fAllOk := fAllOk && fOk;
        nTodo := nTodo - nNow;
        notifyMaster := nTodo == 0 && !fMaster;
      } else {
        nTotal := nTotal + 1;
      }
      assert Abs() == CleanUp(old(Abs()), nNow, fOk);
      exit := TakeOrSleep(fMaster);
    }

    /** What a thread does once it holds the lock again after cond.wait. */
    method WakeUp(fMaster: bool) returns (exit: Exit)
      requires nTotal >= 0 && nIdle >= 1
      modifies this
      ensures (Abs(), exit) == Top(old(Abs()).(nIdle := old(nIdle) - 1), fMaster, nBatchSize)
    {
      nIdle := nIdle - 1;
      exit := TakeOrSleep(fMaster);
    }

    method TakeOrSleep(fMaster: bool) returns (exit: Exit)
      requires nTotal >= 0 && nIdle >= 0
      modifies this
      ensures (Abs(), exit) == Top(old(Abs()), fMaster, nBatchSize)
    {
      if queue == [] {
        if fMaster && nTodo == 0 {
          nTotal := nTotal - 1;
          var fRet := fAllOk;
          fAllOk := true;
          return Return(fRet);
        }
        nIdle := nIdle + 1;
        return Sleep;
      }
      var nNow := BatchSize(|queue|, nTotal, nIdle, nBatchSize);
      var vChecks := TakeBatch(nNow);
      return Work(vChecks, fAllOk);
    }

    /** Moves the last nNow checks, last first, into a local batch. */
    method TakeBatch(nNow: nat) returns (vChecks: seq<Check>)
      requires nNow <= |queue|
      modifies this`queue
      ensures queue == old(queue)[..|old(queue)| - nNow]
      ensures vChecks == Reverse(old(queue)[|old(queue)| - nNow..])
    {
      vChecks := [];
      ghost var q := queue;
      for i := 0 to nNow
        invariant queue == q[..|q| - i]
        invariant vChecks == Reverse(q[|q| - i..])
      {
        ReverseSuffix(q, |q| - i - 1);
        vChecks := vChecks + [queue[|queue| - 1]];
        queue := queue[..|queue| - 1];
      }
    }
  }

  lemma ReverseSuffix(q: seq<Check>, k: nat)
    requires k < |q|
    ensures Reverse(q[k..]) == Reverse(q[k + 1..]) + [q[k]]
  {
    assert q[k..][1..] == q[k + 1..];
  }
}
