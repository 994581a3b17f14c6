/**
  What single steps of the check queue do (src/checkqueue.h), in terms of the fields and threads themselves:
  the size and order of a batch, who is woken, and which checks run.
 */
module CheckQueueLaws {
  import opened Prelude
  import opened CheckQueue
  import opened CheckQueueProtocol

  /** Among the numbers from 1 to max(1, nBatchSize), a batch is the largest of which every thread, busy or
      idle or taking it, could have one; and 1 if there is none. */
  lemma BatchExactly(q: nat, nTotal: nat, nIdle: nat, nBatchSize: nat)
    requires q > 0
    ensures var n := BatchSize(q, nTotal, nIdle, nBatchSize);
      && 1 <= n <= q
      && (n == 1 || (n <= nBatchSize && n * (nTotal + nIdle + 1) <= q))
      && (n >= nBatchSize || (n + 1) * (nTotal + nIdle + 1) > q)
  {
    var w := nTotal + nIdle + 1;
    Quotient(q, w, BatchSize(q, nTotal, nIdle, nBatchSize), q / w);
  }

  lemma Quotient(q: nat, w: nat, n: nat, d: nat)
    requires w > 0 && d == q / w
    ensures n <= d ==> n * w <= q
    ensures d <= n ==> (n + 1) * w > q
  {
    assert d * w <= q < (d + 1) * w;
    if n <= d {
      assert n * w <= d * w by { Times(n, d, w); }
    }
    if d <= n {
      assert (d + 1) * w <= (n + 1) * w by { Times(d + 1, n + 1, w); }
    }
  }

  lemma Times(a: nat, b: nat, w: nat)
    requires a <= b
    ensures a * w <= b * w
  {
    assert b * w == a * w + (b - a) * w;
  }

  lemma {:induction false} ReversedAt(s: seq<Check>, i: nat)
    requires i < |s|
    ensures Reverse(s)[i] == s[|s| - 1 - i]
  {
    if i < |s| - 1 {
      ReversedAt(s[1..], i);
    }
  }

  /** A thread at the top of the loop that finds checks takes the last of the queue, from the back, leaves the
      rest in place, and is to run them only if no check is known to have failed. */
  lemma TakeExactly(s: State, t: nat)
    requires t < |s.threads| && s.threads[t].pc == Inside && s.sh.queue != []
    ensures var r := TopStep(s, t);
      var th := r.threads[t];
      && th.pc == Running && th.next == 0 && th.fOk == s.sh.fAllOk
      && |r.sh.queue| + |th.batch| == |s.sh.queue| && r.sh.queue <= s.sh.queue
      && |th.batch| == BatchSize(|s.sh.queue|, s.sh.nTotal, s.sh.nIdle, s.nBatchSize)
      && (forall i :: 0 <= i < |th.batch| ==> th.batch[i] == s.sh.queue[|s.sh.queue| - 1 - i])
      && r.sh == s.sh.(queue := r.sh.queue) && r.threads == s.threads[t := th] && r.hist == s.hist
  {
    var th := TopStep(s, t).threads[t];
    var keep := |s.sh.queue| - |th.batch|;
    forall i | 0 <= i < |th.batch|
      ensures th.batch[i] == s.sh.queue[|s.sh.queue| - 1 - i]
    {
      ReversedAt(s.sh.queue[keep..], i);
    }
  }

  /** A thread that finds the queue empty returns exactly if it is the master and nothing is to be done. */
  lemma EmptyExactly(s: State, t: nat)
    requires t < |s.threads| && s.threads[t].pc == Inside && s.sh.queue == []
    ensures var r := TopStep(s, t);
      && (r.threads[t].pc == Outside <==> t == 0 && s.sh.nTodo == 0)
      && (r.threads[t].pc == Waiting <==> t != 0 || s.sh.nTodo != 0)
      && (forall i :: 0 <= i < |s.threads| && i != t ==> r.threads[i] == s.threads[i])
  {
  }

  /** Adding wakes no sleeping worker for no check, exactly one for a single check, if any sleeps, and all of
      them for more. It never wakes the master. */
  lemma AddWakes(s: State, checks: seq<Check>, w: nat)
    requires Enabled(s, AddBatch(checks, w))
    ensures var r := Next(s, AddBatch(checks, w));
      && |r.threads| == |s.threads| && r.threads[0] == s.threads[0]
      && r.sh.queue == s.sh.queue + checks && r.sh.nTodo == s.sh.nTodo + |checks|
      && (forall i :: 0 < i < |s.threads| && s.threads[i].pc != Waiting ==> r.threads[i] == s.threads[i])
      && (|checks| > 1 ==> forall i :: 0 < i < |s.threads| && s.threads[i].pc == Waiting ==> r.threads[i].pc == Woken)
      && (|checks| == 1 ==> forall i :: 0 < i < |s.threads| && s.threads[i].pc == Waiting ==>
            r.threads[i].pc == if i == w then Woken else Waiting)
      && (|checks| == 1 && (exists i :: 0 < i < |s.threads| && s.threads[i].pc == Waiting) ==>
            0 < w < |s.threads| && s.threads[w].pc == Waiting && r.threads[w].pc == Woken)
      && (checks == [] ==> r.threads == s.threads)
  {
  }

  /** The checks a thread is still going to run unless one fails. */
  function Eager(th: Thread): (n: nat)
  {
    if th.fOk && th.next <= |th.batch| then |th.batch| - th.next else 0
  }

  lemma FailureStep(s: State, l: Label)
    requires !s.sh.fAllOk && Enabled(s, l)
    ensures var r := Next(s, l);
      && |s.hist.verdicts| <= |r.hist.verdicts|
      && (|r.hist.verdicts| == |s.hist.verdicts| ==>
            !r.sh.fAllOk && |r.hist.ran| + Sum(r.threads, Eager) <= |s.hist.ran| + Sum(s.threads, Eager))
  {
    var r := Next(s, l);
    match l
    case Start(t) => SumUpdate(s.threads, t, r.threads[t], Eager);
    case AddBatch(_, _) => SumSame(s.threads, r.threads, Eager);
    case Enter(t) => EnterStep(s, t);
    case Wake(t) => WakeStep(s, t);
    case Exec(t) => SumUpdate(s.threads, t, r.threads[t], Eager);
    case Spurious(t) => SumSame(s.threads, r.threads, Eager);
  }

  lemma WakeStep(s: State, t: nat)
    requires !s.sh.fAllOk && Enabled(s, Wake(t))
    ensures var r := Next(s, Wake(t));
      && |s.hist.verdicts| <= |r.hist.verdicts|
      && (|r.hist.verdicts| == |s.hist.verdicts| ==>
            !r.sh.fAllOk && r.hist.ran == s.hist.ran && Sum(r.threads, Eager) <= Sum(s.threads, Eager))
  {
    var r := Next(s, Wake(t));
    SumUpdate(s.threads, t, r.threads[t], Eager);
    assert s.threads[t := r.threads[t]] == r.threads;
  }

  lemma EnterStep(s: State, t: nat)
    requires !s.sh.fAllOk && Enabled(s, Enter(t))
    ensures var r := Next(s, Enter(t));
      && |s.hist.verdicts| <= |r.hist.verdicts|
      && (|r.hist.verdicts| == |s.hist.verdicts| ==>
            !r.sh.fAllOk && r.hist.ran == s.hist.ran && Sum(r.threads, Eager) <= Sum(s.threads, Eager))
  {
    var r := Next(s, Enter(t));
    var others := r.threads[t := s.threads[t]];
    SumSame(s.threads, others, Eager);
    SumUpdate(others, t, r.threads[t], Eager);
    assert others[t := r.threads[t]] == r.threads;
  }

  lemma {:induction false} VerdictsGrow(s: State, labels: seq<Label>, r: State)
    requires Reaches(s, labels, r)
    ensures |s.hist.verdicts| <= |r.hist.verdicts|
    decreases |labels|
  {
    if labels != [] {
      VerdictsGrow(Next(s, labels[0]), labels[1..], r);
    }
  }

  /** Once a failure is reported, no batch taken before the end of that Wait runs any check: whatever the
      threads do, only those still run that were out at that moment, in batches without a failure. */
  lemma {:induction false} FailureStops(s: State, labels: seq<Label>, r: State)
    requires !s.sh.fAllOk && Reaches(s, labels, r)
    requires |r.hist.verdicts| == |s.hist.verdicts|
    ensures !r.sh.fAllOk
    ensures |r.hist.ran| + Sum(r.threads, Eager) <= |s.hist.ran| + Sum(s.threads, Eager)
    decreases |labels|
  {
    if labels != [] {
      var m := Next(s, labels[0]);
      FailureStep(s, labels[0]);
      VerdictsGrow(m, labels[1..], r);
      FailureStops(m, labels[1..], r);
    }
  }
}
