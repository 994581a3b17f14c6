/**
  One master and any number of workers on a CCheckQueue (src/checkqueue.h), as a state machine with one
  step per critical section, one per executed check and one per wakeup. Thread 0 is the master.
 */
module CheckQueueProtocol {
  import opened Prelude
  import opened CheckQueue

  datatype Pc =
    | Outside      // not in Loop
    | AtLock       // before the critical section; `batch` is the batch just finished, empty the first time
    | Waiting      // inside cond.wait, not notified
    | Woken        // notified or spuriously woken, not yet holding the mutex
    | Inside       // holding the mutex, about to test queue.empty()
    | Running      // executing batch[next..] without the mutex

  datatype Thread = Thread(pc: Pc, batch: seq<Check>, next: nat, fOk: bool)

  const IDLE := Thread(Outside, [], 0, true)

  /** What an observer records: since the last return of Wait, the checks added, executed and passed over,
      and for every return of Wait, the checks it covered, those of them that ran, and its result. */
  datatype History = History(added: multiset<Check>, ran: multiset<Check>, skipped: multiset<Check>, verdicts: seq<Verdict>)

  datatype Verdict = Verdict(added: multiset<Check>, ran: multiset<Check>, ok: bool)

  datatype State = State(sh: Shared, threads: seq<Thread>, nBatchSize: nat, hist: History)

  datatype Label =
    | Start(t: nat)                        // a worker calls Thread(), or the master calls Wait()
    | AddBatch(checks: seq<Check>, w: nat) // the master adds checks; notify_one picks w
    | Enter(t: nat)                        // the critical section at the head of the do loop
    | Wake(t: nat)                         // cond.wait returns with the mutex held
    | Exec(t: nat)                         // run one check
    | Spurious(t: nat)                     // cond.wait wakes up without a notification

  function Init(workers: nat, nBatchSize: nat): (s: State)
  {
    State(Shared([], 0, 0, true, 0), seq(workers + 1, _ => IDLE), nBatchSize,
          History(multiset{}, multiset{}, multiset{}, []))
  }

  // ---------------------------------------------------------------- steps

  predicate Enabled(s: State, l: Label)
  {
    match l
    case Start(t) => t < |s.threads| && s.threads[t].pc == Outside
    case AddBatch(checks, w) =>
      && |s.threads| > 0 && s.threads[0].pc == Outside
      && (|checks| == 1 && (exists i :: 0 < i < |s.threads| && s.threads[i].pc == Waiting) ==>
            0 < w < |s.threads| && s.threads[w].pc == Waiting)
    case Enter(t) => t < |s.threads| && s.threads[t].pc == AtLock
    case Wake(t) => t < |s.threads| && s.threads[t].pc == Woken
    case Exec(t) => t < |s.threads| && s.threads[t].pc == Running && s.threads[t].next < |s.threads[t].batch|
    case Spurious(t) => t < |s.threads| && s.threads[t].pc == Waiting
  }

  function WithThread(s: State, t: nat, th: Thread): (r: State)
    requires t < |s.threads|
  {
    s.(threads := s.threads[t := th])
  }

  function NotifyMaster(threads: seq<Thread>): (r: seq<Thread>)
    requires |threads| > 0
    ensures |r| == |threads|
  {
    if threads[0].pc == Waiting then threads[0 := threads[0].(pc := Woken)] else threads
  }

  function NotifyWorkers(threads: seq<Thread>, all: bool, w: nat): (r: seq<Thread>)
    ensures |r| == |threads|
  {
    seq(|threads|, i requires 0 <= i < |threads| =>
      if i > 0 && threads[i].pc == Waiting && (all || i == w) then threads[i].(pc := Woken) else threads[i])
  }

  /** The first half of the critical section: report the finished batch, wake the master after the last. */
  function CleanStep(s: State, t: nat): (r: State)
    requires t < |s.threads| && s.threads[t].pc == AtLock
    ensures |r.threads| == |s.threads| && r.threads[t].pc == Inside
  {
    var th := s.threads[t];
    var sh := CleanUp(s.sh, |th.batch|, th.fOk);
    var others := if th.batch != [] && sh.nTodo == 0 && t != 0 then NotifyMaster(s.threads) else s.threads;
    State(sh, others[t := Thread(Inside, [], 0, true)], s.nBatchSize, s.hist)
  }

  function UnsleepStep(s: State, t: nat): (r: State)
    requires t < |s.threads| && s.threads[t].pc == Woken
    ensures |r.threads| == |s.threads| && r.threads[t].pc == Inside
  {
    WithThread(s, t, Thread(Inside, [], 0, true)).(sh := s.sh.(nIdle := s.sh.nIdle - 1))
  }

  /** The second half: return, go to sleep, or leave with a batch. */
  function TopStep(s: State, t: nat): (r: State)
    requires t < |s.threads| && s.threads[t].pc == Inside
  {
    var (sh, exit) := Top(s.sh, t == 0, s.nBatchSize);
    match exit
    case Return(result) =>
      WithThread(s, t, IDLE)
      .(sh := sh, hist := History(multiset{}, multiset{}, multiset{}, s.hist.verdicts + [Verdict(s.hist.added, s.hist.ran, result)]))
    case Sleep => WithThread(s, t, Thread(Waiting, [], 0, true)).(sh := sh)
    case Work(batch, fOk) => WithThread(s, t, Thread(Running, batch, 0, fOk)).(sh := sh)
  }

  /** `if (fOk) fOk = check();` for the next check of the batch. */
  function ExecStep(s: State, t: nat): (r: State)
    requires t < |s.threads| && s.threads[t].pc == Running && s.threads[t].next < |s.threads[t].batch|
  {
    var th := s.threads[t];
    var check := th.batch[th.next];
    var pc := if th.next + 1 == |th.batch| then AtLock else Running;
    var hist :=
      if th.fOk then s.hist.(ran := s.hist.ran + multiset{check})
      else s.hist.(skipped := s.hist.skipped + multiset{check});
    WithThread(s, t, Thread(pc, th.batch, th.next + 1, th.fOk && check.passes)).(hist := hist)
  }

  function AddStep(s: State, checks: seq<Check>, w: nat): (r: State)
  {
    State(AddAll(s.sh, checks),
          if checks == [] then s.threads else NotifyWorkers(s.threads, |checks| > 1, w),
          s.nBatchSize,
          s.hist.(added := s.hist.added + multiset(checks)))
  }

  function Next(s: State, l: Label): (r: State)
    requires Enabled(s, l)
  {
    match l
    case Start(t) => WithThread(s, t, Thread(AtLock, [], 0, true))
    case AddBatch(checks, w) => AddStep(s, checks, w)
    case Enter(t) => TopStep(CleanStep(s, t), t)
    case Wake(t) => TopStep(UnsleepStep(s, t), t)
    case Exec(t) => ExecStep(s, t)
    case Spurious(t) => WithThread(s, t, s.threads[t].(pc := Woken))
  }

  predicate Reaches(s: State, labels: seq<Label>, r: State)
    decreases |labels|
  {
    if labels == [] then r == s
    else Enabled(s, labels[0]) && Reaches(Next(s, labels[0]), labels[1..], r)
  }

  // ---------------------------------------------------------------- sums over threads

  function Sum(threads: seq<Thread>, f: Thread -> nat): (n: nat)
  {
    if threads == [] then 0 else f(threads[0]) + Sum(threads[1..], f)
  }

  lemma {:induction false} SumUpdate(threads: seq<Thread>, t: nat, th: Thread, f: Thread -> nat)
    requires t < |threads|
    ensures Sum(threads[t := th], f) + f(threads[t]) == Sum(threads, f) + f(th)
  {
    if t == 0 {
      assert threads[t := th][1..] == threads[1..];
    } else {
      SumUpdate(threads[1..], t - 1, th, f);
      assert threads[t := th][1..] == threads[1..][t - 1 := th];
    }
  }

  lemma {:induction false} SumSame(a: seq<Thread>, b: seq<Thread>, f: Thread -> nat)
    requires |a| == |b| && forall i :: 0 <= i < |a| ==> f(a[i]) == f(b[i])
    ensures Sum(a, f) == Sum(b, f)
  {
    if a != [] {
      SumSame(a[1..], b[1..], f);
    }
  }

  lemma {:induction false} SumAtLeast(threads: seq<Thread>, t: nat, f: Thread -> nat)
    requires t < |threads|
    ensures f(threads[t]) <= Sum(threads, f)
  {
    if t > 0 {
      SumAtLeast(threads[1..], t - 1, f);
    }
  }

  lemma {:induction false} SumPositive(threads: seq<Thread>, f: Thread -> nat) returns (t: nat)
    requires Sum(threads, f) > 0
    ensures t < |threads| && f(threads[t]) > 0
  {
    if f(threads[0]) > 0 {
      t := 0;
    } else {
      t := SumPositive(threads[1..], f);
      t := t + 1;
    }
  }

  function InFlight(th: Thread): (n: nat) { |th.batch| }

  function Sleeping(th: Thread): (n: nat) { if th.pc == Waiting || th.pc == Woken then 1 else 0 }

  function Counted(th: Thread): (n: nat)
  {
    if th.pc == Outside || (th.pc == AtLock && th.batch == []) then 0 else 1
  }

  /** The checks of a batch that have not been looked at yet. */
  function Pending(th: Thread): (m: multiset<Check>)
  {
    if th.next <= |th.batch| then multiset(th.batch[th.next..]) else multiset{}
  }

  function AllPending(threads: seq<Thread>): (m: multiset<Check>)
  {
    if threads == [] then multiset{} else Pending(threads[0]) + AllPending(threads[1..])
  }

  lemma {:induction false} PendingUpdate(threads: seq<Thread>, t: nat, th: Thread)
    requires t < |threads|
    ensures AllPending(threads[t := th]) + Pending(threads[t]) == AllPending(threads) + Pending(th)
  {
    var rest := threads[1..];
    if t == 0 {
      assert threads[t := th][1..] == rest;
    } else {
      PendingUpdate(rest, t - 1, th);
      assert threads[t := th][1..] == rest[t - 1 := th];
      MoveAcross(AllPending(rest[t - 1 := th]), Pending(rest[t - 1]), AllPending(rest), Pending(th), Pending(threads[0]));
    }
  }

  lemma MoveAcross(a: multiset<Check>, b: multiset<Check>, c: multiset<Check>, d: multiset<Check>, x: multiset<Check>)
    requires a + b == c + d
    ensures (x + a) + b == (x + c) + d
  {
    assert (x + a) + b == x + (a + b) == x + (c + d) == (x + c) + d;
  }

  lemma {:induction false} PendingSame(a: seq<Thread>, b: seq<Thread>)
    requires |a| == |b| && forall i :: 0 <= i < |a| ==> Pending(a[i]) == Pending(b[i])
    ensures AllPending(a) == AllPending(b)
  {
    if a != [] {
      PendingSame(a[1..], b[1..]);
    }
  }

  lemma {:induction false} NothingPending(threads: seq<Thread>)
    requires Sum(threads, InFlight) == 0
    ensures AllPending(threads) == multiset{}
    ensures forall i :: 0 <= i < |threads| ==> threads[i].batch == []
  {
    if threads != [] {
      NothingPending(threads[1..]);
      forall i | 0 <= i < |threads| ensures threads[i].batch == [] {
        if i > 0 { assert threads[i] == threads[1..][i - 1]; }
      }
    }
  }

  // ---------------------------------------------------------------- the invariant

  predicate ThreadOk(th: Thread)
  {
    match th.pc
    case AtLock => th.next == |th.batch|
    case Running => th.next < |th.batch|
    case _ => th.batch == [] && th.next == 0
  }

  /** nTodo is the queued checks plus those in local batches; the other counters count threads. */
  predicate CountersOk(s: State)
  {
    && |s.threads| > 0
    && (forall i :: 0 <= i < |s.threads| ==> ThreadOk(s.threads[i]))
    && s.sh.nTodo == |s.sh.queue| + Sum(s.threads, InFlight)
    && s.sh.nIdle == Sum(s.threads, Sleeping)
    && s.sh.nTotal == Sum(s.threads, Counted)
  }

  /** Every added check is in exactly one place. */
  predicate Conserved(s: State)
  {
    s.hist.added == multiset(s.sh.queue) + AllPending(s.threads) + s.hist.ran + s.hist.skipped
  }

  predicate AllPass(m: multiset<Check>) { forall c :: c in m ==> c.passes }

  /** Nothing has been seen to fail: neither in the shared flag nor in a batch still being worked on. */
  predicate NoFailureSeen(s: State)
  {
    s.sh.fAllOk && forall i :: 0 <= i < |s.threads| && s.threads[i].batch != [] ==> s.threads[i].fOk
  }

  /** The flags agree with what ran. */
  predicate VerdictOk(s: State)
  {
    && (NoFailureSeen(s) ==> s.hist.skipped == multiset{} && AllPass(s.hist.ran))
    && (!NoFailureSeen(s) ==> !AllPass(s.hist.ran))
  }

  /** No lost wakeup: the master sleeps un-notified only while some batch is still out. */
  predicate MasterOk(s: State)
  {
    |s.threads| > 0 && (s.threads[0].pc == Waiting ==> s.sh.nTodo > 0 && s.sh.queue == [])
  }

  /** A true result means that every check added since the Wait before ran and passed, a false one that a
      check ran and failed. */
  predicate Honest(v: Verdict)
  {
    && v.ok == AllPass(v.added)
    && if v.ok then v.ran == v.added else v.ran <= v.added && !AllPass(v.ran)
  }

  predicate ReturnsOk(s: State)
  {
    forall i :: 0 <= i < |s.hist.verdicts| ==> Honest(s.hist.verdicts[i])
  }

  predicate Inv(s: State)
  {
    CountersOk(s) && Conserved(s) && VerdictOk(s) && MasterOk(s) && ReturnsOk(s)
  }

  // ---------------------------------------------------------------- preservation, step by step

  /** Replacing one thread keeps the counters exact when they move by that thread's share. */
  lemma ReplaceCounters(s: State, r: State, t: nat, th: Thread)
    requires CountersOk(s) && t < |s.threads| && r.threads == s.threads[t := th] && ThreadOk(th)
    requires r.sh.nTodo - s.sh.nTodo == |r.sh.queue| - |s.sh.queue| + |th.batch| - |s.threads[t].batch|
    requires r.sh.nIdle - s.sh.nIdle == Sleeping(th) - Sleeping(s.threads[t])
    requires r.sh.nTotal - s.sh.nTotal == Counted(th) - Counted(s.threads[t])
    ensures CountersOk(r)
  {
    SumUpdate(s.threads, t, th, InFlight);
    SumUpdate(s.threads, t, th, Sleeping);
    SumUpdate(s.threads, t, th, Counted);
  }

  /** All checks that are somewhere, seen from one thread. */
  function Elsewhere(s: State, pending: multiset<Check>): (m: multiset<Check>)
  {
    multiset(s.sh.queue) + pending + s.hist.ran + s.hist.skipped
  }

  lemma ReplaceConserved(s: State, r: State, t: nat, th: Thread)
    requires Conserved(s) && t < |s.threads| && r.threads == s.threads[t := th]
    requires r.hist.added == s.hist.added
    requires Elsewhere(r, Pending(th)) == Elsewhere(s, Pending(s.threads[t]))
    ensures Conserved(r)
  {
    PendingUpdate(s.threads, t, th);
    var a, b := AllPending(r.threads), AllPending(s.threads);
    assert a + Pending(s.threads[t]) == b + Pending(th);
    assert Elsewhere(r, a) == Elsewhere(s, b) by {
      forall c ensures Elsewhere(r, a)[c] == Elsewhere(s, b)[c] {
        assert (a + Pending(s.threads[t]))[c] == (b + Pending(th))[c];
        assert Elsewhere(r, Pending(th))[c] == Elsewhere(s, Pending(s.threads[t]))[c];
      }
    }
  }

  predicate OthersFine(threads: seq<Thread>, t: nat)
  {
    forall i :: 0 <= i < |threads| && i != t && threads[i].batch != [] ==> threads[i].fOk
  }

  lemma NoFailureSplit(s: State, t: nat)
    requires t < |s.threads|
    ensures NoFailureSeen(s) <==>
      s.sh.fAllOk && OthersFine(s.threads, t) && (s.threads[t].batch != [] ==> s.threads[t].fOk)
  {
  }

  lemma OthersSame(threads: seq<Thread>, t: nat, th: Thread)
    requires t < |threads|
    ensures OthersFine(threads, t) == OthersFine(threads[t := th], t)
  {
    forall i | 0 <= i < |threads| && i != t ensures threads[t := th][i] == threads[i] {}
    if OthersFine(threads[t := th], t) {
      forall i | 0 <= i < |threads| && i != t && threads[i].batch != [] ensures threads[i].fOk {
        assert threads[t := th][i].fOk;
      }
    }
  }

  /** Replacing one thread without touching the history keeps the verdict when the flags combine alike. */
  lemma ReplaceVerdict(s: State, r: State, t: nat, th: Thread)
    requires VerdictOk(s) && t < |s.threads| && r.threads == s.threads[t := th] && r.hist == s.hist
    requires (r.sh.fAllOk && (th.batch != [] ==> th.fOk))
        <==> (s.sh.fAllOk && (s.threads[t].batch != [] ==> s.threads[t].fOk))
    ensures VerdictOk(r)
  {
    NoFailureSplit(s, t);
    NoFailureSplit(r, t);
    OthersSame(s.threads, t, r.threads[t]);
  }

  /** Waking sleepers changes no count and no batch. */
  lemma WakingKeepsSums(a: seq<Thread>, b: seq<Thread>)
    requires |a| == |b|
    requires forall i :: 0 <= i < |a| ==> b[i] == a[i] || (a[i].pc == Waiting && b[i] == a[i].(pc := Woken))
    ensures Sum(a, InFlight) == Sum(b, InFlight)
    ensures Sum(a, Sleeping) == Sum(b, Sleeping)
    ensures Sum(a, Counted) == Sum(b, Counted)
    ensures AllPending(a) == AllPending(b)
  {
    SumSame(a, b, InFlight);
    SumSame(a, b, Sleeping);
    SumSame(a, b, Counted);
    PendingSame(a, b);
  }

  lemma WakingKeepsInv(s: State, threads: seq<Thread>)
    requires Inv(s) && |threads| == |s.threads|
    requires forall i :: 0 <= i < |threads| ==>
      threads[i] == s.threads[i] || (s.threads[i].pc == Waiting && threads[i] == s.threads[i].(pc := Woken))
    ensures Inv(s.(threads := threads))
  {
    WakingKeepsSums(s.threads, threads);
    assert NoFailureSeen(s.(threads := threads)) == NoFailureSeen(s);
  }

  lemma CleanKeepsInv(s: State, t: nat)
    requires Inv(s) && t < |s.threads| && s.threads[t].pc == AtLock
    ensures Inv(CleanStep(s, t))
  {
    var r := CleanStep(s, t);
    var woken := r.threads[t := s.threads[t]];
    var m := s.(threads := woken);
    WakingKeepsInv(s, woken);
    assert woken[t := r.threads[t]] == r.threads;
    SumAtLeast(woken, t, InFlight);
    ReplaceCounters(m, r, t, r.threads[t]);
    ReplaceConserved(m, r, t, r.threads[t]);
    ReplaceVerdict(m, r, t, r.threads[t]);
  }

  lemma UnsleepKeepsInv(s: State, t: nat)
    requires Inv(s) && t < |s.threads| && s.threads[t].pc == Woken
    ensures Inv(UnsleepStep(s, t))
  {
    var r := UnsleepStep(s, t);
    ReplaceCounters(s, r, t, r.threads[t]);
    ReplaceConserved(s, r, t, r.threads[t]);
    ReplaceVerdict(s, r, t, r.threads[t]);
  }

  lemma TopKeepsInv(s: State, t: nat)
    requires Inv(s) && t < |s.threads| && s.threads[t].pc == Inside
    ensures Inv(TopStep(s, t))
  {
    match Top(s.sh, t == 0, s.nBatchSize).1
    case Return(_) => ReturnKeepsInv(s);
    case Sleep => SleepKeepsInv(s, t);
    case Work(_, _) => TakeKeepsInv(s, t);
  }

  lemma SleepKeepsInv(s: State, t: nat)
    requires Inv(s) && t < |s.threads| && s.threads[t].pc == Inside
    requires Top(s.sh, t == 0, s.nBatchSize).1.Sleep?
    ensures Inv(TopStep(s, t))
  {
    var r := TopStep(s, t);
    ReplaceCounters(s, r, t, r.threads[t]);
    ReplaceConserved(s, r, t, r.threads[t]);
    ReplaceVerdict(s, r, t, r.threads[t]);
  }

  lemma TakeKeepsInv(s: State, t: nat)
    requires Inv(s) && t < |s.threads| && s.threads[t].pc == Inside && s.sh.queue != []
    ensures Inv(TopStep(s, t))
  {
    var r := TopStep(s, t);
    var batch := r.threads[t].batch;
    var keep := |s.sh.queue| - |batch|;
    assert s.sh.queue == s.sh.queue[..keep] + s.sh.queue[keep..];
    ReversePermutes(s.sh.queue[keep..]);
    assert batch[0..] == batch;
    ReplaceCounters(s, r, t, r.threads[t]);
    ReplaceConserved(s, r, t, r.threads[t]);
    ReplaceVerdict(s, r, t, r.threads[t]);
  }

  /** When Wait returns, the queue is drained, its result is honest, and it leaves the queue reset: nothing is
      queued, nothing is out, the flag is true again. */
  lemma ReturnKeepsInv(s: State)
    requires Inv(s) && s.threads[0].pc == Inside && s.sh.queue == [] && s.sh.nTodo == 0
    ensures Honest(Verdict(s.hist.added, s.hist.ran, s.sh.fAllOk))
    ensures var r := TopStep(s, 0);
      Inv(r) && r.sh.queue == [] && r.sh.nTodo == 0 && r.sh.fAllOk && forall i :: 0 <= i < |r.threads| ==> r.threads[i].batch == []
  {
    NothingPending(s.threads);
    assert NoFailureSeen(s) == s.sh.fAllOk;
    assert s.hist.added == s.hist.ran + s.hist.skipped;
    if !AllPass(s.hist.ran) {
      var c :| c in s.hist.ran && !c.passes;
      assert c in s.hist.added;
    }
    var r := TopStep(s, 0);
    ReplaceCounters(s, r, 0, IDLE);
    NothingPending(r.threads);
    assert NoFailureSeen(r);
  }

  lemma ExecKeepsInv(s: State, t: nat)
    requires Inv(s) && Enabled(s, Exec(t))
    ensures Inv(ExecStep(s, t))
  {
    ExecKeepsCounters(s, t);
    ExecKeepsConserved(s, t);
    ExecKeepsVerdict(s, t);
  }

  lemma ExecKeepsCounters(s: State, t: nat)
    requires CountersOk(s) && Enabled(s, Exec(t))
    ensures CountersOk(ExecStep(s, t))
  {
    ReplaceCounters(s, ExecStep(s, t), t, ExecStep(s, t).threads[t]);
  }

  lemma ExecKeepsConserved(s: State, t: nat)
    requires Conserved(s) && Enabled(s, Exec(t))
    ensures Conserved(ExecStep(s, t))
  {
    var r := ExecStep(s, t);
    var th := s.threads[t];
    assert th.batch[th.next..] == [th.batch[th.next]] + th.batch[th.next + 1..];
    assert Pending(th) == multiset{th.batch[th.next]} + Pending(r.threads[t]);
    assert Elsewhere(r, Pending(r.threads[t])) == Elsewhere(s, Pending(th));
    ReplaceConserved(s, r, t, r.threads[t]);
  }

  lemma ExecKeepsVerdict(s: State, t: nat)
    requires VerdictOk(s) && Enabled(s, Exec(t))
    ensures VerdictOk(ExecStep(s, t))
  {
    var r := ExecStep(s, t);
    var c := s.threads[t].batch[s.threads[t].next];
    NoFailureSplit(s, t);
    NoFailureSplit(r, t);
    OthersSame(s.threads, t, r.threads[t]);
    if !NoFailureSeen(s) {
      var x :| x in s.hist.ran && !x.passes;
      assert x in r.hist.ran;
    } else if !c.passes {
      assert c in r.hist.ran;
    }
  }

  lemma AddKeepsInv(s: State, checks: seq<Check>, w: nat)
    requires Inv(s) && Enabled(s, AddBatch(checks, w))
    ensures Inv(AddStep(s, checks, w))
  {
    var r := AddStep(s, checks, w);
    var m := s.(threads := r.threads);
    WakingKeepsInv(s, r.threads);
    assert NoFailureSeen(r) == NoFailureSeen(m);
  }

  /** Between steps nobody holds the mutex. */
  predicate Settled(s: State)
  {
    forall i :: 0 <= i < |s.threads| ==> s.threads[i].pc != Inside
  }

  lemma StepKeepsInv(s: State, l: Label)
    requires Inv(s) && Enabled(s, l)
    ensures Inv(Next(s, l))
  {
    match l
    case Start(t) => StartKeepsInv(s, t);
    case AddBatch(checks, w) => AddKeepsInv(s, checks, w);
    case Enter(t) => CleanKeepsInv(s, t); TopKeepsInv(CleanStep(s, t), t);
    case Wake(t) => UnsleepKeepsInv(s, t); TopKeepsInv(UnsleepStep(s, t), t);
    case Exec(t) => ExecKeepsInv(s, t);
    case Spurious(t) => WakingKeepsInv(s, s.threads[t := s.threads[t].(pc := Woken)]);
  }

  lemma StartKeepsInv(s: State, t: nat)
    requires Inv(s) && Enabled(s, Start(t))
    ensures Inv(Next(s, Start(t)))
  {
    var r := Next(s, Start(t));
    ReplaceCounters(s, r, t, r.threads[t]);
    ReplaceConserved(s, r, t, r.threads[t]);
    ReplaceVerdict(s, r, t, r.threads[t]);
  }

  lemma StepSettles(s: State, l: Label)
    requires Settled(s) && Enabled(s, l)
    ensures Settled(Next(s, l))
  {
  }

  lemma InitInv(workers: nat, nBatchSize: nat)
    ensures Inv(Init(workers, nBatchSize)) && Settled(Init(workers, nBatchSize))
  {
    IdleSums(seq(workers + 1, _ => IDLE));
  }

  lemma {:induction false} IdleSums(threads: seq<Thread>)
    requires forall i :: 0 <= i < |threads| ==> threads[i] == IDLE
    ensures Sum(threads, InFlight) == Sum(threads, Sleeping) == Sum(threads, Counted) == 0
    ensures AllPending(threads) == multiset{}
  {
    if threads != [] {
      IdleSums(threads[1..]);
    }
  }

  lemma {:induction false} RunKeepsInv(s: State, labels: seq<Label>, r: State)
    requires Inv(s) && Settled(s) && Reaches(s, labels, r)
    ensures Inv(r) && Settled(r)
    decreases |labels|
  {
    if labels != [] {
      StepKeepsInv(s, labels[0]);
      StepSettles(s, labels[0]);
      RunKeepsInv(Next(s, labels[0]), labels[1..], r);
    }
  }

  /** Over every interleaving of a master and any number of workers: the counters are exact, each added
      check is queued, pending, executed or passed over exactly once, every Wait returned an honest result, and
      the master never sleeps un-notified without a batch still out. */
  lemma EveryRunIsSafe(workers: nat, nBatchSize: nat, labels: seq<Label>, r: State)
    requires Reaches(Init(workers, nBatchSize), labels, r)
    ensures CountersOk(r) && Conserved(r) && ReturnsOk(r) && MasterOk(r)
  {
    InitInv(workers, nBatchSize);
    RunKeepsInv(Init(workers, nBatchSize), labels, r);
  }

  // ---------------------------------------------------------------- progress

  /** The work left: 3 for a queued check, 2 for a check in a batch, 1 for one executed but not reported. */
  function ThreadWork(th: Thread): (n: nat)
  {
    if th.next <= |th.batch| then 2 * |th.batch| - th.next else 0
  }

  function WorkLeft(s: State): (n: nat)
  {
    3 * |s.sh.queue| + Sum(s.threads, ThreadWork)
  }

  predicate MasterInWait(s: State) { |s.threads| > 0 && s.threads[0].pc != Outside }

  lemma CleanWork(s: State, t: nat)
    requires Inv(s) && t < |s.threads| && s.threads[t].pc == AtLock
    ensures WorkLeft(CleanStep(s, t)) == WorkLeft(s) - |s.threads[t].batch|
  {
    var r := CleanStep(s, t);
    var others := r.threads[t := s.threads[t]];
    SumSame(s.threads, others, ThreadWork);
    SumUpdate(others, t, r.threads[t], ThreadWork);
    assert others[t := r.threads[t]] == r.threads;
  }

  lemma UnsleepWork(s: State, t: nat)
    requires Inv(s) && t < |s.threads| && s.threads[t].pc == Woken
    ensures WorkLeft(UnsleepStep(s, t)) == WorkLeft(s)
  {
    SumUpdate(s.threads, t, UnsleepStep(s, t).threads[t], ThreadWork);
  }

  lemma TopWork(s: State, t: nat)
    requires Inv(s) && t < |s.threads| && s.threads[t].pc == Inside
    ensures if s.sh.queue == [] then WorkLeft(TopStep(s, t)) == WorkLeft(s)
            else WorkLeft(TopStep(s, t)) < WorkLeft(s)
  {
    SumUpdate(s.threads, t, TopStep(s, t).threads[t], ThreadWork);
  }

  lemma ExecWork(s: State, t: nat)
    requires Inv(s) && Enabled(s, Exec(t))
    ensures WorkLeft(ExecStep(s, t)) == WorkLeft(s) - 1
  {
    SumUpdate(s.threads, t, ExecStep(s, t).threads[t], ThreadWork);
  }

  /** Only adding checks creates work; no other step, a spurious wakeup included, undoes any. */
  lemma WorkNeverGrows(s: State, l: Label)
    requires Inv(s) && Enabled(s, l) && !l.AddBatch?
    ensures WorkLeft(Next(s, l)) <= WorkLeft(s)
  {
    match l
    case Start(t) => SumUpdate(s.threads, t, Next(s, l).threads[t], ThreadWork);
    case Enter(t) => CleanWork(s, t); CleanKeepsInv(s, t); TopWork(CleanStep(s, t), t);
    case Wake(t) => UnsleepWork(s, t); UnsleepKeepsInv(s, t); TopWork(UnsleepStep(s, t), t);
    case Exec(t) => ExecWork(s, t);
    case Spurious(t) => SumUpdate(s.threads, t, Next(s, l).threads[t], ThreadWork);
  }

  /** A step that brings an outstanding Wait closer to its end. */
  predicate Advances(s: State, l: Label)
    requires Enabled(s, l)
  {
    WorkLeft(Next(s, l)) < WorkLeft(s) || (MasterInWait(s) && !MasterInWait(Next(s, l)))
  }

  /** No deadlock: while a Wait is outstanding, some thread can make an advancing step right away. */
  lemma WaitCanAdvance(s: State)
    requires Inv(s) && Settled(s) && MasterInWait(s)
    ensures exists l :: Enabled(s, l) && !l.AddBatch? && Advances(s, l)
  {
    if Sum(s.threads, InFlight) > 0 {
      var t := SumPositive(s.threads, InFlight);
      assert ThreadOk(s.threads[t]);
      if s.threads[t].pc == Running {
        ExecWork(s, t);
        assert Advances(s, Exec(t));
      } else {
        EnterAdvances(s, t);
      }
    } else {
      NothingPending(s.threads);
      assert ThreadOk(s.threads[0]) && s.threads[0].batch == [];
      if s.threads[0].pc == AtLock {
        EnterAdvances(s, 0);
      } else {
        WakeAdvances(s);
      }
    }
  }

  lemma EnterAdvances(s: State, t: nat)
    requires Inv(s) && t < |s.threads| && s.threads[t].pc == AtLock
    requires s.threads[t].batch != [] || t == 0
    requires s.threads[t].batch == [] ==> Sum(s.threads, InFlight) == 0
    ensures Advances(s, Enter(t))
  {
    CleanWork(s, t);
    CleanKeepsInv(s, t);
    TopWork(CleanStep(s, t), t);
  }

  lemma WakeAdvances(s: State)
    requires Inv(s) && s.threads[0].pc == Woken && Sum(s.threads, InFlight) == 0
    ensures Advances(s, Wake(0))
  {
    UnsleepWork(s, 0);
    UnsleepKeepsInv(s, 0);
    TopWork(UnsleepStep(s, 0), 0);
  }
}
