/**
 The check queue of src/checkqueue.h: one master and any number of workers share a stack of
 verification jobs under a mutex and two condition variables.

 A run is a sequence of atomic actions. Every critical section of `Loop`, `Add` and `Wait` is one
 action, because the mutex is held throughout; running one job outside the mutex is another; and a
 condition variable may wake a thread spuriously. Thread 0 is the master.
 */
module CheckQueue {
  import opened Power
  import opened Wrappers

  /** One verification job; `passes` is what calling it returns. */
  datatype Check = Check(id: nat, passes: bool)

  /** Where a thread stands with respect to `Loop` while it does not own the mutex. */
  datatype Thread =
    | Outside                                           // not inside Loop
    | Waiting(signalled: bool)                          // in cond.wait(); signalled once a wake-up is due
    | Holding(nNow: nat, rest: seq<Check>, fOk: bool)   // owns a batch of nNow jobs, `rest` of them left

  datatype State = State(
    nBatchSize: nat, queue: seq<Check>, nIdle: int, nTotal: int, fAllOk: bool, nTodo: int,
    threads: seq<Thread>)

  datatype Action =
    | AddChecks(vChecks: seq<Check>, woken: nat)  // master: Add(); `woken` is notify_one's choice
    | Acquire(t: nat)                             // a critical section of Loop
    | Execute(t: nat)                             // one job of the own batch, outside the mutex
    | SpuriousWake(t: nat)                        // cond.wait() returns without a notification

  const MASTER: nat := 0

  predicate AllPass(s: seq<Check>) {
    forall i :: 0 <= i < |s| ==> s[i].passes
  }

  // ----- the steps -----

  function BatchSize(s: State): (n: nat)
    requires 0 <= s.nTotal && 0 <= s.nIdle && s.queue != []
    ensures 1 <= n <= |s.queue|
  {
    var share := |s.queue| / (s.nTotal + s.nIdle + 1);
    var capped := if s.nBatchSize < share then s.nBatchSize else share;
    if capped < 1 then 1 else capped
  }

  /** The largest batch within the limit and within a thread's share of the queue, or one job. */
  lemma BatchSizeMeans(s: State, n: nat)
    requires 0 <= s.nTotal && 0 <= s.nIdle && s.queue != [] && n >= 1
    ensures n <= BatchSize(s) <==> n == 1 || (n <= s.nBatchSize && n * (s.nTotal + s.nIdle + 1) <= |s.queue|)
  {
    ShareIs(|s.queue|, s.nTotal + s.nIdle + 1, n);
  }

  lemma ShareIs(all: nat, parts: int, n: nat)
    requires parts > 0
    ensures n <= all / parts <==> n * parts <= all
  {
    var q := all / parts;
    QuotientBounds(all, parts);
    if n <= q { MulMono(n, q, parts); } else { MulMono(q + 1, n, parts); }
  }

  lemma QuotientBounds(all: nat, parts: int)
    requires parts > 0
    ensures (all / parts) * parts <= all < (all / parts + 1) * parts
  {
    Distribute(all / parts, 1, parts);
  }

  /** The last n jobs of the queue in the order in which they are popped. */
  function Popped(queue: seq<Check>, n: nat): seq<Check>
    requires n <= |queue|
  {
    seq(n, i requires 0 <= i < n => queue[|queue| - 1 - i])
  }

  /** The part of a critical section from the `while (queue.empty())` test on, for a thread t that
      is counted in nTotal, is not counted in nIdle and holds no batch. */
  function LoopHead(s: State, t: nat): (State, Option<bool>)
    requires t < |s.threads| && 0 <= s.nTotal && 0 <= s.nIdle
  {
    if s.queue == [] then
      if t == MASTER && s.nTodo == 0 then
        (s.(nTotal := s.nTotal - 1, fAllOk := true, threads := s.threads[t := Outside]), Some(s.fAllOk))
      else
        (s.(nIdle := s.nIdle + 1, threads := s.threads[t := Waiting(false)]), None)
    else
      var n := BatchSize(s);
      (s.(queue := s.queue[..|s.queue| - n],
          threads := s.threads[t := Holding(n, Popped(s.queue, n), s.fAllOk)]), None)
  }

  function SignalMaster(threads: seq<Thread>): seq<Thread>
    requires MASTER < |threads|
  {
    if threads[MASTER].Waiting? then threads[MASTER := Waiting(true)] else threads
  }

  /** The part of a critical section before the loop head: clean-up of the previous batch, first
      entry, or return from cond.wait(). Thread t holds nothing afterwards. */
  function BeforeLoopHead(s: State, t: nat): State
    requires t < |s.threads|
  {
    match s.threads[t]
    case Outside => s.(nTotal := s.nTotal + 1)
    case Waiting(_) => s.(nIdle := s.nIdle - 1, threads := s.threads[t := Outside])
    case Holding(nNow, _, fOk) =>
      var left := s.nTodo - nNow;
      var idle := s.threads[t := Outside];
      s.(fAllOk := s.fAllOk && fOk, nTodo := left,
         threads := if left == 0 && t != MASTER then SignalMaster(idle) else idle)
  }

  predicate IsSleepingWorker(threads: seq<Thread>, i: int) {
    0 < i < |threads| && threads[i] == Waiting(false)
  }

  function NotifyWorkers(threads: seq<Thread>, count: nat, woken: nat): seq<Thread> {
    if count == 0 then threads
    else if count == 1 then
      if IsSleepingWorker(threads, woken) then threads[woken := Waiting(true)] else threads
    else
      seq(|threads|, i requires 0 <= i < |threads| =>
        if IsSleepingWorker(threads, i) then Waiting(true) else threads[i])
  }

  predicate Enabled(s: State, a: Action) {
    && 0 < |s.threads| && 0 <= s.nTotal && 0 <= s.nIdle
    && match a
       case AddChecks(vChecks, woken) =>
         && s.threads[MASTER] == Outside
         && (|vChecks| == 1 && !IsSleepingWorker(s.threads, woken) ==>
               forall i :: 0 <= i < |s.threads| ==> !IsSleepingWorker(s.threads, i))
       case Acquire(t) =>
         && t < |s.threads|
         && (s.threads[t].Waiting? ==> s.threads[t].signalled && 0 < s.nIdle)
         && (s.threads[t].Holding? ==> s.threads[t].rest == [])
       case Execute(t) => t < |s.threads| && s.threads[t].Holding? && s.threads[t].rest != []
       case SpuriousWake(t) => t < |s.threads| && s.threads[t] == Waiting(false)
  }

  /** The state after action a, and what `Wait` returned if the action ended it. */
  function Apply(s: State, a: Action): (State, Option<bool>)
    requires Enabled(s, a)
  {
    match a
    case AddChecks(vChecks, woken) =>
      (s.(queue := s.queue + vChecks, nTodo := s.nTodo + |vChecks|,
          threads := NotifyWorkers(s.threads, |vChecks|, woken)), None)
    case Acquire(t) => LoopHead(BeforeLoopHead(s, t), t)
    case Execute(t) =>
      var h := s.threads[t];
      var ok := if h.fOk then h.rest[0].passes else false;
      (s.(threads := s.threads[t := Holding(h.nNow, h.rest[1..], ok)]), None)
    case SpuriousWake(t) => (s.(threads := s.threads[t := Waiting(true)]), None)
  }

  predicate IsIdle(s: State) {
    s.nTotal == s.nIdle && s.nTodo == 0 && s.fAllOk
  }

  // ----- totals over all threads -----

  function Total(threads: seq<Thread>, f: Thread -> nat): nat {
    if threads == [] then 0 else Total(threads[..|threads| - 1], f) + f(threads[|threads| - 1])
  }

  function InLoop(th: Thread): nat { if th.Outside? then 0 else 1 }
  function Idling(th: Thread): nat { if th.Waiting? then 1 else 0 }
  function Held(th: Thread): nat { if th.Holding? then th.nNow else 0 }
  function Busy(th: Thread): nat { if th.Holding? then 1 else 0 }

  /** Steps a thread can still take on its own before it sleeps or returns. */
  function Pending(th: Thread): nat {
    match th
    case Outside => 3
    case Waiting(signalled) => if signalled then 1 else 0
    case Holding(_, rest, _) => 2 + |rest|
  }

  lemma {:induction false} TotalUpdate(threads: seq<Thread>, f: Thread -> nat, i: nat, th: Thread)
    requires i < |threads|
    ensures Total(threads[i := th], f) + f(threads[i]) == Total(threads, f) + f(th)
  {
    var last := |threads| - 1;
    if i == last {
      assert threads[i := th][..last] == threads[..last];
    } else {
      assert threads[i := th][..last] == threads[..last][i := th];
      TotalUpdate(threads[..last], f, i, th);
    }
  }

  lemma {:induction false} TotalSame(a: seq<Thread>, b: seq<Thread>, f: Thread -> nat)
    requires |a| == |b| && forall i :: 0 <= i < |a| ==> f(a[i]) == f(b[i])
    ensures Total(a, f) == Total(b, f)
  {
    if a != [] {
      TotalSame(a[..|a| - 1], b[..|b| - 1], f);
    }
  }

  lemma {:induction false} TotalAtLeast(threads: seq<Thread>, f: Thread -> nat, i: nat)
    requires i < |threads|
    ensures f(threads[i]) <= Total(threads, f)
  {
    if i < |threads| - 1 {
      TotalAtLeast(threads[..|threads| - 1], f, i);
    }
  }

  lemma {:induction false} TotalSplit(threads: seq<Thread>)
    ensures Total(threads, InLoop) == Total(threads, Idling) + Total(threads, Busy)
  {
    if threads != [] {
      TotalSplit(threads[..|threads| - 1]);
    }
  }

  lemma {:induction false} SomeoneHolds(threads: seq<Thread>) returns (i: nat)
    requires Total(threads, Held) > 0
    ensures i < |threads| && threads[i].Holding?
  {
    if threads[|threads| - 1].Holding? {
      i := |threads| - 1;
    } else {
      i := SomeoneHolds(threads[..|threads| - 1]);
    }
  }

  lemma {:induction false} NobodyBusy(threads: seq<Thread>)
    requires forall i :: 0 <= i < |threads| ==> threads[i].Holding? ==> threads[i].nNow >= 1
    requires Total(threads, Held) == 0
    ensures Total(threads, Busy) == 0
  {
    if threads != [] {
      NobodyBusy(threads[..|threads| - 1]);
    }
  }

  // ----- the invariant -----

  /** No failure has been seen or is still to be seen in what thread th holds. */
  predicate Clean(th: Thread) {
    th.Holding? ==> th.fOk && AllPass(th.rest)
  }

  predicate AllClean(threads: seq<Thread>) {
    forall i :: 0 <= i < |threads| ==> Clean(threads[i])
  }

  /** The invariant for a state in which `inside` threads are in a critical section (0 or 1), after
      the checks `added` were added since Wait last returned. */
  ghost predicate Core(s: State, added: seq<Check>, inside: nat) {
    && 0 < |s.threads|
    && s.nTotal == Total(s.threads, InLoop) + inside
    && s.nIdle == Total(s.threads, Idling)
    && s.nTodo == |s.queue| + Total(s.threads, Held)
    && s.nTodo <= |added|
    && (forall i :: 0 <= i < |s.threads| ==> s.threads[i].Holding? ==>
          1 <= s.threads[i].nNow && |s.threads[i].rest| <= s.threads[i].nNow)
    && (AllPass(added) <==>
          s.fAllOk && AllPass(s.queue) && AllClean(s.threads))
    && (s.threads[MASTER].Waiting? ==> s.queue == [])
    && (s.threads[MASTER] == Waiting(false) ==> s.nTodo > 0)
  }

  ghost predicate Inv(s: State, added: seq<Check>) {
    Core(s, added, 0)
  }

  predicate Init(s: State) {
    && 0 < |s.threads| && s.queue == [] && s.nIdle == 0 && s.nTotal == 0 && s.fAllOk && s.nTodo == 0
    && forall i :: 0 <= i < |s.threads| ==> s.threads[i] == Outside
  }

  lemma {:induction false} AllOutside(threads: seq<Thread>)
    requires forall i :: 0 <= i < |threads| ==> threads[i] == Outside
    ensures Total(threads, InLoop) == 0 && Total(threads, Idling) == 0 && Total(threads, Held) == 0
  {
    if threads != [] {
      AllOutside(threads[..|threads| - 1]);
    }
  }

  lemma InitInv(s: State)
    requires Init(s)
    ensures Inv(s, [])
  {
    AllOutside(s.threads);
  }

  lemma PoppedPass(queue: seq<Check>, n: nat)
    requires n <= |queue|
    ensures AllPass(queue) <==> AllPass(queue[..|queue| - n]) && AllPass(Popped(queue, n))
  {
    var p := Popped(queue, n);
    if AllPass(queue[..|queue| - n]) && AllPass(p) {
      forall i | 0 <= i < |queue| ensures queue[i].passes {
        if i < |queue| - n {
          assert queue[i] == queue[..|queue| - n][i];
        } else {
          assert queue[i] == p[|queue| - 1 - i];
        }
      }
    }
  }

  /** Replacing one thread changes "everyone is clean" only through that thread. */
  lemma CleanUpdate(threads: seq<Thread>, t: nat, th: Thread)
    requires t < |threads| && Clean(th)
    ensures AllClean(threads) ==> AllClean(threads[t := th])
    ensures AllClean(threads[t := th]) && Clean(threads[t]) ==> AllClean(threads)
  {
    var u := threads[t := th];
    if AllClean(u) && Clean(threads[t]) {
      forall i | 0 <= i < |threads| ensures Clean(threads[i]) {
        if i != t { assert u[i] == threads[i]; }
      }
    }
  }

  lemma CleanSame(a: seq<Thread>, b: seq<Thread>)
    requires |a| == |b| && forall i :: 0 <= i < |a| ==> Clean(a[i]) == Clean(b[i])
    ensures AllClean(a) == AllClean(b)
  {
    if AllClean(b) {
      forall i | 0 <= i < |a| ensures Clean(a[i]) { assert Clean(b[i]); }
    }
  }

  lemma TotalsUpdate(threads: seq<Thread>, t: nat, th: Thread)
    requires t < |threads|
    ensures Total(threads[t := th], InLoop) + InLoop(threads[t]) == Total(threads, InLoop) + InLoop(th)
    ensures Total(threads[t := th], Idling) + Idling(threads[t]) == Total(threads, Idling) + Idling(th)
    ensures Total(threads[t := th], Held) + Held(threads[t]) == Total(threads, Held) + Held(th)
  {
    TotalUpdate(threads, InLoop, t, th);
    TotalUpdate(threads, Idling, t, th);
    TotalUpdate(threads, Held, t, th);
  }

  /** From the loop head on the invariant is re-established, and a result is the right one. */
  lemma LoopHeadInv(s: State, added: seq<Check>, t: nat)
    requires Core(s, added, 1) && t < |s.threads| && s.threads[t] == Outside
    ensures var (s', ret) := LoopHead(s, t);
            && (ret == None ==> Inv(s', added))
            && (ret.Some? ==> t == MASTER && ret.value == AllPass(added) && Inv(s', []))
  {
    var (s', ret) := LoopHead(s, t);
    if s.queue == [] {
      if t == MASTER && s.nTodo == 0 {
        assert s'.threads == s.threads;
        NobodyBusy(s.threads);
        forall i | 0 <= i < |s.threads| ensures !s.threads[i].Holding? {
          TotalAtLeast(s.threads, Held, i);
        }
      } else {
        TotalsUpdate(s.threads, t, Waiting(false));
        CleanUpdate(s.threads, t, Waiting(false));
      }
    } else {
      TakeInv(s, added, t);
    }
  }

  lemma TakeInv(s: State, added: seq<Check>, t: nat)
    requires Core(s, added, 1) && t < |s.threads| && s.threads[t] == Outside && s.queue != []
    ensures Inv(LoopHead(s, t).0, added) && LoopHead(s, t).1 == None
  {
    var n := BatchSize(s);
    var th := Holding(n, Popped(s.queue, n), s.fAllOk);
    TotalsUpdate(s.threads, t, th);
    PoppedPass(s.queue, n);
    if Clean(th) {
      CleanUpdate(s.threads, t, th);
    } else {
      assert !Clean(s.threads[t := th][t]);
    }
  }

  lemma SignalMasterSame(threads: seq<Thread>)
    requires 0 < |threads|
    ensures |SignalMaster(threads)| == |threads|
    ensures Total(SignalMaster(threads), InLoop) == Total(threads, InLoop)
    ensures Total(SignalMaster(threads), Idling) == Total(threads, Idling)
    ensures Total(SignalMaster(threads), Held) == Total(threads, Held)
    ensures AllClean(SignalMaster(threads)) == AllClean(threads)
  {
    TotalSame(SignalMaster(threads), threads, InLoop);
    TotalSame(SignalMaster(threads), threads, Idling);
    TotalSame(SignalMaster(threads), threads, Held);
    CleanSame(SignalMaster(threads), threads);
  }

  lemma FinishBatchInv(s: State, added: seq<Check>, t: nat)
    requires Inv(s, added) && Enabled(s, Acquire(t)) && s.threads[t].Holding?
    ensures Core(BeforeLoopHead(s, t), added, 1)
  {
    var idle := s.threads[t := Outside];
    HandIn(s, added, t);
    var s1 := s.(fAllOk := s.fAllOk && s.threads[t].fOk, nTodo := s.nTodo - s.threads[t].nNow, threads := idle);
    if s1.nTodo == 0 && t != MASTER {
      WakeMaster(s1, added);
    }
  }

  /** The batch is handed in, and the master is still to be told. */
  ghost predicate CoreButSignal(s: State, added: seq<Check>) {
    && 0 < |s.threads|
    && s.nTotal == Total(s.threads, InLoop) + 1
    && s.nIdle == Total(s.threads, Idling)
    && s.nTodo == |s.queue| + Total(s.threads, Held)
    && s.nTodo <= |added|
    && (forall i :: 0 <= i < |s.threads| ==> s.threads[i].Holding? ==>
          1 <= s.threads[i].nNow && |s.threads[i].rest| <= s.threads[i].nNow)
    && (AllPass(added) <==> s.fAllOk && AllPass(s.queue) && AllClean(s.threads))
    && (s.threads[MASTER].Waiting? ==> s.queue == [])
  }

  lemma HandIn(s: State, added: seq<Check>, t: nat)
    requires Inv(s, added) && Enabled(s, Acquire(t)) && s.threads[t].Holding?
    ensures var h := s.threads[t];
      var s1 := s.(fAllOk := s.fAllOk && h.fOk, nTodo := s.nTodo - h.nNow, threads := s.threads[t := Outside]);
      CoreButSignal(s1, added) && (s.threads[MASTER] == Waiting(false) ==> s.nTodo > 0)
  {
    assert Clean(s.threads[t]) == s.threads[t].fOk;
    assert AllClean(s.threads) ==> Clean(s.threads[t]);
    assert Clean(Outside);
    hide AllPass, AllClean, Clean, Total;
    TotalsUpdate(s.threads, t, Outside);
    CleanUpdate(s.threads, t, Outside);
  }

  lemma WakeMaster(s: State, added: seq<Check>)
    requires CoreButSignal(s, added)
    ensures Core(s.(threads := SignalMaster(s.threads)), added, 1)
  {
    hide AllPass, AllClean, Clean, Total;
    SignalMasterSame(s.threads);
  }

  lemma BeforeLoopHeadInv(s: State, added: seq<Check>, t: nat)
    requires Inv(s, added) && Enabled(s, Acquire(t))
    ensures Core(BeforeLoopHead(s, t), added, 1)
    ensures t < |BeforeLoopHead(s, t).threads| && BeforeLoopHead(s, t).threads[t] == Outside
    ensures 0 <= BeforeLoopHead(s, t).nTotal && 0 <= BeforeLoopHead(s, t).nIdle
  {
    match s.threads[t]
    case Outside =>
    case Waiting(_) =>
      TotalsUpdate(s.threads, t, Outside);
      CleanUpdate(s.threads, t, Outside);
    case Holding(_, _, _) =>
      FinishBatchInv(s, added, t);
  }

  lemma NotifySame(threads: seq<Thread>, count: nat, woken: nat, f: Thread -> nat)
    requires forall b, c :: f(Waiting(b)) == f(Waiting(c))
    ensures |NotifyWorkers(threads, count, woken)| == |threads|
    ensures Total(NotifyWorkers(threads, count, woken), f) == Total(threads, f)
  {
    TotalSame(NotifyWorkers(threads, count, woken), threads, f);
  }

  lemma AddInv(s: State, added: seq<Check>, vChecks: seq<Check>, woken: nat)
    requires Inv(s, added) && Enabled(s, AddChecks(vChecks, woken))
    ensures Inv(Apply(s, AddChecks(vChecks, woken)).0, added + vChecks)
  {
    var s' := Apply(s, AddChecks(vChecks, woken)).0;
    NotifySame(s.threads, |vChecks|, woken, InLoop);
    NotifySame(s.threads, |vChecks|, woken, Idling);
    NotifySame(s.threads, |vChecks|, woken, Held);
    assert forall i :: 0 <= i < |s.threads| ==>
      s'.threads[i] == s.threads[i] || (s'.threads[i].Waiting? && s.threads[i].Waiting?);
    CleanSame(s'.threads, s.threads);
    ConcatPass(added, vChecks);
    ConcatPass(s.queue, vChecks);
  }

  lemma ConcatPass(a: seq<Check>, b: seq<Check>)
    ensures AllPass(a + b) <==> AllPass(a) && AllPass(b)
  {
    if AllPass(a + b) {
      forall i | 0 <= i < |a| ensures a[i].passes { assert a[i] == (a + b)[i]; }
      forall i | 0 <= i < |b| ensures b[i].passes { assert b[i] == (a + b)[|a| + i]; }
    }
  }

  lemma ExecuteInv(s: State, added: seq<Check>, t: nat)
    requires Inv(s, added) && Enabled(s, Execute(t))
    ensures Inv(Apply(s, Execute(t)).0, added)
  {
    var h := s.threads[t];
    var th := Apply(s, Execute(t)).0.threads[t];
    TotalsUpdate(s.threads, t, th);
    assert h.rest == [h.rest[0]] + h.rest[1..];
    ConcatPass([h.rest[0]], h.rest[1..]);
    assert AllPass([h.rest[0]]) == h.rest[0].passes by { assert [h.rest[0]][0] == h.rest[0]; }
    assert Clean(th) == Clean(h);
    var threads' := s.threads[t := th];
    assert threads'[t] == th && forall i :: 0 <= i < |threads'| && i != t ==> threads'[i] == s.threads[i];
    CleanSame(threads', s.threads);
  }

  lemma SpuriousInv(s: State, added: seq<Check>, t: nat)
    requires Inv(s, added) && Enabled(s, SpuriousWake(t))
    ensures Inv(Apply(s, SpuriousWake(t)).0, added)
  {
    TotalsUpdate(s.threads, t, Waiting(true));
    CleanUpdate(s.threads, t, Waiting(true));
  }

  /** The checks that count for the next result of Wait after action a. */
  function Outstanding(s: State, added: seq<Check>, a: Action): seq<Check>
    requires Enabled(s, a)
  {
    if a.AddChecks? then added + a.vChecks else if Apply(s, a).1.Some? then [] else added
  }

  /** Every action keeps the invariant, and a result of Wait is the conjunction of what was added. */
  lemma StepInv(s: State, added: seq<Check>, a: Action)
    requires Inv(s, added) && Enabled(s, a)
    ensures Inv(Apply(s, a).0, Outstanding(s, added, a))
    ensures Apply(s, a).1.Some? ==> a == Acquire(MASTER) && Apply(s, a).1.value == AllPass(added)
  {
    match a
    case AddChecks(vChecks, woken) => AddInv(s, added, vChecks, woken);
    case Acquire(t) =>
      BeforeLoopHeadInv(s, added, t);
      LoopHeadInv(BeforeLoopHead(s, t), added, t);
    case Execute(t) => ExecuteInv(s, added, t);
    case SpuriousWake(t) => SpuriousInv(s, added, t);
  }

  // ----- whole runs -----

  ghost predicate IsRun(ss: seq<State>, aa: seq<Action>) {
    && |ss| == |aa| + 1 && Init(ss[0])
    && forall i :: 0 <= i < |aa| ==> Enabled(ss[i], aa[i]) && ss[i + 1] == Apply(ss[i], aa[i]).0
  }

  /** The checks added before position i of a run and after the last return of Wait. */
  ghost function AddedSince(ss: seq<State>, aa: seq<Action>, i: nat): seq<Check>
    requires IsRun(ss, aa) && i <= |aa|
  {
    if i == 0 then [] else Outstanding(ss[i - 1], AddedSince(ss, aa, i - 1), aa[i - 1])
  }

  lemma {:induction false} RunInv(ss: seq<State>, aa: seq<Action>, i: nat)
    requires IsRun(ss, aa) && i <= |aa|
    ensures Inv(ss[i], AddedSince(ss, aa, i))
  {
    if i == 0 {
      InitInv(ss[0]);
    } else {
      RunInv(ss, aa, i - 1);
      StepInv(ss[i - 1], AddedSince(ss, aa, i - 1), aa[i - 1]);
    }
  }

  // ----- work does not lie idle -----

  predicate IsAwake(threads: seq<Thread>, i: int) { 0 < i < |threads| && threads[i] != Waiting(false) }

  /** While there are jobs in the queue some worker, if there is one at all, is awake or about to wake. */
  ghost predicate SomeAwake(s: State) {
    s.queue != [] && |s.threads| > 1 ==> exists i :: IsAwake(s.threads, i)
  }

  /** Whom Add wakes: nobody for no job, one sleeping worker, if there is one, for one, and all for more. */
  lemma AddWakes(s: State, vChecks: seq<Check>, woken: nat, i: int)
    requires Enabled(s, AddChecks(vChecks, woken)) && 0 <= i < |s.threads|
    ensures var s' := Apply(s, AddChecks(vChecks, woken)).0;
      && |s'.threads| == |s.threads|
      && (!IsSleepingWorker(s.threads, i) ==> s'.threads[i] == s.threads[i])
      && (|vChecks| == 0 ==> s'.threads[i] == s.threads[i])
      && (|vChecks| > 1 && IsSleepingWorker(s.threads, i) ==> s'.threads[i] == Waiting(true))
      && (|vChecks| == 1 && IsSleepingWorker(s.threads, i) ==>
            IsSleepingWorker(s.threads, woken) && s'.threads[i] == if i == woken then Waiting(true) else Waiting(false))
  {
  }

  lemma AwakeStep(s: State, a: Action)
    requires Enabled(s, a) && SomeAwake(s)
    ensures SomeAwake(Apply(s, a).0)
  {
    var s' := Apply(s, a).0;
    if s'.queue != [] && |s'.threads| > 1 {
      match a
      case AddChecks(vChecks, woken) =>
        if |vChecks| == 1 && IsSleepingWorker(s.threads, woken) {
          assert IsAwake(s'.threads, woken);
        } else if |vChecks| >= 1 {
          AddWakes(s, vChecks, woken, 1);
          assert IsAwake(s'.threads, 1);
        }
      case Acquire(t) => AcquireAwake(s, t);
      case Execute(t) =>
        var i :| IsAwake(s.threads, i);
        assert IsAwake(s'.threads, i);
      case SpuriousWake(t) =>
        var i :| IsAwake(s.threads, i);
        assert IsAwake(s'.threads, i);
    }
  }

  lemma AcquireAwake(s: State, t: nat)
    requires Enabled(s, Acquire(t)) && SomeAwake(s) && |s.threads| > 1 && Apply(s, Acquire(t)).0.queue != []
    ensures SomeAwake(Apply(s, Acquire(t)).0)
  {
    var s' := Apply(s, Acquire(t)).0;
    assert s'.threads[t].Holding?;
    if t > 0 {
      assert IsAwake(s'.threads, t);
    } else {
      var i :| IsAwake(s.threads, i);
      assert IsAwake(s'.threads, i);
    }
  }

  /** In no run do jobs lie in the queue while every worker sleeps, even before the master joins in. */
  lemma {:induction false} WorkWakesWorkers(ss: seq<State>, aa: seq<Action>, i: nat)
    requires IsRun(ss, aa) && i <= |aa|
    ensures SomeAwake(ss[i])
  {
    if i > 0 {
      WorkWakesWorkers(ss, aa, i - 1);
      AwakeStep(ss[i - 1], aa[i - 1]);
    }
  }

  /** In every interleaving, whatever Wait returns is the conjunction of exactly the checks added
      since it last returned, although checks after a failure are skipped. */
  lemma WaitReturnsConjunction(ss: seq<State>, aa: seq<Action>, i: nat)
    requires IsRun(ss, aa) && i < |aa| && Apply(ss[i], aa[i]).1.Some?
    ensures aa[i] == Acquire(MASTER)
    ensures Apply(ss[i], aa[i]).1 == Some(AllPass(AddedSince(ss, aa, i)))
  {
    RunInv(ss, aa, i);
    StepInv(ss[i], AddedSince(ss, aa, i), aa[i]);
  }

  /** Whenever the mutex is free, nTodo counts the queue and every batch still held, nTotal - nIdle
      counts the threads that hold one, and a sleeping master has work outstanding. */
  lemma CountersExact(ss: seq<State>, aa: seq<Action>, i: nat)
    requires IsRun(ss, aa) && i <= |aa|
    ensures ss[i].nTodo == |ss[i].queue| + Total(ss[i].threads, Held)
    ensures ss[i].nTotal - ss[i].nIdle == Total(ss[i].threads, Busy)
    ensures 0 < |ss[i].threads| && (ss[i].threads[MASTER] == Waiting(false) ==> ss[i].nTodo > 0)
  {
    RunInv(ss, aa, i);
    TotalSplit(ss[i].threads);
  }

  /** IsIdle holds from each return of Wait (and from the start) until the next Add, so the assert
      in CCheckQueueControl's constructor cannot fire. */
  lemma IdleUntilAdd(ss: seq<State>, aa: seq<Action>, i: nat)
    requires IsRun(ss, aa) && i <= |aa| && AddedSince(ss, aa, i) == []
    ensures IsIdle(ss[i])
  {
    RunInv(ss, aa, i);
    TotalSplit(ss[i].threads);
    NobodyBusy(ss[i].threads);
  }

  // ----- Wait comes back -----

  /** An upper bound on the steps left before the master returns. */
  function Rank(s: State): nat {
    4 * |s.queue| + Total(s.threads, Pending)
  }

  /** While the master is in Wait some thread can move without a spurious wake-up. */
  lemma NoDeadlock(s: State, added: seq<Check>) returns (a: Action)
    requires Inv(s, added) && s.threads[MASTER] != Outside
    ensures Enabled(s, a) && (a.Acquire? || a.Execute?)
  {
    TotalAtLeast(s.threads, Idling, MASTER);
    if s.threads[MASTER].Holding? {
      a := if s.threads[MASTER].rest == [] then Acquire(MASTER) else Execute(MASTER);
    } else if s.threads[MASTER].signalled {
      a := Acquire(MASTER);
    } else {
      var t := SomeoneHolds(s.threads);
      a := if s.threads[t].rest == [] then Acquire(t) else Execute(t);
    }
  }

  lemma LoopHeadRank(s: State, added: seq<Check>, t: nat)
    requires Core(s, added, 1) && t < |s.threads| && s.threads[t] == Outside
    ensures LoopHead(s, t).1 == None ==> Rank(LoopHead(s, t).0) + 3 <= Rank(s)
  {
    var s' := LoopHead(s, t).0;
    TotalUpdate(s.threads, Pending, t, s'.threads[t]);
  }

  /** Every step that is not a spurious wake-up brings the master's return closer. */
  lemma RankDecreases(s: State, added: seq<Check>, a: Action)
    requires Inv(s, added) && Enabled(s, a) && (a.Acquire? || a.Execute?)
    ensures Apply(s, a).1.Some? || Rank(Apply(s, a).0) < Rank(s)
  {
    if a.Execute? {
      TotalUpdate(s.threads, Pending, a.t, Apply(s, a).0.threads[a.t]);
    } else {
      var t := a.t;
      var s1 := BeforeLoopHead(s, t);
      BeforeLoopHeadInv(s, added, t);
      LoopHeadRank(s1, added, t);
      TotalUpdate(s.threads, Pending, t, Outside);
      var idle := s.threads[t := Outside];
      if s.threads[t].Outside? {
        assert idle == s.threads;
      } else if s.threads[t].Holding? && s1.nTodo == 0 && t != MASTER && idle[MASTER].Waiting? {
        TotalUpdate(idle, Pending, MASTER, Waiting(true));
      }
    }
  }

  lemma SpuriousRank(s: State, t: nat)
    requires Enabled(s, SpuriousWake(t))
    ensures Rank(Apply(s, SpuriousWake(t)).0) == Rank(s) + 1
  {
    TotalUpdate(s.threads, Pending, t, Waiting(true));
  }

  function SpuriousWakes(aa: seq<Action>, i: nat, j: nat): nat
    requires i <= j <= |aa|
  {
    if i == j then 0 else SpuriousWakes(aa, i, j - 1) + if aa[j - 1].SpuriousWake? then 1 else 0
  }

  /** Wait returns: from any position of a run, a continuation in which Wait does not return and nothing
      is added, as is the case while the master is in Wait, has at most Rank steps and two more for every
      spurious wake-up; with NoDeadlock it cannot stop short. */
  lemma {:induction false} WaitTerminates(ss: seq<State>, aa: seq<Action>, i: nat, j: nat)
    requires IsRun(ss, aa) && i <= j <= |aa|
    requires forall k :: i <= k < j ==> !aa[k].AddChecks?
    requires forall k :: i <= k < j ==> Apply(ss[k], aa[k]).1 == None
    ensures j - i + Rank(ss[j]) <= Rank(ss[i]) + 2 * SpuriousWakes(aa, i, j)
  {
    hide Rank, Inv, Apply, Enabled, AddedSince;
    if i < j {
      WaitTerminates(ss, aa, i, j - 1);
      var a := aa[j - 1];
      if a.SpuriousWake? {
        SpuriousRank(ss[j - 1], a.t);
      } else {
        RunInv(ss, aa, j - 1);
        RankDecreases(ss[j - 1], AddedSince(ss, aa, j - 1), a);
      }
    }
  }

  // ----- the queue object -----

  /** The object whose fields the critical sections change. `threads` holds the local variables of
      every thread; `added` records what Wait has to answer for. */
  class Queue {
    const nBatchSize: nat
    var queue: seq<Check>
    var nIdle: int
    var nTotal: int
    var fAllOk: bool
    var nTodo: int
    var threads: seq<Thread>
    ghost var added: seq<Check>

    function Snapshot(): State
      reads this
    {
      State(nBatchSize, queue, nIdle, nTotal, fAllOk, nTodo, threads)
    }

    ghost predicate Valid()
      reads this
    {
      Inv(Snapshot(), added)
    }

    constructor (nBatchSizeIn: nat, nWorkers: nat)
      ensures Valid() && Init(Snapshot()) && nBatchSize == nBatchSizeIn && |threads| == nWorkers + 1
      ensures added == []
    {
      nBatchSize := nBatchSizeIn;
      queue, nIdle, nTotal, fAllOk, nTodo := [], 0, 0, true, 0;
      threads := seq(nWorkers + 1, i => Outside);
      added := [];
      new;
      InitInv(Snapshot());
    }

    method Add(vChecks: seq<Check>, woken: nat)
      requires Valid() && Enabled(Snapshot(), AddChecks(vChecks, woken))
      modifies this
      ensures Valid() && added == old(added) + vChecks
      ensures Snapshot() == Apply(old(Snapshot()), AddChecks(vChecks, woken)).0
    {
      AddInv(Snapshot(), added, vChecks, woken);
      for i := 0 to |vChecks|
        invariant queue == old(queue) + vChecks[..i]
        invariant Snapshot().(queue := old(queue)) == old(Snapshot()) && added == old(added)
      {
        queue := queue + [vChecks[i]];
        assert vChecks[..i + 1] == vChecks[..i] + [vChecks[i]];
      }
      assert vChecks[..|vChecks|] == vChecks;
      nTodo := nTodo + |vChecks|;
      threads := NotifyWorkers(threads, |vChecks|, woken);
      added := added + vChecks;
    }

    /** Move n jobs from the back of the queue into a batch. */
    method TakeBatch(n: nat) returns (vChecks: seq<Check>)
      requires n <= |queue|
      modifies this`queue
      ensures queue == old(queue)[..|old(queue)| - n] && vChecks == Popped(old(queue), n)
    {
      vChecks := [];
      for i := 0 to n
        invariant queue == old(queue)[..|old(queue)| - i]
        invariant vChecks == Popped(old(queue), i)
      {
        vChecks := vChecks + [queue[|queue| - 1]];
        queue := queue[..|queue| - 1];
      }
    }

    /** The clean-up of the previous batch, the first entry or the return from cond.wait(). */
    method CleanUp(t: nat)
      requires Valid() && Enabled(Snapshot(), Acquire(t))
      modifies this`nTotal, this`nIdle, this`fAllOk, this`nTodo, this`threads
      ensures Snapshot() == BeforeLoopHead(old(Snapshot()), t)
    {
      match threads[t] {
        case Outside =>
          nTotal := nTotal + 1;
        case Waiting(_) =>
          nIdle := nIdle - 1;
          threads := threads[t := Outside];
        case Holding(nNow, _, fOk) =>
          fAllOk := fAllOk && fOk;
          nTodo := nTodo - nNow;
          threads := threads[t := Outside];
          if nTodo == 0 && t != MASTER {
            threads := SignalMaster(threads);
          }
      }
    }

    /** One critical section of Loop for thread t, up to its return, its cond.wait() or the batch it
        leaves with. */
    method CriticalSection(t: nat) returns (ret: Option<bool>)
      requires Valid() && Enabled(Snapshot(), Acquire(t))
      modifies this
      ensures Snapshot() == Apply(old(Snapshot()), Acquire(t)).0
      ensures ret == Apply(old(Snapshot()), Acquire(t)).1
      ensures Valid() && added == if ret.Some? then [] else old(added)
      ensures ret.Some? ==> ret.value == AllPass(old(added))
    {
      hide Core, AllPass;
      StepInv(Snapshot(), added, Acquire(t));
      BeforeLoopHeadInv(Snapshot(), added, t);
      CleanUp(t);
      ret := None;
      if queue == [] {
        if t == MASTER && nTodo == 0 {
          nTotal := nTotal - 1;
          ret := Some(fAllOk);
          fAllOk := true;
          threads := threads[t := Outside];
          added := [];
        } else {
          nIdle := nIdle + 1;
          threads := threads[t := Waiting(false)];
        }
      } else {
        var nNow := BatchSize(Snapshot());
        var vChecks := TakeBatch(nNow);
        threads := threads[t := Holding(nNow, vChecks, fAllOk)];
      }
    }

    /** One iteration of the work loop outside the mutex. */
    method RunCheck(t: nat)
      requires Valid() && Enabled(Snapshot(), Execute(t))
      modifies this`threads
      ensures Valid() && Snapshot() == Apply(old(Snapshot()), Execute(t)).0
    {
      ExecuteInv(Snapshot(), added, t);
      var h := threads[t];
      var fOk := h.fOk;
      if fOk {
        fOk := h.rest[0].passes;
      }
      threads := threads[t := Holding(h.nNow, h.rest[1..], fOk)];
    }
  }
}
