/** Every interleaving of the thread pool's critical sections: what the ring holds, who is awake, and what gets done. */
module PoolRuns {
  import opened Pool

  /** A worker thread: about to take the mutex, asleep on queuePopCond, running a job, or gone. */
  datatype Worker = Awake | Asleep | Working(job: Job) | Gone

  /** The pool and its workers, and the jobs that have been queued, taken and finished so far. */
  datatype System = System(pool: Shared, workers: seq<Worker>, enqueued: seq<Job>, popped: seq<Job>,
                           finished: multiset<Job>)

  /** The steps of the threads; `woken` is the sleeper that a signal wakes. */
  datatype Step =
    | Check(w: nat)
    | Complete(w: nat)
    | Add(job: Job, woken: nat)
    | Resize(numThreads: nat, created: nat)
    | StartShutdown
    | Broadcast
    | WakeUp(w: nat)

  // ----- counting workers -----

  function AwakeCount(workers: seq<Worker>): nat
  {
    if workers == [] then 0
    else AwakeCount(workers[..|workers| - 1]) + (if workers[|workers| - 1].Awake? then 1 else 0)
  }

  function BusyCount(workers: seq<Worker>): nat
  {
    if workers == [] then 0
    else BusyCount(workers[..|workers| - 1]) + (if workers[|workers| - 1].Working? then 1 else 0)
  }

  ghost function JobOf(x: Worker): multiset<Job>
  {
    if x.Working? then multiset{x.job} else multiset{}
  }

  /** The jobs that are running. */
  ghost function Running(workers: seq<Worker>): multiset<Job>
  {
    if workers == [] then multiset{} else Running(workers[..|workers| - 1]) + JobOf(workers[|workers| - 1])
  }

  lemma {:induction false} CountsUpdate(workers: seq<Worker>, i: nat, x: Worker)
    requires i < |workers|
    ensures var after, was := workers[i := x], workers[i];
            && AwakeCount(after) == AwakeCount(workers) - (if was.Awake? then 1 else 0) + (if x.Awake? then 1 else 0)
            && BusyCount(after) == BusyCount(workers) - (if was.Working? then 1 else 0) + (if x.Working? then 1 else 0)
  {
    var m := |workers| - 1;
    var after := workers[i := x];
    if i == m {
      assert after[..m] == workers[..m];
    } else {
      assert after[..m] == workers[..m][i := x];
      CountsUpdate(workers[..m], i, x);
    }
  }

  lemma RunningLast(front: seq<Worker>, last: Worker)
    ensures Running(front + [last]) == Running(front) + JobOf(last)
  {
    assert (front + [last])[..|front|] == front;
  }

  lemma {:induction false} RunningUpdate(workers: seq<Worker>, i: nat, x: Worker)
    requires i < |workers|
    ensures Running(workers[i := x]) + JobOf(workers[i]) == Running(workers) + JobOf(x)
  {
    hide Running, JobOf;
    var m := |workers| - 1;
    var front, last := workers[..m], workers[m];
    assert workers == front + [last];
    RunningLast(front, last);
    if i == m {
      assert workers[i := x] == front + [x];
      RunningLast(front, x);
      SwapSums(Running(front), multiset{}, Running(front), multiset{}, JobOf(last) + JobOf(x));
    } else {
      assert workers[i := x] == front[i := x] + [last];
      RunningLast(front[i := x], last);
      RunningUpdate(front, i, x);
      SwapSums(Running(front[i := x]), JobOf(workers[i]), Running(front), JobOf(x), JobOf(last));
    }
  }

  lemma SwapSums(a: multiset<Job>, b: multiset<Job>, c: multiset<Job>, d: multiset<Job>, e: multiset<Job>)
    requires a + b == c + d
    ensures (a + e) + b == (c + e) + d
  {
    assert (a + e) + b == (a + b) + e;
    assert (c + e) + d == (c + d) + e;
  }

  lemma {:induction false} SomeAwake(workers: seq<Worker>)
    ensures AwakeCount(workers) + BusyCount(workers) > 0 <==>
            exists i :: 0 <= i < |workers| && (workers[i].Awake? || workers[i].Working?)
  {
    if workers != [] {
      var m := |workers| - 1;
      SomeAwake(workers[..m]);
      if i :| 0 <= i < m && (workers[..m][i].Awake? || workers[..m][i].Working?) {
        assert workers[i] == workers[..m][i];
      }
    }
  }

  lemma {:induction false} NoneWorking(workers: seq<Worker>)
    requires BusyCount(workers) == 0
    ensures Running(workers) == multiset{} && forall i :: 0 <= i < |workers| ==> !workers[i].Working?
  {
    if workers != [] {
      NoneWorking(workers[..|workers| - 1]);
    }
  }

  /** A broadcast wakes all sleepers. */
  ghost function Roused(workers: seq<Worker>): (r: seq<Worker>)
    ensures |r| == |workers| && forall i :: 0 <= i < |r| ==> r[i] == if workers[i].Asleep? then Awake else workers[i]
  {
    seq(|workers|, i requires 0 <= i < |workers| => if workers[i].Asleep? then Awake else workers[i])
  }

  lemma {:induction false} RousedCounts(workers: seq<Worker>)
    ensures AwakeCount(Roused(workers)) >= AwakeCount(workers)
    ensures BusyCount(Roused(workers)) == BusyCount(workers) && Running(Roused(workers)) == Running(workers)
  {
    if workers != [] {
      var m := |workers| - 1;
      assert Roused(workers)[..m] == Roused(workers[..m]);
      RousedCounts(workers[..m]);
    }
  }

  lemma {:induction false} MoreWorkers(workers: seq<Worker>, more: nat)
    ensures AwakeCount(workers + seq(more, _ => Awake)) == AwakeCount(workers) + more
    ensures BusyCount(workers + seq(more, _ => Awake)) == BusyCount(workers)
    ensures Running(workers + seq(more, _ => Awake)) == Running(workers)
  {
    var all := workers + seq(more, _ => Awake);
    if more == 0 {
      assert all == workers;
    } else {
      MoreWorkers(workers, more - 1);
      assert all[..|all| - 1] == workers + seq(more - 1, _ => Awake);
    }
  }

  // ----- steps -----

  ghost predicate SomeAsleep(workers: seq<Worker>)
  {
    exists i :: 0 <= i < |workers| && workers[i].Asleep?
  }

  /** The jobs that wait in the queue. */
  ghost function Pending(s: System): seq<Job>
  {
    if |s.popped| <= |s.enqueued| then s.enqueued[|s.popped|..] else []
  }

  predicate ResizeFails(numThreads: nat, capacity: nat, created: nat)
  {
    numThreads == 0 || numThreads > capacity + created
  }

  ghost predicate Enabled(s: System, step: Step)
  {
    s.pool.WellFormed() &&
    match step
    case Check(w) => w < |s.workers| && s.workers[w].Awake?
    case Complete(w) => w < |s.workers| && s.workers[w].Working?
    case Add(job, woken) =>
      && (!IsQueueFull(s.pool) || s.pool.shutdown)
      && (SomeAsleep(s.workers) ==> woken < |s.workers| && s.workers[woken].Asleep?)
    case Resize(numThreads, created) => created <= (if numThreads > |s.workers| then numThreads - |s.workers| else 0)
    case WakeUp(w) => w < |s.workers| && s.workers[w].Asleep?
    case _ => true
  }

  ghost function Next(s: System, step: Step): System
    requires Enabled(s, step)
  {
    match step
    case Check(w) =>
      if HoldsBack(s.pool) then s.(workers := s.workers[w := if s.pool.shutdown then Gone else Asleep])
      else
        var job := s.pool.queue[s.pool.queueHead];
        s.(pool := Popped(s.pool), workers := s.workers[w := Working(job)], popped := s.popped + [job])
    case Complete(w) =>
      s.(pool := Finished(s.pool), workers := s.workers[w := Awake],
         finished := s.finished + multiset{s.workers[w].job})
    case Add(job, woken) =>
      if s.pool.shutdown then s
      else
        s.(pool := Added(s.pool, job), enqueued := s.enqueued + [job],
           workers := if SomeAsleep(s.workers) then s.workers[woken := Awake] else s.workers)
    case Resize(numThreads, created) =>
      s.(workers := Roused(s.workers + seq(created, _ => Awake)),
         pool := if ResizeFails(numThreads, |s.workers|, created) then s.pool else s.pool.(threadLimit := numThreads))
    case StartShutdown => s.(pool := s.pool.(shutdown := true))
    case Broadcast => s.(workers := Roused(s.workers))
    case WakeUp(w) => s.(workers := s.workers[w := Awake])
  }

  // ----- what every step keeps -----

  /** The queue holds exactly the jobs that have been queued and not yet taken, in order. */
  ghost predicate Fifo(s: System)
  {
    s.popped <= s.enqueued && Represents(s.pool, Pending(s))
  }

  /** Every job taken is running or finished, and the busy count is the number of running jobs. */
  ghost predicate Accounted(s: System)
  {
    && s.pool.numThreadsBusy == BusyCount(s.workers)
    && multiset(s.popped) == s.finished + Running(s.workers)
  }

  /**
    While jobs wait, some worker is awake or busy; and if one sleeps all the same, the others
    either use the thread limit up or are awake for every job that waits.
   */
  predicate Served(pending: nat, awake: nat, busy: nat, limit: nat, someAsleep: bool)
  {
    pending > 0 ==> awake + busy >= 1 && (!someAsleep || awake + busy >= limit || awake >= pending)
  }

  ghost predicate Lively(s: System)
  {
    && s.pool.threadLimit >= 1 && s.workers != []
    && (forall i :: 0 <= i < |s.workers| && s.workers[i].Gone? ==> s.pool.shutdown)
    && Served(|Pending(s)|, AwakeCount(s.workers), BusyCount(s.workers), s.pool.threadLimit, SomeAsleep(s.workers))
  }

  ghost predicate Inv(s: System)
  {
    Fifo(s) && Accounted(s) && Lively(s)
  }

  lemma CheckFifo(s: System, w: nat)
    requires Fifo(s) && Enabled(s, Check(w))
    ensures Fifo(Next(s, Check(w)))
    ensures !HoldsBack(s.pool) ==> Pending(s) != [] && Pending(Next(s, Check(w))) == Pending(s)[1..]
    ensures HoldsBack(s.pool) ==> Pending(Next(s, Check(w))) == Pending(s)
    ensures Pending(s) != [] && HoldsBack(s.pool) ==> s.pool.numThreadsBusy >= s.pool.threadLimit
  {
    hide Popped;
    var t := Next(s, Check(w));
    if !HoldsBack(s.pool) {
      PopKeeps(s.pool, Pending(s));
      hide Represents;
      assert t.popped == s.popped + [Pending(s)[0]];
      assert Pending(t) == Pending(s)[1..];
    }
  }

  lemma CheckAccounted(s: System, w: nat)
    requires Accounted(s) && Enabled(s, Check(w))
    ensures Accounted(Next(s, Check(w)))
  {
    hide AwakeCount, BusyCount, Running;
    var t := Next(s, Check(w));
    CountsUpdate(s.workers, w, t.workers[w]);
    RunningUpdate(s.workers, w, t.workers[w]);
    assert t.workers == s.workers[w := t.workers[w]];
    TakenRuns(s.popped, s.finished, Running(s.workers), Running(t.workers), JobOf(t.workers[w]));
    if !HoldsBack(s.pool) {
      assert multiset(t.popped) == multiset(s.popped) + JobOf(t.workers[w]);
    }
  }

  lemma TakenRuns(popped: seq<Job>, finished: multiset<Job>, running: multiset<Job>, after: multiset<Job>,
                  job: multiset<Job>)
    requires multiset(popped) == finished + running && after + multiset{} == running + job
    ensures finished + after == multiset(popped) + job
  {
    assert after == running + job;
    assert finished + (running + job) == (finished + running) + job;
  }

  lemma CheckLively(s: System, w: nat)
    requires Fifo(s) && Accounted(s) && Lively(s) && Enabled(s, Check(w))
    ensures Lively(Next(s, Check(w)))
  {
    hide AwakeCount, BusyCount, Running, Fifo, Pending, Popped, SomeAsleep;
    CheckFifo(s, w);
    var t := Next(s, Check(w));
    CountsUpdate(s.workers, w, t.workers[w]);
    PoppedParts(s.pool);
    if !HoldsBack(s.pool) {
      NoNewSleeper(s.workers, w, t.workers[w]);
    }
  }

  lemma PoppedParts(p: Shared)
    requires p.WellFormed()
    ensures Popped(p).threadLimit == p.threadLimit && Popped(p).shutdown == p.shutdown
  {
  }

  lemma CompleteKeeps(s: System, w: nat)
    requires Inv(s) && Enabled(s, Complete(w))
    ensures Inv(Next(s, Complete(w)))
  {
    hide AwakeCount, BusyCount, Running;
    var t := Next(s, Complete(w));
    CountsUpdate(s.workers, w, Awake);
    RunningUpdate(s.workers, w, Awake);
    SomeBusy(s.workers, w);
    assert Pending(t) == Pending(s);
    assert s.finished + multiset{s.workers[w].job} + Running(t.workers) ==
      s.finished + (Running(t.workers) + JobOf(s.workers[w]));
    if SomeAsleep(t.workers) {
      var i :| 0 <= i < |t.workers| && t.workers[i].Asleep?;
      assert s.workers[i].Asleep?;
    }
  }

  lemma {:induction false} SomeBusy(workers: seq<Worker>, w: nat)
    requires w < |workers| && workers[w].Working?
    ensures BusyCount(workers) >= 1
  {
    if w < |workers| - 1 {
      SomeBusy(workers[..|workers| - 1], w);
    }
  }

  /** A worker that does not fall asleep leaves nobody asleep who was not. */
  lemma NoNewSleeper(workers: seq<Worker>, w: nat, x: Worker)
    requires w < |workers| && !x.Asleep?
    ensures SomeAsleep(workers[w := x]) ==> SomeAsleep(workers)
  {
    var after := workers[w := x];
    if SomeAsleep(after) {
      var i :| 0 <= i < |after| && after[i].Asleep?;
      assert workers[i].Asleep?;
    }
  }

  lemma AwakeChange(s: System, t: System, w: nat)
    requires w < |s.workers| && s.workers[w].Asleep? && t.workers == s.workers[w := Awake]
    ensures AwakeCount(t.workers) == AwakeCount(s.workers) + 1 && BusyCount(t.workers) == BusyCount(s.workers)
    ensures Running(t.workers) == Running(s.workers) && (SomeAsleep(t.workers) ==> SomeAsleep(s.workers))
  {
    hide AwakeCount, BusyCount, Running;
    CountsUpdate(s.workers, w, Awake);
    RunningUpdate(s.workers, w, Awake);
    NoNewSleeper(s.workers, w, Awake);
    assert Running(t.workers) + multiset{} == Running(t.workers);
    assert Running(s.workers) + multiset{} == Running(s.workers);
  }

  lemma AddKeepsInv(s: System, job: Job, woken: nat)
    requires Inv(s) && Enabled(s, Add(job, woken)) && !s.pool.shutdown
    ensures Inv(Next(s, Add(job, woken)))
  {
    hide AwakeCount, BusyCount, Running, Represents, Added, SomeAsleep, IsQueueFull;
    var t := Next(s, Add(job, woken));
    AddKeeps(s.pool, Pending(s), job);
    assert Pending(t) == Pending(s) + [job];
    AddedParts(s.pool, job);
    if SomeAsleep(s.workers) {
      AwakeChange(s, t, woken);
    } else {
      NobodyAsleep(s);
    }
  }

  lemma AddedParts(p: Shared, job: Job)
    requires p.WellFormed()
    ensures var q := Added(p, job);
            q.numThreadsBusy == p.numThreadsBusy && q.threadLimit == p.threadLimit && q.shutdown == p.shutdown
  {
  }

  /** Before shutdown no worker is gone, so a worker that does not sleep is awake or busy. */
  lemma NobodyAsleep(s: System)
    requires Lively(s) && !s.pool.shutdown && !SomeAsleep(s.workers)
    ensures AwakeCount(s.workers) + BusyCount(s.workers) >= 1
  {
    hide AwakeCount, BusyCount;
    SomeAwake(s.workers);
    assert s.workers[0].Awake? || s.workers[0].Working?;
  }

  lemma ResizeKeeps(s: System, numThreads: nat, created: nat)
    requires Inv(s) && Enabled(s, Resize(numThreads, created))
    ensures Inv(Next(s, Resize(numThreads, created)))
  {
    hide AwakeCount, BusyCount, Running;
    MoreWorkers(s.workers, created);
    RousedCounts(s.workers + seq(created, _ => Awake));
    assert Pending(Next(s, Resize(numThreads, created))) == Pending(s);
  }

  lemma WakeKeeps(s: System, step: Step)
    requires Inv(s) && Enabled(s, step) && (step.Broadcast? || step.WakeUp? || step.StartShutdown?)
    ensures Inv(Next(s, step))
  {
    hide AwakeCount, BusyCount, Running;
    var t := Next(s, step);
    assert Pending(t) == Pending(s);
    match step
    case WakeUp(w) => AwakeChange(s, t, w);
    case _ => RousedCounts(s.workers);
  }

  lemma DroppedAdd(s: System, job: Job, woken: nat)
    requires Enabled(s, Add(job, woken)) && s.pool.shutdown
    ensures Next(s, Add(job, woken)) == s
  {
  }

  /** Every step of every thread keeps the invariant. */
  lemma StepKeeps(s: System, step: Step)
    requires Inv(s) && Enabled(s, step)
    ensures Inv(Next(s, step))
  {
    hide Fifo, Accounted, Lively, Next, Enabled;
    match step
    case Check(w) =>
      CheckFifo(s, w);
      CheckAccounted(s, w);
      CheckLively(s, w);
    case Complete(w) => CompleteKeeps(s, w);
    case Add(job, woken) =>
      if s.pool.shutdown {
        DroppedAdd(s, job, woken);
      } else {
        AddKeepsInv(s, job, woken);
      }
    case Resize(numThreads, created) => ResizeKeeps(s, numThreads, created);
    case _ => WakeKeeps(s, step);
  }

  // ----- whole runs -----

  /** After POOL_create: nothing queued, and every worker either still on its way to the mutex or already asleep. */
  ghost predicate Initial(s: System)
  {
    && s.pool.queue != [] && s.pool.queueHead == s.pool.queueTail == 0 && s.pool.queueEmpty
    && s.pool.numThreadsBusy == 0 && s.pool.threadLimit == |s.workers| > 0 && !s.pool.shutdown
    && (forall i :: 0 <= i < |s.workers| ==> s.workers[i].Awake? || s.workers[i].Asleep?)
    && s.enqueued == s.popped == [] && s.finished == multiset{}
  }

  /** A run: states[i + 1] comes from states[i] by steps[i]. */
  ghost predicate IsRun(states: seq<System>, steps: seq<Step>)
  {
    && |states| == |steps| + 1 && Initial(states[0])
    && (forall i :: 0 <= i < |steps| ==> Enabled(states[i], steps[i]) && states[i + 1] == Next(states[i], steps[i]))
  }

  lemma InitialInv(s: System)
    requires Initial(s)
    ensures Inv(s)
  {
    NoneBusy(s.workers);
  }

  lemma {:induction false} NoneBusy(workers: seq<Worker>)
    requires forall i :: 0 <= i < |workers| ==> !workers[i].Working?
    ensures BusyCount(workers) == 0 && Running(workers) == multiset{}
  {
    if workers != [] {
      NoneBusy(workers[..|workers| - 1]);
    }
  }

  lemma {:induction false} RunKeeps(states: seq<System>, steps: seq<Step>, i: nat)
    requires IsRun(states, steps) && i < |states|
    ensures Inv(states[i])
  {
    hide Inv, Next, Enabled, Initial;
    if i == 0 {
      InitialInv(states[0]);
    } else {
      RunKeeps(states, steps, i - 1);
      StepKeeps(states[i - 1], steps[i - 1]);
    }
  }

  /**
    What holds at every point of every run. Jobs are taken in the order they were queued, each once, and the
    queue holds the rest. When POOL_joinJobs finds the queue flagged empty and no thread busy, every job that was
    queued has been finished. When all workers are gone, nothing is left in the queue. And no job waits
    while no worker is awake or busy.
   */
  lemma PoolIsSafe(states: seq<System>, steps: seq<Step>, i: nat)
    requires IsRun(states, steps) && i < |states|
    ensures var s := states[i];
            && s.popped <= s.enqueued && s.enqueued == s.popped + Pending(s) && Represents(s.pool, Pending(s))
            && multiset(s.popped) == s.finished + Running(s.workers)
            && (s.pool.queueEmpty && s.pool.numThreadsBusy == 0 ==>
                  multiset(s.enqueued) == s.finished && forall k :: 0 <= k < |s.workers| ==> !s.workers[k].Working?)
            && ((forall k :: 0 <= k < |s.workers| ==> s.workers[k].Gone?) ==> Pending(s) == [])
            && (Pending(s) != [] ==> exists k :: 0 <= k < |s.workers| && (s.workers[k].Awake? || s.workers[k].Working?))
  {
    hide AwakeCount, BusyCount, Running, IsRun, Next, Enabled;
    RunKeeps(states, steps, i);
    var s := states[i];
    SomeAwake(s.workers);
    if s.pool.queueEmpty && s.pool.numThreadsBusy == 0 {
      NoneWorking(s.workers);
      assert s.finished + multiset{} == s.finished;
      assert s.popped + [] == s.popped;
    }
  }

  // ----- the thread limit -----

  /** The greatest thread limit up to state i. */
  function GreatestLimit(states: seq<System>, i: nat): nat
    requires i < |states|
  {
    var limit := states[i].pool.threadLimit;
    if i == 0 then limit
    else
      var before := GreatestLimit(states, i - 1);
      if limit > before then limit else before
  }

  /** Jobs are taken one at a time, and only while fewer threads are busy than the limit allows. */
  lemma TakenBelowLimit(states: seq<System>, steps: seq<Step>, i: nat)
    requires IsRun(states, steps) && i + 1 < |states| && |states[i + 1].popped| > |states[i].popped|
    ensures var s, t := states[i], states[i + 1];
            && s.pool.numThreadsBusy < s.pool.threadLimit && t.pool.numThreadsBusy == s.pool.numThreadsBusy + 1
            && steps[i].Check? && steps[i].w < |t.workers| && Pending(s) != []
            && t.popped == s.popped + [Pending(s)[0]] && t.workers[steps[i].w] == Working(Pending(s)[0])
  {
    hide AwakeCount, BusyCount, Running, Initial;
    RunKeeps(states, steps, i);
    assert Enabled(states[i], steps[i]) && states[i + 1] == Next(states[i], steps[i]);
    NotFinishing(states[i], steps[i]);
    CheckFifo(states[i], steps[i].w);
    PopKeeps(states[i].pool, Pending(states[i]));
  }

  lemma NotFinishing(s: System, step: Step)
    requires Enabled(s, step) && |Next(s, step).popped| > |s.popped|
    ensures step.Check?
  {
    hide Roused, Popped, Finished, Added;
  }

  /** A worker that checks while a job waits and the limit allows it takes the oldest job; otherwise it takes none. */
  lemma CheckTakes(s: System, w: nat)
    requires Inv(s) && Enabled(s, Check(w))
    ensures var t := Next(s, Check(w));
            if Pending(s) != [] && s.pool.numThreadsBusy < s.pool.threadLimit then
              t.popped == s.popped + [Pending(s)[0]] && t.workers == s.workers[w := Working(Pending(s)[0])]
            else
              t.popped == s.popped && t.workers == s.workers[w := if s.pool.shutdown then Gone else Asleep]
  {
    hide AwakeCount, BusyCount, Running;
    if Pending(s) != [] {
      PopKeeps(s.pool, Pending(s));
    }
  }

  /** At no point of any run are more threads busy than the greatest limit so far allows. */
  lemma {:induction false} BusyWithinLimit(states: seq<System>, steps: seq<Step>, i: nat)
    requires IsRun(states, steps) && i < |states|
    ensures states[i].pool.numThreadsBusy <= GreatestLimit(states, i)
  {
    hide Inv, Enabled, Initial;
    if i == 0 {
      StartsIdle(states, steps);
    } else {
      BusyWithinLimit(states, steps, i - 1);
      OneMoreBusy(states[i - 1], steps[i - 1]);
    }
  }

  lemma StartsIdle(states: seq<System>, steps: seq<Step>)
    requires IsRun(states, steps)
    ensures states[0].pool.numThreadsBusy == 0
  {
    hide Next, Enabled;
  }

  lemma OneMoreBusy(s: System, step: Step)
    requires Enabled(s, step)
    ensures var busy := Next(s, step).pool.numThreadsBusy;
            busy <= s.pool.numThreadsBusy || s.pool.numThreadsBusy < busy <= s.pool.threadLimit
  {
  }

  /**
    No wake-up is lost: while a job waits and a worker sleeps, the workers awake or busy either reach the
    thread limit or are awake for every job that waits.
   */
  lemma NoLostWakeUp(states: seq<System>, steps: seq<Step>, i: nat, w: nat)
    requires IsRun(states, steps) && i < |states| && w < |states[i].workers| && states[i].workers[w].Asleep?
    requires Pending(states[i]) != []
    ensures var s := states[i];
            || AwakeCount(s.workers) + BusyCount(s.workers) >= s.pool.threadLimit
            || AwakeCount(s.workers) >= |Pending(s)|
  {
    hide AwakeCount, BusyCount, IsRun, Next, Enabled, Fifo, Accounted, Pending;
    RunKeeps(states, steps, i);
  }
}
