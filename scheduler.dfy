/**
 * `JobScheduler`: three priority queues, a pool of fiber contexts and the idle-thread
 * notification mask. The model is sequential. Creating and switching fibers is platform code
 * that is not part of it (`fibers` and `rootFibers` are left out). A switch back to the
 * scheduler's root fiber is a yield: while the calling fiber is parked, the workers take tasks
 * from the queues.
 */
module Scheduler {
  import opened Wrappers
  import opened Jobs

  const NumSmallStackFibers: nat := 128
  const NumLargeStackFibers: nat := 32
  const NumFibers: nat := NumSmallStackFibers + NumLargeStackFibers

  /** An `int` bit mask, bit `j` at index `j`. */
  type Mask = m: seq<bool> | |m| == 32 witness seq(32, _ => false)

  /** `AllThreadsMask` = 0xffff: bits 0 to 15. */
  const AllThreadsMask: Mask := seq(32, j => j < 16)
  const NoThreadsMask: Mask := seq(32, _ => false)

  /** `mask & ~(1 << t)`: bit `t` cleared, every other bit kept. */
  function ClearedBit(mask: Mask, t: nat): (r: Mask)
    requires t < 32
    ensures !r[t]
    ensures forall j :: 0 <= j < 32 && j != t ==> r[j] == mask[j]
  {
    mask[t := false]
  }

  /** `FiberContext`: the `JobContext` fields the scheduler reads, and the scheduler's own. */
  datatype FiberContext = FiberContext(threadIndex: int, fiberIndex: int, job: Option<Job>,
                                       fiberWaitingForJobCompletion: Option<Job>, taskIndex: int)

  /** The context `Init` gives fiber `i`. */
  function InitialContext(i: int): (c: FiberContext)
    ensures c.fiberIndex == i && c.threadIndex == -1
    ensures c.job == None && c.fiberWaitingForJobCompletion == None && c.taskIndex == 0
  {
    FiberContext(-1, i, None, None, 0)
  }

  /** A context that will be awaited: it waits for its own job. */
  function WaitingForSelf(c: FiberContext): (r: FiberContext)
    ensures r.fiberWaitingForJobCompletion == c.job
    ensures r.(fiberWaitingForJobCompletion := c.fiberWaitingForJobCompletion) == c
  {
    c.(fiberWaitingForJobCompletion := c.job)
  }

  /**
   * The yield in `Do`: while the fiber is parked the workers take `k` tasks (or all there are)
   * from the front of `q`.
   */
  method WorkersTake(q: JobQueue, k: nat) returns (n: nat)
    requires q.Valid()
    modifies q
    ensures q.Valid()
    ensures n == if k <= |old(q.pending)| then k else |old(q.pending)|
    ensures q.pending == old(q.pending)[n..]
  {
    n := 0;
    while n < k && q.pending != []
      invariant q.Valid() && n <= k && n <= |old(q.pending)|
      invariant q.pending == old(q.pending)[n..]
    {
      var ok, j, i := q.GetPendingTask(null, 0);
      n := n + 1;
    }
  }

  /**
   * One round of `Do`'s retry loop on the queue: the workers took `n` tasks from the front and
   * the tasks `index` .. `next - 1` were appended, so the queue is still everything ever waiting
   * in it minus what the workers took.
   */
  lemma RetryRound(start: seq<Task>, job: Job, index: int, next: int, taken: nat, n: nat,
                   before: seq<Task>, after: seq<Task>)
    requires 0 <= index <= next && taken <= |start + TasksOf(job, 0, index)|
    requires before == (start + TasksOf(job, 0, index))[taken..] && n <= |before|
    requires after == before[n..] + TasksOf(job, index, next)
    ensures taken + n <= |start + TasksOf(job, 0, next)|
    ensures after == (start + TasksOf(job, 0, next))[taken + n..]
  {
    TasksOfSplit(job, 0, index, next);
    var a := start + TasksOf(job, 0, index);
    assert start + TasksOf(job, 0, next) == a + TasksOf(job, index, next);
    assert before[n..] == a[taken + n..];
  }

  /** `Init`'s pool loop: pushes the fiber indices `lo` .. `lo + count - 1` onto `pool` in order. */
  method PushRange(pool: seq<int>, lo: nat, count: nat) returns (r: seq<int>)
    ensures r == pool + Range(lo, lo + count)
  {
    RangeIndex(lo, lo + count);
    r := pool;
    for i := 0 to count
      invariant r == pool + Range(lo, lo + count)[..i]
    {
      assert Range(lo, lo + count)[..i + 1] == Range(lo, lo + count)[..i] + [i + lo];
      r := r + [i + lo];
    }
    assert Range(lo, lo + count)[..count] == Range(lo, lo + count);
  }

  /**
   * The contexts after `Do`: as they were, or with the caller's marked as waiting for its own
   * job.
   */
  ghost predicate ParkedOrKept(before: seq<FiberContext>, after: seq<FiberContext>, context: Option<nat>)
  {
    || after == before
    || (context.Some? && context.value < |before| &&
        after == before[context.value := WaitingForSelf(before[context.value])])
  }

  /** Parking the caller's context again leaves it parked: marking is idempotent. */
  lemma ParkedAgain(before: seq<FiberContext>, mid: seq<FiberContext>, c: nat)
    requires ParkedOrKept(before, mid, Some(c)) && c < |before|
    ensures ParkedOrKept(before, mid[c := WaitingForSelf(mid[c])], Some(c))
  {
    var after := mid[c := WaitingForSelf(mid[c])];
    if mid != before {
      assert after == mid;
    }
  }

  class JobScheduler {
    const high: JobQueue
    const medium: JobQueue
    const low: JobQueue
    const fiberContexts: array<FiberContext>
    var smallStackFiberIndexs: seq<int>
    var largeStackFiberIndexs: seq<int>
    var runTasks: bool
    var numThreads: int
    var numThreadsIdle: int
    var goingToNotify: Mask
    /** How many times `notify_all` woke the idle threads. */
    ghost var wakeUps: nat

    /** `queues[(int)priority]`. */
    function QueueFor(p: Priority): (q: JobQueue)
      ensures q == match p case High => high case Medium => medium case Low => low
    {
      match p
      case High => high
      case Medium => medium
      case Low => low
    }

    /** The state only `Init` and `FinishTasks` change: the fiber pools, the run flag, the thread count. */
    ghost function Setup(): (seq<int>, seq<int>, bool, int)
      reads this
    {
      (smallStackFiberIndexs, largeStackFiberIndexs, runTasks, numThreads)
    }

    ghost predicate Valid()
      reads this, high, medium, low
    {
      && high != medium && medium != low && high != low
      && high.Valid() && medium.Valid() && low.Valid()
      && fiberContexts.Length == NumFibers
      && |smallStackFiberIndexs| <= NumSmallStackFibers
      && |largeStackFiberIndexs| <= NumLargeStackFibers
    }

    /** The constructor: empty queues and pools, running, nobody idle, an empty mask. */
    constructor ()
      ensures Valid() && fresh(fiberContexts) && fresh(high) && fresh(medium) && fresh(low)
      ensures high.pending == [] && medium.pending == [] && low.pending == []
      ensures smallStackFiberIndexs == [] && largeStackFiberIndexs == []
      ensures runTasks && numThreadsIdle == 0 && goingToNotify == NoThreadsMask
    {
      high := new JobQueue();
      medium := new JobQueue();
      low := new JobQueue();
      fiberContexts := new FiberContext[NumFibers](_ => FiberContext(0, 0, None, None, 0));
      smallStackFiberIndexs := [];
      largeStackFiberIndexs := [];
      runTasks := true;
      numThreads := 0;
      numThreadsIdle := 0;
      goingToNotify := NoThreadsMask;
      wakeUps := 0;
    }

    /**
     * `Init(numThreads, ...)`: fibers 0 .. 127 go on the small-stack pool and 128 .. 159 on the
     * large-stack pool, in that order, and every context is reset. The pools hold exactly as
     * many fibers as there are, so they start empty.
     */
    method Init(numThreads: int)
      requires Valid() && smallStackFiberIndexs == [] && largeStackFiberIndexs == []
      modifies this, fiberContexts
      ensures Valid()
      ensures this.numThreads == numThreads
      ensures smallStackFiberIndexs == Range(0, NumSmallStackFibers)
      ensures largeStackFiberIndexs == Range(NumSmallStackFibers, NumFibers)
      ensures forall i :: 0 <= i < NumFibers ==> fiberContexts[i] == InitialContext(i)
      ensures runTasks == old(runTasks) && numThreadsIdle == old(numThreadsIdle)
      ensures goingToNotify == old(goingToNotify)
    {
      this.numThreads := numThreads;
      smallStackFiberIndexs := PushRange(smallStackFiberIndexs, 0, NumSmallStackFibers);
      largeStackFiberIndexs := PushRange(largeStackFiberIndexs, NumSmallStackFibers, NumLargeStackFibers);
      for i := 0 to NumFibers
        invariant forall k :: 0 <= k < i ==> fiberContexts[k] == InitialContext(k)
        modifies fiberContexts
      {
        fiberContexts[i] := InitialContext(i);
      }
    }

    /**
     * `NotifyWaitingThreads()`: every thread's notification bit is set, and idle threads are
     * woken.
     */
    method NotifyWaitingThreads()
      modifies this
      ensures goingToNotify == AllThreadsMask
      ensures wakeUps == old(wakeUps) + (if numThreadsIdle > 0 then 1 else 0)
      ensures Setup() == old(Setup()) && numThreadsIdle == old(numThreadsIdle)
    {
      goingToNotify := AllThreadsMask;
      if numThreadsIdle > 0 {
        wakeUps := wakeUps + 1;
      }
    }

    /** `FinishTasks()`: tells the threads to stop. */
    method FinishTasks()
      modifies this
      ensures !runTasks && goingToNotify == old(goingToNotify) && numThreadsIdle == old(numThreadsIdle)
      ensures smallStackFiberIndexs == old(smallStackFiberIndexs) && largeStackFiberIndexs == old(largeStackFiberIndexs)
    {
      runTasks := false;
    }

    /**
     * `Do(job, context)`: enqueues the job's tasks 0 .. n - 1 (n its pending count) on its
     * priority's queue, in order and each once. When the queue fills, the calling fiber marks
     * itself as awaitable, yields (the workers take `drain(k)` tasks on the k-th yield, at least
     * one) and resumes from the first task not yet enqueued. A caller without a context cannot
     * yield (the source asserts it), so for it the queue must have room for every task.
     * `taken` is the number of tasks the workers took meanwhile.
     */
    method Do(job: Job, context: Option<nat>, drain: nat -> nat) returns (ghost taken: nat)
      requires Valid() && job.Valid()
      requires context.Some? ==> context.value < NumFibers
      requires context.None? ==> job.numPendingTasks <= QueueCapacity - |QueueFor(job.priority).pending|
      requires forall k :: drain(k) >= 1
      modifies this, QueueFor(job.priority), fiberContexts
      ensures Valid()
      ensures taken <= |old(QueueFor(job.priority).pending)| + (if job.numPendingTasks > 0 then job.numPendingTasks else 0)
      ensures QueueFor(job.priority).pending == (old(QueueFor(job.priority).pending) + TasksOf(job, 0, job.numPendingTasks))[taken..]
      ensures goingToNotify == AllThreadsMask
      ensures context.None? ==> taken == 0 && fiberContexts[..] == old(fiberContexts[..])
      ensures ParkedOrKept(old(fiberContexts[..]), fiberContexts[..], context)
      ensures Setup() == old(Setup()) && numThreadsIdle == old(numThreadsIdle)
    {
      var tasks := job.numPendingTasks;
      var q := QueueFor(job.priority);
      ghost var start := q.pending;
      NotifyWaitingThreads();
      taken := 0;
      var round := 0;
      var index := q.AddJob(job, 0, tasks);
      while index < tasks
        invariant Valid() && q.Valid()
        invariant index <= tasks && (0 <= index || index == tasks)
        invariant taken <= |start + TasksOf(job, 0, index)|
        invariant q.pending == (start + TasksOf(job, 0, index))[taken..]
        invariant index < tasks ==> |q.pending| == QueueCapacity && context.Some?
        invariant context.None? ==> taken == 0 && fiberContexts[..] == old(fiberContexts[..])
        invariant goingToNotify == AllThreadsMask
        invariant ParkedOrKept(old(fiberContexts[..]), fiberContexts[..], context)
        invariant Setup() == old(Setup()) && numThreadsIdle == old(numThreadsIdle)
        decreases tasks - index
      {
        ghost var before := q.pending;
        ghost var contexts := fiberContexts[..];
        ParkedAgain(old(fiberContexts[..]), contexts, context.value);
        var n, next := YieldAndRetry(job, context.value, index, tasks, drain(round));
        round := round + 1;
        assert n <= |before| && q.pending == before[n..] + TasksOf(job, index, next);
        RetryRound(start, job, index, next, taken, n, before, q.pending);
        taken := taken + n;
        index := next;
        assert q.pending == (start + TasksOf(job, 0, index))[taken..];
      }
      NotifyWaitingThreads();
    }

    /**
     * One round of `Do`'s retry loop once the queue is full: the caller's context `c` is marked
     * as waiting for its own job, the fiber yields while the workers take `k` tasks (or all there
     * are) from the front, and the tasks from `index` on are offered to the queue again, up to
     * `next`, the first one it refuses (`tasks` when it took them all).
     */
    method YieldAndRetry(job: Job, c: nat, index: int, tasks: int, k: nat) returns (n: nat, next: int)
      requires Valid() && c < NumFibers && 0 <= index <= tasks
      modifies this, QueueFor(job.priority), fiberContexts
      ensures Valid()
      ensures n == if k <= |old(QueueFor(job.priority).pending)| then k else |old(QueueFor(job.priority).pending)|
      ensures index <= next <= tasks
      ensures QueueFor(job.priority).pending == old(QueueFor(job.priority).pending)[n..] + TasksOf(job, index, next)
      ensures next < tasks ==> |QueueFor(job.priority).pending| == QueueCapacity
      ensures fiberContexts[..] == old(fiberContexts[..])[c := WaitingForSelf(old(fiberContexts[c]))]
      ensures goingToNotify == AllThreadsMask
      ensures Setup() == old(Setup()) && numThreadsIdle == old(numThreadsIdle)
    {
      var q := QueueFor(job.priority);
      fiberContexts[c] := WaitingForSelf(fiberContexts[c]);
      n := WorkersTake(q, k);
      NotifyWaitingThreads();
      next := q.AddJob(job, index, tasks);
    }

    /**
     * `Wait(job, context)`: a finished job is not waited for; otherwise the caller's context
     * records the job it waits for and the fiber yields. Only a caller with a context can wait.
     */
    method Wait(job: Job, context: Option<nat>)
      requires context.Some? ==> context.value < fiberContexts.Length
      requires !job.HasFinished() ==> context.Some?
      modifies fiberContexts
      ensures job.HasFinished() ==> fiberContexts[..] == old(fiberContexts[..])
      ensures !job.HasFinished() ==>
        fiberContexts[..] == old(fiberContexts[..])[context.value := old(fiberContexts[context.value]).(fiberWaitingForJobCompletion := Some(job))]
    {
      if !job.HasFinished() {
        var c := context.value;
        fiberContexts[c] := fiberContexts[c].(fiberWaitingForJobCompletion := Some(job));
      }
    }

    /**
     * `DoAndWait(job, context)`: a single-task job with a context runs inline (`inline`), touching
     * no queue, no context and not its pending count; anything else is `Do` followed by `Wait`,
     * with `Do`'s queue effect (`taken` tasks taken by the workers meanwhile). `Wait` asserts a
     * context for a job that has not finished, and without a context `Do` cannot yield, so a
     * caller without a context must pass a job with no task pending.
     */
    method DoAndWait(job: Job, context: Option<nat>, drain: nat -> nat) returns (inline: bool, ghost taken: nat)
      requires Valid() && job.Valid()
      requires context.Some? ==> context.value < NumFibers
      requires context.None? ==> job.numPendingTasks == 0
      requires forall k :: drain(k) >= 1
      modifies this, QueueFor(job.priority), fiberContexts
      ensures Valid()
      ensures inline <==> old(job.numPendingTasks) == 1 && context.Some?
      ensures inline ==> unchanged(this, QueueFor(job.priority), fiberContexts)
      ensures !inline ==> goingToNotify == AllThreadsMask
      ensures !inline ==>
        && taken <= |old(QueueFor(job.priority).pending)| + (if job.numPendingTasks > 0 then job.numPendingTasks else 0)
        && QueueFor(job.priority).pending == (old(QueueFor(job.priority).pending) + TasksOf(job, 0, job.numPendingTasks))[taken..]
      ensures !inline && context.None? ==> QueueFor(job.priority).pending == old(QueueFor(job.priority).pending)
      ensures !inline && context.Some? && job.numPendingTasks != 0 ==>
        fiberContexts[context.value].fiberWaitingForJobCompletion == Some(job)
    {
      taken := 0;
      if job.numPendingTasks == 1 && context.Some? {
        inline := true;
      } else {
        inline := false;
        taken := Do(job, context, drain);
        Wait(job, context);
      }
    }

    /**
     * The compare-exchange on `goingToNotify`: succeeds, storing `desired`, exactly when the mask
     * equals `expected`; either way `observed` is the mask it found.
     */
    method CompareExchange(expected: Mask, desired: Mask) returns (ok: bool, observed: Mask)
      modifies this
      ensures ok <==> old(goingToNotify) == expected
      ensures observed == old(goingToNotify)
      ensures goingToNotify == if ok then desired else old(goingToNotify)
      ensures numThreadsIdle == old(numThreadsIdle) && wakeUps == old(wakeUps) && runTasks == old(runTasks)
      ensures smallStackFiberIndexs == old(smallStackFiberIndexs) && largeStackFiberIndexs == old(largeStackFiberIndexs)
    {
      observed := goingToNotify;
      ok := goingToNotify == expected;
      if ok {
        goingToNotify := desired;
      }
    }

    /**
     * `WaitForNotification(threadId)`: a thread without its notification bit sleeps until woken
     * (`maskAfterWait` is the mask other threads left meanwhile); then it clears its own bit and
     * only that bit, retrying the compare-exchange on a changed mask. The idle count goes up and
     * back down.
     */
    method WaitForNotification(threadId: nat, maskAfterWait: Mask)
      requires threadId < 32
      modifies this
      ensures goingToNotify == ClearedBit(if old(goingToNotify)[threadId] then old(goingToNotify) else maskAfterWait, threadId)
      ensures numThreadsIdle == old(numThreadsIdle) && wakeUps == old(wakeUps) && runTasks == old(runTasks)
      ensures smallStackFiberIndexs == old(smallStackFiberIndexs) && largeStackFiberIndexs == old(largeStackFiberIndexs)
    {
      numThreadsIdle := numThreadsIdle + 1;
      var notifyMask := goingToNotify;
      if !notifyMask[threadId] {
        goingToNotify := maskAfterWait;
      }
      ghost var woken := goingToNotify;
      var newMask := ClearedBit(notifyMask, threadId);
      var ok, observed := CompareExchange(notifyMask, newMask);
      while !ok
        invariant !ok ==> observed == goingToNotify && goingToNotify == woken
        invariant ok ==> goingToNotify == ClearedBit(woken, threadId)
        invariant numThreadsIdle == old(numThreadsIdle) + 1 && wakeUps == old(wakeUps) && runTasks == old(runTasks)
        invariant smallStackFiberIndexs == old(smallStackFiberIndexs) && largeStackFiberIndexs == old(largeStackFiberIndexs)
        decreases if ok then 0 else 1
      {
        notifyMask := observed;
        newMask := ClearedBit(notifyMask, threadId);
        ok, observed := CompareExchange(notifyMask, newMask);
      }
      numThreadsIdle := numThreadsIdle - 1;
    }
  }
}
