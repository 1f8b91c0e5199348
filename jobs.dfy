/**
 * The job side of the task manager: a `Job` counts its pending tasks in an atomic `short`, a task
 * is a job with a task index, and a `JobQueue` feeds tasks into a bounded FIFO of 1024 entries.
 * Atomics are plain integers here (the model is sequential). The FIFO stands for
 * `SpinlockQueue<Task, 1024>`, whose source is not part of this model: it is given the contract
 * of a bounded queue, where `Add` refuses a task exactly when 1024 tasks are waiting.
 */
module Jobs {
  import opened Wrappers

  const ShortMin: int := -0x8000
  const ShortMax: int := 0x7fff
  const QueueCapacity: nat := 1024

  predicate IsShort(x: int) {
    ShortMin <= x <= ShortMax
  }

  /** `--numPendingTasks` on an atomic `short`: two's-complement wrap-around at the bottom. */
  function ShortDecrement(n: int): (r: int)
    requires IsShort(n)
    ensures IsShort(r)
    ensures n > ShortMin ==> r == n - 1
    ensures n == ShortMin ==> r == ShortMax
  {
    if n == ShortMin then ShortMax else n - 1
  }

  /** The pending count after `k` calls of `TaskFinished` on a count of `n`. */
  function AfterFinished(n: int, k: nat): (r: int)
    requires IsShort(n)
    ensures IsShort(r)
    decreases k
  {
    if k == 0 then n else ShortDecrement(AfterFinished(n, k - 1))
  }

  /**
   * A job of `n` tasks counts down by one per finished task: after `k <= n` of them `n - k`
   * remain, so it has finished exactly when all `n` have.
   */
  lemma {:induction false} AfterFinishedCounts(n: int, k: nat)
    requires 0 <= k <= n <= ShortMax
    ensures AfterFinished(n, k) == n - k
    ensures AfterFinished(n, k) == 0 <==> k == n
  {
    if k > 0 {
      AfterFinishedCounts(n, k - 1);
    }
  }

  datatype Priority = High | Medium | Low

  /** `Job`: the unit of work; `DoTask`, the work itself, is each subclass's own code. */
  class Job {
    var numPendingTasks: int
    const priority: Priority
    const needsLargeStack: bool
    const systemID: int
    const jobName: string

    ghost predicate Valid()
      reads this
    {
      IsShort(numPendingTasks)
    }

    /** The constructor: `numTasks` tasks pending. */
    constructor (jobName: string, numTasks: int, systemID: int, priority: Priority, needsLargeStack: bool)
      requires IsShort(numTasks)
      ensures Valid() && numPendingTasks == numTasks
      ensures this.jobName == jobName && this.systemID == systemID
      ensures this.priority == priority && this.needsLargeStack == needsLargeStack
    {
      numPendingTasks := numTasks;
      this.priority := priority;
      this.needsLargeStack := needsLargeStack;
      this.systemID := systemID;
      this.jobName := jobName;
    }

    /** The copy and move constructors, which are the same: every field is taken from `other`. */
    constructor Copy(other: Job)
      requires other.Valid()
      ensures Valid() && numPendingTasks == other.numPendingTasks
      ensures jobName == other.jobName && systemID == other.systemID
      ensures priority == other.priority && needsLargeStack == other.needsLargeStack
    {
      numPendingTasks := other.numPendingTasks;
      priority := other.priority;
      needsLargeStack := other.needsLargeStack;
      systemID := other.systemID;
      jobName := other.jobName;
    }

    /** `TaskFinished()`: one task fewer pending. */
    method TaskFinished()
      requires Valid()
      modifies this
      ensures Valid() && numPendingTasks == ShortDecrement(old(numPendingTasks))
    {
      numPendingTasks := ShortDecrement(numPendingTasks);
    }

    /** `HasFinished()`: no task pending. */
    predicate HasFinished()
      reads this
    {
      0 == numPendingTasks
    }
  }

  /** Running every task of a job with a non-negative count leaves it finished. */
  method FinishAll(job: Job)
    requires job.Valid() && job.numPendingTasks >= 0
    modifies job
    ensures job.Valid() && job.HasFinished()
  {
    ghost var n := job.numPendingTasks;
    var k := 0;
    while !job.HasFinished()
      invariant 0 <= k <= n && job.Valid()
      invariant job.numPendingTasks == AfterFinished(n, k)
      decreases n - k
    {
      AfterFinishedCounts(n, k);
      job.TaskFinished();
      k := k + 1;
    }
  }

  /** `JobQueue::Task`: a job and the index of one of its tasks. */
  datatype Task = Task(job: Job, taskIndex: int)

  /** The tasks `begin` .. `end - 1` of `job`, in index order. */
  function TasksOf(job: Job, begin: int, end: int): (r: seq<Task>)
    ensures |r| == if begin <= end then end - begin else 0
    ensures forall i :: 0 <= i < |r| ==> r[i] == Task(job, begin + i)
    decreases end - begin
  {
    if begin >= end then [] else [Task(job, begin)] + TasksOf(job, begin + 1, end)
  }

  /** Enqueuing `a .. b - 1` and then `b .. c - 1` enqueues `a .. c - 1`, each index once. */
  lemma {:induction false} TasksOfSplit(job: Job, a: int, b: int, c: int)
    requires a <= b <= c
    ensures TasksOf(job, a, b) + TasksOf(job, b, c) == TasksOf(job, a, c)
    decreases b - a
  {
    if a < b {
      TasksOfSplit(job, a + 1, b, c);
      assert TasksOf(job, a, b) == [Task(job, a)] + TasksOf(job, a + 1, b);
      assert TasksOf(job, a, c) == [Task(job, a)] + TasksOf(job, a + 1, c);
    }
  }

  /** `JobQueue`: one priority level's queue of tasks. */
  class JobQueue {
    var pending: seq<Task>

    ghost predicate Valid()
      reads this
    {
      |pending| <= QueueCapacity
    }

    constructor ()
      ensures Valid() && pending == []
    {
      pending := [];
    }

    /** `innerQueue.Add(task)`: refused when the queue is full, appended at the back otherwise. */
    method Add(task: Task) returns (ok: bool)
      requires Valid()
      modifies this
      ensures Valid()
      ensures ok <==> |old(pending)| < QueueCapacity
      ensures pending == if ok then old(pending) + [task] else old(pending)
    {
      ok := |pending| < QueueCapacity;
      if ok {
        pending := pending + [task];
      }
    }

    /** `innerQueue.Remove(task)`: the front task, or nothing when the queue is empty. */
    method Remove() returns (r: Option<Task>)
      requires Valid()
      modifies this
      ensures Valid()
      ensures r.None? <==> old(pending) == []
      ensures r.Some? ==> r.value == old(pending)[0] && pending == old(pending)[1..]
      ensures r.None? ==> pending == old(pending)
    {
      if pending == [] {
        r := None;
      } else {
        r := Some(pending[0]);
        pending := pending[1..];
      }
    }

    /**
     * `AddJob(job, begin, end)`: enqueues the tasks `begin`, `begin + 1`, ... in order until one is
     * refused, and returns the index of the first task not enqueued (`end` when all were). It
     * stops short of `end` only when the queue is full.
     */
    method AddJob(job: Job, begin: int, end: int) returns (r: int)
      requires Valid()
      modifies this
      ensures Valid()
      ensures begin <= end ==> begin <= r <= end
      ensures begin > end ==> r == end
      ensures pending == old(pending) + TasksOf(job, begin, r)
      ensures r < end ==> |pending| == QueueCapacity
    {
      var i := begin;
      while i < end
        invariant Valid()
        invariant begin <= end ==> begin <= i <= end
        invariant begin > end ==> i == begin
        invariant pending == old(pending) + TasksOf(job, begin, i)
        decreases end - i
      {
        var ok := Add(Task(job, i));
        if !ok {
          return i;
        }
        TasksOfSplit(job, begin, i, i + 1);
        i := i + 1;
      }
      r := end;
    }

    /**
     * `GetPendingTask(jobPointer, taskIndex)`: takes the front task and hands out its job and
     * index; on an empty queue it returns false and hands back the out-parameters as they were.
     */
    method GetPendingTask(jobPointer: Job?, taskIndex: int) returns (ok: bool, jobOut: Job?, indexOut: int)
      requires Valid()
      modifies this
      ensures Valid()
      ensures ok <==> old(pending) != []
      ensures ok ==> jobOut == old(pending)[0].job && indexOut == old(pending)[0].taskIndex
      ensures ok ==> pending == old(pending)[1..]
      ensures !ok ==> jobOut == jobPointer && indexOut == taskIndex && pending == old(pending)
    {
      var task := Remove();
      if task.Some? {
        jobOut, indexOut := task.value.job, task.value.taskIndex;
        return true, jobOut, indexOut;
      }
      return false, jobPointer, taskIndex;
    }
  }

  /**
   * Tasks are taken in the order they were added: an empty queue fed with `AddJob(job, begin,
   * end)`, room permitting, hands back through `GetPendingTask` exactly the indices `begin` ..
   * `end - 1`, in increasing order, and is empty again afterwards.
   */
  method AddThenTakeAll(q: JobQueue, job: Job, begin: int, end: int) returns (indices: seq<int>)
    requires q.Valid() && q.pending == [] && begin <= end && end - begin <= QueueCapacity
    modifies q
    ensures |indices| == end - begin
    ensures forall k :: 0 <= k < |indices| ==> indices[k] == begin + k
    ensures q.pending == []
  {
    var r := q.AddJob(job, begin, end);
    indices := [];
    while true
      invariant q.Valid() && |indices| <= end - begin
      invariant q.pending == TasksOf(job, begin + |indices|, end)
      invariant forall k :: 0 <= k < |indices| ==> indices[k] == begin + k
      decreases |q.pending|
    {
      var ok, j, i := q.GetPendingTask(null, -1);
      if !ok {
        break;
      }
      indices := indices + [i];
    }
  }
}
