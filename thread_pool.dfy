/** The bounded task queue of the thread pool (`TaskQueue`) and the loop a
    worker runs over it (`Worker::run`).

    The queue is shared by threads behind a critical section; here every
    operation is one atomic step of a sequential state machine. A call that
    would sleep on a condition variable is modelled by an "enabled"
    precondition: `put` proceeds only once the queue is not full or has been
    interrupted, `get` only once it is not empty or has been interrupted. */
module ThreadPool {
  import opened Base

  /** `Task { handler, param }`: a function pointer and its argument, kept as
      opaque identities. */
  datatype Task = Task(handler: nat, param: nat)

  /** `ThreadStatus::INTERRUPTED`, the only status a queue operation fails with. */
  const INTERRUPTED: nat := 1

  /** A snapshot of a queue's fields, for stating what one operation does. */
  datatype QueueState = QueueState(capacity: nat, tasks: seq<Task>, taskCount: nat, interrupted: bool)

  /** The counter mirrors the vector, which never outgrows the capacity that
      `TaskQueue::new` reserved. */
  predicate Inv(q: QueueState) {
    0 < q.capacity && q.taskCount == |q.tasks| <= q.capacity
  }

  /** `put` leaves its wait loop: the queue has room or was interrupted. */
  predicate PutEnabled(q: QueueState) {
    q.interrupted || q.taskCount != q.capacity
  }

  /** `get` leaves its wait loop: the queue has a task or was interrupted. */
  predicate GetEnabled(q: QueueState) {
    q.interrupted || q.taskCount != 0
  }

  /** `TaskQueue::new(size)`, which asserts `size != 0`. */
  function NewState(size: nat): (q: QueueState)
    requires size != 0
    ensures Inv(q) && q.capacity == size
    ensures |q.tasks| == 0 && !q.interrupted
    ensures PutEnabled(q) && !GetEnabled(q)
  {
    QueueState(size, [], 0, false)
  }

  /** `TaskQueue::put` once it is enabled. */
  function PutStep(q: QueueState, task: Task): (r: (Result<(), nat>, QueueState))
    requires Inv(q) && PutEnabled(q)
    ensures Inv(r.1) && r.1.capacity == q.capacity
    ensures r.0.Err? <==> q.interrupted
    ensures r.0.Err? ==> r.0.error == INTERRUPTED && r.1 == q
    ensures r.0.Ok? ==> r.1.tasks == q.tasks + [task] && r.1.taskCount == q.taskCount + 1
    ensures r.1.interrupted == q.interrupted
  {
    if q.interrupted then (Err(INTERRUPTED), q)
    else (Ok(()), q.(taskCount := q.taskCount + 1, tasks := q.tasks + [task]))
  }

  /** `TaskQueue::get` once it is enabled: it removes the element at the
      decremented count, which is the most recently put one. */
  function GetStep(q: QueueState): (r: (Result<Task, nat>, QueueState))
    requires Inv(q) && GetEnabled(q)
    ensures Inv(r.1) && r.1.capacity == q.capacity
    ensures r.0.Err? <==> q.interrupted
    ensures r.0.Err? ==> r.0.error == INTERRUPTED && r.1 == q
    ensures r.0.Ok? ==> |q.tasks| > 0 && r.0.value == q.tasks[|q.tasks| - 1] &&
                        r.1.tasks + [r.0.value] == q.tasks && r.1.taskCount == q.taskCount - 1
    ensures r.1.interrupted == q.interrupted
  {
    if q.interrupted then (Err(INTERRUPTED), q)
    else
      var count := q.taskCount - 1;
      (Ok(q.tasks[count]), q.(taskCount := count, tasks := q.tasks[..count]))
  }

  /** `TaskQueue::notify_all`: sets the interrupt flag, after which every
      blocked and every future `put` and `get` is enabled. */
  function NotifyAllStep(q: QueueState): (r: QueueState)
    requires Inv(q)
    ensures Inv(r) && r.interrupted
    ensures r.tasks == q.tasks && r.capacity == q.capacity
    ensures PutEnabled(r) && GetEnabled(r)
  {
    q.(interrupted := true)
  }

  /** LIFO: a `get` right after a successful `put` hands back that task and
      restores the queue. */
  lemma PutThenGet(q: QueueState, task: Task)
    requires Inv(q) && PutEnabled(q) && !q.interrupted
    ensures var (_, q1) := PutStep(q, task);
            GetEnabled(q1) && GetStep(q1) == (Ok(task), q)
  {
    var (_, q1) := PutStep(q, task);
    assert q1.tasks[..q.taskCount] == q.tasks;
  }

  /** Putting back what a `get` returned restores the queue. */
  lemma GetThenPut(q: QueueState)
    requires Inv(q) && GetEnabled(q) && !q.interrupted
    ensures var (r, q1) := GetStep(q);
            r.Ok? && PutEnabled(q1) && PutStep(q1, r.value) == (Ok(()), q)
  {
  }

  /** Once interrupted, a queue is frozen: `put` and `get` fail without
      touching it, and `notify_all` changes nothing. */
  lemma InterruptedIsFrozen(q: QueueState, task: Task)
    requires Inv(q) && q.interrupted
    ensures PutEnabled(q) && PutStep(q, task) == (Err(INTERRUPTED), q)
    ensures GetEnabled(q) && GetStep(q) == (Err(INTERRUPTED), q)
    ensures NotifyAllStep(q) == q
  {
  }

  /** The tasks a worker invokes when it takes `k` tasks off a stack holding
      `tasks`, in the order `get` returns them. */
  function Popped(tasks: seq<Task>, k: nat): (r: seq<Task>)
    ensures |r| == Min(k, |tasks|)
    ensures forall i :: 0 <= i < |r| ==> r[i] == tasks[|tasks| - 1 - i]
  {
    if k == 0 || |tasks| == 0 then []
    else [tasks[|tasks| - 1]] + Popped(tasks[..|tasks| - 1], k - 1)
  }

  /** One more `get` extends what was popped by the next task down. */
  lemma PoppedNext(tasks: seq<Task>, k: nat)
    requires k < |tasks|
    ensures Popped(tasks, k + 1) == Popped(tasks, k) + [tasks[|tasks| - 1 - k]]
  {
    var a, b := Popped(tasks, k + 1), Popped(tasks, k) + [tasks[|tasks| - 1 - k]];
    assert |a| == |b|;
    forall i | 0 <= i < |a| ensures a[i] == b[i] {
    }
  }

  /** `TaskQueue`, without its lock and condition variables. */
  class TaskQueue {
    /** `tasks.capacity()`, fixed by `Vec::with_capacity(size)`. */
    const capacity: nat
    var tasks: seq<Task>
    var taskCount: nat
    var isInterrupted: bool

    function State(): QueueState
      reads this
    {
      QueueState(capacity, tasks, taskCount, isInterrupted)
    }

    predicate Valid()
      reads this
    {
      Inv(State())
    }

    /** `TaskQueue::new`. */
    constructor (size: nat)
      requires size != 0
      ensures Valid() && State() == NewState(size)
    {
      capacity := size;
      tasks := [];
      taskCount := 0;
      isInterrupted := false;
    }

    /** `TaskQueue::notify_all`. */
    method NotifyAll()
      requires Valid()
      modifies this
      ensures Valid() && State() == NotifyAllStep(old(State()))
    {
      isInterrupted := true;
    }

    /** `TaskQueue::get_size`. */
    method GetSize() returns (size: nat)
      requires Valid()
      ensures size == |tasks|
    {
      size := taskCount;
    }

    /** `TaskQueue::put`, entered once `PutEnabled` holds. */
    method Put(task: Task) returns (r: Result<(), nat>)
      requires Valid() && PutEnabled(State())
      modifies this
      ensures Valid() && (r, State()) == PutStep(old(State()), task)
    {
      if isInterrupted {
        return Err(INTERRUPTED);
      }
      taskCount := taskCount + 1;
      tasks := tasks + [task];
      return Ok(());
    }

    /** `TaskQueue::get`, entered once `GetEnabled` holds. */
    method Get() returns (r: Result<Task, nat>)
      requires Valid() && GetEnabled(State())
      modifies this
      ensures Valid() && (r, State()) == GetStep(old(State()))
    {
      if isInterrupted {
        return Err(INTERRUPTED);
      }
      taskCount := taskCount - 1;
      var task := tasks[taskCount];
      tasks := tasks[..taskCount];
      return Ok(task);
    }
  }

  /** A worker thread's view of the shared queue. */
  class Worker {
    const id: nat
    const queue: TaskQueue

    /** `Worker::new` without the thread it starts. */
    constructor (id: nat, queue: TaskQueue)
      ensures this.id == id && this.queue == queue
    {
      this.id := id;
      this.queue := queue;
    }

    /** `Worker::run`: take tasks with `get` and invoke each, until `get`
        fails. The pool's `notify_all` (from its `Drop`) is the only way out;
        the model delivers it once the worker has taken `notifyAfter` tasks or
        would otherwise sleep on an empty queue. `invoked` records the
        `task.invoke()` calls in order. */
    method Run(notifyAfter: nat) returns (invoked: seq<Task>, status: nat)
      requires queue.Valid()
      modifies queue
      ensures queue.Valid() && queue.isInterrupted && status == 0
      ensures var k := if old(queue.isInterrupted) then 0 else Min(notifyAfter, |old(queue.tasks)|);
              invoked == Popped(old(queue.tasks), k) &&
              queue.tasks == old(queue.tasks)[..|old(queue.tasks)| - k]
    {
      ghost var start := queue.tasks;
      ghost var wasInterrupted := queue.isInterrupted;
      invoked := [];
      var taken := 0;
      while true
        invariant queue.Valid()
        invariant wasInterrupted ==> queue.isInterrupted && taken == 0
        invariant taken <= |start| && (!queue.isInterrupted ==> taken <= notifyAfter)
        invariant queue.tasks == start[..|start| - taken]
        invariant invoked == Popped(start, taken)
        invariant queue.isInterrupted && !wasInterrupted ==> taken == Min(notifyAfter, |start|)
        decreases |queue.tasks|
      {
        if !queue.isInterrupted && (taken == notifyAfter || queue.taskCount == 0) {
          queue.NotifyAll();
        }
        var next := queue.Get();
        if next.Err? {
          break;
        }
        PoppedNext(start, taken);
        assert start[..|start| - taken][..|start| - (taken + 1)] == start[..|start| - (taken + 1)];
        invoked := invoked + [next.value];
        taken := taken + 1;
      }
      status := 0;
    }
  }
}
