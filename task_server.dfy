/** task3.2: a server with one worker thread that takes tasks from a FIFO
    queue, computes sin, sqrt or the square of their argument, and appends the
    finished records to a results vector that clients read by position.

    Each critical section is one atomic method, a blocking wait on the
    condition variable is a precondition, and the worker thread's position in
    process_tasks is the field `phase`. The numeric kernels are parameters:
    only the dispatch on operation_type is modelled. */
module TaskServer {

  /** struct Task. `operationType` 1 is sin, 2 is sqrt, 3 is the square. */
  datatype Task = Task(id: int, operationType: int, arg: real, result: real)

  /** The three numeric kernels the worker applies (std::sin, std::sqrt and
      std::pow(x, 2) followed by static_cast<T>). */
  datatype Kernels = Kernels(sin: real -> real, sqrt: real -> real, square: real -> real)

  /** Where the worker thread stands in process_tasks. */
  datatype Phase =
    | NotStarted      // start() has not been called
    | AtLoopHead      // about to test `while (isRunning)`
    | Waiting         // inside the loop, waiting for a task
    | Busy(task: Task)  // holding a dequeued task, computing outside the lock
    | Exited          // left the loop

  /** The worker's computation, lines 71-77: the record keeps its id, type and
      argument; its result is set by type, and stays as it was for any type
      other than 1, 2 or 3. */
  function Process(k: Kernels, t: Task): (r: Task)
    ensures r.id == t.id && r.operationType == t.operationType && r.arg == t.arg
    ensures r.result == match t.operationType
      case 1 => k.sin(t.arg)
      case 2 => k.sqrt(t.arg)
      case 3 => k.square(t.arg)
      case _ => t.result
  {
    if t.operationType == 1 then t.(result := k.sin(t.arg))
    else if t.operationType == 2 then t.(result := k.sqrt(t.arg))
    else if t.operationType == 3 then t.(result := k.square(t.arg))
    else t
  }

  /** What a client asked for: a task without its result field. */
  datatype Request = Request(id: int, operationType: int, arg: real)

  function Requests(ts: seq<Task>): (rs: seq<Request>)
    ensures |rs| == |ts|
  {
    seq(|ts|, i requires 0 <= i < |ts| => Request(ts[i].id, ts[i].operationType, ts[i].arg))
  }

  class Server {
    const kernels: Kernels
    var taskQueue: seq<Task>
    var results: seq<Task>
    var isRunning: bool
    var phase: Phase
    /** Every task handed to the queue, as queued (with its id set), in order. */
    ghost var submitted: seq<Task>

    /** The task the worker holds between its two critical sections, if any. */
    ghost function InFlight(): seq<Task>
      reads this
    {
      if phase.Busy? then [phase.task] else []
    }

    /** The server's invariant: the task in flight and the queue are, in that
        order, the submitted tasks that have no record yet, and record k is the
        k-th submitted task processed. An id never exceeds its task's
        submission position. Once the worker has exited, isRunning is false. */
    ghost predicate Valid()
      reads this
    {
      && |results| <= |submitted|
      && InFlight() + taskQueue == submitted[|results|..]
      && (forall k | 0 <= k < |results| :: results[k] == Process(kernels, submitted[k]))
      && (forall k | 0 <= k < |submitted| :: 0 <= submitted[k].id <= k)
      && (phase == Exited ==> !isRunning)
    }

    constructor (kernels: Kernels)
      ensures Valid()
      ensures this.kernels == kernels
      ensures taskQueue == [] && results == [] && submitted == []
      ensures isRunning && phase == NotStarted
    {
      this.kernels := kernels;
      taskQueue := [];
      results := [];
      isRunning := true;
      phase := NotStarted;
      submitted := [];
    }

    /** start(), lines 31-33: the worker thread begins process_tasks. A second
        start() would assign to a joinable std::thread, which terminates the
        program, so it is excluded. */
    method Start()
      requires Valid() && phase == NotStarted
      modifies this
      ensures Valid() && phase == AtLoopHead
      ensures taskQueue == old(taskQueue) && results == old(results) && submitted == old(submitted)
      ensures isRunning == old(isRunning)
    {
      phase := AtLoopHead;
    }

    /** add_task, lines 43-49: the task's id is overwritten with the current
        number of finished records, and the task goes to the tail of the queue. */
    method AddTask(task: Task) returns (id: int)
      requires Valid()
      modifies this
      ensures Valid()
      ensures id == |old(results)|
      ensures taskQueue == old(taskQueue) + [task.(id := id)]
      ensures submitted == old(submitted) + [task.(id := id)]
      ensures results == old(results) && isRunning == old(isRunning) && phase == old(phase)
    {
      id := |results|;
      taskQueue := taskQueue + [task.(id := id)];
      submitted := submitted + [task.(id := id)];
    }

    /** add_task with the id it evidently means to give: the task's position
        among all submitted tasks, which is the number of finished records plus
        the task in flight plus the queued tasks. */
    method AddTaskNumbered(task: Task) returns (id: int)
      requires Valid()
      modifies this
      ensures Valid()
      ensures id == |old(submitted)|
      ensures taskQueue == old(taskQueue) + [task.(id := id)]
      ensures submitted == old(submitted) + [task.(id := id)]
      ensures results == old(results) && isRunning == old(isRunning) && phase == old(phase)
    {
      id := |results| + (if phase.Busy? then 1 else 0) + |taskQueue|;
      taskQueue := taskQueue + [task.(id := id)];
      submitted := submitted + [task.(id := id)];
    }

    /** request_result, lines 52-56: blocks until more than idRes records are
        finished, then returns record idRes, which is the idRes-th submitted
        task processed, whatever its id says. A negative idRes compares as a
        huge unsigned value and blocks for ever, so it is excluded too. */
    method RequestResult(idRes: int) returns (t: Task)
      requires Valid() && 0 <= idRes < |results|
      ensures t == results[idRes]
      ensures t == Process(kernels, submitted[idRes])
    {
      t := results[idRes];
    }

    /** stop(), lines 36-38: clears isRunning and wakes the worker. Joining the
        worker, line 39, is waiting for phase Exited. */
    method Stop()
      requires Valid()
      modifies this
      ensures Valid() && !isRunning
      ensures taskQueue == old(taskQueue) && results == old(results) && submitted == old(submitted)
      ensures phase == old(phase)
    {
      isRunning := false;
    }

    /** The test `while (isRunning)` of line 61: the worker goes on to wait for
        a task, or leaves the loop for good. */
    method LoopHead()
      requires Valid() && phase == AtLoopHead
      modifies this
      ensures Valid()
      ensures phase == if isRunning then Waiting else Exited
      ensures taskQueue == old(taskQueue) && results == old(results) && submitted == old(submitted)
      ensures isRunning == old(isRunning)
    {
      if isRunning {
        phase := Waiting;
      } else {
        phase := Exited;
      }
    }

    /** The first critical section, lines 64-67: once the queue is non-empty
        the worker takes its front task. The wait also ends when isRunning is
        cleared; with an empty queue the source then calls front() and pop() on
        an empty std::queue, so a non-empty queue is required. */
    method Take()
      requires Valid() && phase == Waiting
      requires |taskQueue| > 0
      modifies this
      ensures Valid()
      ensures phase == Busy(old(taskQueue)[0])
      ensures taskQueue == old(taskQueue)[1..]
      ensures results == old(results) && submitted == old(submitted) && isRunning == old(isRunning)
    {
      phase := Busy(taskQueue[0]);
      taskQueue := taskQueue[1..];
    }

    /** The computation and the second critical section, lines 71-82: the
        processed task is appended to the results. */
    method Finish()
      requires Valid() && phase.Busy?
      modifies this
      ensures Valid()
      ensures results == old(results) + [Process(kernels, old(phase).task)]
      ensures phase == AtLoopHead
      ensures taskQueue == old(taskQueue) && submitted == old(submitted) && isRunning == old(isRunning)
    {
      results := results + [Process(kernels, phase.task)];
      phase := AtLoopHead;
    }

    /** The worker's run to its exit once stop() has cleared isRunning, with
        no task submitted meanwhile. At the loop test it leaves at once. Inside
        cv.wait with a queued task, the wait ends on the queue, so the front
        task is still taken and finished before the loop test. Holding a task,
        it finishes that task first. Whatever is queued when it exits is never
        processed: no worker step applies to phase Exited. A worker waiting on
        an empty queue is the undefined case that Take excludes. */
    method WorkerAfterStop()
      requires Valid() && !isRunning
      requires phase == AtLoopHead || phase.Busy? || (phase == Waiting && |taskQueue| > 0)
      modifies this
      ensures Valid() && phase == Exited
      ensures old(phase) == AtLoopHead ==> results == old(results) && taskQueue == old(taskQueue)
      ensures old(phase).Busy? ==>
        results == old(results) + [Process(kernels, old(phase).task)] && taskQueue == old(taskQueue)
      ensures old(phase) == Waiting ==>
        results == old(results) + [Process(kernels, old(taskQueue)[0])] && taskQueue == old(taskQueue)[1..]
      ensures submitted == old(submitted) && isRunning == old(isRunning)
    {
      if phase == Waiting {
        Take();
      }
      if phase.Busy? {
        Finish();
      }
      LoopHead();
    }

    /** One whole iteration of process_tasks with no other thread in between:
        the front task of the queue is processed and appended to the results. */
    method WorkerIteration()
      requires Valid() && phase == AtLoopHead && isRunning
      requires |taskQueue| > 0
      modifies this
      ensures Valid() && phase == AtLoopHead
      ensures results == old(results) + [Process(kernels, old(taskQueue)[0])]
      ensures taskQueue == old(taskQueue)[1..]
      ensures submitted == old(submitted) && isRunning == old(isRunning)
    {
      LoopHead();
      Take();
      Finish();
    }
  }

  /** FIFO order: the finished records, ignoring their result fields, then the
      task in flight, then the queue, are exactly the tasks passed to add_task,
      in call order. */
  lemma FifoOrder(s: Server)
    requires s.Valid()
    ensures Requests(s.results + s.InFlight() + s.taskQueue) == Requests(s.submitted)
  {
    var done := s.submitted[..|s.results|];
    assert s.submitted == done + s.submitted[|s.results|..];
    assert Requests(s.results) == Requests(done);
  }

  /** Two add_task calls with no worker step between them get the same id, and
      request_result with the second call's id returns the first task's record. */
  method SameIdTwice(k: Kernels, t1: Task, t2: Task) returns (id1: int, id2: int, got: Task)
    ensures id1 == 0 && id2 == 0
    ensures got == Process(k, t1.(id := 0))
  {
    var server := new Server(k);
    server.Start();
    id1 := server.AddTask(t1);
    id2 := server.AddTask(t2);
    server.WorkerIteration();
    server.WorkerIteration();
    got := server.RequestResult(id2);
  }

  /** With ids numbered by submission position, request_result with the
      second call's id returns the second task's record. */
  method DistinctIds(k: Kernels, t1: Task, t2: Task) returns (id1: int, id2: int, got: Task)
    ensures id1 == 0 && id2 == 1
    ensures got == Process(k, t2.(id := 1))
  {
    var server := new Server(k);
    server.Start();
    id1 := server.AddTaskNumbered(t1);
    id2 := server.AddTaskNumbered(t2);
    server.WorkerIteration();
    server.WorkerIteration();
    got := server.RequestResult(id2);
  }

  /** stop() while the worker stands at its loop test, with a task queued:
      the worker leaves the loop at that test and the task never reaches the
      results. */
  method StopAbandonsQueue(k: Kernels, t: Task) returns (finished: seq<Task>, pending: seq<Task>, exited: bool)
    ensures finished == [] && pending == [t.(id := 0)] && exited
  {
    var server := new Server(k);
    server.Start();
    var id := server.AddTask(t);
    server.Stop();
    server.LoopHead();
    finished, pending, exited := server.results, server.taskQueue, server.phase == Exited;
  }

  /** stop() while the worker is inside cv.wait, with a task queued: the wait
      ends on the non-empty queue, so that task is still processed and
      recorded before the worker leaves the loop. */
  method StopWhileWaiting(k: Kernels, t: Task) returns (finished: seq<Task>, pending: seq<Task>, exited: bool)
    ensures finished == [Process(k, t.(id := 0))] && pending == [] && exited
  {
    var server := new Server(k);
    server.Start();
    server.LoopHead();
    var id := server.AddTask(t);
    server.Stop();
    server.WorkerAfterStop();
    finished, pending, exited := server.results, server.taskQueue, server.phase == Exited;
  }
}
