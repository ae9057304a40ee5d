/** The bookkeeping of `NetworkThreadPool` (TCP/inc/header.h, TCP/src/sourse.cpp):
    a FIFO queue of jobs, a terminate flag and the list of worker threads.

    There are no real threads here. A worker's loop is modelled one pass at a
    time (`WorkerStep`), and the job it takes is returned instead of run. The
    job type is a parameter: each user of the pool names its own jobs. */
module ThreadPool {

  /** A launched `std::thread` running the worker loop, by its position in the pool. */
  datatype Worker = Worker(slot: nat)

  /** The observable state of a pool: queue, terminate flag, number of workers. */
  datatype PoolState<J> = PoolState(queue: seq<J>, terminate: bool, threadCount: nat)

  /** What one pass of a worker's loop does. */
  datatype WorkerAction<J> =
    | Exit      // the terminate flag is set: the worker returns
    | Wait      // nothing queued: the worker blocks on the condition variable
    | Run(job: J)  // the front job is removed and run

  /** `AddTask`: drops the job while terminating, otherwise queues it at the back. */
  function AddTaskSpec<J>(s: PoolState<J>, job: J): (r: PoolState<J>)
    ensures r.terminate == s.terminate && r.threadCount == s.threadCount
    ensures s.terminate ==> r.queue == s.queue
    ensures !s.terminate ==> |r.queue| == |s.queue| + 1 && r.queue[..|s.queue|] == s.queue && r.queue[|s.queue|] == job
  {
    if s.terminate then s else s.(queue := s.queue + [job])
  }

  /** One pass of `ThreadWorkerLoop`. */
  function WorkerStepSpec<J>(s: PoolState<J>): (r: (PoolState<J>, WorkerAction<J>))
    ensures r.1 == Exit <==> s.terminate
    ensures r.1 == Wait <==> !s.terminate && s.queue == []
    ensures r.1.Run? ==> s.queue == [r.1.job] + r.0.queue
    ensures r.0.terminate == s.terminate && r.0.threadCount == s.threadCount
    ensures !r.1.Run? ==> r.0 == s
  {
    if s.terminate then (s, Exit)
    else if s.queue == [] then (s, Wait)
    else (s.(queue := s.queue[1..]), Run(s.queue[0]))
  }

  /** `ResetJob`: stop, join, clear the queue and relaunch as many workers. */
  function ResetJobSpec<J>(s: PoolState<J>): (r: PoolState<J>)
    ensures r.queue == [] && !r.terminate && r.threadCount == s.threadCount
  {
    PoolState([], false, s.threadCount)
  }

  /** `StopThreads`: only raises the flag. */
  function StopThreadsSpec<J>(s: PoolState<J>): (r: PoolState<J>)
    ensures r.terminate && r.queue == s.queue && r.threadCount == s.threadCount
  {
    s.(terminate := true)
  }

  /** `StartThreads(n)`: relaunches n workers only when the flag is set. */
  function StartThreadsSpec<J>(s: PoolState<J>, n: nat): (r: PoolState<J>)
    ensures !r.terminate && r.queue == s.queue
    ensures r.threadCount == if s.terminate then n else s.threadCount
  {
    if s.terminate then PoolState(s.queue, false, n) else s
  }

  /** Submitting several jobs one after another. */
  function AddAll<J>(s: PoolState<J>, jobs: seq<J>): PoolState<J>
    decreases |jobs|
  {
    if jobs == [] then s else AddAll(AddTaskSpec(s, jobs[0]), jobs[1..])
  }

  /** k passes of a worker: the final state and the jobs run, in order. */
  function RunSteps<J>(s: PoolState<J>, k: nat): (PoolState<J>, seq<J>)
    decreases k
  {
    if k == 0 then (s, [])
    else
      var (s1, action) := WorkerStepSpec(s);
      var (s2, ran) := RunSteps(s1, k - 1);
      (s2, (if action.Run? then [action.job] else []) + ran)
  }

  /** Jobs submitted to a running pool queue up behind those already there. */
  lemma {:induction false} AddAllQueues<J>(s: PoolState<J>, jobs: seq<J>)
    requires !s.terminate
    ensures AddAll(s, jobs) == s.(queue := s.queue + jobs)
    decreases |jobs|
  {
    if jobs != [] {
      AddAllQueues(AddTaskSpec(s, jobs[0]), jobs[1..]);
      assert s.queue + [jobs[0]] + jobs[1..] == s.queue + jobs;
    }
  }

  /** While the flag is set, every submission is dropped. */
  lemma {:induction false} AddAllWhileTerminating<J>(s: PoolState<J>, jobs: seq<J>)
    requires s.terminate
    ensures AddAll(s, jobs) == s
    decreases |jobs|
  {
    if jobs != [] {
      AddAllWhileTerminating(AddTaskSpec(s, jobs[0]), jobs[1..]);
    }
  }

  /** A running pool runs its queue front to back and ends empty. */
  lemma {:induction false} RunStepsDrains<J>(s: PoolState<J>)
    requires !s.terminate
    ensures RunSteps(s, |s.queue|) == (s.(queue := []), s.queue)
    decreases |s.queue|
  {
    if s.queue != [] {
      var s1 := s.(queue := s.queue[1..]);
      assert WorkerStepSpec(s) == (s1, Run(s.queue[0]));
      RunStepsDrains(s1);
      assert RunSteps(s, |s.queue|) == (s1.(queue := []), [s.queue[0]] + s1.queue);
      assert [s.queue[0]] + s.queue[1..] == s.queue;
    }
  }

  /** FIFO: whatever was queued runs first, then the new jobs in submission order. */
  lemma FifoOrder<J>(s: PoolState<J>, jobs: seq<J>)
    requires !s.terminate
    ensures RunSteps(AddAll(s, jobs), |s.queue| + |jobs|) == (s.(queue := []), s.queue + jobs)
  {
    AddAllQueues(s, jobs);
    RunStepsDrains(s.(queue := s.queue + jobs));
  }

  /** After StopThreads no worker takes another job, however many passes it makes. */
  lemma {:induction false} StoppedRunsNothing<J>(s: PoolState<J>, k: nat)
    requires s.terminate
    ensures RunSteps(s, k) == (s, [])
  {
    if k > 0 {
      assert WorkerStepSpec(s) == (s, Exit);
      StoppedRunsNothing(s, k - 1);
      var ran: seq<J> := RunSteps(s, k - 1).1;
      assert ran == [];
      assert RunSteps(s, k).1 == [] + ran;
    }
  }

  class NetworkThreadPool<J> {
    var threads: seq<Worker>  // m_threadPool_
    var queue: seq<J>         // m_queueWork_
    var terminate: bool       // m_terminatePool_

    ghost function State(): PoolState<J>
      reads this
    {
      PoolState(queue, terminate, |threads|)
    }

    /** `GetThreadCount`: the number of workers in the pool. */
    function GetThreadCount(): (n: nat)
      reads this
      ensures n == State().threadCount
    {
      |threads|
    }

    /** The constructor: `ConfigureThreadPool(threadCount)` on an empty pool. */
    constructor(threadCount: nat)
      ensures State() == PoolState([], false, threadCount)
      ensures GetThreadCount() == threadCount
    {
      threads := [];
      queue := [];
      terminate := false;
      new;
      ConfigureThreadPool(threadCount);
    }

    /** `ConfigureThreadPool`: replaces the workers by `threadCount` new ones. */
    method ConfigureThreadPool(threadCount: nat)
      modifies this`threads
      ensures |threads| == threadCount && GetThreadCount() == threadCount
      ensures forall i :: 0 <= i < threadCount ==> threads[i] == Worker(i)
    {
      threads := [];
      for i := 0 to threadCount
        invariant |threads| == i
        invariant forall j :: 0 <= j < i ==> threads[j] == Worker(j)
      {
        threads := threads + [Worker(i)];
      }
    }

    /** `AddTask`. */
    method AddTask(job: J)
      modifies this`queue
      ensures State() == AddTaskSpec(old(State()), job)
    {
      if terminate {
        return;
      }
      queue := queue + [job];
    }

    /** One pass of `ThreadWorkerLoop`: exit, wait, or take the front job. */
    method WorkerStep() returns (action: WorkerAction<J>)
      modifies this`queue
      ensures (State(), action) == WorkerStepSpec(old(State()))
    {
      if terminate {
        return Exit;
      }
      if queue == [] {
        return Wait;
      }
      var work := queue[0];
      queue := queue[1..];
      action := Run(work);
    }

    /** `ResetJob`. */
    method ResetJob()
      modifies this
      ensures State() == ResetJobSpec(old(State()))
    {
      terminate := true;
      // JoinThreads(): waits for the workers, which see the flag and exit.
      terminate := false;
      queue := [];
      ConfigureThreadPool(|threads|);
    }

    /** `StopThreads`. */
    method StopThreads()
      modifies this`terminate
      ensures State() == StopThreadsSpec(old(State()))
    {
      terminate := true;
    }

    /** `StartThreads`. */
    method StartThreads(threadCount: nat)
      modifies this
      ensures State() == StartThreadsSpec(old(State()), threadCount)
    {
      if terminate {
        terminate := false;
        ConfigureThreadPool(threadCount);
      }
    }
  }
}
