/**
 The ThreadPool object: its critical sections as methods on the queue and the stop flag, and
 its destructor under an arbitrary scheduler of the workers.
 */
module ThreadPoolClass {
  import opened ThreadPool

  class Pool {
    var tasks: seq<Task>
    var stop: bool
    var workers: seq<Worker>
    ghost var owed: nat
    ghost var destructor: Destructor
    ghost var accepted: seq<Task>
    ghost var taken: seq<Task>
    ghost var finished: seq<Task>

    ghost function View(): State
      reads this
    {
      State(tasks, stop, workers, owed, destructor, accepted, taken, finished)
    }

    constructor (numThreads: nat)
      ensures Init(View()) && |workers| == if numThreads == 0 then 4 else numThreads
    {
      tasks, stop := [], false;
      workers := seq(if numThreads == 0 then 4 else numThreads, i => Fresh);
      owed, destructor, accepted, taken, finished := 0, NotCalled, [], [], [];
    }

    /** The locked part of enqueue; false stands for the exception on a stopped pool. */
    method EnqueueLocked(task: Task) returns (ok: bool)
      modifies this
      ensures ok == !old(stop)
      ensures tasks == if ok then old(tasks) + [task] else old(tasks)
      ensures owed == if ok then old(owed) + 1 else old(owed)
      ensures View() == Apply(old(View()), Push(task))
    {
      if stop {
        return false;
      }
      tasks := tasks + [task];
      accepted, owed := accepted + [task], owed + 1;
      return true;
    }

    /** notify_one, after the lock has been released. */
    method NotifyOne() returns (ghost woken: nat)
      requires owed > 0
      modifies this
      ensures Enabled(old(View()), ThreadPool.NotifyOne(woken))
      ensures View() == Apply(old(View()), ThreadPool.NotifyOne(woken))
    {
      woken, owed := 0, owed - 1;
      if i :| 0 <= i < |workers| && workers[i].Asleep? {
        woken := i;
        workers := workers[i := Woken];
      }
    }

    /** worker_loop from taking the lock to waiting, returning or leaving with a task. */
    method WorkerSection(i: nat)
      requires Enabled(View(), Look(i))
      modifies this
      ensures View() == Apply(old(View()), Look(i))
    {
      if !(stop || tasks != []) {
        workers := workers[i := Asleep];
      } else if stop && tasks == [] {
        workers := workers[i := Exited];
      } else {
        var task := tasks[0];
        tasks := tasks[1..];
        workers, taken := workers[i := Running(task)], taken + [task];
      }
    }

    method FinishTask(i: nat)
      requires Enabled(View(), Finish(i))
      modifies this
      ensures View() == Apply(old(View()), Finish(i))
    {
      finished := finished + [workers[i].task];
      workers := workers[i := Fresh];
    }

    /** While a join waits, the scheduler gives a turn to any worker that can run. */
    method Turn(joined: nat) returns (j: nat)
      requires Inv(View()) && destructor == Joining(joined) && joined < |workers|
      modifies this
      ensures Inv(View()) && destructor == Joining(j) && accepted == old(accepted)
      ensures Measure(View()) < Measure(old(View()))
    {
      j := joined;
      ghost var next := Join;
      if {
        case workers[joined].Exited? =>
          j := joined + 1;
          destructor := Joining(j);
        case i :| 0 <= i < |workers| && WantsLock(workers[i]) =>
          next := Look(i);
          WorkerSection(i);
        case i :| 0 <= i < |workers| && workers[i].Running? =>
          next := Finish(i);
          FinishTask(i);
      }
      StepKeepsInv(old(View()), next);
      StepMeasure(old(View()), next);
    }

    /**
     The destructor: sets the flag under the lock, notifies everybody and joins the workers in
     turn while they run in any order. It returns, and every accepted task has then run once.
     */
    method Destroy()
      requires Inv(View()) && destructor.NotCalled?
      modifies this
      ensures Inv(View()) && accepted == old(accepted) && taken == accepted
      ensures multiset(finished) == multiset(accepted)
      ensures forall i :: 0 <= i < |workers| ==> workers[i].Exited?
    {
      StepKeepsInv(View(), SetStop);
      stop, destructor := true, StopSet;
      StepKeepsInv(View(), NotifyAll);
      workers, destructor := WakeAll(workers), Joining(0);
      var joined: nat := 0;
      while joined < |workers|
        invariant Inv(View()) && destructor == Joining(joined) && accepted == old(accepted)
        decreases Measure(View())
      {
        joined := Turn(joined);
      }
      assert workers[0].Exited?;
      AllIdleMeansAllRun(View());
    }
  }
}
