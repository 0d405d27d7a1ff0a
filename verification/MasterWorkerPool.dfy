/**
 The globals of the master/worker program as an object, its two critical sections as methods,
 and its main function under an arbitrary scheduler.
 */
module MasterWorkerPool {
  import opened Orders
  import opened MasterWorker
  import Progress = MasterWorkerProgress

  class Pool {
    const totalItems: int
    const maxBufSize: nat
    const buffer: array<nat>
    var currBufSize: nat
    var itemToProduce: nat
    var masters: seq<Thread>
    var workers: seq<Thread>
    var consumed: seq<nat>

    ghost predicate Valid()
      reads this, buffer
    {
      buffer.Length == maxBufSize && currBufSize <= maxBufSize
    }

    ghost function View(): State
      requires Valid()
      reads this, buffer
    {
      State(maxBufSize, totalItems, itemToProduce, buffer[..currBufSize], masters, workers, consumed)
    }

    constructor (totalItems: int, maxBufSize: nat, numMasters: nat, numWorkers: nat)
      ensures Valid() && fresh(this) && fresh(buffer)
      ensures View() == State(maxBufSize, totalItems, 0, [],
                              seq(numMasters, i => Ready), seq(numWorkers, i => Ready), [])
    {
      this.totalItems, this.maxBufSize := totalItems, maxBufSize;
      buffer := new nat[maxBufSize];
      currBufSize, itemToProduce, consumed := 0, 0, [];
      masters := seq(numMasters, i => Ready);
      workers := seq(numWorkers, i => Ready);
    }

    /** generate_requests_loop from taking the lock to releasing it or waiting. */
    method GenerateRequest(i: nat)
      requires Valid() && Enabled(View(), Master(i))
      modifies this, buffer
      ensures Valid() && View() == MasterStep(old(View()), i)
    {
      if currBufSize >= maxBufSize {
        masters := masters[i := Waiting];
      } else if itemToProduce >= totalItems {
        masters := WakeAll(masters)[i := Done];
      } else {
        buffer[currBufSize] := itemToProduce;
        currBufSize := currBufSize + 1;
        itemToProduce := itemToProduce + 1;
        workers := WakeAll(workers);
        assert buffer[..currBufSize] == old(buffer[..currBufSize]) + [old(itemToProduce)];
      }
    }

    /** consume_requests_loop from taking the lock to releasing it or waiting. */
    method ConsumeRequest(i: nat)
      requires Valid() && Enabled(View(), Worker(i))
      modifies this
      ensures Valid() && View() == WorkerStep(old(View()), i)
    {
      if currBufSize == 0 {
        if itemToProduce >= totalItems {
          workers := WakeAll(workers)[i := Done];
        } else {
          workers := workers[i := Waiting];
        }
      } else {
        currBufSize := currBufSize - 1;
        var ent := buffer[currBufSize];
        consumed := consumed + [ent];
        masters := WakeAll(masters);
      }
    }

    method MasterTurn(i: nat)
      requires Valid() && Inv(View()) && Enabled(View(), Master(i))
      modifies this, buffer
      ensures Valid() && Progress.Progresses(old(View()), View())
    {
      Progress.StepProgresses(View(), Master(i));
      GenerateRequest(i);
    }

    method WorkerTurn(i: nat)
      requires Valid() && Inv(View()) && Enabled(View(), Worker(i))
      modifies this
      ensures Valid() && Progress.Progresses(old(View()), View())
    {
      Progress.StepProgresses(View(), Worker(i));
      ConsumeRequest(i);
    }

    /** The scheduler gives the lock to any thread that can take it. */
    method Turn()
      requires Valid() && Inv(View()) && !AllDone(View())
      modifies this, buffer
      ensures Valid() && Progress.Progresses(old(View()), View())
    {
      ghost var next := Progress.NeverStuck(View());
      if {
        case i :| 0 <= i < |masters| && masters[i].Ready? => MasterTurn(i);
        case i :| 0 <= i < |workers| && workers[i].Ready? => WorkerTurn(i);
      }
    }
  }

  /**
   main: whichever runnable thread the scheduler picks next, the joins return, and every item
   has been consumed exactly once, in stack order, none passing max_buf_size or more others.
   */
  method Run(totalItems: int, maxBufSize: nat, numWorkers: nat, numMasters: nat) returns (consumed: seq<nat>)
    requires maxBufSize >= 1 && numWorkers >= 1 && numMasters >= 1
    ensures IsPermutation(consumed, Goal(totalItems))
    ensures StackOrder(consumed) && OvertakesAtMost(consumed, maxBufSize - 1)
  {
    var pool := new Pool(totalItems, maxBufSize, numMasters, numWorkers);
    while (exists i :: 0 <= i < |pool.masters| && !pool.masters[i].Done?) ||
          (exists i :: 0 <= i < |pool.workers| && !pool.workers[i].Done?)
      invariant pool.Valid() && Inv(pool.View())
      invariant pool.totalItems == totalItems && pool.maxBufSize == maxBufSize
      decreases Progress.Measure(pool.View())
    {
      pool.Turn();
    }
    consumed := pool.consumed;
    assert pool.workers[0].Done?;
  }
}
