/**
 The BoundedBuffer object and the counters of main, its critical sections as methods, and main
 itself under an arbitrary scheduler.
 */
module BoundedBufferClass {
  import opened Orders
  import opened BoundedBuffer
  import Progress = BoundedBufferProgress

  class Buffer {
    const capacity: nat
    const total: int
    var buffer: seq<nat>
    var done: bool
    var nextItem: nat
    var consumedCount: nat
    var producers: seq<Producer>
    var consumers: seq<Consumer>
    ghost var pushed: seq<nat>
    ghost var pushedBy: seq<nat>
    var consumed: seq<nat>

    ghost function View(): State
      reads this
    {
      State(capacity, total, nextItem, buffer, done, producers, consumers, pushed, pushedBy, consumed, consumedCount)
    }

    constructor (total: int, capacity: nat, numProducers: nat, numConsumers: nat)
      ensures View() == State(capacity, total, 0, [], false, seq(numProducers, i => Fetching),
                              seq(numConsumers, i => Taking), [], [], [], 0)
    {
      this.capacity, this.total := capacity, total;
      buffer, done, nextItem, consumedCount := [], false, 0, 0;
      producers, consumers := seq(numProducers, i => Fetching), seq(numConsumers, i => Taking);
      pushed, pushedBy, consumed := [], [], [];
    }

    method FetchTicket(i: nat)
      requires Enabled(View(), Fetch(i))
      modifies this
      ensures View() == Apply(old(View()), Fetch(i))
    {
      var item := nextItem;
      nextItem := nextItem + 1;
      producers := producers[i := if item >= total then Gone else Storing(item)];
    }

    /** produce, from taking the mutex; notify_one picks any sleeping consumer. */
    method Produce(i: nat) returns (ghost woken: nat)
      requires i < |producers| && (producers[i].Storing? || producers[i].FullWoken?)
      modifies this
      ensures Enabled(old(View()), Store(i, woken)) && View() == Apply(old(View()), Store(i, woken))
    {
      var sleeper: nat := |consumers|;
      if c :| 0 <= c < |consumers| && consumers[c].EmptyWait? {
        sleeper := c;
      }
      woken := sleeper;
      var item := producers[i].item;
      if !(|buffer| < capacity) {
        producers := producers[i := FullWait(item)];
      } else {
        buffer := buffer + [item];
        pushed, pushedBy := pushed + [item], pushedBy + [i];
        producers := producers[i := Fetching];
        if sleeper < |consumers| {
          consumers := consumers[sleeper := EmptyWoken];
        }
      }
    }

    /** consume, from taking the mutex; notify_one picks any sleeping producer. */
    method Consume(i: nat) returns (ghost woken: nat)
      requires i < |consumers| && (consumers[i].Taking? || consumers[i].EmptyWoken?)
      modifies this
      ensures Enabled(old(View()), Take(i, woken)) && View() == Apply(old(View()), Take(i, woken))
    {
      var sleeper: nat := |producers|;
      if p :| 0 <= p < |producers| && producers[p].FullWait? {
        sleeper := p;
      }
      woken := sleeper;
      if !(buffer != [] || done) {
        consumers := consumers[i := EmptyWait];
      } else if buffer == [] && done {
        consumers := consumers[i := Left];
      } else {
        consumed := consumed + [buffer[0]];
        buffer := buffer[1..];
        consumers := consumers[i := Counting];
        if sleeper < |producers| {
          producers := producers[sleeper := FullWoken(producers[sleeper].item)];
        }
      }
    }

    method CountConsumed(i: nat)
      requires Enabled(View(), Count(i))
      modifies this
      ensures View() == Apply(old(View()), Count(i))
    {
      consumedCount := consumedCount + 1;
      consumers := consumers[i := Taking];
    }

    method MarkDone()
      requires Enabled(View(), BoundedBuffer.MarkDone)
      modifies this
      ensures View() == Apply(old(View()), BoundedBuffer.MarkDone)
    {
      done := true;
      consumers := WakeConsumers(consumers);
    }

    method FetchTurn(i: nat)
      requires Inv(View()) && Enabled(View(), Fetch(i))
      modifies this
      ensures Progress.Progresses(old(View()), View())
    {
      Progress.StepProgresses(View(), Fetch(i));
      FetchTicket(i);
    }

    method StoreTurn(i: nat)
      requires Inv(View()) && i < |producers| && (producers[i].Storing? || producers[i].FullWoken?)
      modifies this
      ensures Progress.Progresses(old(View()), View())
    {
      ghost var woken := Produce(i);
      Progress.StepProgresses(old(View()), Store(i, woken));
    }

    method TakeTurn(i: nat)
      requires Inv(View()) && i < |consumers| && (consumers[i].Taking? || consumers[i].EmptyWoken?)
      modifies this
      ensures Progress.Progresses(old(View()), View())
    {
      ghost var woken := Consume(i);
      Progress.StepProgresses(old(View()), Take(i, woken));
    }

    method CountTurn(i: nat)
      requires Inv(View()) && Enabled(View(), Count(i))
      modifies this
      ensures Progress.Progresses(old(View()), View())
    {
      Progress.StepProgresses(View(), Count(i));
      CountConsumed(i);
    }

    method DoneTurn()
      requires Inv(View()) && Enabled(View(), BoundedBuffer.MarkDone)
      modifies this
      ensures Progress.Progresses(old(View()), View())
    {
      Progress.StepProgresses(View(), BoundedBuffer.MarkDone);
      MarkDone();
    }

    /** The scheduler gives a turn to any thread that can run. */
    method Turn()
      requires Inv(View()) && !Progress.AllDone(View())
      modifies this
      ensures Progress.Progresses(old(View()), View())
    {
      ghost var next := Progress.NeverStuck(View());
      if {
        case i :| 0 <= i < |producers| && producers[i].Fetching? => FetchTurn(i);
        case i :| 0 <= i < |producers| && (producers[i].Storing? || producers[i].FullWoken?) => StoreTurn(i);
        case i :| 0 <= i < |consumers| && (consumers[i].Taking? || consumers[i].EmptyWoken?) => TakeTurn(i);
        case i :| 0 <= i < |consumers| && consumers[i].Counting? => CountTurn(i);
        case !done && forall i :: 0 <= i < |producers| ==> producers[i].Gone? => DoneTurn();
      }
    }
  }

  /**
   main: whichever runnable thread runs next, all joins return, the counter shows the number of
   items, and the consumed items are all the tickets, none more than P - 1 positions early.
   */
  method Run(total: int, capacity: nat, numConsumers: nat, numProducers: nat)
    returns (consumed: seq<nat>, count: nat)
    requires capacity >= 1 && numConsumers >= 1 && numProducers >= 1
    ensures IsPermutation(consumed, Goal(total)) && count == Goal(total)
    ensures OvertakesAtMost(consumed, numProducers - 1)
  {
    var b := new Buffer(total, capacity, numProducers, numConsumers);
    ghost var start := b.View();
    InitInv(start);
    while !(b.done && (forall i :: 0 <= i < |b.producers| ==> b.producers[i].Gone?)
                   && (forall i :: 0 <= i < |b.consumers| ==> b.consumers[i].Left?))
      invariant Inv(b.View()) && SameShape(start, b.View())
      decreases Progress.Measure(b.View())
    {
      b.Turn();
    }
    Progress.AllDoneMeansAllConsumed(b.View());
    consumed, count := b.consumed, b.consumedCount;
    assert consumed == b.pushed;
  }
}
