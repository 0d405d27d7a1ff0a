/**
 The C++ producer/consumer program: a FIFO of bounded size under one mutex, two condition
 variables with notify_one, a done flag, and items numbered by an atomic ticket counter.
 */
module BoundedBuffer {
  import opened Sums
  import opened Orders

  datatype Producer = Fetching | Storing(item: nat) | FullWait(item: nat) | FullWoken(item: nat) | Gone

  datatype Consumer = Taking | EmptyWait | EmptyWoken | Counting | Left

  datatype State = State(
    capacity: nat,
    total: int,
    nextItem: nat,
    buffer: seq<nat>,
    done: bool,
    producers: seq<Producer>,
    consumers: seq<Consumer>,
    pushed: seq<nat>,
    pushedBy: seq<nat>,
    consumed: seq<nat>,
    count: nat)

  /** The last argument of Store and Take is the sleeper that notify_one chooses, if there is one. */
  datatype Step =
    | Fetch(i: nat)
    | Store(i: nat, woken: nat)
    | Take(i: nat, woken: nat)
    | Count(i: nat)
    | MarkDone
    | SpuriousProducer(i: nat)
    | SpuriousConsumer(i: nat)

  predicate HasItem(p: Producer) { p.Storing? || p.FullWait? || p.FullWoken? }

  function Goal(total: int): nat { if total < 0 then 0 else total }

  ghost predicate ConsumerAsleep(cs: seq<Consumer>) {
    exists i :: 0 <= i < |cs| && cs[i].EmptyWait?
  }

  ghost predicate ProducerAsleep(ps: seq<Producer>) {
    exists i :: 0 <= i < |ps| && ps[i].FullWait?
  }

  ghost function NotifyConsumer(cs: seq<Consumer>, woken: nat): seq<Consumer> {
    if woken < |cs| && cs[woken].EmptyWait? then cs[woken := EmptyWoken] else cs
  }

  ghost function NotifyProducer(ps: seq<Producer>, woken: nat): seq<Producer> {
    if woken < |ps| && ps[woken].FullWait? then ps[woken := FullWoken(ps[woken].item)] else ps
  }

  function WakeConsumers(cs: seq<Consumer>): (us: seq<Consumer>)
    ensures |us| == |cs|
    ensures forall i :: 0 <= i < |cs| ==> us[i] == if cs[i].EmptyWait? then EmptyWoken else cs[i]
  {
    seq(|cs|, i requires 0 <= i < |cs| => if cs[i].EmptyWait? then EmptyWoken else cs[i])
  }

  ghost predicate Enabled(s: State, step: Step) {
    match step
    case Fetch(i) => i < |s.producers| && s.producers[i].Fetching?
    case Store(i, w) =>
      && i < |s.producers| && (s.producers[i].Storing? || s.producers[i].FullWoken?)
      && (ConsumerAsleep(s.consumers) ==> w < |s.consumers| && s.consumers[w].EmptyWait?)
    case Take(i, w) =>
      && i < |s.consumers| && (s.consumers[i].Taking? || s.consumers[i].EmptyWoken?)
      && (ProducerAsleep(s.producers) ==> w < |s.producers| && s.producers[w].FullWait?)
    case Count(i) => i < |s.consumers| && s.consumers[i].Counting?
    case MarkDone => !s.done && forall i :: 0 <= i < |s.producers| ==> s.producers[i].Gone?
    case SpuriousProducer(i) => i < |s.producers| && s.producers[i].FullWait?
    case SpuriousConsumer(i) => i < |s.consumers| && s.consumers[i].EmptyWait?
  }

  /** next_item.fetch_add(1) and the test that follows it. */
  function FetchStep(s: State, i: nat): State
    requires i < |s.producers|
  {
    s.(nextItem := s.nextItem + 1,
       producers := s.producers[i := if s.nextItem >= s.total then Gone else Storing(s.nextItem)])
  }

  /** BoundedBuffer::produce from taking the mutex to releasing it or waiting. */
  ghost function StoreStep(s: State, i: nat, woken: nat): State
    requires i < |s.producers| && HasItem(s.producers[i])
  {
    var item := s.producers[i].item;
    if |s.buffer| >= s.capacity then
      s.(producers := s.producers[i := FullWait(item)])
    else
      s.(buffer := s.buffer + [item], pushed := s.pushed + [item], pushedBy := s.pushedBy + [i],
         producers := s.producers[i := Fetching], consumers := NotifyConsumer(s.consumers, woken))
  }

  /** BoundedBuffer::consume from taking the mutex to releasing it or waiting. */
  ghost function TakeStep(s: State, i: nat, woken: nat): State
    requires i < |s.consumers|
  {
    if s.buffer == [] then
      s.(consumers := s.consumers[i := if s.done then Left else EmptyWait])
    else
      s.(buffer := s.buffer[1..], consumed := s.consumed + [s.buffer[0]],
         consumers := s.consumers[i := Counting], producers := NotifyProducer(s.producers, woken))
  }

  ghost function Apply(s: State, step: Step): State
    requires Enabled(s, step)
  {
    match step
    case Fetch(i) => FetchStep(s, i)
    case Store(i, w) => StoreStep(s, i, w)
    case Take(i, w) => TakeStep(s, i, w)
    case Count(i) => s.(consumers := s.consumers[i := Taking], count := s.count + 1)
    case MarkDone => s.(done := true, consumers := WakeConsumers(s.consumers))
    case SpuriousProducer(i) => s.(producers := s.producers[i := FullWoken(s.producers[i].item)])
    case SpuriousConsumer(i) => s.(consumers := s.consumers[i := EmptyWoken])
  }

  predicate Spurious(step: Step) { step.SpuriousProducer? || step.SpuriousConsumer? }

  ghost predicate Init(s: State) {
    && s.capacity >= 1 && s.nextItem == 0 && s.buffer == [] && !s.done
    && s.pushed == [] && s.pushedBy == [] && s.consumed == [] && s.count == 0
    && |s.producers| >= 1 && |s.consumers| >= 1
    && (forall i :: 0 <= i < |s.producers| ==> s.producers[i].Fetching?)
    && (forall i :: 0 <= i < |s.consumers| ==> s.consumers[i].Taking?)
  }

  ghost predicate Legal(s: State, schedule: seq<Step>)
    decreases |schedule|
  {
    schedule == [] || (Enabled(s, schedule[0]) && Legal(Apply(s, schedule[0]), schedule[1..]))
  }

  ghost function After(s: State, schedule: seq<Step>): State
    requires Legal(s, schedule)
    decreases |schedule|
  {
    if schedule == [] then s else After(Apply(s, schedule[0]), schedule[1..])
  }

  /* ---------- What every step keeps ---------- */

  ghost predicate FlowInv(s: State) {
    && s.capacity >= 1 && |s.buffer| <= s.capacity
    && s.pushed == s.consumed + s.buffer && |s.pushedBy| == |s.pushed|
  }

  /** Each ticket drawn is with one producer or in the buffer's history, never both. */
  ghost predicate TicketInv(s: State) {
    && Distinct(s.pushed)
    && (forall k :: 0 <= k < |s.pushed| ==> s.pushed[k] < s.nextItem && s.pushed[k] < s.total)
    && (forall i :: 0 <= i < |s.producers| && HasItem(s.producers[i]) ==>
          s.producers[i].item < s.nextItem && s.producers[i].item < s.total && s.producers[i].item !in s.pushed)
    && (forall i, j :: 0 <= i < j < |s.producers| && HasItem(s.producers[i]) && HasItem(s.producers[j]) ==>
          s.producers[i].item != s.producers[j].item)
    && (forall v: nat :: v < s.nextItem && v < s.total ==> v in s.pushed || Held(s.producers, v))
  }

  ghost predicate Held(ps: seq<Producer>, v: nat) {
    exists i :: 0 <= i < |ps| && HasItem(ps[i]) && ps[i].item == v
  }

  /** Each producer's items enter in the order in which it drew them. */
  ghost predicate PerProducerInv(s: State) {
    && |s.pushedBy| == |s.pushed|
    && (forall a, b :: 0 <= a < b < |s.pushed| && s.pushedBy[a] == s.pushedBy[b] ==> s.pushed[a] < s.pushed[b])
    && (forall a :: 0 <= a < |s.pushed| ==> s.pushedBy[a] < |s.producers| && s.pushed[a] < s.nextItem)
    && (forall a :: 0 <= a < |s.pushed| && HasItem(s.producers[s.pushedBy[a]]) ==>
          s.pushed[a] < s.producers[s.pushedBy[a]].item)
  }

  function WokenProducer(p: Producer): nat { if p.FullWoken? then 1 else 0 }

  function WokenConsumer(c: Consumer): nat { if c.EmptyWoken? then 1 else 0 }

  function CountingConsumer(c: Consumer): nat { if c.Counting? then 1 else 0 }

  /** While a thread sleeps, enough woken ones are on their way for all the items, or all the free slots. */
  ghost predicate ConsumerWakeups(s: State) {
    ConsumerAsleep(s.consumers) ==> Sum(s.consumers, WokenConsumer) >= |s.buffer|
  }

  ghost predicate ProducerWakeups(s: State) {
    ProducerAsleep(s.producers) ==> Sum(s.producers, WokenProducer) >= s.capacity - |s.buffer|
  }

  ghost predicate DoneInv(s: State) {
    && |s.producers| >= 1 && |s.consumers| >= 1
    && (s.done ==> !ConsumerAsleep(s.consumers) && forall i :: 0 <= i < |s.producers| ==> s.producers[i].Gone?)
    && (forall i :: 0 <= i < |s.producers| && s.producers[i].Gone? ==> s.nextItem >= s.total)
    && (forall i :: 0 <= i < |s.consumers| && s.consumers[i].Left? ==> s.done && s.buffer == [])
  }

  /** consumed_count lags behind by the consumers that have not counted their item yet. */
  ghost predicate CountInv(s: State) {
    s.count + Sum(s.consumers, CountingConsumer) == |s.consumed|
  }

  ghost predicate Inv(s: State) {
    && FlowInv(s) && TicketInv(s) && PerProducerInv(s) && ConsumerWakeups(s) && ProducerWakeups(s) && DoneInv(s)
    && CountInv(s) && OvertakesAtMost(s.pushed, |s.producers| - 1)
  }

  lemma StepKeepsFlow(s: State, step: Step)
    requires FlowInv(s) && Enabled(s, step)
    ensures FlowInv(Apply(s, step))
  {
    if step.Take? && s.buffer != [] {
      assert s.buffer == [s.buffer[0]] + s.buffer[1..];
    }
  }

  /** A step that leaves every producer its item, and pushes nothing, keeps the tickets in order. */
  lemma SameItemsKeepTickets(s: State, s': State)
    requires TicketInv(s) && PerProducerInv(s)
    requires s'.pushed == s.pushed && s'.pushedBy == s.pushedBy && s'.nextItem == s.nextItem && s'.total == s.total
    requires |s'.producers| == |s.producers|
    requires forall i :: 0 <= i < |s.producers| ==>
      HasItem(s'.producers[i]) == HasItem(s.producers[i]) &&
      (HasItem(s.producers[i]) ==> s'.producers[i].item == s.producers[i].item)
    ensures TicketInv(s') && PerProducerInv(s')
  {
    forall v: nat | v < s.nextItem && v < s.total && v !in s.pushed ensures Held(s'.producers, v) {
      var i :| 0 <= i < |s.producers| && HasItem(s.producers[i]) && s.producers[i].item == v;
      assert HasItem(s'.producers[i]) && s'.producers[i].item == v;
    }
  }

  lemma FetchKeepsTickets(s: State, i: nat)
    requires TicketInv(s) && Enabled(s, Fetch(i))
    ensures TicketInv(FetchStep(s, i))
  {
    var s' := FetchStep(s, i);
    forall v: nat | v < s'.nextItem && v < s.total && v !in s.pushed ensures Held(s'.producers, v) {
      if v < s.nextItem {
        var j :| 0 <= j < |s.producers| && HasItem(s.producers[j]) && s.producers[j].item == v;
        assert s'.producers[j] == s.producers[j];
      } else {
        assert HasItem(s'.producers[i]) && s'.producers[i].item == v;
      }
    }
  }

  lemma PushKeepsTickets(s: State, i: nat, w: nat)
    requires TicketInv(s) && Enabled(s, Store(i, w)) && |s.buffer| < s.capacity
    ensures TicketInv(StoreStep(s, i, w))
  {
    var s' := StoreStep(s, i, w);
    var item := s.producers[i].item;
    assert forall x :: x in s'.pushed <==> x in s.pushed || x == item;
    forall v: nat | v < s.nextItem && v < s.total && v !in s'.pushed ensures Held(s'.producers, v) {
      var j :| 0 <= j < |s.producers| && HasItem(s.producers[j]) && s.producers[j].item == v;
      assert s'.producers[j] == s.producers[j];
    }
  }

  lemma PushKeepsPerProducer(s: State, i: nat, w: nat)
    requires TicketInv(s) && PerProducerInv(s) && Enabled(s, Store(i, w)) && |s.buffer| < s.capacity
    ensures PerProducerInv(StoreStep(s, i, w))
  {
  }

  /** The items an entering item passes are all in the hands of other producers. */
  lemma PushKeepsOvertaking(s: State, i: nat)
    requires TicketInv(s) && OvertakesAtMost(s.pushed, |s.producers| - 1)
    requires i < |s.producers| && HasItem(s.producers[i])
    ensures OvertakesAtMost(s.pushed + [s.producers[i].item], |s.producers| - 1)
  {
    var item := s.producers[i].item;
    PassedByAppend(s.pushed, item);
    var passed := PassedBy(s.pushed + [item], |s.pushed|);
    var held := seq(|s.producers|, k requires 0 <= k < |s.producers| =>
                      if HasItem(s.producers[k]) then s.producers[k].item else item);
    forall v | v in passed ensures v in held {
      var j :| 0 <= j < |s.producers| && HasItem(s.producers[j]) && s.producers[j].item == v;
      assert held[j] == v;
    }
    assert held[i] == item;
    ElementsSize(held);
    SubsetSize(passed + {item}, Elements(held));
  }

  lemma StepKeepsTickets(s: State, step: Step)
    requires TicketInv(s) && PerProducerInv(s) && OvertakesAtMost(s.pushed, |s.producers| - 1) && Enabled(s, step)
    ensures TicketInv(Apply(s, step)) && PerProducerInv(Apply(s, step))
    ensures OvertakesAtMost(Apply(s, step).pushed, |s.producers| - 1)
  {
    if step.Fetch? {
      FetchKeepsTickets(s, step.i);
    } else if step.Store? && |s.buffer| < s.capacity {
      PushKeepsTickets(s, step.i, step.woken);
      PushKeepsPerProducer(s, step.i, step.woken);
      PushKeepsOvertaking(s, step.i);
    } else {
      SameItemsKeepTickets(s, Apply(s, step));
    }
  }

  /** At most one consumer and one producer change in a step, apart from mark_done. */
  lemma StepKeepsConsumerWakeups(s: State, step: Step)
    requires ConsumerWakeups(s) && DoneInv(s) && Enabled(s, step)
    ensures ConsumerWakeups(Apply(s, step))
  {
    var s' := Apply(s, step);
    match step
    case Store(i, w) =>
      if |s.buffer| < s.capacity && ConsumerAsleep(s.consumers) {
        SumUpdate(s.consumers, w, EmptyWoken, WokenConsumer);
      }
    case Take(i, _) =>
      SumUpdate(s.consumers, i, s'.consumers[i], WokenConsumer);
      assert s.buffer != [] ==> (ConsumerAsleep(s'.consumers) ==> ConsumerAsleep(s.consumers));
    case Count(i) => SumUpdate(s.consumers, i, Taking, WokenConsumer);
    case SpuriousConsumer(i) => SumUpdate(s.consumers, i, EmptyWoken, WokenConsumer);
    case _ =>
  }

  lemma StepKeepsProducerWakeups(s: State, step: Step)
    requires ProducerWakeups(s) && Enabled(s, step)
    ensures ProducerWakeups(Apply(s, step))
  {
    var s' := Apply(s, step);
    match step
    case Fetch(i) => SumUpdate(s.producers, i, s'.producers[i], WokenProducer);
    case Store(i, _) =>
      SumUpdate(s.producers, i, s'.producers[i], WokenProducer);
      assert |s.buffer| < s.capacity ==> (ProducerAsleep(s'.producers) ==> ProducerAsleep(s.producers));
    case Take(i, w) =>
      if s.buffer != [] && ProducerAsleep(s.producers) {
        SumUpdate(s.producers, w, s'.producers[w], WokenProducer);
      }
    case SpuriousProducer(i) => SumUpdate(s.producers, i, s'.producers[i], WokenProducer);
    case _ =>
  }

  lemma StepKeepsDone(s: State, step: Step)
    requires DoneInv(s) && Enabled(s, step)
    ensures DoneInv(Apply(s, step))
  {
  }

  lemma StepKeepsCount(s: State, step: Step)
    requires CountInv(s) && Enabled(s, step)
    ensures CountInv(Apply(s, step))
  {
    var s' := Apply(s, step);
    match step
    case Store(i, w) =>
      if |s.buffer| < s.capacity && ConsumerAsleep(s.consumers) {
        SumUpdate(s.consumers, w, EmptyWoken, CountingConsumer);
      }
    case Take(i, _) => SumUpdate(s.consumers, i, s'.consumers[i], CountingConsumer);
    case Count(i) => SumUpdate(s.consumers, i, Taking, CountingConsumer);
    case SpuriousConsumer(i) => SumUpdate(s.consumers, i, EmptyWoken, CountingConsumer);
    case MarkDone =>
      SumMonotone(s.consumers, s'.consumers, CountingConsumer);
      SumMonotone(s'.consumers, s.consumers, CountingConsumer);
    case _ =>
  }

  ghost predicate SameShape(s: State, t: State) {
    && t.capacity == s.capacity && t.total == s.total
    && |t.producers| == |s.producers| && |t.consumers| == |s.consumers|
  }

  lemma StepKeepsInv(s: State, step: Step)
    requires Inv(s) && Enabled(s, step)
    ensures Inv(Apply(s, step)) && SameShape(s, Apply(s, step))
  {
    StepKeepsFlow(s, step);
    StepKeepsTickets(s, step);
    StepKeepsConsumerWakeups(s, step);
    StepKeepsProducerWakeups(s, step);
    StepKeepsDone(s, step);
    StepKeepsCount(s, step);
  }

  lemma InitInv(s: State)
    requires Init(s)
    ensures Inv(s)
  {
    SumZero(s.consumers, CountingConsumer);
  }

  lemma {:induction false} RunKeepsInv(s: State, schedule: seq<Step>)
    requires Inv(s) && Legal(s, schedule)
    ensures Inv(After(s, schedule)) && SameShape(s, After(s, schedule))
    decreases |schedule|
  {
    if schedule == [] {
    } else {
      var s' := Apply(s, schedule[0]);
      StepKeepsInv(s, schedule[0]);
      RunKeepsInv(s', schedule[1..]);
      assert After(s, schedule) == After(s', schedule[1..]);
    }
  }

  /** Consumption order is push order: what is consumed is what was pushed first. */
  lemma ConsumedInPushOrder(s: State, schedule: seq<Step>)
    requires Init(s) && Legal(s, schedule)
    ensures After(s, schedule).consumed <= After(s, schedule).pushed
  {
    InitInv(s);
    RunKeepsInv(s, schedule);
  }

  /** With P producers no ticket is consumed more than P - 1 positions before its number. */
  lemma NoTicketMuchTooEarly(s: State, schedule: seq<Step>, p: nat)
    requires Init(s) && Legal(s, schedule) && p < |After(s, schedule).consumed|
    ensures After(s, schedule).consumed[p] - p <= |s.producers| - 1
  {
    InitInv(s);
    RunKeepsInv(s, schedule);
    EarlyMeansPassing(After(s, schedule).pushed, p);
  }

  /** Two items of one producer are consumed in the order in which it drew them. */
  lemma ProducersItemsKeepOrder(s: State, schedule: seq<Step>, a: nat, b: nat)
    requires Init(s) && Legal(s, schedule) && a < b < |After(s, schedule).consumed|
    requires |After(s, schedule).pushedBy| > b && After(s, schedule).pushedBy[a] == After(s, schedule).pushedBy[b]
    ensures After(s, schedule).consumed[a] < After(s, schedule).consumed[b]
  {
    InitInv(s);
    RunKeepsInv(s, schedule);
  }
}
