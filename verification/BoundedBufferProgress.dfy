/**
 The producer/consumer program with notify_one never gets stuck, ends under every schedule
 without spurious wakeups, and consumes every item once.
 */
module BoundedBufferProgress {
  import opened Sums
  import opened Orders
  import opened BoundedBuffer

  function ItemWeight(p: Producer): nat { if HasItem(p) then 3 else 0 }

  function LiveProducer(p: Producer): nat { if p.Gone? then 0 else 1 }

  function LiveConsumer(c: Consumer): nat { if c.Left? then 0 else 1 }

  function ReadyProducer(p: Producer): nat { if p.FullWait? || p.Gone? then 0 else 1 }

  function ReadyConsumer(c: Consumer): nat { if c.EmptyWait? || c.Left? then 0 else 1 }

  ghost function Threads(s: State): nat { |s.producers| + |s.consumers| + 1 }

  /** What is left to do with each item: draw 4, store 3, take 2, count 1. */
  ghost function Work(s: State): nat {
    (if s.nextItem < s.total then 4 * (s.total - s.nextItem) else 0)
    + Sum(s.producers, ItemWeight) + 2 * |s.buffer| + Sum(s.consumers, CountingConsumer)
  }

  ghost function Live(s: State): nat {
    Sum(s.producers, LiveProducer) + Sum(s.consumers, LiveConsumer) + if s.done then 0 else 1
  }

  ghost function Runnable(s: State): nat {
    Sum(s.producers, ReadyProducer) + Sum(s.consumers, ReadyConsumer)
  }

  ghost function Measure(s: State): nat {
    Rank(Threads(s), Work(s), Live(s), Runnable(s))
  }

  lemma WeightsBounded(s: State)
    ensures Live(s) <= Threads(s) && Runnable(s) <= Threads(s)
  {
    SumBound(s.producers, LiveProducer, 1);
    SumBound(s.consumers, LiveConsumer, 1);
    SumBound(s.producers, ReadyProducer, 1);
    SumBound(s.consumers, ReadyConsumer, 1);
  }

  lemma ProducerUpdate(ps: seq<Producer>, i: nat, p: Producer)
    requires i < |ps|
    ensures Sum(ps[i := p], ItemWeight) == Sum(ps, ItemWeight) - ItemWeight(ps[i]) + ItemWeight(p)
    ensures Sum(ps[i := p], LiveProducer) == Sum(ps, LiveProducer) - LiveProducer(ps[i]) + LiveProducer(p)
    ensures Sum(ps[i := p], ReadyProducer) == Sum(ps, ReadyProducer) - ReadyProducer(ps[i]) + ReadyProducer(p)
  {
    SumUpdate(ps, i, p, ItemWeight);
    SumUpdate(ps, i, p, LiveProducer);
    SumUpdate(ps, i, p, ReadyProducer);
  }

  lemma ConsumerUpdate(cs: seq<Consumer>, i: nat, c: Consumer)
    requires i < |cs|
    ensures Sum(cs[i := c], CountingConsumer)
         == Sum(cs, CountingConsumer) - CountingConsumer(cs[i]) + CountingConsumer(c)
    ensures Sum(cs[i := c], LiveConsumer) == Sum(cs, LiveConsumer) - LiveConsumer(cs[i]) + LiveConsumer(c)
    ensures Sum(cs[i := c], ReadyConsumer) == Sum(cs, ReadyConsumer) - ReadyConsumer(cs[i]) + ReadyConsumer(c)
  {
    SumUpdate(cs, i, c, CountingConsumer);
    SumUpdate(cs, i, c, LiveConsumer);
    SumUpdate(cs, i, c, ReadyConsumer);
  }

  /** (work, live, runnable) falls lexicographically. */
  ghost predicate Falls(s: State, t: State) {
    || Work(t) < Work(s)
    || (Work(t) == Work(s) && Live(t) < Live(s))
    || (Work(t) == Work(s) && Live(t) == Live(s) && Runnable(t) < Runnable(s))
  }

  lemma FetchFalls(s: State, i: nat)
    requires Enabled(s, Fetch(i))
    ensures Falls(s, FetchStep(s, i))
  {
    ProducerUpdate(s.producers, i, FetchStep(s, i).producers[i]);
  }

  lemma StoreFalls(s: State, i: nat, w: nat)
    requires Enabled(s, Store(i, w))
    ensures Falls(s, StoreStep(s, i, w))
  {
    ProducerUpdate(s.producers, i, StoreStep(s, i, w).producers[i]);
    if |s.buffer| < s.capacity && w < |s.consumers| && s.consumers[w].EmptyWait? {
      ConsumerUpdate(s.consumers, w, EmptyWoken);
    }
  }

  lemma TakeFalls(s: State, i: nat, w: nat)
    requires Enabled(s, Take(i, w))
    ensures Falls(s, TakeStep(s, i, w))
  {
    ConsumerUpdate(s.consumers, i, TakeStep(s, i, w).consumers[i]);
    if s.buffer != [] && w < |s.producers| && s.producers[w].FullWait? {
      ProducerUpdate(s.producers, w, FullWoken(s.producers[w].item));
    }
  }

  lemma DoneFalls(s: State)
    requires Enabled(s, MarkDone)
    ensures Falls(s, Apply(s, MarkDone))
  {
    var cs := WakeConsumers(s.consumers);
    SumMonotone(s.consumers, cs, CountingConsumer);
    SumMonotone(cs, s.consumers, CountingConsumer);
    SumMonotone(s.consumers, cs, LiveConsumer);
  }

  lemma StepLowersMeasure(s: State, step: Step)
    requires Enabled(s, step) && !Spurious(step)
    ensures Measure(Apply(s, step)) < Measure(s)
  {
    var t := Apply(s, step);
    assert Falls(s, t) by {
      match step
      case Fetch(i) => FetchFalls(s, i);
      case Store(i, w) => StoreFalls(s, i, w);
      case Take(i, w) => TakeFalls(s, i, w);
      case Count(i) => ConsumerUpdate(s.consumers, i, Taking);
      case MarkDone => DoneFalls(s);
    }
    WeightsBounded(t);
    RankDrops(Threads(s), Work(s), Live(s), Runnable(s), Work(t), Live(t), Runnable(t));
  }

  /** What a turn of any thread achieves. */
  ghost predicate Progresses(s: State, t: State) {
    Inv(t) && SameShape(s, t) && Measure(t) < Measure(s)
  }

  lemma StepProgresses(s: State, step: Step)
    requires Inv(s) && Enabled(s, step) && !Spurious(step)
    ensures Progresses(s, Apply(s, step))
  {
    StepKeepsInv(s, step);
    StepLowersMeasure(s, step);
  }

  ghost predicate NoSpurious(schedule: seq<Step>) {
    forall i :: 0 <= i < |schedule| ==> !Spurious(schedule[i])
  }

  lemma {:induction false} RunLowersMeasure(s: State, schedule: seq<Step>)
    requires Legal(s, schedule) && NoSpurious(schedule)
    ensures |schedule| + Measure(After(s, schedule)) <= Measure(s)
    decreases |schedule|
  {
    if schedule == [] {
    } else {
      StepLowersMeasure(s, schedule[0]);
      RunLowersMeasure(Apply(s, schedule[0]), schedule[1..]);
    }
  }

  /** Termination under every schedule: at most this many steps. */
  lemma EveryScheduleEnds(s: State, schedule: seq<Step>)
    requires Init(s) && Legal(s, schedule) && NoSpurious(schedule)
    ensures |schedule| <= Rank(Threads(s), 4 * Goal(s.total), Threads(s), Threads(s))
  {
    RunLowersMeasure(s, schedule);
    WeightsBounded(s);
    SumZero(s.producers, ItemWeight);
    SumZero(s.consumers, CountingConsumer);
    RankGrows(Threads(s), 4 * Goal(s.total), Live(s), Runnable(s), Threads(s), Threads(s));
  }

  ghost predicate AllDone(s: State) {
    && s.done
    && (forall i :: 0 <= i < |s.producers| ==> s.producers[i].Gone?)
    && (forall i :: 0 <= i < |s.consumers| ==> s.consumers[i].Left?)
  }

  /** No step but a spurious wakeup is possible for this thread. */
  ghost predicate Idle(s: State) {
    && (forall i :: 0 <= i < |s.producers| ==> s.producers[i].FullWait? || s.producers[i].Gone?)
    && (forall i :: 0 <= i < |s.consumers| ==> s.consumers[i].EmptyWait? || s.consumers[i].Left?)
  }

  /** With everyone asleep or gone, the wakeup counts leave only the end of production. */
  lemma IdleMeansProducersGone(s: State)
    requires Inv(s) && Idle(s)
    ensures forall i :: 0 <= i < |s.producers| ==> s.producers[i].Gone?
  {
    SumZero(s.producers, WokenProducer);
    SumZero(s.consumers, WokenConsumer);
    assert s.consumers[0].EmptyWait? || s.consumers[0].Left?;
  }

  /** The chosen sleeper for a notification, when there is one. */
  lemma PickSleepers(s: State) returns (p: nat, c: nat)
    ensures ProducerAsleep(s.producers) ==> p < |s.producers| && s.producers[p].FullWait?
    ensures ConsumerAsleep(s.consumers) ==> c < |s.consumers| && s.consumers[c].EmptyWait?
  {
    p, c := 0, 0;
    if i :| 0 <= i < |s.producers| && s.producers[i].FullWait? { p := i; }
    if i :| 0 <= i < |s.consumers| && s.consumers[i].EmptyWait? { c := i; }
  }

  /** Progress: as long as the program has not ended, some thread can take a step. */
  lemma NeverStuck(s: State) returns (step: Step)
    requires Inv(s) && !AllDone(s)
    ensures Enabled(s, step) && !Spurious(step)
  {
    var p, c := PickSleepers(s);
    if i :| 0 <= i < |s.producers| && !(s.producers[i].FullWait? || s.producers[i].Gone?) {
      step := if s.producers[i].Fetching? then Fetch(i) else Store(i, c);
    } else if i :| 0 <= i < |s.consumers| && !(s.consumers[i].EmptyWait? || s.consumers[i].Left?) {
      step := if s.consumers[i].Counting? then Count(i) else Take(i, p);
    } else {
      IdleMeansProducersGone(s);
      step := MarkDone;
    }
  }

  lemma AllDoneMeansAllConsumed(s: State)
    requires Inv(s) && AllDone(s)
    ensures IsPermutation(s.consumed, Goal(s.total)) && s.count == Goal(s.total)
  {
    SumZero(s.consumers, CountingConsumer);
    assert s.consumers[0].Left? && s.producers[0].Gone?;
    assert s.pushed == s.consumed;
    SubsetSize(Below(Goal(s.total)), Elements(s.consumed));
    SubsetSize(Elements(s.consumed), Below(Goal(s.total)));
    ElementsSize(s.consumed);
  }

  /** A run that cannot go on has consumed and counted every item exactly once. */
  lemma MaximalRunConsumesAll(s: State, schedule: seq<Step>)
    requires Init(s) && Legal(s, schedule)
    requires forall step :: Enabled(After(s, schedule), step) ==> Spurious(step)
    ensures AllDone(After(s, schedule))
    ensures IsPermutation(After(s, schedule).consumed, Goal(s.total)) && After(s, schedule).count == Goal(s.total)
  {
    InitInv(s);
    RunKeepsInv(s, schedule);
    var t := After(s, schedule);
    if !AllDone(t) {
      var step := NeverStuck(t);
    }
    AllDoneMeansAllConsumed(t);
  }
}
