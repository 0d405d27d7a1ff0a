/**
 Deadlock freedom and termination of the master/worker pool for every schedule without
 spurious wakeups, and the exact set of orders in which the items can be consumed.
 */
module MasterWorkerProgress {
  import opened Sums
  import opened Orders
  import opened MasterWorker

  function LiveWeight(t: Thread): nat { if t.Done? then 0 else 1 }

  function ReadyWeight(t: Thread): nat { if t.Ready? then 1 else 0 }

  ghost function Threads(s: State): nat { |s.masters| + |s.workers| }

  ghost function Work(s: State): nat
    requires ItemsInv(s)
  {
    2 * (Goal(s.total) - s.produced) + |s.buffer|
  }

  ghost function Live(s: State): nat { Sum(s.masters, LiveWeight) + Sum(s.workers, LiveWeight) }

  ghost function Runnable(s: State): nat { Sum(s.masters, ReadyWeight) + Sum(s.workers, ReadyWeight) }

  ghost function Measure(s: State): nat
    requires ItemsInv(s)
  {
    Rank(Threads(s), Work(s), Live(s), Runnable(s))
  }

  lemma WeightsBounded(s: State)
    ensures Live(s) <= Threads(s) && Runnable(s) <= Threads(s)
  {
    SumBound(s.masters, LiveWeight, 1);
    SumBound(s.workers, LiveWeight, 1);
    SumBound(s.masters, ReadyWeight, 1);
    SumBound(s.workers, ReadyWeight, 1);
  }

  lemma WakeAllKeepsLive(ts: seq<Thread>)
    ensures Sum(WakeAll(ts), LiveWeight) == Sum(ts, LiveWeight)
  {
    SumMonotone(ts, WakeAll(ts), LiveWeight);
    SumMonotone(WakeAll(ts), ts, LiveWeight);
  }

  lemma SectionFalls(s: State, step: Step)
    requires Inv(s) && Enabled(s, step) && !Spurious(step)
    requires ItemsInv(Apply(s, step))
    ensures var s' := Apply(s, step);
      || Work(s') < Work(s)
      || (Work(s') == Work(s) && (Live(s') < Live(s) || (Live(s') == Live(s) && Runnable(s') < Runnable(s))))
  {
    var ts := if step.Master? then s.masters else s.workers;
    WakeAllKeepsLive(ts);
    SumUpdate(WakeAll(ts), step.i, Done, LiveWeight);
    SumUpdate(ts, step.i, Waiting, LiveWeight);
    SumUpdate(ts, step.i, Waiting, ReadyWeight);
  }

  /** Every critical section lowers the measure: some work is done, or a thread ends, or it sleeps. */
  lemma SectionLowersMeasure(s: State, step: Step)
    requires Inv(s) && Enabled(s, step) && !Spurious(step)
    requires ItemsInv(Apply(s, step))
    ensures Measure(Apply(s, step)) < Measure(s)
  {
    var s' := Apply(s, step);
    WeightsBounded(s');
    SectionFalls(s, step);
    RankDrops(Threads(s), Work(s), Live(s), Runnable(s), Work(s'), Live(s'), Runnable(s'));
  }

  /** What a turn of any thread achieves. */
  ghost predicate Progresses(s: State, t: State) {
    Inv(s) && Inv(t) && |t.masters| == |s.masters| && |t.workers| == |s.workers| && Measure(t) < Measure(s)
  }

  lemma StepProgresses(s: State, step: Step)
    requires Inv(s) && Enabled(s, step) && !Spurious(step)
    ensures Progresses(s, Apply(s, step))
  {
    StepKeepsInv(s, step);
    SectionLowersMeasure(s, step);
  }

  ghost predicate NoSpurious(schedule: seq<Step>) {
    forall i :: 0 <= i < |schedule| ==> !Spurious(schedule[i])
  }

  lemma {:induction false} RunLowersMeasure(s: State, schedule: seq<Step>)
    requires Inv(s) && Legal(s, schedule) && NoSpurious(schedule)
    ensures Inv(After(s, schedule))
    ensures |schedule| + Measure(After(s, schedule)) <= Measure(s)
    decreases |schedule|
  {
    if schedule == [] {
    } else {
      StepKeepsInv(s, schedule[0]);
      SectionLowersMeasure(s, schedule[0]);
      RunLowersMeasure(Apply(s, schedule[0]), schedule[1..]);
    }
  }

  lemma InitInv(s: State)
    requires Init(s)
    ensures Inv(s) && Work(s) == 2 * Goal(s.total)
  {
  }

  /** Termination: no schedule is longer than this bound, whatever the threads' order. */
  lemma EveryScheduleEnds(s: State, schedule: seq<Step>)
    requires Init(s) && Legal(s, schedule) && NoSpurious(schedule)
    ensures |schedule| <= Rank(Threads(s), 2 * Goal(s.total), Threads(s), Threads(s))
  {
    InitInv(s);
    RunLowersMeasure(s, schedule);
    WeightsBounded(s);
    RankGrows(Threads(s), 2 * Goal(s.total), Live(s), Runnable(s), Threads(s), Threads(s));
  }

  /** Deadlock freedom: a state with a thread left has a thread that can take the lock. */
  lemma NeverStuck(s: State) returns (step: Step)
    requires Inv(s) && !AllDone(s)
    ensures Enabled(s, step) && !Spurious(step)
  {
    if i :| 0 <= i < |s.masters| && s.masters[i].Ready? {
      step := Master(i);
    } else {
      assert s.masters[0].Waiting? || s.masters[0].Done?;
      assert s.masters[0].Waiting? ==> s.workers[0].Ready?;
      var i :| 0 <= i < |s.workers| && s.workers[i].Ready?;
      step := Worker(i);
    }
  }

  lemma AllDoneMeansAllConsumed(s: State)
    requires Inv(s) && AllDone(s)
    ensures IsPermutation(s.consumed, Goal(s.total))
  {
    assert s.workers[0].Done?;
  }

  /** A run that cannot go on has ended well: every thread has returned, every item is consumed once. */
  lemma MaximalRunConsumesAll(s: State, schedule: seq<Step>)
    requires Init(s) && Legal(s, schedule)
    requires forall step :: Enabled(After(s, schedule), step) ==> Spurious(step)
    ensures AllDone(After(s, schedule))
    ensures IsPermutation(After(s, schedule).consumed, Goal(s.total))
  {
    RunKeepsInv(s, schedule);
    var t := After(s, schedule);
    if !AllDone(t) {
      var step := NeverStuck(t);
    }
    AllDoneMeansAllConsumed(t);
  }

  /* ---------- Which orders of consumption are possible ---------- */

  lemma {:induction false} LegalAppend(s: State, a: seq<Step>, b: seq<Step>)
    requires Legal(s, a) && Legal(After(s, a), b)
    ensures Legal(s, a + b) && After(s, a + b) == After(After(s, a), b)
    decreases |a|
  {
    if a == [] {
      assert a + b == b;
    } else {
      LegalAppend(Apply(s, a[0]), a[1..], b);
      assert (a + b)[0] == a[0] && (a + b)[1..] == a[1..] + b;
    }
  }

  /** From every reachable state the threads can be run to the end, adding to what was consumed. */
  lemma {:induction false} RunToEnd(s: State) returns (schedule: seq<Step>)
    requires Inv(s)
    ensures Legal(s, schedule) && AllDone(After(s, schedule))
    ensures s.consumed <= After(s, schedule).consumed
    decreases Measure(s)
  {
    if AllDone(s) {
      schedule := [];
    } else {
      var step := NeverStuck(s);
      StepKeepsInv(s, step);
      SectionLowersMeasure(s, step);
      var rest := RunToEnd(Apply(s, step));
      schedule := [step] + rest;
      assert schedule[1..] == rest;
    }
  }

  /** One master and one worker are runnable, and nothing has been produced too early. */
  ghost predicate OnCourse(s: State, order: seq<nat>, n: nat) {
    && Inv(s) && n <= |order| && s.consumed == order[..n]
    && FirstPairReady(s)
    && (s.produced == 0 || exists j :: 0 <= j < n && order[j] == s.produced - 1)
  }

  /** While the next item wanted has not been produced, the stack has room for it. */
  lemma RoomForNext(s: State, order: seq<nat>, n: nat)
    requires ItemsInv(s) && n < |order| && s.consumed == order[..n] && s.produced <= order[n]
    requires OvertakesAtMost(order, s.capacity - 1)
    ensures |s.buffer| < s.capacity
  {
    ElementsSize(s.buffer);
    assert StrictlyIncreasing(s.buffer) ==> Distinct(s.buffer);
    SubsetSize(Elements(s.buffer), PassedBy(order, n));
  }

  lemma Prepend(s: State, step: Step, rest: seq<Step>)
    requires Enabled(s, step) && Legal(Apply(s, step), rest)
    ensures Legal(s, [step] + rest) && After(s, [step] + rest) == After(Apply(s, step), rest)
  {
    assert ([step] + rest)[1..] == rest;
  }

  ghost predicate FirstPairReady(s: State) {
    |s.masters| > 0 && |s.workers| > 0 && s.masters[0].Ready? && s.workers[0].Ready?
  }

  lemma PushNext(s: State)
    requires FirstPairReady(s) && |s.buffer| < s.capacity && s.produced < s.total
    ensures var t := Apply(s, Master(0));
            && FirstPairReady(t) && t.produced == s.produced + 1
            && t == s.(buffer := s.buffer + [s.produced], produced := t.produced, workers := t.workers)
  {
  }

  /** Pushes until `wanted` is the newest item, which then lies on top. */
  lemma {:induction false} PushUpTo(s: State, order: seq<nat>, n: nat) returns (schedule: seq<Step>)
    requires Inv(s) && n < |order| && s.consumed == order[..n] && FirstPairReady(s)
    requires OvertakesAtMost(order, s.capacity - 1) && s.produced <= order[n] < Goal(s.total)
    ensures Legal(s, schedule)
    ensures var t := After(s, schedule);
            && FirstPairReady(t) && t.consumed == s.consumed && t.produced == order[n] + 1
            && t.buffer != [] && t.buffer[|t.buffer| - 1] == order[n]
    decreases order[n] - s.produced
  {
    RoomForNext(s, order, n);
    PushNext(s);
    var s' := Apply(s, Master(0));
    StepKeepsInv(s, Master(0));
    var rest := [];
    if s.produced < order[n] {
      rest := PushUpTo(s', order, n);
    }
    Prepend(s, Master(0), rest);
    schedule := [Master(0)] + rest;
  }

  /** An item already produced and wanted next is on top: anything above it would break the order. */
  lemma WantedIsOnTop(s: State, order: seq<nat>, n: nat, j: nat)
    requires ItemsInv(s) && j < n < |order| && s.consumed == order[..n]
    requires order[j] == s.produced - 1 && order[n] < s.produced
    requires IsPermutation(order, Goal(s.total)) && StackOrder(order)
    ensures s.buffer != [] && s.buffer[|s.buffer| - 1] == order[n]
  {
    assert order[n] !in order[..n];
    assert order[n] in s.buffer;
    var y := s.buffer[|s.buffer| - 1];
    if y != order[n] {
      assert s.consumed[j] == s.produced - 1;
      assert y !in s.consumed && y < s.produced;
      StackedAboveIsWrong(order, Goal(s.total), j, n, y);
    }
  }

  lemma StackedAboveIsWrong(order: seq<nat>, goal: nat, j: nat, n: nat, y: nat)
    requires IsPermutation(order, goal) && j < n < |order|
    requires order[n] < y < order[j] && y !in order[..n]
    ensures !StackOrder(order)
  {
    assert order[j] < goal;
    var m := ComesLater(order, goal, n, y);
    assert order[n] < order[m] < order[j];
  }

  /** Pops the wanted item off the top. */
  lemma PopWanted(s: State, u: State, order: seq<nat>, n: nat)
    requires OnCourse(s, order, n) && n < |order|
    requires Inv(u) && FirstPairReady(u) && u.consumed == order[..n]
    requires u.buffer != [] && u.buffer[|u.buffer| - 1] == order[n]
    requires u.produced == order[n] + 1 || u.produced == s.produced
    ensures OnCourse(Apply(u, Worker(0)), order, n + 1)
  {
    var v := Apply(u, Worker(0));
    StepKeepsInv(u, Worker(0));
    assert v.consumed == order[..n + 1];
    assert v.produced == u.produced;
    if u.produced == order[n] + 1 {
      assert order[n] == v.produced - 1;
    }
  }

  lemma BringToTop(s: State, order: seq<nat>, n: nat) returns (pushes: seq<Step>)
    requires OnCourse(s, order, n) && n < |order|
    requires IsPermutation(order, Goal(s.total)) && StackOrder(order) && OvertakesAtMost(order, s.capacity - 1)
    ensures Legal(s, pushes)
    ensures var u := After(s, pushes);
            && FirstPairReady(u) && u.consumed == order[..n]
            && (u.produced == order[n] + 1 || u.produced == s.produced)
            && u.buffer != [] && u.buffer[|u.buffer| - 1] == order[n]
  {
    if order[n] < s.produced {
      var j :| 0 <= j < n && order[j] == s.produced - 1;
      WantedIsOnTop(s, order, n, j);
      pushes := [];
    } else {
      pushes := PushUpTo(s, order, n);
    }
  }

  lemma PushesThenPop(s: State, pushes: seq<Step>) returns (schedule: seq<Step>)
    requires Legal(s, pushes) && Enabled(After(s, pushes), Worker(0))
    ensures Legal(s, schedule) && After(s, schedule) == Apply(After(s, pushes), Worker(0))
  {
    Prepend(After(s, pushes), Worker(0), []);
    LegalAppend(s, pushes, [Worker(0)] + []);
    schedule := pushes + ([Worker(0)] + []);
  }

  lemma NextItem(s: State, order: seq<nat>, n: nat) returns (schedule: seq<Step>)
    requires OnCourse(s, order, n) && n < |order|
    requires IsPermutation(order, Goal(s.total)) && StackOrder(order) && OvertakesAtMost(order, s.capacity - 1)
    ensures Legal(s, schedule) && OnCourse(After(s, schedule), order, n + 1)
  {
    var pushes := BringToTop(s, order, n);
    RunKeepsInv(s, pushes);
    var u := After(s, pushes);
    PopWanted(s, u, order, n);
    schedule := PushesThenPop(s, pushes);
  }

  lemma {:induction false} Follow(s: State, order: seq<nat>, n: nat) returns (schedule: seq<Step>)
    requires Init(s) && n <= |order|
    requires IsPermutation(order, Goal(s.total)) && StackOrder(order) && OvertakesAtMost(order, s.capacity - 1)
    ensures Legal(s, schedule) && OnCourse(After(s, schedule), order, n)
    decreases n
  {
    if n == 0 {
      schedule := [];
    } else {
      var before := Follow(s, order, n - 1);
      RunKeepsInv(s, before);
      var more := NextItem(After(s, before), order, n - 1);
      LegalAppend(s, before, more);
      schedule := before + more;
    }
  }

  ghost predicate Possible(s: State, order: seq<nat>) {
    exists schedule :: Legal(s, schedule) && AllDone(After(s, schedule)) && After(s, schedule).consumed == order
  }

  lemma {:induction false} FollowToEnd(s: State, order: seq<nat>) returns (schedule: seq<Step>)
    requires Init(s)
    requires IsPermutation(order, Goal(s.total)) && StackOrder(order) && OvertakesAtMost(order, s.capacity - 1)
    ensures Legal(s, schedule) && AllDone(After(s, schedule)) && order <= After(s, schedule).consumed
  {
    var a := Follow(s, order, |order|);
    assert order[..|order|] == order;
    var b := RunToEnd(After(s, a));
    LegalAppend(s, a, b);
    schedule := a + b;
  }

  lemma CharacterisedOrdersArePossible(s: State, order: seq<nat>)
    requires Init(s)
    requires IsPermutation(order, Goal(s.total)) && StackOrder(order) && OvertakesAtMost(order, s.capacity - 1)
    ensures Possible(s, order)
  {
    var schedule := FollowToEnd(s, order);
    RunKeepsInv(s, schedule);
    var t := After(s, schedule);
    assert |t.consumed| <= |order|;
    assert order == t.consumed;
  }

  lemma CompleteRunIsCharacterised(s: State, schedule: seq<Step>)
    requires Init(s) && Legal(s, schedule) && AllDone(After(s, schedule))
    ensures var order := After(s, schedule).consumed;
      IsPermutation(order, Goal(s.total)) && StackOrder(order) && OvertakesAtMost(order, s.capacity - 1)
  {
    InitInv(s);
    RunKeepsInv(s, schedule);
    AllDoneMeansAllConsumed(After(s, schedule));
  }

  lemma PossibleOrdersAreCharacterised(s: State, order: seq<nat>)
    requires Init(s) && Possible(s, order)
    ensures IsPermutation(order, Goal(s.total)) && StackOrder(order) && OvertakesAtMost(order, s.capacity - 1)
  {
    var schedule :| Legal(s, schedule) && AllDone(After(s, schedule)) && After(s, schedule).consumed == order;
    CompleteRunIsCharacterised(s, schedule);
  }

  /**
   The orders that complete runs can produce are exactly the permutations of the items that
   contain no a, b, c with b < c < a and where no item passes max_buf_size or more others.
   */
  lemma ConsumptionOrdersCharacterised(s: State, order: seq<nat>)
    requires Init(s)
    ensures Possible(s, order)
       <==> IsPermutation(order, Goal(s.total)) && StackOrder(order) && OvertakesAtMost(order, s.capacity - 1)
  {
    if Possible(s, order) {
      PossibleOrdersAreCharacterised(s, order);
    } else if IsPermutation(order, Goal(s.total)) && StackOrder(order) && OvertakesAtMost(order, s.capacity - 1) {
      CharacterisedOrdersArePossible(s, order);
    }
  }

  /** In every run an item is consumed at most max_buf_size - 1 positions early. */
  lemma NoItemMuchTooEarly(s: State, schedule: seq<Step>, p: nat)
    requires Init(s) && Legal(s, schedule) && p < |After(s, schedule).consumed|
    ensures After(s, schedule).consumed[p] - p <= s.capacity - 1
  {
    RunKeepsInv(s, schedule);
    EarlyMeansPassing(After(s, schedule).consumed, p);
  }

  /** In every run a decreasing subsequence of the consumed items has at most max_buf_size items. */
  lemma DecreasingRunsAreShort(s: State, schedule: seq<Step>, js: seq<nat>)
    requires Init(s) && Legal(s, schedule) && DecreasingAt(After(s, schedule).consumed, js)
    ensures |js| <= s.capacity
  {
    RunKeepsInv(s, schedule);
    DecreasingIsShort(After(s, schedule).consumed, js, s.capacity - 1);
  }
}
