/**
 The master/worker pool: a stack of items under one lock, two condition variables that are
 always broadcast. One step is the run of a thread from the moment it gets the lock to the
 moment it releases it or waits; nothing shared is touched outside the lock.
 */
module MasterWorker {
  import opened Orders

  /** Ready: runnable, wants the lock. Waiting: asleep on its condition variable. */
  datatype Thread = Ready | Waiting | Done

  datatype State = State(
    capacity: int,
    total: int,
    produced: nat,
    buffer: seq<nat>,
    masters: seq<Thread>,
    workers: seq<Thread>,
    consumed: seq<nat>)

  datatype Step =
    | Master(i: nat)
    | Worker(i: nat)
    | SpuriousMaster(i: nat)
    | SpuriousWorker(i: nat)

  /** The number of items that are to be produced; a negative request produces none. */
  function Goal(total: int): nat {
    if total < 0 then 0 else total
  }

  /** What a broadcast does to the threads of one condition variable. */
  function WakeAll(ts: seq<Thread>): (us: seq<Thread>)
    ensures |us| == |ts|
    ensures forall i :: 0 <= i < |ts| ==> us[i] == if ts[i].Waiting? then Ready else ts[i]
  {
    seq(|ts|, i requires 0 <= i < |ts| => if ts[i].Waiting? then Ready else ts[i])
  }

  ghost function MasterStep(s: State, i: nat): State
    requires i < |s.masters|
  {
    if |s.buffer| >= s.capacity then
      s.(masters := s.masters[i := Waiting])
    else if s.produced >= s.total then
      s.(masters := WakeAll(s.masters)[i := Done])
    else
      s.(buffer := s.buffer + [s.produced], produced := s.produced + 1, workers := WakeAll(s.workers))
  }

  ghost function WorkerStep(s: State, i: nat): State
    requires i < |s.workers|
  {
    var n := |s.buffer|;
    if n == 0 then
      if s.produced >= s.total then
        s.(workers := WakeAll(s.workers)[i := Done])
      else
        s.(workers := s.workers[i := Waiting])
    else
      s.(buffer := s.buffer[..n - 1], consumed := s.consumed + [s.buffer[n - 1]], masters := WakeAll(s.masters))
  }

  predicate Enabled(s: State, step: Step) {
    match step
    case Master(i) => i < |s.masters| && s.masters[i].Ready?
    case Worker(i) => i < |s.workers| && s.workers[i].Ready?
    case SpuriousMaster(i) => i < |s.masters| && s.masters[i].Waiting?
    case SpuriousWorker(i) => i < |s.workers| && s.workers[i].Waiting?
  }

  ghost function Apply(s: State, step: Step): State
    requires Enabled(s, step)
  {
    match step
    case Master(i) => MasterStep(s, i)
    case Worker(i) => WorkerStep(s, i)
    case SpuriousMaster(i) => s.(masters := s.masters[i := Ready])
    case SpuriousWorker(i) => s.(workers := s.workers[i := Ready])
  }

  predicate Spurious(step: Step) {
    step.SpuriousMaster? || step.SpuriousWorker?
  }

  /** What main establishes before any thread runs. */
  ghost predicate Init(s: State) {
    && s.capacity >= 1 && s.produced == 0 && s.buffer == [] && s.consumed == []
    && |s.masters| >= 1 && |s.workers| >= 1
    && (forall i :: 0 <= i < |s.masters| ==> s.masters[i].Ready?)
    && (forall i :: 0 <= i < |s.workers| ==> s.workers[i].Ready?)
  }

  /** A schedule says which thread gets the lock, or wakes without cause, at each step. */
  ghost predicate Legal(s: State, schedule: seq<Step>)
    decreases |schedule|
  {
    schedule == [] || (Enabled(s, schedule[0]) && Legal(Apply(s, schedule[0]), schedule[1..]))
  }

  ghost function After(s: State, schedule: seq<Step>): State
    requires Legal(s, schedule)
    decreases |schedule|
  {
    if schedule == [] then s else After(Apply(s, schedule[0]), schedule[1..])
  }

  ghost predicate AllDone(s: State) {
    && (forall i :: 0 <= i < |s.masters| ==> s.masters[i].Done?)
    && (forall i :: 0 <= i < |s.workers| ==> s.workers[i].Done?)
  }

  /* ---------- What every step keeps ---------- */

  /** Items: the stack is increasing, and each produced item is on it or consumed, never both. */
  ghost predicate ItemsInv(s: State) {
    && s.capacity >= 1 && s.produced <= Goal(s.total) && |s.buffer| <= s.capacity
    && |s.consumed| + |s.buffer| == s.produced
    && Conserved(s.buffer, s.consumed, s.produced)
  }

  ghost predicate Conserved(buffer: seq<nat>, consumed: seq<nat>, produced: nat) {
    && StrictlyIncreasing(buffer) && Distinct(consumed)
    && (forall k :: 0 <= k < |buffer| ==> buffer[k] < produced && buffer[k] !in consumed)
    && (forall k :: 0 <= k < |consumed| ==> consumed[k] < produced && consumed[k] !in buffer)
    && (forall v: nat :: v < produced ==> v in buffer || v in consumed)
  }

  ghost predicate NextKeepsOrder(consumed: seq<nat>, buffer: seq<nat>) {
    forall i, j, k :: 0 <= i < j < |consumed| && 0 <= k < |buffer| ==>
      !(consumed[j] < buffer[k] < consumed[i])
  }

  /** Order: what was consumed is stack ordered and stays so whatever is popped next. */
  ghost predicate OrderInv(s: State) {
    && StackOrder(s.consumed)
    && NextKeepsOrder(s.consumed, s.buffer)
    && OvertakesAtMost(s.consumed, s.capacity - 1)
  }

  /** Sleepers: a thread that sleeps unsignalled sleeps for a reason that still holds. */
  ghost predicate SleepInv(s: State) {
    && |s.masters| >= 1 && |s.workers| >= 1
    && (forall i :: 0 <= i < |s.masters| && s.masters[i].Waiting? ==> |s.buffer| == s.capacity)
    && (forall i :: 0 <= i < |s.workers| && s.workers[i].Waiting? ==> s.buffer == [] && s.produced < s.total)
    && (forall i :: 0 <= i < |s.masters| && s.masters[i].Done? ==> s.produced == Goal(s.total))
    && (forall i :: 0 <= i < |s.workers| && s.workers[i].Done? ==> s.produced == Goal(s.total) && s.buffer == [])
  }

  ghost predicate Inv(s: State) {
    ItemsInv(s) && OrderInv(s) && SleepInv(s)
  }

  lemma PushKeepsItems(s: State, i: nat)
    requires ItemsInv(s) && i < |s.masters|
    ensures ItemsInv(MasterStep(s, i))
  {
    var s' := MasterStep(s, i);
    if s'.buffer != s.buffer {
      assert s'.buffer[|s.buffer|] == s.produced && s'.buffer[..|s.buffer|] == s.buffer;
    }
  }

  lemma PushKeepsOrder(s: State, i: nat)
    requires ItemsInv(s) && OrderInv(s) && i < |s.masters|
    ensures OrderInv(MasterStep(s, i))
  {
    var s' := MasterStep(s, i);
    forall i, j, k | 0 <= i < j < |s.consumed| && 0 <= k < |s'.buffer|
      ensures !(s.consumed[j] < s'.buffer[k] < s.consumed[i])
    {
      assert k < |s.buffer| ==> s'.buffer[k] == s.buffer[k];
    }
  }

  lemma PopConserves(low: seq<nat>, x: nat, consumed: seq<nat>, produced: nat)
    requires Conserved(low + [x], consumed, produced)
    ensures Conserved(low, consumed + [x], produced)
  {
    var buffer, more := low + [x], consumed + [x];
    assert buffer[|low|] == x && more[|consumed|] == x;
    assert forall k :: 0 <= k < |low| ==> buffer[k] == low[k] && buffer[k] < buffer[|low|];
    assert forall v :: v in more <==> v in consumed || v == x;
    assert forall v :: v in buffer <==> v in low || v == x;
    assert x !in low && x !in consumed;
  }

  lemma PopKeepsItems(s: State, i: nat)
    requires ItemsInv(s) && i < |s.workers|
    ensures ItemsInv(WorkerStep(s, i))
  {
    if s.buffer != [] {
      var n := |s.buffer| - 1;
      assert s.buffer == s.buffer[..n] + [s.buffer[n]];
      PopConserves(s.buffer[..n], s.buffer[n], s.consumed, s.produced);
    }
  }

  lemma PopKeepsStackOrder(consumed: seq<nat>, buffer: seq<nat>, x: nat)
    requires StackOrder(consumed) && NextKeepsOrder(consumed, buffer + [x]) && StrictlyIncreasing(buffer + [x])
    ensures StackOrder(consumed + [x]) && NextKeepsOrder(consumed + [x], buffer)
  {
    var all := buffer + [x];
    assert all[|buffer|] == x;
    forall i, j, k | 0 <= i < j < |consumed + [x]| && 0 <= k < |buffer|
      ensures !((consumed + [x])[j] < buffer[k] < (consumed + [x])[i])
    {
      assert all[k] == buffer[k] && all[k] < all[|buffer|];
    }
  }

  lemma PopKeepsOvertaking(s: State)
    requires ItemsInv(s) && OvertakesAtMost(s.consumed, s.capacity - 1) && s.buffer != []
    ensures OvertakesAtMost(s.consumed + [s.buffer[|s.buffer| - 1]], s.capacity - 1)
  {
    var n := |s.buffer| - 1;
    var x := s.buffer[n];
    PassedByAppend(s.consumed, x);
    ElementsSize(s.buffer[..n]);
    assert s.buffer == s.buffer[..n] + [x];
    SubsetSize(PassedBy(s.consumed + [x], |s.consumed|), Elements(s.buffer[..n]));
  }

  lemma PopKeepsOrder(s: State, i: nat)
    requires ItemsInv(s) && OrderInv(s) && i < |s.workers|
    ensures OrderInv(WorkerStep(s, i))
  {
    if s.buffer != [] {
      var n := |s.buffer| - 1;
      assert s.buffer == s.buffer[..n] + [s.buffer[n]];
      PopKeepsStackOrder(s.consumed, s.buffer[..n], s.buffer[n]);
      PopKeepsOvertaking(s);
    }
  }

  lemma StepKeepsSleep(s: State, step: Step)
    requires ItemsInv(s) && SleepInv(s) && Enabled(s, step)
    ensures SleepInv(Apply(s, step))
  {
  }

  lemma StepKeepsInv(s: State, step: Step)
    requires Inv(s) && Enabled(s, step)
    ensures Inv(Apply(s, step))
  {
    StepKeepsSleep(s, step);
    if step.Master? {
      PushKeepsItems(s, step.i);
      PushKeepsOrder(s, step.i);
    } else if step.Worker? {
      PopKeepsItems(s, step.i);
      PopKeepsOrder(s, step.i);
    }
  }

  lemma {:induction false} RunKeepsInv(s: State, schedule: seq<Step>)
    requires Inv(s) && Legal(s, schedule)
    ensures Inv(After(s, schedule))
    ensures var t := After(s, schedule);
            && t.capacity == s.capacity && t.total == s.total
            && |t.masters| == |s.masters| && |t.workers| == |s.workers|
    decreases |schedule|
  {
    if schedule == [] {
    } else {
      StepKeepsInv(s, schedule[0]);
      RunKeepsInv(Apply(s, schedule[0]), schedule[1..]);
    }
  }
}
