/**
 The thread pool: a FIFO of tasks, one condition variable whose notify_one is issued after the
 lock has been released, spurious wakeups, and a destructor that drains the queue. A step is a
 critical section, a notification, the end of a task, or a stage of the destructor.
 */
module ThreadPool {
  import opened Sums

  type Task = nat

  /** Fresh and Woken workers want the lock; Woken ones come from a wait they have not rechecked. */
  datatype Worker = Fresh | Asleep | Woken | Running(task: Task) | Exited

  datatype Destructor = NotCalled | StopSet | Joining(joined: nat)

  datatype State = State(
    tasks: seq<Task>,
    stop: bool,
    workers: seq<Worker>,
    owed: nat, // enqueue calls that have pushed and not yet called notify_one
    destructor: Destructor,
    accepted: seq<Task>,
    taken: seq<Task>,
    finished: seq<Task>)

  datatype Step =
    | Push(task: Task)
    | NotifyOne(i: nat)
    | Look(i: nat)
    | Finish(i: nat)
    | Spurious(i: nat)
    | SetStop
    | NotifyAll
    | Join

  predicate WantsLock(w: Worker) { w.Fresh? || w.Woken? }

  ghost predicate SomeAsleep(ws: seq<Worker>) {
    exists i :: 0 <= i < |ws| && ws[i].Asleep?
  }

  function WakeAll(ws: seq<Worker>): (us: seq<Worker>)
    ensures |us| == |ws|
    ensures forall i :: 0 <= i < |ws| ==> us[i] == if ws[i].Asleep? then Woken else ws[i]
  {
    seq(|ws|, i requires 0 <= i < |ws| => if ws[i].Asleep? then Woken else ws[i])
  }

  /** notify_one wakes a sleeper of its choice, and is lost when nobody sleeps. */
  ghost predicate Enabled(s: State, step: Step) {
    match step
    case Push(_) => true
    case NotifyOne(i) =>
      s.owed > 0 && if SomeAsleep(s.workers) then i < |s.workers| && s.workers[i].Asleep? else true
    case Look(i) => i < |s.workers| && WantsLock(s.workers[i])
    case Finish(i) => i < |s.workers| && s.workers[i].Running?
    case Spurious(i) => i < |s.workers| && s.workers[i].Asleep?
    case SetStop => s.destructor.NotCalled?
    case NotifyAll => s.destructor.StopSet?
    case Join =>
      s.destructor.Joining? && s.destructor.joined < |s.workers| && s.workers[s.destructor.joined].Exited?
  }

  /** enqueue under the lock; on a stopped pool it throws and changes nothing. */
  function PushStep(s: State, t: Task): State {
    if s.stop then s
    else s.(tasks := s.tasks + [t], accepted := s.accepted + [t], owed := s.owed + 1)
  }

  /** worker_loop from taking the lock to waiting, returning or leaving with a task. */
  function LookStep(s: State, i: nat): State
    requires i < |s.workers|
  {
    if !s.stop && s.tasks == [] then s.(workers := s.workers[i := Asleep])
    else if s.tasks == [] then s.(workers := s.workers[i := Exited])
    else s.(workers := s.workers[i := Running(s.tasks[0])], tasks := s.tasks[1..], taken := s.taken + [s.tasks[0]])
  }

  ghost function Apply(s: State, step: Step): State
    requires Enabled(s, step)
  {
    match step
    case Push(t) => PushStep(s, t)
    case NotifyOne(i) =>
      if SomeAsleep(s.workers) then s.(owed := s.owed - 1, workers := s.workers[i := Woken])
      else s.(owed := s.owed - 1)
    case Look(i) => LookStep(s, i)
    case Finish(i) => s.(workers := s.workers[i := Fresh], finished := s.finished + [s.workers[i].task])
    case Spurious(i) => s.(workers := s.workers[i := Woken])
    case SetStop => s.(stop := true, destructor := StopSet)
    case NotifyAll => s.(workers := WakeAll(s.workers), destructor := Joining(0))
    case Join => s.(destructor := Joining(s.destructor.joined + 1))
  }

  ghost predicate Init(s: State) {
    && s.tasks == [] && !s.stop && s.owed == 0 && s.destructor.NotCalled?
    && s.accepted == [] && s.taken == [] && s.finished == []
    && |s.workers| >= 1 && forall i :: 0 <= i < |s.workers| ==> s.workers[i].Fresh?
  }

  ghost predicate Legal(s: State, schedule: seq<Step>)
    decreases |schedule|
  {
    schedule == [] || (Enabled(s, schedule[0]) && Legal(Apply(s, schedule[0]), schedule[1..]))
  }

  ghost function After(s: State, schedule: seq<Step>): State
    requires Legal(s, schedule)
    decreases |schedule|
  {
    if schedule == [] then s else After(Apply(s, schedule[0]), schedule[1..])
  }

  /* ---------- What every step keeps ---------- */

  function WokenWeight(w: Worker): nat { if w.Woken? then 1 else 0 }

  /**
   The wakeups under way, woken workers that have not rechecked and notifications still to be
   sent, cover the queue whenever somebody sleeps.
   */
  ghost predicate NoLostWakeup(s: State) {
    SomeAsleep(s.workers) ==> Sum(s.workers, WokenWeight) + s.owed >= |s.tasks|
  }

  /** Counts the workers that are executing a given task. */
  function Holding(t: Task): Worker -> nat {
    (w: Worker) => if w == Running(t) then 1 else 0
  }

  /** Every task taken is either finished or in some worker's hands. */
  ghost predicate NoTaskLost(s: State) {
    forall t :: Accounted(s, t)
  }

  ghost predicate Accounted(s: State, t: Task) {
    multiset(s.taken)[t] == multiset(s.finished)[t] + Sum(s.workers, Holding(t))
  }

  ghost predicate StopInv(s: State) {
    && |s.workers| >= 1
    && s.stop == !s.destructor.NotCalled?
    && (forall i :: 0 <= i < |s.workers| && s.workers[i].Exited? ==> s.stop && s.tasks == [])
    && (s.destructor.Joining? ==>
          && s.destructor.joined <= |s.workers|
          && (forall i :: 0 <= i < |s.workers| ==> !s.workers[i].Asleep?)
          && (forall i :: 0 <= i < s.destructor.joined ==> s.workers[i].Exited?))
  }

  ghost predicate Inv(s: State) {
    NoLostWakeup(s) && s.accepted == s.taken + s.tasks && NoTaskLost(s) && StopInv(s)
  }

  lemma StepKeepsFifo(s: State, step: Step)
    requires s.accepted == s.taken + s.tasks && Enabled(s, step)
    ensures var t := Apply(s, step); t.accepted == t.taken + t.tasks
  {
    if step.Look? && s.tasks != [] {
      assert s.tasks == [s.tasks[0]] + s.tasks[1..];
    }
  }

  lemma LookKeepsTask(s: State, i: nat, t: Task)
    requires Accounted(s, t) && Enabled(s, Look(i))
    ensures Accounted(LookStep(s, i), t)
  {
    SumUpdate(s.workers, i, LookStep(s, i).workers[i], Holding(t));
  }

  lemma StepKeepsTask(s: State, step: Step, t: Task)
    requires Accounted(s, t) && Enabled(s, step)
    ensures Accounted(Apply(s, step), t)
  {
    match step
    case NotifyOne(i) => if SomeAsleep(s.workers) { SumUpdate(s.workers, i, Woken, Holding(t)); }
    case Look(i) => LookKeepsTask(s, i, t);
    case Spurious(i) => SumUpdate(s.workers, i, Woken, Holding(t));
    case Finish(i) => SumUpdate(s.workers, i, Fresh, Holding(t));
    case NotifyAll =>
      SumMonotone(s.workers, WakeAll(s.workers), Holding(t));
      SumMonotone(WakeAll(s.workers), s.workers, Holding(t));
    case _ =>
  }

  lemma StepKeepsTasks(s: State, step: Step)
    requires NoTaskLost(s) && Enabled(s, step)
    ensures NoTaskLost(Apply(s, step))
  {
    forall t ensures Accounted(Apply(s, step), t) {
      StepKeepsTask(s, step, t);
    }
  }

  lemma StepKeepsWakeups(s: State, step: Step)
    requires NoLostWakeup(s) && StopInv(s) && Enabled(s, step)
    ensures NoLostWakeup(Apply(s, step))
  {
    var s' := Apply(s, step);
    if (step.NotifyOne? && SomeAsleep(s.workers)) || step.Look? || step.Spurious? || step.Finish? {
      SumUpdate(s.workers, step.i, s'.workers[step.i], WokenWeight);
      assert forall i :: 0 <= i < |s.workers| && i != step.i ==> s'.workers[i] == s.workers[i];
    }
  }

  lemma StepKeepsStop(s: State, step: Step)
    requires StopInv(s) && Enabled(s, step)
    ensures StopInv(Apply(s, step))
  {
  }

  lemma StepKeepsInv(s: State, step: Step)
    requires Inv(s) && Enabled(s, step)
    ensures Inv(Apply(s, step))
  {
    StepKeepsFifo(s, step);
    StepKeepsTasks(s, step);
    StepKeepsWakeups(s, step);
    StepKeepsStop(s, step);
  }

  lemma InitHoldsNothing(s: State)
    requires Init(s)
    ensures Inv(s)
  {
    forall t ensures Sum(s.workers, Holding(t)) == 0 {
      SumZero(s.workers, Holding(t));
    }
  }

  lemma {:induction false} RunKeepsInv(s: State, schedule: seq<Step>)
    requires Inv(s) && Legal(s, schedule)
    ensures Inv(After(s, schedule)) && |After(s, schedule).workers| == |s.workers|
    ensures s.stop ==> After(s, schedule).stop && After(s, schedule).accepted == s.accepted
    decreases |schedule|
  {
    if schedule == [] {
    } else {
      StepKeepsInv(s, schedule[0]);
      RunKeepsInv(Apply(s, schedule[0]), schedule[1..]);
    }
  }

  lemma EveryRunKeepsInv(s: State, schedule: seq<Step>)
    requires Init(s) && Legal(s, schedule)
    ensures Inv(After(s, schedule)) && |After(s, schedule).workers| == |s.workers|
  {
    InitHoldsNothing(s);
    RunKeepsInv(s, schedule);
  }

  /** Tasks are taken in the order in which they were accepted. */
  lemma TakenInAcceptedOrder(s: State, schedule: seq<Step>)
    requires Init(s) && Legal(s, schedule)
    ensures After(s, schedule).taken <= After(s, schedule).accepted
  {
    EveryRunKeepsInv(s, schedule);
  }

  /* ---------- Progress ---------- */

  /** Steps the pool takes by itself; callers decide the others, and spurious wakeups have no cause. */
  predicate Internal(step: Step) {
    step.NotifyOne? || step.Look? || step.Finish? || step.NotifyAll? || step.Join?
  }

  function WorkerWeight(w: Worker): nat {
    match w case Running(_) => 2 case Fresh => 1 case Woken => 1 case _ => 0
  }

  ghost function DestructorWeight(s: State): int {
    match s.destructor
    case NotCalled => 0
    case StopSet => 2 * |s.workers| + 1
    case Joining(k) => |s.workers| - k
  }

  ghost function Measure(s: State): int {
    3 * |s.tasks| + 2 * s.owed + Sum(s.workers, WorkerWeight) + DestructorWeight(s)
  }

  lemma {:induction false} WakeAllWeight(ws: seq<Worker>)
    ensures Sum(WakeAll(ws), WorkerWeight) <= Sum(ws, WorkerWeight) + |ws|
  {
    if ws == [] {
    } else {
      assert WakeAll(ws)[1..] == WakeAll(ws[1..]);
      WakeAllWeight(ws[1..]);
    }
  }

  /** What an outside step adds to the measure. */
  function Credit(step: Step, n: nat): nat {
    match step case Push(_) => 5 case Spurious(_) => 1 case SetStop => 2 * n + 1 case _ => 0
  }

  lemma StepMeasure(s: State, step: Step)
    requires StopInv(s) && Enabled(s, step)
    ensures Internal(step) ==> Measure(Apply(s, step)) < Measure(s)
    ensures !Internal(step) ==> Measure(Apply(s, step)) <= Measure(s) + Credit(step, |s.workers|)
  {
    var s' := Apply(s, step);
    WakeAllWeight(s.workers);
    if (step.NotifyOne? && SomeAsleep(s.workers)) || step.Look? || step.Spurious? || step.Finish? {
      SumUpdate(s.workers, step.i, s'.workers[step.i], WorkerWeight);
    }
  }

  function InternalSteps(schedule: seq<Step>): nat {
    if schedule == [] then 0 else (if Internal(schedule[0]) then 1 else 0) + InternalSteps(schedule[1..])
  }

  function Credits(schedule: seq<Step>, n: nat): nat {
    if schedule == [] then 0 else Credit(schedule[0], n) + Credits(schedule[1..], n)
  }

  /** The work the pool does is paid for by the calls made on it, under every schedule. */
  lemma {:induction false} WorkIsBounded(s: State, schedule: seq<Step>)
    requires Inv(s) && Legal(s, schedule)
    ensures InternalSteps(schedule) + Measure(After(s, schedule)) <= Measure(s) + Credits(schedule, |s.workers|)
    decreases |schedule|
  {
    if schedule == [] {
    } else {
      StepKeepsInv(s, schedule[0]);
      StepMeasure(s, schedule[0]);
      WorkIsBounded(Apply(s, schedule[0]), schedule[1..]);
    }
  }

  /** From any run, the pool's own steps come to an end within this many. */
  lemma PoolComesToRest(s: State, schedule: seq<Step>)
    requires Init(s) && Legal(s, schedule)
    ensures InternalSteps(schedule) <= |s.workers| + Credits(schedule, |s.workers|)
  {
    EveryRunKeepsInv(s, schedule);
    InitHoldsNothing(s);
    WorkIsBounded(s, schedule);
    SumBound(s.workers, WorkerWeight, 1);
  }

  ghost predicate AtRest(s: State) {
    forall step :: Enabled(s, step) ==> !Internal(step)
  }

  lemma AtRestMeans(s: State)
    requires Inv(s) && AtRest(s)
    ensures s.owed == 0
    ensures forall i :: 0 <= i < |s.workers| ==> s.workers[i].Asleep? || s.workers[i].Exited?
    ensures s.tasks == []
  {
    var k: nat := 0;
    if i :| 0 <= i < |s.workers| && s.workers[i].Asleep? { k := i; }
    assert Enabled(s, NotifyOne(k)) <==> s.owed > 0;
    forall i | 0 <= i < |s.workers| ensures s.workers[i].Asleep? || s.workers[i].Exited? {
      assert !Enabled(s, Look(i)) && !Enabled(s, Finish(i));
    }
    SumZero(s.workers, WokenWeight);
    assert s.workers[0].Asleep? || s.workers[0].Exited?;
  }

  lemma AllIdleMeansAllRun(s: State)
    requires Inv(s) && s.tasks == []
    requires forall i :: 0 <= i < |s.workers| ==> !s.workers[i].Running?
    ensures s.taken == s.accepted && multiset(s.finished) == multiset(s.accepted)
  {
    forall t ensures multiset(s.finished)[t] == multiset(s.taken)[t] {
      assert Accounted(s, t);
      SumZero(s.workers, Holding(t));
    }
  }

  /** When a pool that is not being destroyed comes to rest, every accepted task has run once. */
  lemma RestMeansAllDone(s: State, schedule: seq<Step>)
    requires Init(s) && Legal(s, schedule) && AtRest(After(s, schedule))
    ensures var t := After(s, schedule); t.tasks == [] && multiset(t.finished) == multiset(t.accepted)
  {
    EveryRunKeepsInv(s, schedule);
    AtRestMeans(After(s, schedule));
    AllIdleMeansAllRun(After(s, schedule));
  }

  /** When a destructor has been called, rest means that all its joins have returned. */
  lemma DestructorReturns(s: State, schedule: seq<Step>)
    requires Init(s) && Legal(s, schedule) && AtRest(After(s, schedule))
    requires After(s, schedule).stop
    ensures var t := After(s, schedule); t.destructor == Joining(|s.workers|) && t.taken == t.accepted
    ensures var ws := After(s, schedule).workers; forall i :: 0 <= i < |ws| ==> ws[i].Exited?
  {
    EveryRunKeepsInv(s, schedule);
    var t := After(s, schedule);
    AtRestMeans(t);
    assert !Enabled(t, NotifyAll) && !Enabled(t, Join);
  }

  /**
   Whenever all workers have been joined, every accepted task has been taken in order and has run
   exactly once. A notification may still be owed then: an enqueue that pushed before the flag was
   set can call notify_one after the last join.
   */
  lemma JoinedMeansAllRun(s: State, schedule: seq<Step>)
    requires Init(s) && Legal(s, schedule) && After(s, schedule).destructor == Joining(|s.workers|)
    ensures var t := After(s, schedule);
      t.tasks == [] && t.taken == t.accepted && multiset(t.finished) == multiset(t.accepted)
  {
    EveryRunKeepsInv(s, schedule);
    assert After(s, schedule).workers[0].Exited?;
    AllIdleMeansAllRun(After(s, schedule));
  }

  /** Even spurious wakeups end once the destructor has notified: nobody sleeps again. */
  lemma NobodySleepsAfterNotifyAll(s: State, schedule: seq<Step>)
    requires Init(s) && Legal(s, schedule) && After(s, schedule).destructor.Joining?
    ensures !SomeAsleep(After(s, schedule).workers)
  {
    EveryRunKeepsInv(s, schedule);
  }

  /** Tasks that wait while no wakeup is under way only wait for workers that are all busy. */
  lemma QueuedTasksMeanBusyWorkers(s: State, schedule: seq<Step>)
    requires Init(s) && Legal(s, schedule)
    requires var t := After(s, schedule);
             t.tasks != [] && t.owed == 0 && forall i :: 0 <= i < |t.workers| ==> !WantsLock(t.workers[i])
    ensures var t := After(s, schedule); forall i :: 0 <= i < |t.workers| ==> t.workers[i].Running?
  {
    EveryRunKeepsInv(s, schedule);
    SumZero(After(s, schedule).workers, WokenWeight);
  }

  /* ---------- What becomes of the calls of enqueue ---------- */

  /** The tasks of the calls of enqueue that came before the flag was set, in order. */
  function Enqueued(schedule: seq<Step>): seq<Task> {
    if schedule == [] || schedule[0].SetStop? then []
    else (if schedule[0].Push? then [schedule[0].task] else []) + Enqueued(schedule[1..])
  }

  /** What one step adds to the accepted tasks. */
  function Accepts(stop: bool, step: Step): seq<Task> {
    if step.Push? && !stop then [step.task] else []
  }

  lemma StepAccepts(s: State, step: Step)
    requires Enabled(s, step)
    ensures Apply(s, step).stop == (s.stop || step.SetStop?)
    ensures Apply(s, step).accepted == s.accepted + Accepts(s.stop, step)
  {
  }

  function AcceptedLater(stop: bool, schedule: seq<Step>): seq<Task> {
    if stop then [] else Enqueued(schedule)
  }

  lemma FirstThenLater(stop: bool, schedule: seq<Step>, before: seq<Task>)
    requires schedule != []
    ensures before + AcceptedLater(stop, schedule)
         == before + Accepts(stop, schedule[0]) + AcceptedLater(stop || schedule[0].SetStop?, schedule[1..])
  {
  }

  /** A running pool accepts every task offered to it, and a stopped one none. */
  lemma {:induction false} AcceptedExactly(s: State, schedule: seq<Step>)
    requires Legal(s, schedule)
    ensures After(s, schedule).accepted == s.accepted + AcceptedLater(s.stop, schedule)
    decreases |schedule|
  {
    if schedule == [] {
    } else {
      StepAccepts(s, schedule[0]);
      AcceptedExactly(Apply(s, schedule[0]), schedule[1..]);
      FirstThenLater(s.stop, schedule, s.accepted);
    }
  }

  lemma {:induction false} EnqueuedBeforeFlag(schedule: seq<Step>, i: nat)
    requires i < |schedule| && schedule[i].Push?
    requires forall j :: 0 <= j < i ==> !schedule[j].SetStop?
    ensures schedule[i].task in Enqueued(schedule)
  {
    if i == 0 {
    } else {
      EnqueuedBeforeFlag(schedule[1..], i - 1);
    }
  }

  /** No call made before the flag is lost, wherever in the run it was made. */
  lemma CallBeforeFlagIsAccepted(s: State, schedule: seq<Step>, i: nat)
    requires !s.stop && Legal(s, schedule) && i < |schedule| && schedule[i].Push?
    requires forall j :: 0 <= j < i ==> !schedule[j].SetStop?
    ensures schedule[i].task in After(s, schedule).accepted
  {
    AcceptedExactly(s, schedule);
    EnqueuedBeforeFlag(schedule, i);
  }

  /** Tasks are begun in the order of the calls, whatever the workers do. */
  lemma BegunInCallOrder(s: State, schedule: seq<Step>)
    requires Init(s) && Legal(s, schedule)
    ensures After(s, schedule).taken <= Enqueued(schedule)
  {
    TakenInAcceptedOrder(s, schedule);
    AcceptedExactly(s, schedule);
  }

  /** At rest, and when all workers are joined, what has run is what was enqueued, each call once. */
  lemma EveryCallRunsOnce(s: State, schedule: seq<Step>)
    requires Init(s) && Legal(s, schedule)
    requires AtRest(After(s, schedule)) || After(s, schedule).destructor == Joining(|s.workers|)
    ensures multiset(After(s, schedule).finished) == multiset(Enqueued(schedule))
  {
    AcceptedExactly(s, schedule);
    if AtRest(After(s, schedule)) {
      RestMeansAllDone(s, schedule);
    } else {
      JoinedMeansAllRun(s, schedule);
    }
  }
}
