/**
 Concurrent registration never gets stuck: a thread that waits for a lock waits for one that can
 move, so no wait cycle is reachable, and every call takes a bounded number of steps.
 */
module RegistrationProgress {
  import opened Sums
  import opened RegistrationTables
  import opened RegistrationMachine

  predicate MidCall(p: Pc) { !p.Idle? && !p.Returned? }

  /** t needs a lock that u holds. */
  ghost predicate WaitsFor(s: State, t: Tid, u: Tid) {
    t < |s.threads| &&
    match s.threads[t]
    case Lookup(_) => s.writer == Writer(u)
    case WantsInsert(_) => s.writer == Writer(u) || u in s.readers
    case HasMutex(_, m) => m in s.owners && s.owners[m] == u
    case _ => false
  }

  /** Whoever is waited for can move: the map lock is never wanted by a holder of anything. */
  lemma WaitedForCanMove(s: State, t: Tid, u: Tid)
    requires Inv(s) && WaitsFor(s, t, u)
    ensures CanMove(s, u) && !exists v :: WaitsFor(s, u, v)
  {
  }

  lemma BlockedWaits(s: State, t: Tid) returns (u: Tid)
    requires Inv(s) && t < |s.threads| && MidCall(s.threads[t]) && !CanMove(s, t)
    ensures WaitsFor(s, t, u)
  {
    if s.threads[t].HasMutex? {
      u := s.owners[s.threads[t].mutex];
    } else if s.writer.Writer? {
      u := s.writer.tid;
    } else {
      SomeElement(s.readers);
      u :| u in s.readers;
    }
  }

  /** No reachable state is stuck while a call is under way. */
  lemma NeverStuck(s: State, t: Tid) returns (u: Tid)
    requires Inv(s) && t < |s.threads| && MidCall(s.threads[t])
    ensures CanMove(s, u) && Enabled(s, Move(u))
  {
    if CanMove(s, t) {
      u := t;
    } else {
      u := BlockedWaits(s, t);
      WaitedForCanMove(s, t, u);
    }
  }

  /* ---------- Every call ends ---------- */

  /** The most steps a call has left. */
  function StepsLeft(p: Pc): nat {
    match p
    case Lookup(_) => 11
    case ReadingMap(_) => 10
    case WantsInsert(_) => 9
    case WritingMap(_) => 8
    case HasMutex(_, _) => 7
    case Locked(_, _) => 6
    case InTx(_, _) => 5
    case Checked(_, _, _) => 4
    case Returning(_, _, _) => 3
    case Throwing(_, _) => 2
    case Unlocking(_, _, _) => 1
    case _ => 0
  }

  function AllStepsLeft(s: State): nat { Sum(s.threads, StepsLeft) }

  predicate InsideCalls(schedule: seq<Step>) {
    forall i | 0 <= i < |schedule| :: schedule[i].Move? || schedule[i].Fault?
  }

  lemma StepLowersStepsLeft(s: State, step: Step)
    requires Enabled(s, step) && (step.Move? || step.Fault?)
    ensures |Apply(s, step).threads| == |s.threads|
    ensures AllStepsLeft(Apply(s, step)) < AllStepsLeft(s)
  {
    var s', t := Apply(s, step), step.tid;
    StepMovesConn(s, step);
    SumUpdate(s.threads, t, s'.threads[t], StepsLeft);
  }

  /** However the steps are scheduled and whatever fails, n calls end within 11 n steps. */
  lemma {:induction false} EveryScheduleEnds(s: State, schedule: seq<Step>)
    requires Legal(s, schedule) && InsideCalls(schedule)
    ensures |schedule| + AllStepsLeft(After(s, schedule)) <= AllStepsLeft(s) <= 11 * |s.threads|
    decreases |schedule|
  {
    SumBound(s.threads, StepsLeft, 11);
    if schedule == [] {
    } else {
      StepLowersStepsLeft(s, schedule[0]);
      EveryScheduleEnds(Apply(s, schedule[0]), schedule[1..]);
    }
  }

  /** A run that cannot go on has returned from every call. */
  lemma AtRestMeansReturned(s: State, schedule: seq<Step>)
    requires Inv(s) && Legal(s, schedule)
    requires forall t: Tid :: !CanMove(After(s, schedule), t)
    ensures forall t :: 0 <= t < |s.threads| ==>
      t < |After(s, schedule).threads| && !MidCall(After(s, schedule).threads[t])
  {
    RunKeepsInv(s, schedule);
    var s' := After(s, schedule);
    forall t | 0 <= t < |s.threads| ensures !MidCall(s'.threads[t]) {
      if MidCall(s'.threads[t]) {
        var u := NeverStuck(s', t);
      }
    }
  }

  /* ---------- A call's outcome is decided when its transaction begins ---------- */

  predicate Begun(p: Pc) { OwnsTx(p) || p.Unlocking? || p.Returned? }

  /** What the call will report unless a statement of its own fails. */
  ghost function Outcome(s: State, t: Tid): Result
    requires t < |s.threads| && Begun(s.threads[t])
  {
    match s.threads[t]
    case InTx(op, _) => var w := Body(s.tables, op); if w.Written? then w.result else EXCEPTION
    case Checked(op, _, remaining) =>
      var w := Write(s.tables, op, remaining); if w.Written? then w.result else EXCEPTION
    case Returning(_, _, r) => r
    case Unlocking(_, _, r) => r
    case Returned(_, r) => r
    case _ => EXCEPTION
  }

  /** No other thread disturbs a transaction. */
  predicate LeavesAlone(step: Step, t: Tid) { step.tid != t || step.Move? }

  lemma StepKeepsOutcome(s: State, step: Step, t: Tid)
    requires Inv(s) && Enabled(s, step) && LeavesAlone(step, t)
    requires t < |s.threads| && Begun(s.threads[t])
    ensures var s' := Apply(s, step);
      && t < |s'.threads| && Begun(s'.threads[t]) && s'.threads[t].op == s.threads[t].op
      && Outcome(s', t) == Outcome(s, t)
  {
    var s' := Apply(s, step);
    if step.tid != t {
      StepMovesConn(s, step);
      if OwnsTx(s.threads[t]) {
        OthersKeepTables(s, step, t);
      }
    } else {
      OwnMoveKeepsOutcome(s, t);
    }
  }

  lemma OthersKeepTables(s: State, step: Step, t: Tid)
    requires ConnInv(s) && Enabled(s, step) && step.tid != t && t < |s.threads| && OwnsTx(s.threads[t])
    ensures Apply(s, step).tables == s.tables
  {
  }

  lemma OwnMoveKeepsOutcome(s: State, t: Tid)
    requires CanMove(s, t) && Begun(s.threads[t])
    ensures Begun(Advance(s, t).threads[t]) && Advance(s, t).threads[t].op == s.threads[t].op
    ensures Outcome(Advance(s, t), t) == Outcome(s, t)
  {
  }

  lemma {:induction false} RunKeepsOutcome(s: State, schedule: seq<Step>, t: Tid)
    requires Inv(s) && Legal(s, schedule) && t < |s.threads| && Begun(s.threads[t])
    requires forall i :: 0 <= i < |schedule| ==> LeavesAlone(schedule[i], t)
    ensures var s' := After(s, schedule);
      t < |s'.threads| && Begun(s'.threads[t]) && s'.threads[t].op == s.threads[t].op && Outcome(s', t) == Outcome(s, t)
    decreases |schedule|
  {
    if schedule == [] {
    } else {
      StepKeepsOutcome(s, schedule[0], t);
      StepKeepsInv(s, schedule[0]);
      RunKeepsOutcome(Apply(s, schedule[0]), schedule[1..], t);
    }
  }

  /** A body throws exactly for an unknown student who finds a free seat. */
  lemma BodyThrowsExactly(t: Tables, op: Op)
    requires Valid(t)
    ensures Body(t, op).WriteThrew? <==>
      op.Register? && op.course in t.courses && op.student !in t.users
      && EnrolledCount(t, op.course) < t.courses[op.course].capacity
  {
    if op.Register? {
      var s, c := op.student, op.course;
      if Enrolled(t, s, c) {
        var id :| id in t.regs && t.regs[id] == RegRow(s, c, true);
      } else {
        CreateEffect(t, s, c);
        SomeElement(RowsOf(t, s, c));
        if id :| id in RowsOf(t, s, c) {
          assert t.regs[id].student in t.users;
        }
      }
    }
  }

  ghost predicate UnknownStudentFindsSeat(t: Tables, op: Op) {
    && op.Register? && op.course in t.courses && op.student !in t.users
    && EnrolledCount(t, op.course) < t.courses[op.course].capacity
  }

  lemma BeginDecides(s: State, t: Tid)
    requires Valid(s.tables) && t < |s.threads| && s.threads[t].Locked?
    ensures var s', op := Advance(s, t), s.threads[t].op;
      && Begun(s'.threads[t]) && s'.threads[t].op == op
      && (Outcome(s', t) == EXCEPTION <==> s.conn.Open? || UnknownStudentFindsSeat(s.tables, op))
  {
    BodyThrowsExactly(s.tables, s.threads[t].op);
  }

  lemma Begins(s: State, t: Tid)
    requires Inv(s) && t < |s.threads| && s.threads[t].Locked?
    ensures var s', op := Advance(s, t), s.threads[t].op;
      && Inv(s') && t < |s'.threads| && Begun(s'.threads[t])
      && (Outcome(s', t) == EXCEPTION <==> s.conn.Open? || UnknownStudentFindsSeat(s.tables, op))
  {
    BeginDecides(s, t);
    StepKeepsInv(s, Move(t));
  }

  lemma EndsAsDecided(s: State, schedule: seq<Step>, t: Tid, fails: bool)
    requires Inv(s) && Legal(s, schedule) && t < |s.threads| && Begun(s.threads[t])
    requires forall i :: 0 <= i < |schedule| ==> LeavesAlone(schedule[i], t)
    requires Outcome(s, t) == EXCEPTION <==> fails
    ensures var s' := After(s, schedule);
      t < |s'.threads| && (s'.threads[t].Returned? ==> (s'.threads[t].result == EXCEPTION <==> fails))
  {
    RunKeepsOutcome(s, schedule, t);
  }

  /**
   A call that has its course mutex, whose own statements do not fail, reports an exception
   exactly when the shared connection is in a transaction at its BEGIN, or it registers an
   unknown student for a course with a free seat. The rest of the run does not matter.
   */
  lemma FailsExactlyWhen(s: State, schedule: seq<Step>, t: Tid)
    requires Inv(s) && t < |s.threads| && s.threads[t].Locked?
    requires Legal(Advance(s, t), schedule)
    requires forall i :: 0 <= i < |schedule| ==> LeavesAlone(schedule[i], t)
    ensures var s' := After(Advance(s, t), schedule);
      t < |s'.threads| && (s'.threads[t].Returned? ==>
        (s'.threads[t].result == EXCEPTION <==>
          s.conn.Open? || UnknownStudentFindsSeat(s.tables, s.threads[t].op)))
  {
    Begins(s, t);
    EndsAsDecided(Advance(s, t), schedule, t, s.conn.Open? || UnknownStudentFindsSeat(s.tables, s.threads[t].op));
  }

  /* ---------- Different courses share one connection ---------- */

  predicate SeeksMutex(p: Pc) {
    p.Lookup? || p.ReadingMap? || p.WantsInsert? || p.WritingMap? || p.HasMutex?
  }

  /** Nobody else holds the map lock, and nobody holds the mutex of t's course. */
  ghost predicate WayIsFree(s: State, t: Tid) {
    && t < |s.threads| && SeeksMutex(s.threads[t])
    && (s.writer.NoWriter? || s.writer == Writer(t)) && s.readers <= {t}
    && var c := s.threads[t].op.course; c in s.mutexes ==> s.mutexes[c] !in s.owners
  }

  /** t has gone on to hold the mutex of its course; nothing else has changed. */
  ghost predicate HasGottenMutex(s: State, s': State, t: Tid) {
    && t < |s.threads| && SeeksMutex(s.threads[t])
    && s'.tables == s.tables && s'.conn == s.conn && s'.log == s.log
    && s'.readers == {} && s'.writer.NoWriter?
    && exists m :: s'.threads == s.threads[t := Locked(s.threads[t].op, m)] && s'.owners == s.owners[m := t]
  }

  /** t has come closer to its mutex; nothing but the map and its lock has changed. */
  ghost predicate ComesCloser(s: State, s': State, t: Tid) {
    && t < |s.threads| && SeeksMutex(s.threads[t])
    && s'.tables == s.tables && s'.conn == s.conn && s'.log == s.log && s'.owners == s.owners
    && exists p :: s'.threads == s.threads[t := p] && SeeksMutex(p) && p.op == s.threads[t].op
                   && StepsLeft(p) < StepsLeft(s.threads[t])
  }

  lemma EarlyMove(s: State, t: Tid)
    requires Inv(s) && WayIsFree(s, t)
    ensures CanMove(s, t)
    ensures var s' := Advance(s, t);
      if s.threads[t].HasMutex? then HasGottenMutex(s, s', t) else ComesCloser(s, s', t) && WayIsFree(s', t)
  {
    var s', p := Advance(s, t), s.threads[t];
    if p.HasMutex? {
      assert s'.threads == s.threads[t := Locked(p.op, p.mutex)];
    } else {
      assert s'.threads == s.threads[t := s'.threads[t]];
    }
  }

  lemma CloserThenGotten(s: State, s': State, s'': State, t: Tid)
    requires ComesCloser(s, s', t) && HasGottenMutex(s', s'', t)
    ensures HasGottenMutex(s, s'', t)
  {
  }

  lemma MoveThen(s: State, t: Tid, rest: seq<Step>)
    requires CanMove(s, t) && Legal(Advance(s, t), rest)
    ensures Legal(s, [Move(t)] + rest) && After(s, [Move(t)] + rest) == After(Advance(s, t), rest)
  {
    assert ([Move(t)] + rest)[1..] == rest;
  }

  lemma {:induction false} Then(s: State, first: seq<Step>, rest: seq<Step>)
    requires Legal(s, first) && Legal(After(s, first), rest)
    ensures Legal(s, first + rest) && After(s, first + rest) == After(After(s, first), rest)
    decreases |first|
  {
    if first == [] {
      assert first + rest == rest;
    } else {
      Then(Apply(s, first[0]), first[1..], rest);
      assert (first + rest)[1..] == first[1..] + rest;
    }
  }

  lemma {:induction false} GetsMutex(s: State, t: Tid) returns (schedule: seq<Step>)
    requires Inv(s) && WayIsFree(s, t)
    ensures Legal(s, schedule) && HasGottenMutex(s, After(s, schedule), t)
    ensures forall i :: 0 <= i < |schedule| ==> schedule[i] == Move(t)
    decreases StepsLeft(s.threads[t])
  {
    EarlyMove(s, t);
    if s.threads[t].HasMutex? {
      schedule := [Move(t)] + [];
      MoveThen(s, t, []);
    } else {
      StepKeepsInv(s, Move(t));
      var rest := GetsMutex(Advance(s, t), t);
      CloserThenGotten(s, Advance(s, t), After(Advance(s, t), rest), t);
      schedule := [Move(t)] + rest;
      MoveThen(s, t, rest);
    }
  }

  ghost predicate OnlyMoves(schedule: seq<Step>, t: Tid, u: Tid) {
    forall i :: 0 <= i < |schedule| ==> schedule[i] == Move(t) || schedule[i] == Move(u)
  }

  lemma BothGetMutexes(s: State, t: Tid, u: Tid) returns (schedule: seq<Step>)
    requires Inv(s) && s.readers == {} && s.writer.NoWriter?
    requires t != u && WayIsFree(s, t) && WayIsFree(s, u) && s.threads[t].op.course != s.threads[u].op.course
    ensures Legal(s, schedule) && OnlyMoves(schedule, t, u)
    ensures var s' := After(s, schedule);
      && s'.tables == s.tables && s'.conn == s.conn && s'.log == s.log && |s'.threads| == |s.threads|
      && s'.threads[t].Locked? && s'.threads[u].Locked? && s'.threads[u].op == s.threads[u].op
  {
    var first := GetsMutex(s, t);
    var s' := After(s, first);
    RunKeepsInv(s, first);
    var second := GetsMutex(s', u);
    schedule := first + second;
    Then(s, first, second);
  }

  /** With the mutexes in hand, t begins and then u fails to begin. */
  lemma BeginsCollide(s: State, t: Tid, u: Tid)
    requires t < |s.threads| && u < |s.threads| && t != u && s.conn.Closed?
    requires s.threads[t].Locked? && s.threads[u].Locked?
    ensures CanMove(s, t) && CanMove(Advance(s, t), u)
    ensures var s' := Advance(Advance(s, t), u);
      && u < |s'.threads| && s'.threads[u] == Unlocking(s.threads[u].op, s.threads[u].mutex, EXCEPTION)
      && Committed(s') == s.tables && s'.log == s.log
  {
  }

  /**
   Two calls for different courses can collide: from every state in which both can get at their
   mutexes and the connection is closed, some run without any failing statement ends one of them
   with an exception, however many seats its course has.
   */
  lemma DifferentCoursesCollide(s: State, t: Tid, u: Tid) returns (schedule: seq<Step>)
    requires Inv(s) && s.conn.Closed? && s.readers == {} && s.writer.NoWriter?
    requires t != u && WayIsFree(s, t) && WayIsFree(s, u) && s.threads[t].op.course != s.threads[u].op.course
    ensures Legal(s, schedule) && OnlyMoves(schedule, t, u)
    ensures var s' := After(s, schedule);
      && Committed(s') == s.tables && s'.log == s.log && u < |s'.threads|
      && s'.threads[u].Unlocking? && s'.threads[u].op == s.threads[u].op && s'.threads[u].result == EXCEPTION
  {
    var first := BothGetMutexes(s, t, u);
    var s' := After(s, first);
    BeginsCollide(s', t, u);
    MoveThen(Advance(s', t), u, []);
    MoveThen(s', t, [Move(u)] + []);
    var second := [Move(t)] + ([Move(u)] + []);
    Then(s, first, second);
    schedule := first + second;
  }
}
