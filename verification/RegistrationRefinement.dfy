/**
 Every interleaved run is a run of an atomic enrolment relation: each call takes effect in one
 piece when it commits, or not at all, and the relation never exceeds a capacity.
 */
module RegistrationRefinement {
  import opened RegistrationTables
  import opened RegistrationMachine

  /** The enrolment relation: who exists, what can be taken, who takes what. */
  datatype Enrolment = Enrolment(users: set<int>, capacity: map<int, int>, pairs: set<(int, int)>)

  ghost function ActivePairs(t: Tables): set<(int, int)> {
    set id | id in t.regs && t.regs[id].active :: (t.regs[id].student, t.regs[id].course)
  }

  ghost function Abs(t: Tables): Enrolment {
    Enrolment(t.users, map c | c in t.courses :: t.courses[c].capacity, ActivePairs(t))
  }

  ghost function Taken(e: Enrolment, c: int): set<(int, int)> {
    set p | p in e.pairs && p.1 == c
  }

  /** The atomic meaning of a call that commits with result r. */
  ghost predicate Takes(e: Enrolment, op: Op, r: Result, e': Enrolment) {
    match op
    case Register(s, c) =>
      var free := (if c in e.capacity then e.capacity[c] else 0) - |Taken(e, c)|;
      if r.success then
        && s in e.users && c in e.capacity && (s, c) !in e.pairs && free > 0
        && e' == e.(pairs := e.pairs + {(s, c)}) && r.remaining == free - 1 && r.error == NoError
      else
        && e' == e
        && (r.error == CourseNotFound <==> c !in e.capacity)
        && (r.error == AlreadyEnrolled <==> c in e.capacity && (s, c) in e.pairs)
        && (r.error == CourseFull <==> c in e.capacity && (s, c) !in e.pairs && free <= 0)
        && (r.error == CourseNotFound || r.error == AlreadyEnrolled || r.error == CourseFull)
        && r.remaining == (if r.error == AlreadyEnrolled then free else 0)
    case Drop(s, c) =>
      if r.success then
        && (s, c) in e.pairs && e' == e.(pairs := e.pairs - {(s, c)}) && r.error == NoError
        && c in e.capacity && r.remaining == e.capacity[c] - |Taken(e', c)| + 1 // one more than are free
      else (s, c) !in e.pairs && e' == e && r.error == NotEnrolled
  }

  /** A log of committed calls replayed one after the other. */
  ghost predicate Replays(e: Enrolment, log: seq<Entry>, e': Enrolment)
    decreases |log|
  {
    if log == [] then e' == e
    else exists m :: Takes(e, log[0].op, log[0].result, m) && Replays(m, log[1..], e')
  }

  lemma EnrolledIsPair(t: Tables, s: int, c: int)
    ensures Enrolled(t, s, c) <==> (s, c) in ActivePairs(t)
  {
    if (s, c) in ActivePairs(t) {
      var id :| id in t.regs && t.regs[id].active && (t.regs[id].student, t.regs[id].course) == (s, c);
      assert t.regs[id] == RegRow(s, c, true);
    }
  }

  /** With unique pairs, counting active rows counts enrolled pairs. */
  lemma {:induction false} RowsAreSeats(regs: map<int, RegRow>, ids: set<int>, c: int)
    requires UniquePairs(regs) && forall id :: id in ids ==> id in regs && regs[id].course == c
    ensures |set id | id in ids :: (regs[id].student, c)| == |ids|
    decreases |ids|
  {
    SomeElement(ids);
    if id :| id in ids {
      RowsAreSeats(regs, ids - {id}, c);
      var rest := set k | k in ids - {id} :: (regs[k].student, c);
      assert (set k | k in ids :: (regs[k].student, c)) == rest + {(regs[id].student, c)};
    } else {
      assert ids == {};
    }
  }

  lemma TakenIsEnrolled(t: Tables, c: int)
    requires UniquePairs(t.regs)
    ensures |Taken(Abs(t), c)| == EnrolledCount(t, c)
  {
    RowsAreSeats(t.regs, ActiveRows(t, c), c);
    var seats := set id | id in ActiveRows(t, c) :: (t.regs[id].student, c);
    forall p ensures p in Taken(Abs(t), c) <==> p in seats {
      if p in Taken(Abs(t), c) {
        var id :| id in t.regs && t.regs[id].active && (t.regs[id].student, t.regs[id].course) == p;
        assert id in ActiveRows(t, c);
      }
    }
    assert Taken(Abs(t), c) == seats;
  }

  lemma RegisterPairs(t: Tables, s: int, c: int)
    requires Valid(t) && !Enrolled(t, s, c) && Create(t, s, c).Created?
    ensures ActivePairs(Create(t, s, c).tables) == ActivePairs(t) + {(s, c)}
    ensures Abs(Create(t, s, c).tables) == Abs(t).(pairs := ActivePairs(t) + {(s, c)})
  {
    CreateEffect(t, s, c);
    var Created(t', id) := Create(t, s, c);
    forall p ensures p in ActivePairs(t') <==> p in ActivePairs(t) || p == (s, c) {
      if p in ActivePairs(t) {
        var k :| k in t.regs && t.regs[k].active && (t.regs[k].student, t.regs[k].course) == p;
        assert k != id && t'.regs[k] == t.regs[k];
      }
      if p in ActivePairs(t') {
        var k :| k in t'.regs && t'.regs[k].active && (t'.regs[k].student, t'.regs[k].course) == p;
        assert k != id ==> t.regs[k] == t'.regs[k];
      }
      assert t'.regs[id] == RegRow(s, c, true);
    }
  }

  lemma DropPairs(t: Tables, s: int, c: int)
    requires Valid(t) && Enrolled(t, s, c)
    ensures ActivePairs(Activate(t, s, c, false)) == ActivePairs(t) - {(s, c)}
    ensures Abs(Activate(t, s, c, false)) == Abs(t).(pairs := ActivePairs(t) - {(s, c)})
  {
    var t' := Activate(t, s, c, false);
    forall p ensures p in ActivePairs(t') <==> p in ActivePairs(t) && p != (s, c) {
      if p in ActivePairs(t) && p != (s, c) {
        var k :| k in t.regs && t.regs[k].active && (t.regs[k].student, t.regs[k].course) == p;
        assert t'.regs[k] == t.regs[k];
      }
      if p in ActivePairs(t') {
        var k :| k in t'.regs && t'.regs[k].active && (t'.regs[k].student, t'.regs[k].course) == p;
        assert t'.regs[k] == t.regs[k];
      }
    }
  }

  /** A body that returns is one atomic step of the relation. */
  lemma BodyIsAtomic(t: Tables, op: Op)
    requires Valid(t) && Body(t, op).Written?
    ensures Takes(Abs(t), op, Body(t, op).result, Abs(Body(t, op).tables))
  {
    var s, c := op.student, op.course;
    TakenIsEnrolled(t, c);
    EnrolledIsPair(t, s, c);
    if Check(t, op).Proceed? {
      if op.Register? {
        CreateEffect(t, s, c);
        RegisterPairs(t, s, c);
      } else {
        DropPairs(t, s, c);
        BodyKeepsValid(t, op);
        TakenIsEnrolled(Activate(t, s, c, false), c);
      }
    }
  }

  /** Only a commit changes the committed database, and it does so by one atomic step. */
  lemma StepRefines(s: State, step: Step)
    requires Inv(s) && Enabled(s, step)
    ensures var s' := Apply(s, step);
      if step.Move? && s.threads[step.tid].Returning? then
        var p := s.threads[step.tid];
        && s'.log == s.log + [Entry(step.tid, p.op, p.result)]
        && Takes(Abs(Committed(s)), p.op, p.result, Abs(Committed(s')))
      else
        s'.log == s.log && Committed(s') == Committed(s)
  {
    var t := step.tid;
    var p := s.threads[t];
    if step.Move? && p.Returning? {
      assert s.conn.Open? && s.conn.owner == t;
      BodyIsAtomic(s.conn.saved, p.op);
    } else {
      QuietStep(s, step);
    }
  }

  lemma QuietStepLog(s: State, step: Step)
    requires Enabled(s, step) && !(step.Move? && s.threads[step.tid].Returning?)
    ensures Apply(s, step).log == s.log
  {
  }

  lemma QuietStep(s: State, step: Step)
    requires ConnInv(s) && Enabled(s, step) && !(step.Move? && s.threads[step.tid].Returning?)
    ensures Apply(s, step).log == s.log && Committed(Apply(s, step)) == Committed(s)
  {
    QuietStepLog(s, step);
    if step.Move? && OwnsTx(s.threads[step.tid]) {
      assert s.conn.Open?;
    }
  }

  lemma {:induction false} ReplayAppend(e: Enrolment, a: seq<Entry>, m: Enrolment, b: seq<Entry>, e': Enrolment)
    requires Replays(e, a, m) && Replays(m, b, e')
    ensures Replays(e, a + b, e')
    decreases |a|
  {
    if a == [] {
      assert a + b == b;
    } else {
      var k :| Takes(e, a[0].op, a[0].result, k) && Replays(k, a[1..], m);
      ReplayAppend(k, a[1..], m, b, e');
      assert (a + b)[0] == a[0] && (a + b)[1..] == a[1..] + b;
    }
  }

  /** The log entries added between two states, replayed atomically, explain the database. */
  ghost predicate Explains(s: State, entries: seq<Entry>, s': State) {
    s'.log == s.log + entries && Replays(Abs(Committed(s)), entries, Abs(Committed(s')))
  }

  lemma StepIsExplained(s: State, step: Step) returns (entries: seq<Entry>)
    requires Inv(s) && Enabled(s, step)
    ensures Explains(s, entries, Apply(s, step))
  {
    StepRefines(s, step);
    var p, e' := s.threads[step.tid], Abs(Committed(Apply(s, step)));
    if step.Move? && p.Returning? {
      entries := [Entry(step.tid, p.op, p.result)];
      assert entries[1..] == [];
      assert Takes(Abs(Committed(s)), entries[0].op, entries[0].result, e') && Replays(e', entries[1..], e');
    } else {
      entries := [];
    }
  }

  lemma ExplainsThen(s: State, first: seq<Entry>, m: State, rest: seq<Entry>, s': State)
    requires Explains(s, first, m) && Explains(m, rest, s')
    ensures Explains(s, first + rest, s')
  {
    assert s.log + (first + rest) == (s.log + first) + rest;
    ReplayAppend(Abs(Committed(s)), first, Abs(Committed(m)), rest, Abs(Committed(s')));
  }

  /** The refinement: every interleaved run is a run of the atomic relation. */
  lemma {:induction false} EveryRunIsAtomic(s: State, schedule: seq<Step>) returns (entries: seq<Entry>)
    requires Inv(s) && Legal(s, schedule)
    ensures Explains(s, entries, After(s, schedule))
    decreases |schedule|
  {
    if schedule == [] {
      entries := [];
    } else {
      var s' := Apply(s, schedule[0]);
      StepKeepsInv(s, schedule[0]);
      var first := StepIsExplained(s, schedule[0]);
      var rest := EveryRunIsAtomic(s', schedule[1..]);
      entries := first + rest;
      ExplainsThen(s, first, s', rest, After(s', schedule[1..]));
    }
  }

  /** No course is over its capacity in any reachable state, not even inside a transaction. */
  lemma NeverOverbooked(s: State, schedule: seq<Step>, c: int)
    requires Init(s) && Legal(s, schedule) && c in After(s, schedule).tables.courses
    ensures EnrolledCount(After(s, schedule).tables, c) <= After(s, schedule).tables.courses[c].capacity
    ensures c in Committed(After(s, schedule)).courses ==>
      EnrolledCount(Committed(After(s, schedule)), c) <= Committed(After(s, schedule)).courses[c].capacity
  {
    RunKeepsInv(s, schedule);
  }

  /* ---------- What callers are told ---------- */

  /** The commits of one thread. */
  ghost function CommitsOf(log: seq<Entry>, t: Tid): seq<Entry> {
    if log == [] then []
    else
      var last := log[|log| - 1];
      CommitsOf(log[..|log| - 1], t) + if last.tid == t then [last] else []
  }

  /** The commits that a thread at this point of its call must have added to the log. */
  ghost function Owed(t: Tid, p: Pc): seq<Entry> {
    if (p.Unlocking? || p.Returned?) && p.result != EXCEPTION then [Entry(t, p.op, p.result)] else []
  }

  /** Thread t is in, or back from, a call of op, with the commits `earlier` from before the call. */
  ghost predicate InCall(s: State, t: Tid, op: Op, earlier: seq<Entry>) {
    && t < |s.threads| && !s.threads[t].Idle? && s.threads[t].op == op
    && CommitsOf(s.log, t) == earlier + Owed(t, s.threads[t])
  }

  /** A thread stays in its call until it finishes; other threads may do anything. */
  predicate StaysInCall(step: Step, t: Tid) { step.tid == t ==> step.Move? || step.Fault? }

  /** No body returns what is reported for an exception. */
  lemma BodyIsNoException(t: Tables, op: Op)
    ensures Body(t, op).Written? ==> Body(t, op).result != EXCEPTION
  {
  }

  lemma CommitAppend(log: seq<Entry>, e: Entry, t: Tid)
    ensures CommitsOf(log + [e], t) == CommitsOf(log, t) + if e.tid == t then [e] else []
  {
    assert (log + [e])[..|log|] == log;
  }

  lemma NoExceptionCommits(s: State, u: Tid)
    requires ConnInv(s) && TxInv(s) && u < |s.threads| && s.threads[u].Returning?
    ensures s.threads[u].result != EXCEPTION
  {
    assert OwnsTx(s.threads[u]);
    BodyIsNoException(s.conn.saved, s.threads[u].op);
  }

  lemma CommitKeepsCall(s: State, u: Tid, t: Tid, op: Op, earlier: seq<Entry>)
    requires InCall(s, t, op, earlier) && CanMove(s, u) && s.threads[u].Returning? && s.threads[u].result != EXCEPTION
    ensures InCall(Advance(s, u), t, op, earlier)
  {
    var p, s' := s.threads[u], Advance(s, u);
    CommitAppend(s.log, Entry(u, p.op, p.result), t);
    assert s'.threads[t] == if t == u then Unlocking(p.op, p.mutex, p.result) else s.threads[t];
  }

  lemma QuietStepKeepsCall(s: State, step: Step, t: Tid, op: Op, earlier: seq<Entry>)
    requires InCall(s, t, op, earlier) && Enabled(s, step) && StaysInCall(step, t)
    requires !(step.Move? && s.threads[step.tid].Returning?)
    ensures InCall(Apply(s, step), t, op, earlier)
  {
    QuietStepLog(s, step);
  }

  lemma StepKeepsCall(s: State, step: Step, t: Tid, op: Op, earlier: seq<Entry>)
    requires Inv(s) && InCall(s, t, op, earlier) && Enabled(s, step) && StaysInCall(step, t)
    ensures InCall(Apply(s, step), t, op, earlier)
  {
    if step.Move? && s.threads[step.tid].Returning? {
      NoExceptionCommits(s, step.tid);
      CommitKeepsCall(s, step.tid, t, op, earlier);
    } else {
      QuietStepKeepsCall(s, step, t, op, earlier);
    }
  }

  lemma {:induction false} RunKeepsCall(s: State, schedule: seq<Step>, t: Tid, op: Op, earlier: seq<Entry>)
    requires Inv(s) && InCall(s, t, op, earlier) && Legal(s, schedule)
    requires forall i :: 0 <= i < |schedule| ==> StaysInCall(schedule[i], t)
    ensures InCall(After(s, schedule), t, op, earlier)
    decreases |schedule|
  {
    if schedule == [] {
    } else {
      StepKeepsInv(s, schedule[0]);
      StepKeepsCall(s, schedule[0], t, op, earlier);
      RunKeepsCall(Apply(s, schedule[0]), schedule[1..], t, op, earlier);
    }
  }

  /**
   A call that starts in s, over any run: as long as it has not come back it has committed nothing;
   when it reports an exception it has committed nothing; when it reports any other result it has
   committed exactly once, with that result.
   */
  lemma ReportsAreCommitted(s: State, schedule: seq<Step>, t: Tid)
    requires Inv(s) && t < |s.threads| && s.threads[t].Lookup? && Legal(s, schedule)
    requires forall i :: 0 <= i < |schedule| ==> StaysInCall(schedule[i], t)
    ensures var s', op := After(s, schedule), s.threads[t].op;
      && t < |s'.threads| && !s'.threads[t].Idle? && s'.threads[t].op == op
      && var p := s'.threads[t];
         CommitsOf(s'.log, t) == CommitsOf(s.log, t) +
           if (p.Unlocking? || p.Returned?) && p.result != EXCEPTION then [Entry(t, op, p.result)] else []
  {
    RunKeepsCall(s, schedule, t, s.threads[t].op, CommitsOf(s.log, t));
  }
}
