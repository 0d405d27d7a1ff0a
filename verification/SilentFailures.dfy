/**
 Statements that fail without throwing. The result of sqlite3_step is ignored by every SELECT and
 UPDATE of the two bodies: a SELECT whose step fails reads no row, so a count reads 0 and a lookup
 finds nothing, and an UPDATE whose step fails changes nothing, while changes() still reports the
 statement before it. This module runs the bodies with any such failures and says exactly which of
 them capacity and atomicity survive.
 */
module SilentFailures {
  import opened RegistrationTables
  import opened RegistrationRefinement

  /** Which statements of a body fail silently, and whether changes() is then left above 0. */
  datatype Failures = Failures(
    find: bool, exist: bool, count: bool, reactivate: bool, staleChanges: bool, selectId: bool,
    drop: bool, findAfter: bool)

  const NONE: Failures := Failures(false, false, false, false, false, false, false, false)

  /** create, when the reactivating UPDATE or the lookup of the id may fail. */
  ghost function CreateWith(t: Tables, s: int, c: int, x: Failures): Created {
    var updated := Dropped(t, s, c) && !x.reactivate;
    var t' := if updated then Activate(t, s, c, true) else t;
    if updated || (x.reactivate && x.staleChanges) then
      Created(t', if x.selectId || RowsOf(t, s, c) == {} then 0 else AnyRow(t, s, c))
    else if RowsOf(t, s, c) != {} || s !in t.users || c !in t.courses then Threw
    else Created(Insert(t, s, c), t.nextReg)
  }

  ghost function AnyRow(t: Tables, s: int, c: int): int
    requires RowsOf(t, s, c) != {}
  {
    SomeElement(RowsOf(t, s, c));
    var id :| id in RowsOf(t, s, c);
    id
  }

  /** The checks of a call. */
  function CheckWith(t: Tables, op: Op, x: Failures): Checked {
    match op
    case Register(s, c) =>
      if x.find || c !in t.courses then Refuse(Failed(CourseNotFound, 0))
      else if !x.exist && Enrolled(t, s, c) then
        Refuse(Failed(AlreadyEnrolled, t.courses[c].capacity - EnrolledCount(t, c)))
      else
        var remaining := t.courses[c].capacity - if x.count then 0 else EnrolledCount(t, c);
        if remaining <= 0 then Refuse(Failed(CourseFull, 0)) else Proceed(remaining)
    case Drop(s, c) =>
      if x.exist || !Enrolled(t, s, c) then Refuse(Failed(NotEnrolled, 0)) else Proceed(0)
  }

  /** The write that follows, and the result it returns. */
  ghost function WriteWith(t: Tables, op: Op, remaining: int, x: Failures): Written {
    match op
    case Register(s, c) =>
      (match CreateWith(t, s, c, x)
       case Threw => WriteThrew
       case Created(t', id) => Written(t', Result(true, id, NoError, remaining - 1)))
    case Drop(s, c) =>
      var t' := if x.drop then t else Activate(t, s, c, false);
      Written(t', Result(true, 0, NoError,
                         if !x.findAfter && c in t'.courses
                         then t'.courses[c].capacity - EnrolledCount(t', c) + 1 else 0))
  }

  ghost function BodyWith(t: Tables, op: Op, x: Failures): Written {
    match CheckWith(t, op, x)
    case Refuse(r) => Written(t, r)
    case Proceed(remaining) => WriteWith(t, op, remaining, x)
  }

  lemma NoFailuresIsWrite(t: Tables, op: Op, remaining: int)
    requires Valid(t)
    ensures WriteWith(t, op, remaining, NONE) == Write(t, op, remaining)
  {
    if op.Register? && Dropped(t, op.student, op.course) {
      var s, c := op.student, op.course;
      var id := Create(t, s, c).id;
      assert id in RowsOf(t, s, c);
      OneRowPerPair(t, s, c, id);
      assert AnyRow(t, s, c) == id;
    }
  }

  /** Without failures this is the body of the other modules. */
  lemma NoFailuresIsBody(t: Tables, op: Op)
    requires Valid(t)
    ensures CheckWith(t, op, NONE) == Check(t, op) && BodyWith(t, op, NONE) == Body(t, op)
  {
    if Check(t, op).Proceed? {
      NoFailuresIsWrite(t, op, Check(t, op).remaining);
    }
  }

  /** A row becomes active: a dropped one is reactivated, or a known student gets a first one. */
  ghost predicate TakesSeat(t: Tables, s: int, c: int, x: Failures) {
    if Dropped(t, s, c) then !x.reactivate
    else RowsOf(t, s, c) == {} && s in t.users && !(x.reactivate && x.staleChanges)
  }

  lemma TakersAreNotEnrolled(t: Tables, s: int, c: int, x: Failures)
    requires Valid(t) && TakesSeat(t, s, c, x)
    ensures !Enrolled(t, s, c)
  {
    forall id | id in t.regs ensures t.regs[id] != RegRow(s, c, true) {
      assert t.regs[id] == RegRow(s, c, true) ==> id in RowsOf(t, s, c);
    }
  }

  lemma CreateWithEffect(t: Tables, s: int, c: int, x: Failures)
    requires Valid(t) && c in t.courses && CreateWith(t, s, c, x).Created?
    ensures var t' := CreateWith(t, s, c, x).tables;
      if TakesSeat(t, s, c, x) then !Enrolled(t, s, c) && Create(t, s, c).Created? && t' == Create(t, s, c).tables
      else t' == t
  {
    if TakesSeat(t, s, c, x) {
      TakersAreNotEnrolled(t, s, c, x);
    } else if Dropped(t, s, c) {
      var id :| id in t.regs && t.regs[id] == RegRow(s, c, false);
      assert id in RowsOf(t, s, c);
    }
  }

  /** The one way over capacity: the count fails for a full course, and a seat is then taken. */
  ghost predicate Overbooks(t: Tables, op: Op, x: Failures) {
    && op.Register? && !x.find && x.count && op.course in t.courses
    && EnrolledCount(t, op.course) == t.courses[op.course].capacity
    && TakesSeat(t, op.student, op.course, x)
  }

  lemma FullCourseOverflows(t: Tables, s: int, c: int)
    requires Valid(t) && !Enrolled(t, s, c) && Create(t, s, c).Created? && c in t.courses
    requires EnrolledCount(t, c) == t.courses[c].capacity
    ensures !Valid(Create(t, s, c).tables)
  {
    CreateEffect(t, s, c);
    var t' := Create(t, s, c).tables;
    assert c in t'.courses && EnrolledCount(t', c) > t'.courses[c].capacity;
  }

  /** Whatever fails silently, a body that returns leaves a valid database unless it overbooks. */
  lemma CapacitySurvivesExactly(t: Tables, op: Op, x: Failures)
    requires Valid(t) && BodyWith(t, op, x).Written?
    ensures Valid(BodyWith(t, op, x).tables) <==> !Overbooks(t, op, x)
  {
    var s, c := op.student, op.course;
    if op.Drop? {
      if Enrolled(t, s, c) { DropKeepsValid(t, s, c); }
    } else if c in t.courses {
      if TakesSeat(t, s, c, x) { TakersAreNotEnrolled(t, s, c, x); }
      if BodyWith(t, op, x).result.success {
        CreateWithEffect(t, s, c, x);
        if TakesSeat(t, s, c, x) {
          if EnrolledCount(t, c) == t.courses[c].capacity {
            FullCourseOverflows(t, s, c);
          } else {
            CreateKeepsValid(t, s, c);
          }
        }
      }
    }
  }

  /** The tables after a call on its own: what its body leaves, or an exception that leaves them alone. */
  ghost function AfterCall(t: Tables, op: Op, x: Failures): Tables {
    var w := BodyWith(t, op, x); if w.Written? then w.tables else t
  }

  ghost predicate StaysValid(t: Tables, calls: seq<(Op, Failures)>)
    decreases |calls|
  {
    Valid(t) && (calls == [] || StaysValid(AfterCall(t, calls[0].0, calls[0].1), calls[1..]))
  }

  ghost predicate NeverOverbooks(t: Tables, calls: seq<(Op, Failures)>)
    decreases |calls|
  {
    calls == [] || (
      && !Overbooks(t, calls[0].0, calls[0].1)
      && NeverOverbooks(AfterCall(t, calls[0].0, calls[0].1), calls[1..]))
  }

  /** Over any sequence of calls and failures, capacity holds throughout exactly when none overbooks. */
  lemma {:induction false} RunStaysValidExactly(t: Tables, calls: seq<(Op, Failures)>)
    requires Valid(t)
    ensures StaysValid(t, calls) <==> NeverOverbooks(t, calls)
    decreases |calls|
  {
    if calls == [] {
    } else {
      var (op, x) := calls[0];
      var t' := AfterCall(t, op, x);
      if BodyWith(t, op, x).Written? {
        CapacitySurvivesExactly(t, op, x);
      } else if Overbooks(t, op, x) {
        OverbookingReturns(t, op, x);
      }
      if Valid(t') {
        RunStaysValidExactly(t', calls[1..]);
      }
    }
  }

  lemma OverbookingReturns(t: Tables, op: Op, x: Failures)
    requires Valid(t) && Overbooks(t, op, x)
    ensures BodyWith(t, op, x).Written?
  {
    TakersAreNotEnrolled(t, op.student, op.course, x);
  }

  /** A count that fails for a full course lets one more student in than the course has seats. */
  lemma FailingCountOverbooks(t: Tables, s: int, c: int)
    requires Valid(t) && s in t.users && c in t.courses && RowsOf(t, s, c) == {}
    requires EnrolledCount(t, c) == t.courses[c].capacity
    ensures var w := BodyWith(t, Register(s, c), NONE.(count := true));
      && w.Written? && w.result.success && c in w.tables.courses
      && EnrolledCount(w.tables, c) == w.tables.courses[c].capacity + 1
  {
    var x := NONE.(count := true);
    assert TakesSeat(t, s, c, x) by {
      if Dropped(t, s, c) {
        var id :| id in t.regs && t.regs[id] == RegRow(s, c, false);
        assert id in RowsOf(t, s, c);
      }
    }
    TakersAreNotEnrolled(t, s, c, x);
    CreateWithEffect(t, s, c, x);
    CreateEffect(t, s, c);
  }

  /** The failures that cannot change what a body answers or leaves. */
  ghost predicate Harmless(t: Tables, op: Op, x: Failures) {
    var s, c := op.student, op.course;
    match op
    case Register(_, _) =>
      c !in t.courses || (
        && !x.find
        && if Enrolled(t, s, c) then !x.exist
           else
             && (x.count ==> EnrolledCount(t, c) == 0)
             && (EnrolledCount(t, c) < t.courses[c].capacity ==>
                   !(x.reactivate && x.staleChanges) && (Dropped(t, s, c) ==> !x.selectId)))
    case Drop(_, _) => Enrolled(t, s, c) ==> !x.exist && !x.drop && !x.findAfter
  }

  /** A successful registration returns the id of the active row of its pair. */
  ghost predicate NamesItsRow(t: Tables, op: Op, r: Result) {
    op.Register? && r.success ==> r.id in t.regs && t.regs[r.id] == RegRow(op.student, op.course, true)
  }

  /** The id that create returns is that of the row, unless its lookup fails. */
  lemma CreateWithId(t: Tables, s: int, c: int, x: Failures)
    requires Valid(t) && c in t.courses && TakesSeat(t, s, c, x) && CreateWith(t, s, c, x).Created?
    ensures var Created(t', id) := CreateWith(t, s, c, x);
      (id in t'.regs && t'.regs[id] == RegRow(s, c, true)) <==> !(Dropped(t, s, c) && x.selectId)
    ensures !(Dropped(t, s, c) && x.selectId) ==> CreateWith(t, s, c, x) == Create(t, s, c)
  {
    TakersAreNotEnrolled(t, s, c, x);
    CreateEffect(t, s, c);
    if Dropped(t, s, c) {
      var id := Create(t, s, c).id;
      assert id in RowsOf(t, s, c);
      OneRowPerPair(t, s, c, id);
      assert AnyRow(t, s, c) == id;
    }
  }

  lemma RegisterAtomicExactly(t: Tables, s: int, c: int, x: Failures)
    requires Valid(t) && BodyWith(t, Register(s, c), x).Written?
    ensures var w := BodyWith(t, Register(s, c), x);
      (Takes(Abs(t), Register(s, c), w.result, Abs(w.tables)) && NamesItsRow(w.tables, Register(s, c), w.result))
      <==> Harmless(t, Register(s, c), x)
  {
    TakenIsEnrolled(t, c);
    EnrolledIsPair(t, s, c);
    if c in t.courses && BodyWith(t, Register(s, c), x).result.success {
      CreateWithEffect(t, s, c, x);
      if TakesSeat(t, s, c, x) {
        CreateEffect(t, s, c);
        RegisterPairs(t, s, c);
        CreateWithId(t, s, c, x);
      }
    }
  }

  lemma DropAtomicExactly(t: Tables, s: int, c: int, x: Failures)
    requires Valid(t)
    ensures var w := BodyWith(t, Drop(s, c), x);
      w.Written? && (Takes(Abs(t), Drop(s, c), w.result, Abs(w.tables)) <==> Harmless(t, Drop(s, c), x))
  {
    EnrolledIsPair(t, s, c);
    if Enrolled(t, s, c) {
      DropPairs(t, s, c);
      DropKeepsValid(t, s, c);
      TakenIsEnrolled(Activate(t, s, c, false), c);
    }
  }

  /**
   A body with silent failures is a step of the atomic relation that names its row, exactly when
   the failures are harmless.
   */
  lemma AtomicitySurvivesExactly(t: Tables, op: Op, x: Failures)
    requires Valid(t) && BodyWith(t, op, x).Written?
    ensures var w := BodyWith(t, op, x);
      Takes(Abs(t), op, w.result, Abs(w.tables)) && NamesItsRow(w.tables, op, w.result) <==> Harmless(t, op, x)
  {
    match op
    case Register(s, c) => RegisterAtomicExactly(t, s, c, x);
    case Drop(s, c) => DropAtomicExactly(t, s, c, x);
  }

  /** Harmless failures go unnoticed: tables and result are those of the body without failures. */
  lemma UnnoticedExactly(t: Tables, op: Op, x: Failures)
    requires Valid(t) && BodyWith(t, op, x).Written?
    ensures BodyWith(t, op, x) == Body(t, op) <==> Harmless(t, op, x)
  {
    AtomicitySurvivesExactly(t, op, x);
    NoFailuresIsBody(t, op);
    if Harmless(t, op, x) {
      if op.Register? && op.course in t.courses && BodyWith(t, op, x).result.success {
        CreateWithEffect(t, op.student, op.course, x);
        EnrolledIsPair(t, op.student, op.course);
        if TakesSeat(t, op.student, op.course, x) {
          CreateWithId(t, op.student, op.course, x);
        }
      }
    } else if BodyWith(t, op, x) == Body(t, op) {
      AtomicitySurvivesExactly(t, op, NONE);
    }
  }
}
