/**
 The users, courses and registrations tables, the statements of the repositories on them, and
 the bodies of register_student and drop_student run on them without interruption.
 */
module RegistrationTables {

  datatype CourseRow = CourseRow(
    code: string, name: string, credits: int, faculty: int, capacity: int, schedule: string)

  datatype RegRow = RegRow(student: int, course: int, active: bool)

  /** AUTOINCREMENT ids come from counters; faculty 0 stands for NULL. */
  datatype Tables = Tables(
    users: set<int>, nextUser: int,
    courses: map<int, CourseRow>, nextCourse: int,
    regs: map<int, RegRow>, nextReg: int)

  datatype Op = Register(student: int, course: int) | Drop(student: int, course: int)

  datatype Error = NoError | CourseNotFound | AlreadyEnrolled | CourseFull | NotEnrolled | Exception

  datatype Result = Result(success: bool, id: int, error: Error, remaining: int)

  function Failed(error: Error, remaining: int): Result { Result(false, 0, error, remaining) }

  /* ---------- Queries ---------- */

  function RowsOf(t: Tables, s: int, c: int): set<int> {
    set id | id in t.regs && t.regs[id].student == s && t.regs[id].course == c
  }

  function ActiveRows(t: Tables, c: int): set<int> {
    set id | id in t.regs && t.regs[id].course == c && t.regs[id].active
  }

  /** get_enrolled_count, and the sub-query of find_by_id. */
  function EnrolledCount(t: Tables, c: int): nat { |ActiveRows(t, c)| }

  /** exists: is there an active row for the pair? */
  predicate Enrolled(t: Tables, s: int, c: int) {
    exists id | id in t.regs :: t.regs[id] == RegRow(s, c, true)
  }

  predicate Dropped(t: Tables, s: int, c: int) {
    exists id | id in t.regs :: t.regs[id] == RegRow(s, c, false)
  }

  /* ---------- What the schema enforces, and the capacity rule ---------- */

  ghost predicate UniquePairs(regs: map<int, RegRow>) {
    forall i, j :: i in regs && j in regs && i != j ==>
      !(regs[i].student == regs[j].student && regs[i].course == regs[j].course)
  }

  ghost predicate Referential(t: Tables) {
    && (forall id :: id in t.regs ==> t.regs[id].student in t.users && t.regs[id].course in t.courses)
    && (forall c :: c in t.courses ==> t.courses[c].faculty == 0 || t.courses[c].faculty in t.users)
  }

  ghost predicate FreshIds(t: Tables) {
    && (forall id :: id in t.regs ==> 0 < id < t.nextReg)
    && (forall c :: c in t.courses ==> 0 < c < t.nextCourse)
    && (forall u :: u in t.users ==> 0 < u < t.nextUser)
    && 0 < t.nextReg && 0 < t.nextCourse && 0 < t.nextUser
  }

  ghost predicate WithinCapacity(t: Tables) {
    forall c :: c in t.courses ==> t.courses[c].capacity > 0 && EnrolledCount(t, c) <= t.courses[c].capacity
  }

  ghost predicate UniqueCodes(t: Tables) {
    forall c, d :: c in t.courses && d in t.courses && c != d ==> t.courses[c].code != t.courses[d].code
  }

  ghost predicate Valid(t: Tables) {
    UniquePairs(t.regs) && Referential(t) && FreshIds(t) && WithinCapacity(t) && UniqueCodes(t)
  }

  /* ---------- Statements ---------- */

  function Activate(t: Tables, s: int, c: int, active: bool): Tables {
    t.(regs := map id | id in t.regs ::
                 if t.regs[id].student == s && t.regs[id].course == c then t.regs[id].(active := active)
                 else t.regs[id])
  }

  function Insert(t: Tables, s: int, c: int): Tables {
    t.(regs := t.regs[t.nextReg := RegRow(s, c, true)], nextReg := t.nextReg + 1)
  }

  datatype Created = Created(tables: Tables, id: int) | Threw

  /** create: reactivates a dropped row, or inserts one if the schema allows it. */
  ghost function Create(t: Tables, s: int, c: int): Created {
    if Dropped(t, s, c) then
      var id :| id in t.regs && t.regs[id] == RegRow(s, c, false);
      Created(Activate(t, s, c, true), id)
    else if RowsOf(t, s, c) != {} || s !in t.users || c !in t.courses then Threw
    else Created(Insert(t, s, c), t.nextReg)
  }

  /* ---------- The bodies of the two calls ---------- */

  /** The checks of a call: the result to return at once, or the free seats seen. */
  datatype Checked = Refuse(result: Result) | Proceed(remaining: int)

  function Check(t: Tables, op: Op): Checked {
    match op
    case Register(s, c) =>
      if c !in t.courses then Refuse(Failed(CourseNotFound, 0))
      else
        var remaining := t.courses[c].capacity - EnrolledCount(t, c);
        if Enrolled(t, s, c) then Refuse(Failed(AlreadyEnrolled, remaining))
        else if remaining <= 0 then Refuse(Failed(CourseFull, 0))
        else Proceed(remaining)
    case Drop(s, c) =>
      if !Enrolled(t, s, c) then Refuse(Failed(NotEnrolled, 0)) else Proceed(0)
  }

  datatype Written = Written(tables: Tables, result: Result) | WriteThrew

  /** The write that follows successful checks, and the result it returns. */
  ghost function Write(t: Tables, op: Op, remaining: int): Written {
    match op
    case Register(s, c) =>
      (match Create(t, s, c)
       case Threw => WriteThrew
       case Created(t', id) => Written(t', Result(true, id, NoError, remaining - 1)))
    case Drop(s, c) =>
      var t' := Activate(t, s, c, false);
      Written(t', Result(true, 0, NoError,
                         if c in t'.courses then t'.courses[c].capacity - EnrolledCount(t', c) + 1 else 0))
  }

  /** A whole body: checks and write with nothing in between. */
  ghost function Body(t: Tables, op: Op): Written {
    match Check(t, op)
    case Refuse(r) => Written(t, r)
    case Proceed(remaining) => Write(t, op, remaining)
  }

  /* ---------- What the statements do to the rows ---------- */

  lemma OneRowPerPair(t: Tables, s: int, c: int, id: int)
    requires UniquePairs(t.regs) && id in RowsOf(t, s, c)
    ensures RowsOf(t, s, c) == {id}
  {
    assert forall j :: j in RowsOf(t, s, c) ==> j == id;
  }

  /** Changing the status of the only row of a pair moves one seat of that course. */
  lemma ActivateCounts(t: Tables, s: int, c: int, id: int, active: bool, d: int)
    requires UniquePairs(t.regs) && id in t.regs && t.regs[id] == RegRow(s, c, !active)
    ensures var t' := Activate(t, s, c, active);
      && t'.regs == t.regs[id := RegRow(s, c, active)]
      && EnrolledCount(t', d) == EnrolledCount(t, d) + if d != c then 0 else if active then 1 else -1
  {
    var t' := Activate(t, s, c, active);
    OneRowPerPair(t, s, c, id);
    forall k | k in t.regs && k != id ensures t'.regs[k] == t.regs[k] {
      assert k !in RowsOf(t, s, c);
    }
    assert t'.regs == t.regs[id := RegRow(s, c, active)];
    if d != c {
      assert ActiveRows(t', d) == ActiveRows(t, d);
    } else if active {
      assert ActiveRows(t', d) == ActiveRows(t, d) + {id};
    } else {
      assert ActiveRows(t, d) == ActiveRows(t', d) + {id};
    }
  }

  lemma InsertCounts(t: Tables, s: int, c: int, d: int)
    requires FreshIds(t)
    ensures EnrolledCount(Insert(t, s, c), d) == EnrolledCount(t, d) + if d == c then 1 else 0
  {
    var t' := Insert(t, s, c);
    if d == c {
      assert ActiveRows(t', d) == ActiveRows(t, d) + {t.nextReg};
    } else {
      assert ActiveRows(t', d) == ActiveRows(t, d);
    }
  }

  lemma SomeElement(ids: set<int>)
    ensures ids == {} || exists id :: id in ids
  {
    if id :| id in ids {
    } else {
      assert forall id :: id !in ids;
      assert ids == {};
    }
  }

  lemma RowsAreActiveOrDropped(t: Tables, s: int, c: int)
    ensures RowsOf(t, s, c) != {} ==> Enrolled(t, s, c) || Dropped(t, s, c)
  {
    var rows := RowsOf(t, s, c);
    SomeElement(rows);
    if id :| id in rows {
      assert t.regs[id] == RegRow(s, c, t.regs[id].active);
      assert if t.regs[id].active then Enrolled(t, s, c) else Dropped(t, s, c);
    }
  }

  /** A created registration is the pair's only row: the old one made active, or a new one. */
  lemma CreateEffect(t: Tables, s: int, c: int)
    requires Valid(t) && !Enrolled(t, s, c)
    ensures Create(t, s, c).Threw? <==> RowsOf(t, s, c) == {} && (s !in t.users || c !in t.courses)
    ensures Create(t, s, c).Created? ==>
      var Created(t', id) := Create(t, s, c);
      && t'.regs == t.regs[id := RegRow(s, c, true)]
      && t' == t.(regs := t'.regs, nextReg := t'.nextReg)
      && (if id in t.regs then t.regs[id] == RegRow(s, c, false) && t'.nextReg == t.nextReg
          else id == t.nextReg && t'.nextReg == t.nextReg + 1 && RowsOf(t, s, c) == {})
      && s in t.users && c in t.courses
      && forall d :: EnrolledCount(t', d) == EnrolledCount(t, d) + if d == c then 1 else 0
  {
    if Dropped(t, s, c) {
      var id := Create(t, s, c).id;
      assert id in RowsOf(t, s, c);
      ActivateCounts(t, s, c, id, true, c);
      forall d ensures EnrolledCount(Activate(t, s, c, true), d) == EnrolledCount(t, d) + if d == c then 1 else 0 {
        ActivateCounts(t, s, c, id, true, d);
      }
    } else {
      RowsAreActiveOrDropped(t, s, c);
      forall d ensures EnrolledCount(Insert(t, s, c), d) == EnrolledCount(t, d) + if d == c then 1 else 0 {
        InsertCounts(t, s, c, d);
      }
    }
  }

  lemma CreateKeepsValid(t: Tables, s: int, c: int)
    requires Valid(t) && !Enrolled(t, s, c) && Create(t, s, c).Created?
    requires c in t.courses ==> EnrolledCount(t, c) < t.courses[c].capacity
    ensures Valid(Create(t, s, c).tables)
  {
    CreateEffect(t, s, c);
    var Created(t', id) := Create(t, s, c);
    assert id !in t.regs ==> forall k :: k in t.regs ==> k !in RowsOf(t, s, c);
  }

  lemma DropKeepsValid(t: Tables, s: int, c: int)
    requires Valid(t) && Enrolled(t, s, c)
    ensures Valid(Activate(t, s, c, false))
  {
    var id :| id in t.regs && t.regs[id] == RegRow(s, c, true);
    forall d ensures EnrolledCount(Activate(t, s, c, false), d) <= EnrolledCount(t, d) {
      ActivateCounts(t, s, c, id, false, d);
    }
    ActivateCounts(t, s, c, id, false, c);
  }

  /** A body whose write goes through leaves valid tables: no course is ever over its capacity. */
  lemma BodyKeepsValid(t: Tables, op: Op)
    requires Valid(t) && Body(t, op).Written?
    ensures Valid(Body(t, op).tables)
  {
    if Check(t, op).Proceed? {
      match op
      case Register(s, c) => CreateKeepsValid(t, s, c);
      case Drop(s, c) => DropKeepsValid(t, s, c);
    }
  }
}
