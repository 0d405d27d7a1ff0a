/**
 What a caller of the course and user operations can rely on: which check decides the answer, and
 what each operation has written, read back column by column.
 */
module CatalogueAnswers {
  import opened RegistrationTables
  import opened Catalogue

  /** A check of a call, and the error a caller gets when it is the first to fail. */
  datatype Check = Check(passed: bool, error: CourseError)

  /** The error of the first check from k on that fails. */
  function FirstError(checks: seq<Check>, k: nat): CourseError
    requires k <= |checks|
    decreases |checks| - k
  {
    if k == |checks| then NoCourseError else if !checks[k].passed then checks[k].error else FirstError(checks, k + 1)
  }

  /** A success when all checks pass, and otherwise the error of the first that fails. */
  predicate DecidedBy(r: CourseResult, checks: seq<Check>) {
    r.error == FirstError(checks, 0) && (r.success <==> r.error == NoCourseError) && (!r.success ==> r.id == 0)
  }

  /** Only the courses differ, and of those only course c. */
  ghost predicate OnlyCourseChanged(t: Tables, t': Tables, c: int) {
    && t'.users == t.users && t'.regs == t.regs && t'.nextUser == t.nextUser && t'.nextReg == t.nextReg
    && (forall d :: d in t'.courses && d != c ==> d in t.courses)
    && forall d :: d in t.courses && d != c ==> d in t'.courses && t'.courses[d] == t.courses[d]
  }

  /* ---------- create_course ---------- */

  function CreateChecks(t: Tables, f: Form, q: Requester, x: Faults): seq<Check> {
    [Check(q.role != Student, Unauthorized),
     Check(f.code != "", CodeRequired),
     Check(f.name != "", NameRequired),
     Check(f.capacity > 0, CapacityNotPositive),
     Check(1 <= f.credits <= 6, BadCredits),
     Check(x.find || !CodeTaken(t, f.code), CodeExists),
     Check(!x.write && !CodeTaken(t, f.code) && f.faculty in t.users, CreateFailed)]
  }

  lemma CreateDecided(t: Tables, f: Form, q: Requester, x: Faults)
    ensures DecidedBy(CreateCourse(t, f, q, x).result, CreateChecks(t, f, q, x))
  {
    var checks := CreateChecks(t, f, q, x); // unfolded from its end, two checks at a time
    assert FirstError(checks, 6) == if !checks[6].passed then checks[6].error else FirstError(checks, 7);
    assert FirstError(checks, 4) == if !checks[4].passed then checks[4].error else FirstError(checks, 5);
    assert FirstError(checks, 2) == if !checks[2].passed then checks[2].error else FirstError(checks, 3);
    assert FirstError(checks, 0) == if !checks[0].passed then checks[0].error else FirstError(checks, 1);
  }

  /**
   A course is created exactly when an admin or faculty member sends a complete form with a free
   code and a known faculty; it is new, empty, and reads back as the form. Otherwise nothing changes.
   */
  lemma CreatesExactly(t: Tables, f: Form, q: Requester, x: Faults)
    requires Valid(t)
    ensures var (t', r) := (CreateCourse(t, f, q, x).tables, CreateCourse(t, f, q, x).result);
      && (r.success <==>
            && (q.role == Admin || q.role == Faculty) && f.code != "" && f.name != ""
            && f.capacity > 0 && 1 <= f.credits <= 6
            && !CodeTaken(t, f.code) && f.faculty in t.users && !x.write)
      && (!r.success ==> t' == t)
      && (r.success ==>
            && r.id !in t.courses && r.id in t'.courses && ReadBack(t', r.id) == f.(id := r.id)
            && EnrolledCount(t', r.id) == 0 && OnlyCourseChanged(t, t', r.id))
  {
    var o := CreateCourse(t, f, q, x);
    if o.result.success {
      assert forall id :: id in t.regs ==> t.regs[id].course != o.result.id;
      assert ActiveRows(o.tables, o.result.id) == {};
    }
  }

  /* ---------- update_course ---------- */

  function UpdateChecks(t: Tables, f: Form, q: Requester, x: Faults): seq<Check> {
    [Check(!x.find && f.id in t.courses, NotFound),
     Check(q.role == Faculty ==> f.id in t.courses && t.courses[f.id].faculty == q.id, NotYours),
     Check(f.name != "", NameRequired),
     Check(f.capacity > 0, CapacityNotPositive),
     Check(x.count || f.capacity >= EnrolledCount(t, f.id), BelowEnrolment)]
  }

  lemma UpdateDecided(t: Tables, f: Form, q: Requester, x: Faults)
    ensures DecidedBy(UpdateCourse(t, f, q, x).result, UpdateChecks(t, f, q, x))
  {
    var checks := UpdateChecks(t, f, q, x);
    assert FirstError(checks, 4) == if !checks[4].passed then checks[4].error else FirstError(checks, 5);
    assert FirstError(checks, 2) == if !checks[2].passed then checks[2].error else FirstError(checks, 3);
  }

  /** After a success the course reads back as the form, but for its code, exactly when the UPDATE was applied. */
  lemma UpdateReadsBack(t: Tables, f: Form, q: Requester, x: Faults)
    ensures var (t', r) := (UpdateCourse(t, f, q, x).tables, UpdateCourse(t, f, q, x).result);
      && OnlyCourseChanged(t, t', f.id) && t'.nextCourse == t.nextCourse
      && (!r.success ==> t' == t)
      && (r.success ==>
            && r.id == f.id && f.id in t.courses && f.id in t'.courses
            && var (was, asked) := (ReadBack(t, f.id), f.(code := ReadBack(t, f.id).code));
               ReadBack(t', f.id) == if !x.write && f.faculty in t.users then asked else was)
  {
  }

  /* ---------- delete_course and delete_user ---------- */

  function DeleteChecks(t: Tables, c: int, q: Requester, x: Faults): seq<Check> {
    [Check(q.role == Admin || (!x.find && c in t.courses), NotFound),
     Check(q.role == Faculty ==> c in t.courses && t.courses[c].faculty == q.id, NotYours)]
  }

  lemma DeleteDecided(t: Tables, c: int, q: Requester, x: Faults)
    ensures DecidedBy(DeleteCourse(t, c, q, x).result, DeleteChecks(t, c, q, x))
  {
    var checks := DeleteChecks(t, c, q, x);
    assert FirstError(checks, 1) == if !checks[1].passed then checks[1].error else FirstError(checks, 2);
  }

  /** Exactly the course and its registrations are gone. */
  lemma DeleteCourseKeepsOthers(t: Tables, c: int)
    ensures var t' := RemoveCourse(t, c);
      && t'.users == t.users && c !in t'.courses && t'.courses.Keys == t.courses.Keys - {c}
      && OnlyCourseChanged(t, t'.(regs := t.regs), c)
      && t'.nextCourse == t.nextCourse && t'.nextReg == t.nextReg
      && (forall id :: id in t'.regs <==> id in t.regs && t.regs[id].course != c)
      && (forall id :: id in t'.regs ==> t'.regs[id] == t.regs[id])
  {
  }

  /** Only another admin deletes a user; the account and its registrations go, and its courses lose their faculty. */
  lemma DeleteUserExactly(t: Tables, u: int, q: Requester, x: Faults)
    requires Valid(t) && u in t.users
    ensures var t' := After(t, DeleteUser(u, q, x));
      && (u !in t'.users <==> q.role == Admin && q.id != u && !x.write)
      && (u in t'.users ==> t' == t)
      && (u !in t'.users ==>
            && t'.users == t.users - {u} && t'.courses.Keys == t.courses.Keys
            && (forall c :: c in t.courses ==>
                  ReadBack(t', c) ==
                    if t.courses[c].faculty == u then ReadBack(t, c).(faculty := 0) else ReadBack(t, c))
            && (forall id :: id in t'.regs <==> id in t.regs && t.regs[id].student != u)
            && (forall id :: id in t'.regs ==> t'.regs[id] == t.regs[id])
            && t'.nextUser == t.nextUser && t'.nextCourse == t.nextCourse && t'.nextReg == t.nextReg)
  {
  }

  /** A new account has an id that no account had, and nothing else moves. */
  lemma AddUserExactly(t: Tables)
    requires Valid(t)
    ensures var t' := After(t, AddUser);
      && t'.courses == t.courses && t'.regs == t.regs
      && t'.nextCourse == t.nextCourse && t'.nextReg == t.nextReg
      && exists u :: u !in t.users && t'.users == t.users + {u}
  {
    assert t.nextUser !in t.users;
  }
}
