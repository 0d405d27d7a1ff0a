/**
 What a caller of the file operations can rely on: which answer each call gives in which state,
 and what each successful call has written, record by record.
 */
module FileStoreAnswers {
  import opened FileStore
  import opened FileStoreCalls

  predicate Known(ss: seq<Student>, sid: Id) { StudentAt(ss, sid) < |ss| }

  /** unenroll_course with nothing between its two critical sections; the second gives the answer. */
  function Unenroll(f: Files, sid: Id, cid: Id): (Files, Code)
    requires WellFormed(f)
  {
    DropFromStudent(DropFromCourse(f, sid, cid), sid, cid)
  }

  /** remove_course with nothing in between; the first critical section gives the answer. */
  function Remove(f: Files, cid: Id): (Files, Code) {
    var (g, code) := RemoveRecord(f, cid);
    (ClearStudents(g, cid), code)
  }

  ghost predicate OtherStudentsKept(f: Files, g: Files, i: nat) {
    |g.students| == |f.students| && forall k :: 0 <= k < |f.students| && k != i ==> g.students[k] == f.students[k]
  }

  ghost predicate OtherCoursesKept(f: Files, g: Files, j: nat) {
    |g.courses| == |f.courses| && forall k :: 0 <= k < |f.courses| && k != j ==> g.courses[k] == f.courses[k]
  }

  function Min(a: int, b: int): int { if a <= b then a else b }

  /** The search for a hole finds one whenever there is one. */
  lemma HoleFound(slots: seq<Id>)
    ensures "" in slots <==> IndexOf(slots, "") < |slots|
  {
    if "" in slots {
      var k :| 0 <= k < |slots| && slots[k] == "";
    }
  }

  /* ---------- update_course ---------- */

  /** The new number of seats is stored, and the roster keeps the students that have a seat. */
  lemma UpdateStores(f: Files, id: Id, n: int)
    requires RecordInv(f) && 0 <= n <= MAX_USERS && Offered(f.courses, id)
    ensures var ((g, code), j) := (UpdateCourse(f, id, n), CourseAt(f.courses, id));
      && code == Ok && g.students == f.students && OtherCoursesKept(f, g, j)
      && CourseOk(g.courses[j]) && g.courses[j].id == id && g.courses[j].seats == n
      && Roster(g.courses[j]) == Roster(f.courses[j])[..Min(f.courses[j].count, n)]
      && (f.courses[j].count > n ==> forall k :: n <= k < MAX_USERS ==> g.courses[j].enrolled[k] == "")
  {
    ResizeKeepsRoster(f.courses[CourseAt(f.courses, id)], n);
  }

  lemma UpdateAnswers(f: Files, id: Id, n: int)
    requires RecordInv(f) && 0 <= n <= MAX_USERS
    ensures var (g, code) := UpdateCourse(f, id, n);
      && (code == Ok <==> Offered(f.courses, id))
      && (code == NotFound <==> !Offered(f.courses, id))
      && (code == NotFound ==> g == f)
  {
  }

  /** A course that has been given more seats than it has students takes another one. */
  lemma MoreSeatsMakeRoom(f: Files, id: Id, n: int, sid: Id)
    requires RecordInv(f) && Agree(f) && Offered(f.courses, id)
    requires f.courses[CourseAt(f.courses, id)].count < n <= MAX_USERS
    requires Known(f.students, sid) && !StudentLists(f.students, sid, id) && id != ""
    requires var s := f.students[StudentAt(f.students, sid)]; s.active && "" in s.slots
    ensures Enroll(UpdateCourse(f, id, n).0, sid, id).1 == Ok
  {
    var g := UpdateCourse(f, id, n).0;
    UpdateStores(f, id, n);
    SameIdsSameCourse(f.courses, g.courses, id);
    assert !CourseLists(f.courses, sid, id);
    HoleFound(f.students[StudentAt(f.students, sid)].slots);
  }

  /* ---------- activate, deactivate, add ---------- */

  lemma SetActiveStores(f: Files, id: Id, b: bool)
    ensures var ((g, code), i) := (SetActive(f, id, b), StudentAt(f.students, id));
      && (code == Ok <==> Known(f.students, id))
      && (code == NotFound <==> !Known(f.students, id))
      && g.courses == f.courses && OtherStudentsKept(f, g, i)
      && (code == Ok ==> g.students[i].active == b && g.students[i].id == id
                         && g.students[i].slots == f.students[i].slots)
  {
  }

  /** The flag decides who may enroll: a deactivated student is answered Blocked, and only then. */
  lemma DeactivatedIsBlocked(f: Files, sid: Id, cid: Id, b: bool)
    requires RecordInv(f) && Known(f.students, sid)
    ensures var g := SetActive(f, sid, b).0;
      RecordInv(g) && (Enroll(g, sid, cid).1 == Blocked <==> !b)
  {
    var g := SetActive(f, sid, b).0;
    SectionKeepsRecords(f, SSetActive(sid, b));
    SameIdsSameLookup(f.students, g.students, sid);
  }

  /** A new student is active, without courses, and found unless the id was taken before. */
  lemma AddStudentStores(f: Files, id: Id)
    ensures var (g, n) := (AddStudent(f, id), |f.students|);
      && g.courses == f.courses && |g.students| == n + 1 && g.students[..n] == f.students
      && g.students[n].id == id && g.students[n].active && StudentOk(g.students[n])
      && (forall k :: 0 <= k < MAX_COURSES ==> g.students[n].slots[k] == "")
      && StudentAt(g.students, id) == StudentAt(f.students, id)
  {
    var g := AddStudent(f, id);
    var i := StudentAt(f.students, id);
    assert forall k :: 0 <= k < i ==> g.students[k] == f.students[k];
    assert g.students[i].id == id;
  }

  lemma AddCourseStores(f: Files, id: Id, seats: int)
    requires 0 <= seats <= MAX_USERS
    ensures var ((g, code), n) := (AddCourse(f, id, seats), |f.courses|);
      && (code == Ok <==> !Offered(f.courses, id))
      && (code != Ok ==> g == f && code == NotFound)
      && (code == Ok ==>
            && g.students == f.students && |g.courses| == n + 1 && g.courses[..n] == f.courses
            && CourseOk(g.courses[n]) && g.courses[n].id == id && g.courses[n].seats == seats
            && Roster(g.courses[n]) == [] && CourseAt(g.courses, id) == n)
  {
    var g := AddCourse(f, id, seats).0;
    var n := |f.courses|;
    assert forall k :: 0 <= k < n ==> g.courses[k] == f.courses[k];
    if CourseAt(f.courses, id) == n {
      assert g.courses[n].id == id;
    }
  }

  /* ---------- enroll_course ---------- */

  predicate Active(ss: seq<Student>, sid: Id) { Known(ss, sid) && ss[StudentAt(ss, sid)].active }

  predicate HasHole(ss: seq<Student>, sid: Id) { Known(ss, sid) && "" in ss[StudentAt(ss, sid)].slots }

  predicate SoldOut(cs: seq<Course>, cid: Id) {
    var j := CourseAt(cs, cid);
    j < |cs| && cs[j].count >= cs[j].seats
  }

  /** Each answer of enroll_course, for agreeing files, in terms of the relation both record. */
  lemma EnrollAnswers(f: Files, sid: Id, cid: Id)
    requires RecordInv(f) && Agree(f) && cid != ""
    ensures var (code, listed) := (Enroll(f, sid, cid).1, StudentLists(f.students, sid, cid));
      && (code == NotFound <==> !Known(f.students, sid))
      && (code == Blocked <==> Known(f.students, sid) && !Active(f.students, sid))
      && (code == AlreadyEnrolled <==> Active(f.students, sid) && listed)
      && (code == CourseNotFound <==>
            Active(f.students, sid) && HasHole(f.students, sid) && !Offered(f.courses, cid))
      && (code == Full <==>
            Active(f.students, sid) && !listed && (!HasHole(f.students, sid) || SoldOut(f.courses, cid)))
      && code != NotEnrolled
  {
    assert CourseLists(f.courses, sid, cid) <==> StudentLists(f.students, sid, cid);
    var i := StudentAt(f.students, sid);
    if i < |f.students| {
      HoleFound(f.students[i].slots);
    }
  }

  /** A successful call fills one hole of the student and appends to the roster; others change nothing. */
  lemma EnrollWrites(f: Files, sid: Id, cid: Id)
    requires RecordInv(f)
    ensures var ((g, code), i, j) := (Enroll(f, sid, cid), StudentAt(f.students, sid), CourseAt(f.courses, cid));
      && (code != Ok ==> g == f)
      && (code == Ok ==>
            && i < |f.students| && OtherStudentsKept(f, g, i) && OneSlot(f.students[i], g.students[i], "", cid)
            && j < |f.courses| && OtherCoursesKept(f, g, j)
            && CourseOk(g.courses[j]) && g.courses[j].id == cid && g.courses[j].seats == f.courses[j].seats
            && Roster(g.courses[j]) == Roster(f.courses[j]) + [sid])
  {
    var (g, code) := Enroll(f, sid, cid);
    if code == Ok {
      var i := StudentAt(f.students, sid);
      var k := IndexOf(f.students[i].slots, "");
      assert g.students[i].slots[k] == cid;
    }
  }

  /** t is s with the first slot that holds x now holding y. */
  ghost predicate OneSlot(s: Student, t: Student, x: Id, y: Id) {
    && t.id == s.id && t.active == s.active && |t.slots| == |s.slots|
    && exists k :: 0 <= k < |s.slots| && x !in s.slots[..k] && s.slots[k] == x && t.slots[k] == y
         && forall m :: 0 <= m < |s.slots| && m != k ==> t.slots[m] == s.slots[m]
  }

  /* ---------- unenroll_course ---------- */

  /** The second half alone: it answers by what the student's record lists. */
  lemma DropAnswers(f: Files, sid: Id, cid: Id)
    requires cid != ""
    ensures var (code, listed) := (DropFromStudent(f, sid, cid).1, StudentLists(f.students, sid, cid));
      && (code == NotFound <==> !Known(f.students, sid))
      && (code == Ok <==> listed)
      && (code == NotEnrolled <==> Known(f.students, sid) && !listed)
  {
    var i := StudentAt(f.students, sid);
    if StudentLists(f.students, sid, cid) {
      var k :| 0 <= k < |f.students[i].slots| && f.students[i].slots[k] == cid;
    }
  }

  /** The whole call answers by what the student's record listed before it. */
  lemma UnenrollAnswers(f: Files, sid: Id, cid: Id)
    requires RecordInv(f) && cid != ""
    ensures var (code, listed) := (Unenroll(f, sid, cid).1, StudentLists(f.students, sid, cid));
      && (code == NotFound <==> !Known(f.students, sid))
      && (code == Ok <==> listed)
      && (code == NotEnrolled <==> Known(f.students, sid) && !listed)
  {
    DropAnswers(DropFromCourse(f, sid, cid), sid, cid);
  }

  lemma DropFromCourseWrites(f: Files, sid: Id, cid: Id)
    requires RecordInv(f)
    ensures var (g, j) := (DropFromCourse(f, sid, cid), CourseAt(f.courses, cid));
      && g.students == f.students && OtherCoursesKept(f, g, j)
      && (j < |f.courses| ==> OffRoster(f.courses[j], g.courses[j], sid))
  {
    var j := CourseAt(f.courses, cid);
    if j < |f.courses| {
      UnlistRemovesOne(f.courses[j], sid);
    }
  }

  lemma DropFromStudentWrites(f: Files, sid: Id, cid: Id)
    ensures var ((g, code), i) := (DropFromStudent(f, sid, cid), StudentAt(f.students, sid));
      && g.courses == f.courses && OtherStudentsKept(f, g, i)
      && (code == Ok ==> i < |f.students| && OneSlot(f.students[i], g.students[i], cid, ""))
      && (code != Ok ==> g.students == f.students)
  {
    var (g, code) := DropFromStudent(f, sid, cid);
    if code == Ok {
      var i := StudentAt(f.students, sid);
      var k := IndexOf(f.students[i].slots, cid);
      assert g.students[i].slots[k] == "";
    }
  }

  /** It empties the slot of the course and takes the student off the roster, and writes nothing else. */
  lemma UnenrollWrites(f: Files, sid: Id, cid: Id)
    requires RecordInv(f)
    ensures var ((g, code), i, j) := (Unenroll(f, sid, cid), StudentAt(f.students, sid), CourseAt(f.courses, cid));
      && OtherStudentsKept(f, g, i) && OtherCoursesKept(f, g, j)
      && (code == Ok ==> i < |f.students| && OneSlot(f.students[i], g.students[i], cid, ""))
      && (code != Ok ==> g.students == f.students)
      && (j < |f.courses| ==> OffRoster(f.courses[j], g.courses[j], sid))
  {
    DropFromCourseWrites(f, sid, cid);
    DropFromStudentWrites(DropFromCourse(f, sid, cid), sid, cid);
  }

  /** d is c without the student, its other students in the same order. */
  ghost predicate OffRoster(c: Course, d: Course, sid: Id) {
    && CourseOk(c) && CourseOk(d) && d.id == c.id && d.seats == c.seats && sid !in Roster(d)
    && (sid !in Roster(c) ==> Roster(d) == Roster(c))
    && (sid in Roster(c) ==> exists k :: 0 <= k < c.count && Roster(c)[k] == sid
                               && Roster(d) == Roster(c)[..k] + Roster(c)[k + 1..])
  }

  /* ---------- remove_course ---------- */

  lemma {:induction false} WithoutOne(cs: seq<Course>, id: Id, j: nat)
    requires forall i, k :: 0 <= i < k < |cs| ==> cs[i].id != cs[k].id
    requires j < |cs| && cs[j].id == id
    ensures Without(cs, id) == cs[..j] + cs[j + 1..]
  {
    if j == 0 {
      WithoutNone(cs[1..], id);
    } else {
      WithoutOne(cs[1..], id, j - 1);
      assert cs[..j] + cs[j + 1..] == [cs[0]] + (cs[1..][..j - 1] + cs[1..][j..]);
    }
  }

  lemma {:induction false} WithoutNone(cs: seq<Course>, id: Id)
    requires forall k :: 0 <= k < |cs| ==> cs[k].id != id
    ensures Without(cs, id) == cs
  {
    if cs == [] {
    } else {
      WithoutNone(cs[1..], id);
    }
  }

  /**
   The answer says whether the course was offered. Its record is taken out and the others keep
   their order, and every slot that held it is empty; the slots are cleared even when it was not.
   */
  lemma RemoveWrites(f: Files, cid: Id)
    requires RecordInv(f)
    ensures var ((g, code), j) := (Remove(f, cid), CourseAt(f.courses, cid));
      && (code == Ok <==> Offered(f.courses, cid)) && (code == NotFound <==> !Offered(f.courses, cid))
      && g.courses == (if j < |f.courses| then f.courses[..j] + f.courses[j + 1..] else f.courses)
      && |g.students| == |f.students|
    ensures forall i :: 0 <= i < |f.students| ==> Cleared(f.students[i], Remove(f, cid).0.students[i], cid)
  {
    var j := CourseAt(f.courses, cid);
    if j < |f.courses| {
      WithoutOne(f.courses, cid, j);
    }
  }

  ghost predicate Cleared(s: Student, t: Student, cid: Id) {
    && t.id == s.id && t.active == s.active && |t.slots| == |s.slots|
    && forall k :: 0 <= k < |s.slots| ==> t.slots[k] == if s.slots[k] == cid then "" else s.slots[k]
  }

  /** The two calls above are the calls of the runs in FileStoreCalls. */
  lemma SameCalls(f: Files, sid: Id, cid: Id)
    requires RecordInv(f)
    ensures RunCall(f, CUnenroll(sid, cid)) == Unenroll(f, sid, cid).0
    ensures RunCall(f, CRemoveCourse(cid)) == Remove(f, cid).0
  {
    CallResult(f, CUnenroll(sid, cid));
    CallResult(f, CRemoveCourse(cid));
  }
}
