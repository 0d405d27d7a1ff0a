/**
 Whole calls on the two files. The same relation is stored twice, by student and by course; this
 module proves when the two agree, also when other calls run between the two halves of a call.
 */
module FileStoreCalls {
  import opened FileStore

  /** The student's record lists the course. The empty string marks a hole, never a course. */
  ghost predicate StudentLists(ss: seq<Student>, sid: Id, cid: Id) {
    var i := StudentAt(ss, sid);
    i < |ss| && cid != "" && cid in ss[i].slots
  }

  /** The course's record lists the student. */
  ghost predicate CourseLists(cs: seq<Course>, sid: Id, cid: Id) {
    var j := CourseAt(cs, cid);
    j < |cs| && CourseOk(cs[j]) && sid in Roster(cs[j])
  }

  predicate Offered(cs: seq<Course>, cid: Id) { CourseAt(cs, cid) < |cs| }

  ghost predicate Agree(f: Files) {
    forall s, c :: CourseLists(f.courses, s, c) <==> StudentLists(f.students, s, c)
  }

  /** What shrinking a course leaves: rosters are backed by students, and listed courses exist. */
  ghost predicate Backed(f: Files) {
    && (forall s, c :: CourseLists(f.courses, s, c) ==> StudentLists(f.students, s, c))
    && (forall s, c :: StudentLists(f.students, s, c) ==> Offered(f.courses, c))
  }

  datatype Call =
    | CAddStudent(id: Id)
    | CSetActive(id: Id, active: bool)
    | CAddCourse(id: Id, seats: int)
    | CUpdateCourse(id: Id, seats: int)
    | CRemoveCourse(id: Id)
    | CEnroll(sid: Id, cid: Id)
    | CUnenroll(sid: Id, cid: Id)

  predicate AdmissibleCall(call: Call) {
    (call.CAddCourse? || call.CUpdateCourse?) ==> 0 <= call.seats <= MAX_USERS
  }

  /** The critical sections of a call, run without another call in between. */
  function Sections(call: Call): seq<Section> {
    match call
    case CAddStudent(id) => [SAddStudent(id)]
    case CSetActive(id, b) => [SSetActive(id, b)]
    case CAddCourse(id, n) => [SAddCourse(id, n)]
    case CUpdateCourse(id, n) => [SUpdateCourse(id, n)]
    case CRemoveCourse(id) => [SRemoveRecord(id), SClearStudents(id)]
    case CEnroll(sid, cid) => [SEnroll(sid, cid)]
    case CUnenroll(sid, cid) => [SDropFromCourse(sid, cid), SDropFromStudent(sid, cid)]
  }

  ghost function RunCall(f: Files, call: Call): (g: Files)
    requires RecordInv(f) && AdmissibleCall(call)
    ensures RecordInv(g)
  {
    RunSections(f, Sections(call))
  }

  ghost predicate Shrinks(f: Files, call: Call)
    requires WellFormed(f)
  {
    call.CUpdateCourse? &&
    var j := CourseAt(f.courses, call.id);
    j < |f.courses| && call.seats < f.courses[j].count
  }

  /** Whether a pair is in the relation after a call, given whether it was before. */
  ghost predicate InAfter(f: Files, call: Call, s: Id, c: Id, before: bool)
    requires WellFormed(f)
  {
    match call
    case CEnroll(sid, cid) => before || (s == sid && c == cid && Enroll(f, sid, cid).1 == Ok)
    case CUnenroll(sid, cid) => before && !(s == sid && c == cid)
    case CRemoveCourse(id) => before && c != id
    case _ => before
  }

  /* ---------- What each critical section does to the two views ---------- */

  lemma UnfoldOne(f: Files, s: Section)
    requires RecordInv(f) && Admissible(s)
    ensures RunSections(f, [s]) == RunSection(f, s)
  {
    SectionKeepsRecords(f, s);
    assert [s][1..] == [];
  }

  lemma UnfoldTwo(f: Files, s: Section, t: Section)
    requires RecordInv(f) && Admissible(s) && Admissible(t)
    ensures RecordInv(RunSection(f, s)) && RunSections(f, [s, t]) == RunSection(RunSection(f, s), t)
  {
    SectionKeepsRecords(f, s);
    assert [s, t][1..] == [t];
    UnfoldOne(RunSection(f, s), t);
  }

  lemma SameIdsSameLookup(ss: seq<Student>, ts: seq<Student>, x: Id)
    requires |ss| == |ts| && forall i :: 0 <= i < |ss| ==> ts[i].id == ss[i].id
    ensures StudentAt(ss, x) == StudentAt(ts, x)
  {
    var r, t := StudentAt(ss, x), StudentAt(ts, x);
    assert r < |ss| ==> ts[r].id == x;
    assert t < |ts| ==> ss[t].id == x;
  }

  lemma SameIdsSameCourse(cs: seq<Course>, ds: seq<Course>, x: Id)
    requires |cs| == |ds| && forall i :: 0 <= i < |cs| ==> ds[i].id == cs[i].id
    ensures CourseAt(cs, x) == CourseAt(ds, x)
  {
    var r, t := CourseAt(cs, x), CourseAt(ds, x);
    assert r < |cs| ==> ds[r].id == x;
    assert t < |ds| ==> cs[t].id == x;
  }

  /** Writing one record back changes what that record lists and nothing else. */
  lemma StudentWriteViews(ss: seq<Student>, i: nat, st: Student, s: Id, c: Id)
    requires i == StudentAt(ss, st.id) < |ss|
    ensures StudentLists(ss[i := st], s, c) <==> if s == st.id then c != "" && c in st.slots else StudentLists(ss, s, c)
  {
    SameIdsSameLookup(ss, ss[i := st], s);
  }

  lemma CourseWriteViews(cs: seq<Course>, j: nat, co: Course, s: Id, c: Id)
    requires j == CourseAt(cs, co.id) < |cs| && CourseOk(co)
    ensures CourseLists(cs[j := co], s, c) <==> if c == co.id then s in Roster(co) else CourseLists(cs, s, c)
    ensures Offered(cs[j := co], c) <==> Offered(cs, c)
  {
    SameIdsSameCourse(cs, cs[j := co], c);
  }

  lemma EnrollViews(f: Files, sid: Id, cid: Id, s: Id, c: Id)
    requires RecordInv(f)
    ensures var (g, code) := Enroll(f, sid, cid);
      && (StudentLists(g.students, s, c) <==> StudentLists(f.students, s, c) || (s == sid && c == cid && code == Ok))
      && (CourseLists(g.courses, s, c) <==> CourseLists(f.courses, s, c) || (s == sid && c == cid && code == Ok))
      && (Offered(g.courses, c) <==> Offered(f.courses, c))
  {
    var (g, code) := Enroll(f, sid, cid);
    if code == Ok {
      var i, j := StudentAt(f.students, sid), CourseAt(f.courses, cid);
      var st, co := g.students[i], g.courses[j];
      StudentWriteViews(f.students, i, st, s, c);
      CourseWriteViews(f.courses, j, co, s, c);
      assert Roster(co) == Roster(f.courses[j]) + [sid];
      if c != "" { SlotFilled(f.students[i].slots, cid, c); }
    }
  }

  lemma SlotFilled(slots: seq<Id>, cid: Id, c: Id)
    requires "" in slots && c != ""
    ensures c in slots[IndexOf(slots, "") := cid] <==> c in slots || c == cid
  {
    var k := IndexOf(slots, "");
    var filled := slots[k := cid];
    assert filled[k] == cid;
    assert forall m :: 0 <= m < |slots| && m != k ==> filled[m] == slots[m];
  }

  lemma SlotCleared(slots: seq<Id>, cid: Id, c: Id)
    requires DistinctUnlessEmpty(slots) && cid in slots && c != ""
    ensures c in slots[IndexOf(slots, cid) := ""] <==> c in slots && c != cid
  {
    var k := IndexOf(slots, cid);
    var cleared := slots[k := ""];
    assert cleared[k] == "";
    assert forall m :: 0 <= m < |slots| && m != k ==> cleared[m] == slots[m];
  }

  lemma DropFromCourseViews(f: Files, sid: Id, cid: Id, s: Id, c: Id)
    requires RecordInv(f)
    ensures var g := DropFromCourse(f, sid, cid);
      && g.students == f.students
      && (CourseLists(g.courses, s, c) <==> CourseLists(f.courses, s, c) && !(s == sid && c == cid))
      && (Offered(g.courses, c) <==> Offered(f.courses, c))
  {
    var j := CourseAt(f.courses, cid);
    if j < |f.courses| {
      UnlistRemovesOne(f.courses[j], sid);
      CourseWriteViews(f.courses, j, Unlist(f.courses[j], sid), s, c);
    }
  }

  lemma DropFromStudentViews(f: Files, sid: Id, cid: Id, s: Id, c: Id)
    requires RecordInv(f)
    ensures var g := DropFromStudent(f, sid, cid).0;
      && g.courses == f.courses
      && (StudentLists(g.students, s, c) <==> StudentLists(f.students, s, c) && !(s == sid && c == cid))
  {
    var g := DropFromStudent(f, sid, cid).0;
    var i := StudentAt(f.students, sid);
    if i < |f.students| && cid in f.students[i].slots {
      StudentWriteViews(f.students, i, g.students[i], s, c);
      if c != "" { SlotCleared(f.students[i].slots, cid, c); }
    }
  }

  lemma LookupAfterFirst(cs: seq<Course>, c: Course, x: Id)
    ensures Offered([c] + cs, x) <==> c.id == x || Offered(cs, x)
    ensures Offered([c] + cs, x) ==>
      ([c] + cs)[CourseAt([c] + cs, x)] == if c.id == x then c else cs[CourseAt(cs, x)]
  {
    assert ([c] + cs)[1..] == cs;
  }

  /** v answers lookups of x as cs does, except that id is gone. */
  ghost predicate LooksLikeWithout(v: seq<Course>, cs: seq<Course>, id: Id, x: Id) {
    && (Offered(v, x) <==> Offered(cs, x) && x != id)
    && (Offered(v, x) ==> v[CourseAt(v, x)] == cs[CourseAt(cs, x)])
  }

  lemma FirstThenLookup(v: seq<Course>, cs: seq<Course>, c: Course, id: Id, x: Id)
    requires LooksLikeWithout(v, cs, id, x)
    ensures LooksLikeWithout(if c.id == id then v else [c] + v, [c] + cs, id, x)
  {
    LookupAfterFirst(cs, c, x);
    LookupAfterFirst(v, c, x);
  }

  lemma {:induction false} WithoutLookup(cs: seq<Course>, id: Id, x: Id)
    ensures LooksLikeWithout(Without(cs, id), cs, id, x)
  {
    if cs == [] {
    } else {
      var v, w := Without(cs[1..], id), Without(cs, id);
      WithoutLookup(cs[1..], id, x);
      FirstThenLookup(v, cs[1..], cs[0], id, x);
      assert cs == [cs[0]] + cs[1..];
      assert w == if cs[0].id == id then v else [cs[0]] + v;
    }
  }

  lemma ClearStudentsViews(f: Files, id: Id, s: Id, c: Id)
    ensures var g := ClearStudents(f, id);
      && g.courses == f.courses
      && (StudentLists(g.students, s, c) <==> StudentLists(f.students, s, c) && c != id)
  {
    var g := ClearStudents(f, id);
    SameIdsSameLookup(f.students, g.students, s);
    var i := StudentAt(f.students, s);
    if i < |f.students| {
      var a, b := f.students[i].slots, g.students[i].slots;
      if c in a && c != id && c != "" {
        var k :| 0 <= k < |a| && a[k] == c;
        assert b[k] == c;
      }
    }
  }

  lemma RemoveViews(f: Files, id: Id, s: Id, c: Id)
    ensures var g := ClearStudents(RemoveRecord(f, id).0, id);
      && (StudentLists(g.students, s, c) <==> StudentLists(f.students, s, c) && c != id)
      && (CourseLists(g.courses, s, c) <==> CourseLists(f.courses, s, c) && c != id)
      && (Offered(g.courses, c) <==> Offered(f.courses, c) && c != id)
  {
    WithoutLookup(f.courses, id, c);
    ClearStudentsViews(RemoveRecord(f, id).0, id, s, c);
  }

  lemma UpdateViews(f: Files, id: Id, n: int, s: Id, c: Id)
    requires RecordInv(f) && 0 <= n <= MAX_USERS
    ensures var g := UpdateCourse(f, id, n).0;
      && g.students == f.students
      && (CourseLists(g.courses, s, c) ==> CourseLists(f.courses, s, c))
      && (!Shrinks(f, CUpdateCourse(id, n)) ==> (CourseLists(g.courses, s, c) <==> CourseLists(f.courses, s, c)))
      && (Offered(g.courses, c) <==> Offered(f.courses, c))
  {
    var j := CourseAt(f.courses, id);
    if j < |f.courses| {
      ResizeKeepsRoster(f.courses[j], n);
      CourseWriteViews(f.courses, j, Resize(f.courses[j], n), s, c);
    }
  }

  lemma AddStudentViews(ss: seq<Student>, id: Id, s: Id, c: Id)
    ensures StudentLists(ss + [Student(id, true, EmptyRow(MAX_COURSES))], s, c) <==> StudentLists(ss, s, c)
  {
    var ts := ss + [Student(id, true, EmptyRow(MAX_COURSES))];
    var i := StudentAt(ss, s);
    assert i < |ss| ==> ts[i] == ss[i];
    assert forall k :: 0 <= k < |ss| ==> ts[k] == ss[k];
  }

  lemma AddCourseViews(f: Files, id: Id, n: int, s: Id, c: Id)
    ensures var g := AddCourse(f, id, n).0;
      && g.students == f.students
      && (CourseLists(g.courses, s, c) <==> CourseLists(f.courses, s, c))
      && (Offered(g.courses, c) <==> Offered(f.courses, c) || c == id)
  {
    var cs, ds := f.courses, AddCourse(f, id, n).0.courses;
    if ds != cs {
      var j := CourseAt(cs, c);
      assert forall k :: 0 <= k < |cs| ==> ds[k] == cs[k];
      assert ds[|cs|].id == id;
      assert j < |cs| ==> ds[j] == cs[j];
    }
  }

  lemma SetActiveViews(f: Files, id: Id, b: bool, s: Id, c: Id)
    ensures var g := SetActive(f, id, b).0;
      g.courses == f.courses && (StudentLists(g.students, s, c) <==> StudentLists(f.students, s, c))
  {
    var i := StudentAt(f.students, id);
    if i < |f.students| {
      StudentWriteViews(f.students, i, f.students[i].(active := b), s, c);
    }
  }

  /* ---------- Whole calls ---------- */

  /** What a call leaves, without the invariant that RunCall carries. */
  lemma CallResult(f: Files, call: Call)
    requires RecordInv(f) && AdmissibleCall(call)
    ensures call.CRemoveCourse? ==> RunCall(f, call) == ClearStudents(RemoveRecord(f, call.id).0, call.id)
    ensures call.CUnenroll? ==>
      RunCall(f, call) == DropFromStudent(DropFromCourse(f, call.sid, call.cid), call.sid, call.cid).0
    ensures call.CUnenroll? ==> RecordInv(DropFromCourse(f, call.sid, call.cid))
    ensures !call.CRemoveCourse? && !call.CUnenroll? ==> RunCall(f, call) == RunSection(f, Sections(call)[0])
  {
    var ss := Sections(call);
    if |ss| == 1 {
      UnfoldOne(f, ss[0]);
    } else {
      UnfoldTwo(f, ss[0], ss[1]);
    }
  }

  /** How both views of a pair move from f to g by a call; only shrinking moves them differently. */
  ghost predicate ViewsMove(f: Files, call: Call, g: Files, s: Id, c: Id)
    requires WellFormed(f)
  {
    && (StudentLists(g.students, s, c) <==> InAfter(f, call, s, c, StudentLists(f.students, s, c)))
    && (CourseLists(g.courses, s, c) ==> InAfter(f, call, s, c, CourseLists(f.courses, s, c)))
    && (!Shrinks(f, call) ==>
          (CourseLists(g.courses, s, c) <==> InAfter(f, call, s, c, CourseLists(f.courses, s, c))))
    && (Offered(f.courses, c) && call != CRemoveCourse(c) ==> Offered(g.courses, c))
  }

  lemma EnrollMoves(f: Files, sid: Id, cid: Id, s: Id, c: Id)
    requires RecordInv(f)
    ensures ViewsMove(f, CEnroll(sid, cid), Enroll(f, sid, cid).0, s, c)
  {
    EnrollViews(f, sid, cid, s, c);
  }

  lemma AddStudentMoves(f: Files, id: Id, s: Id, c: Id)
    requires RecordInv(f)
    ensures ViewsMove(f, CAddStudent(id), AddStudent(f, id), s, c)
  {
    AddStudentViews(f.students, id, s, c);
  }

  lemma SetActiveMoves(f: Files, id: Id, b: bool, s: Id, c: Id)
    requires RecordInv(f)
    ensures ViewsMove(f, CSetActive(id, b), SetActive(f, id, b).0, s, c)
  {
    SetActiveViews(f, id, b, s, c);
  }

  lemma AddCourseMoves(f: Files, id: Id, n: int, s: Id, c: Id)
    requires RecordInv(f)
    ensures ViewsMove(f, CAddCourse(id, n), AddCourse(f, id, n).0, s, c)
  {
    AddCourseViews(f, id, n, s, c);
  }

  lemma UpdateMoves(f: Files, id: Id, n: int, s: Id, c: Id)
    requires RecordInv(f) && 0 <= n <= MAX_USERS
    ensures ViewsMove(f, CUpdateCourse(id, n), UpdateCourse(f, id, n).0, s, c)
  {
    UpdateViews(f, id, n, s, c);
  }

  lemma HalvedCallMoves(f: Files, call: Call, s: Id, c: Id)
    requires RecordInv(f) && AdmissibleCall(call) && (call.CRemoveCourse? || call.CUnenroll?)
    ensures ViewsMove(f, call, RunCall(f, call), s, c)
  {
    CallResult(f, call);
    match call
    case CRemoveCourse(id) => RemoveViews(f, id, s, c);
    case CUnenroll(sid, cid) =>
      DropFromCourseViews(f, sid, cid, s, c);
      DropFromStudentViews(DropFromCourse(f, sid, cid), sid, cid, s, c);
  }

  lemma AddingCallMoves(f: Files, call: Call, s: Id, c: Id)
    requires RecordInv(f) && AdmissibleCall(call) && (call.CAddStudent? || call.CAddCourse?)
    ensures ViewsMove(f, call, RunCall(f, call), s, c)
  {
    CallResult(f, call);
    match call
    case CAddStudent(id) => AddStudentMoves(f, id, s, c);
    case CAddCourse(id, n) => AddCourseMoves(f, id, n, s, c);
  }

  lemma ChangingCallMoves(f: Files, call: Call, s: Id, c: Id)
    requires RecordInv(f) && AdmissibleCall(call) && (call.CSetActive? || call.CUpdateCourse? || call.CEnroll?)
    ensures ViewsMove(f, call, RunCall(f, call), s, c)
  {
    CallResult(f, call);
    match call
    case CSetActive(id, b) => SetActiveMoves(f, id, b, s, c);
    case CUpdateCourse(id, n) => UpdateMoves(f, id, n, s, c);
    case CEnroll(sid, cid) => EnrollMoves(f, sid, cid, s, c);
  }

  lemma CallViews(f: Files, call: Call, s: Id, c: Id)
    requires RecordInv(f) && AdmissibleCall(call)
    ensures ViewsMove(f, call, RunCall(f, call), s, c)
  {
    if call.CRemoveCourse? || call.CUnenroll? {
      HalvedCallMoves(f, call, s, c);
    } else if call.CAddStudent? || call.CAddCourse? {
      AddingCallMoves(f, call, s, c);
    } else {
      ChangingCallMoves(f, call, s, c);
    }
  }

  /** Without shrinking, a call keeps the two files in agreement on the updated relation. */
  lemma CallKeepsAgreement(f: Files, call: Call)
    requires RecordInv(f) && AdmissibleCall(call) && Agree(f) && !Shrinks(f, call)
    ensures Agree(RunCall(f, call))
    ensures forall s, c ::
      StudentLists(RunCall(f, call).students, s, c) <==> InAfter(f, call, s, c, StudentLists(f.students, s, c))
  {
    forall s, c
      ensures CourseLists(RunCall(f, call).courses, s, c) <==> StudentLists(RunCall(f, call).students, s, c)
      ensures StudentLists(RunCall(f, call).students, s, c) <==> InAfter(f, call, s, c, StudentLists(f.students, s, c))
    {
      CallViews(f, call, s, c);
    }
  }

  /** With shrinking allowed, rosters stay backed and no student lists a course that is gone. */
  lemma CallKeepsBacking(f: Files, call: Call)
    requires RecordInv(f) && AdmissibleCall(call) && Backed(f)
    ensures Backed(RunCall(f, call))
  {
    var g := RunCall(f, call);
    forall s, c
      ensures CourseLists(g.courses, s, c) ==> StudentLists(g.students, s, c)
      ensures StudentLists(g.students, s, c) ==> Offered(g.courses, c)
    {
      CallViews(f, call, s, c);
    }
  }

  /**
   Changing the seats of a course keeps the files in agreement exactly when the course is
   unknown or its students still fit: the students cut from the roster keep listing the course.
   */
  lemma UpdateAgreesIffStudentsFit(f: Files, id: Id, n: int)
    requires RecordInv(f) && Agree(f) && 0 <= n <= MAX_USERS
    ensures var j := CourseAt(f.courses, id);
      Agree(RunCall(f, CUpdateCourse(id, n))) <==> j == |f.courses| || f.courses[j].count <= n
  {
    var call := CUpdateCourse(id, n);
    var g := RunCall(f, call);
    if Shrinks(f, call) {
      var j := CourseAt(f.courses, id);
      var x := Roster(f.courses[j])[n];
      CallResult(f, call);
      ResizeKeepsRoster(f.courses[j], n);
      CourseWriteViews(f.courses, j, Resize(f.courses[j], n), x, id);
      assert CourseLists(f.courses, x, id) && !CourseLists(g.courses, x, id);
    } else {
      CallKeepsAgreement(f, call);
    }
  }

  /** When enroll_course succeeds: its answer in terms of the relation, the slots and the seats. */
  lemma EnrollSucceedsExactly(f: Files, sid: Id, cid: Id)
    requires RecordInv(f) && Agree(f)
    ensures var i, j := StudentAt(f.students, sid), CourseAt(f.courses, cid);
      Enroll(f, sid, cid).1 == Ok <==>
        && i < |f.students| && f.students[i].active && "" in f.students[i].slots
        && j < |f.courses| && |Roster(f.courses[j])| < f.courses[j].seats
        && cid != "" && !StudentLists(f.students, sid, cid)
    ensures var i := StudentAt(f.students, sid);
      cid != "" ==> (Enroll(f, sid, cid).1 == AlreadyEnrolled <==>
        i < |f.students| && f.students[i].active && StudentLists(f.students, sid, cid))
    ensures Enroll(f, sid, cid).1 != Ok ==> Enroll(f, sid, cid).0 == f
  {
    assert CourseLists(f.courses, sid, cid) <==> StudentLists(f.students, sid, cid);
  }

  ghost predicate NeverShrinks(f: Files, calls: seq<Call>)
    requires RecordInv(f) && forall i :: 0 <= i < |calls| ==> AdmissibleCall(calls[i])
    decreases |calls|
  {
    calls == [] || (!Shrinks(f, calls[0]) && NeverShrinks(RunCall(f, calls[0]), calls[1..]))
  }

  ghost function RunCalls(f: Files, calls: seq<Call>): (g: Files)
    requires RecordInv(f) && forall i :: 0 <= i < |calls| ==> AdmissibleCall(calls[i])
    ensures RecordInv(g)
    decreases |calls|
  {
    if calls == [] then f else RunCalls(RunCall(f, calls[0]), calls[1..])
  }

  lemma {:induction false} RunsAgree(f: Files, calls: seq<Call>)
    requires RecordInv(f) && forall i :: 0 <= i < |calls| ==> AdmissibleCall(calls[i])
    ensures Backed(f) ==> Backed(RunCalls(f, calls))
    ensures Agree(f) && NeverShrinks(f, calls) ==> Agree(RunCalls(f, calls))
    decreases |calls|
  {
    if calls == [] {
    } else {
      if Backed(f) { CallKeepsBacking(f, calls[0]); }
      if Agree(f) && !Shrinks(f, calls[0]) { CallKeepsAgreement(f, calls[0]); }
      RunsAgree(RunCall(f, calls[0]), calls[1..]);
    }
  }

  /** The files a fresh installation starts from. */
  lemma EveryRunAgrees(calls: seq<Call>)
    requires forall i :: 0 <= i < |calls| ==> AdmissibleCall(calls[i])
    ensures RecordInv(Files([], []))
    ensures Backed(RunCalls(Files([], []), calls))
    ensures NeverShrinks(Files([], []), calls) ==> Agree(RunCalls(Files([], []), calls))
  {
    RunsAgree(Files([], []), calls);
  }

  /* ---------- Other calls between the two halves ---------- */

  ghost predicate AgreeAt(f: Files, s: Id, c: Id) {
    CourseLists(f.courses, s, c) <==> StudentLists(f.students, s, c)
  }

  /** Calls that do not shrink move both views of a pair alike, whether or not others agree. */
  lemma {:induction false} RunKeepsPair(f: Files, calls: seq<Call>, s: Id, c: Id)
    requires RecordInv(f) && forall i :: 0 <= i < |calls| ==> AdmissibleCall(calls[i])
    requires NeverShrinks(f, calls) && AgreeAt(f, s, c)
    ensures AgreeAt(RunCalls(f, calls), s, c)
    decreases |calls|
  {
    if calls == [] {
    } else {
      CallViews(f, calls[0], s, c);
      RunKeepsPair(RunCall(f, calls[0]), calls[1..], s, c);
    }
  }

  ghost predicate AgreeButFor(f: Files, sid: Id, cid: Id) {
    forall s, c :: (s == sid && c == cid) || AgreeAt(f, s, c)
  }

  ghost predicate AgreeButOn(f: Files, cid: Id) {
    forall s, c :: c == cid || AgreeAt(f, s, c)
  }

  lemma FirstHalfOfRemoval(f: Files, cid: Id)
    requires RecordInv(f) && Agree(f)
    ensures AgreeButOn(RunSections(f, [SRemoveRecord(cid)]), cid)
  {
    var g := RunSections(f, [SRemoveRecord(cid)]);
    UnfoldOne(f, SRemoveRecord(cid));
    forall s, c ensures c == cid || AgreeAt(g, s, c) {
      WithoutLookup(f.courses, cid, c);
    }
  }

  lemma SecondHalfOfRemoval(h: Files, cid: Id)
    requires RecordInv(h) && AgreeButOn(h, cid)
    ensures Agree(RunSections(h, [SClearStudents(cid)])) <==> forall s :: !CourseLists(h.courses, s, cid)
  {
    var g := RunSections(h, [SClearStudents(cid)]);
    UnfoldOne(h, SClearStudents(cid));
    forall s, c ensures StudentLists(g.students, s, c) <==> c != cid && CourseLists(h.courses, s, c) {
      ClearStudentsViews(h, cid, s, c);
      assert c == cid || AgreeAt(h, s, c);
    }
  }

  /**
   Whatever whole calls run between the two halves of a removal, the files agree after the second
   half exactly when the course, if it is offered again by then, has an empty roster.
   */
  lemma SplitRemovalAgreesExactly(f: Files, cid: Id, calls: seq<Call>)
    requires RecordInv(f) && Agree(f) && forall i :: 0 <= i < |calls| ==> AdmissibleCall(calls[i])
    requires NeverShrinks(RunSections(f, [SRemoveRecord(cid)]), calls)
    ensures var h := RunCalls(RunSections(f, [SRemoveRecord(cid)]), calls);
      Agree(RunSections(h, [SClearStudents(cid)])) <==> forall s :: !CourseLists(h.courses, s, cid)
  {
    var g := RunSections(f, [SRemoveRecord(cid)]);
    FirstHalfOfRemoval(f, cid);
    forall s, c ensures c == cid || AgreeAt(RunCalls(g, calls), s, c) {
      if c != cid { RunKeepsPair(g, calls, s, c); }
    }
    SecondHalfOfRemoval(RunCalls(g, calls), cid);
  }

  lemma FirstHalfOfUnenroll(f: Files, sid: Id, cid: Id)
    requires RecordInv(f) && Agree(f)
    ensures AgreeButFor(RunSections(f, [SDropFromCourse(sid, cid)]), sid, cid)
  {
    var g := RunSections(f, [SDropFromCourse(sid, cid)]);
    UnfoldOne(f, SDropFromCourse(sid, cid));
    forall s, c ensures (s == sid && c == cid) || AgreeAt(g, s, c) {
      DropFromCourseViews(f, sid, cid, s, c);
    }
  }

  lemma SecondHalfOfUnenroll(h: Files, sid: Id, cid: Id)
    requires RecordInv(h) && AgreeButFor(h, sid, cid)
    ensures Agree(RunSections(h, [SDropFromStudent(sid, cid)])) <==> !CourseLists(h.courses, sid, cid)
  {
    var g := RunSections(h, [SDropFromStudent(sid, cid)]);
    UnfoldOne(h, SDropFromStudent(sid, cid));
    forall s, c
      ensures StudentLists(g.students, s, c) <==> !(s == sid && c == cid) && CourseLists(h.courses, s, c)
    {
      DropFromStudentViews(h, sid, cid, s, c);
      assert (s == sid && c == cid) || AgreeAt(h, s, c);
    }
  }

  /**
   The same for the halves of unenroll_course: the files agree after the second half exactly when
   the course does not list the student, who may have unenrolled and enrolled again in between.
   */
  lemma SplitUnenrollAgreesExactly(f: Files, sid: Id, cid: Id, calls: seq<Call>)
    requires RecordInv(f) && Agree(f) && forall i :: 0 <= i < |calls| ==> AdmissibleCall(calls[i])
    requires NeverShrinks(RunSections(f, [SDropFromCourse(sid, cid)]), calls)
    ensures var h := RunCalls(RunSections(f, [SDropFromCourse(sid, cid)]), calls);
      Agree(RunSections(h, [SDropFromStudent(sid, cid)])) <==> !CourseLists(h.courses, sid, cid)
  {
    var g := RunSections(f, [SDropFromCourse(sid, cid)]);
    FirstHalfOfUnenroll(f, sid, cid);
    forall s, c ensures (s == sid && c == cid) || AgreeAt(RunCalls(g, calls), s, c) {
      if !(s == sid && c == cid) { RunKeepsPair(g, calls, s, c); }
    }
    SecondHalfOfUnenroll(RunCalls(g, calls), sid, cid);
  }

  lemma FreshCourse(f: Files, cid: Id, seats: int)
    requires !Offered(f.courses, cid) && 1 <= seats <= MAX_USERS
    ensures var cs := AddCourse(f, cid, seats).0.courses;
      Offered(cs, cid) && cs[CourseAt(cs, cid)] == Course(cid, seats, 0, EmptyRow(MAX_USERS))
  {
    var cs := AddCourse(f, cid, seats).0.courses;
    assert forall k :: 0 <= k < |f.courses| ==> cs[k] == f.courses[k];
    assert cs[|f.courses|].id == cid;
  }

  /**
   An input that fails the condition: the course is offered again and joined between the halves of
   its removal, and the second half strikes the course from a student it lists.
   */
  lemma SplitRemovalBreaksAgreement(f: Files, sid: Id, cid: Id, seats: int)
    requires RecordInv(f) && Agree(f) && 1 <= seats <= MAX_USERS && cid != "" && !StudentLists(f.students, sid, cid)
    requires var i := StudentAt(f.students, sid);
             i < |f.students| && f.students[i].active && "" in f.students[i].slots
    requires CourseAt(f.courses, cid) < |f.courses|
    ensures var h := RunCalls(RunSections(f, [SRemoveRecord(cid)]), [CAddCourse(cid, seats), CEnroll(sid, cid)]);
      && var g := RunSections(h, [SClearStudents(cid)]);
         !Agree(g) && CourseLists(g.courses, sid, cid) && !StudentLists(g.students, sid, cid)
  {
    var f' := RunSections(f, [SRemoveRecord(cid)]);
    UnfoldTwoCalls(f', CAddCourse(cid, seats), CEnroll(sid, cid));
    JoinsFreshCourse(f, sid, cid, seats);
    SecondHalfStrikes(RunCalls(f', [CAddCourse(cid, seats), CEnroll(sid, cid)]), sid, cid);
  }

  lemma SecondHalfStrikes(h: Files, sid: Id, cid: Id)
    requires RecordInv(h) && CourseLists(h.courses, sid, cid)
    ensures var g := RunSections(h, [SClearStudents(cid)]);
      !Agree(g) && CourseLists(g.courses, sid, cid) && !StudentLists(g.students, sid, cid)
  {
    UnfoldOne(h, SClearStudents(cid));
    ClearStudentsViews(h, cid, sid, cid);
  }

  lemma EnrollInFreshCourse(f: Files, sid: Id, cid: Id)
    requires RecordInv(f) && cid != "" && !StudentLists(f.students, sid, cid)
    requires var i := StudentAt(f.students, sid);
             i < |f.students| && f.students[i].active && "" in f.students[i].slots
    requires Offered(f.courses, cid)
    requires var c := f.courses[CourseAt(f.courses, cid)]; c.count == 0 && c.seats >= 1
    ensures CourseLists(RunCall(f, CEnroll(sid, cid)).courses, sid, cid)
  {
    assert Enroll(f, sid, cid).1 == Ok;
    CallViews(f, CEnroll(sid, cid), sid, cid);
  }

  lemma JoinsFreshCourse(f: Files, sid: Id, cid: Id, seats: int)
    requires RecordInv(f) && 1 <= seats <= MAX_USERS && cid != "" && !StudentLists(f.students, sid, cid)
    requires var i := StudentAt(f.students, sid);
             i < |f.students| && f.students[i].active && "" in f.students[i].slots
    ensures var h := RunCall(RunCall(RunSections(f, [SRemoveRecord(cid)]), CAddCourse(cid, seats)), CEnroll(sid, cid));
      CourseLists(h.courses, sid, cid)
  {
    var f' := RunSections(f, [SRemoveRecord(cid)]);
    UnfoldOne(f, SRemoveRecord(cid));
    WithoutLookup(f.courses, cid, cid);
    CallResult(f', CAddCourse(cid, seats));
    FreshCourse(f', cid, seats);
    EnrollInFreshCourse(RunCall(f', CAddCourse(cid, seats)), sid, cid);
  }

  lemma NothingToUnlist(g: Files, sid: Id, cid: Id)
    requires RecordInv(g) && !CourseLists(g.courses, sid, cid)
    ensures DropFromCourse(g, sid, cid) == g
  {
    var j := CourseAt(g.courses, cid);
    if j < |g.courses| {
      assert g.courses[j := Unlist(g.courses[j], sid)] == g.courses;
    }
  }

  /** A whole unenrolment after a first half finishes it. */
  lemma UnenrollAfterFirstHalf(f: Files, sid: Id, cid: Id)
    requires RecordInv(f)
    ensures RunCall(RunSections(f, [SDropFromCourse(sid, cid)]), CUnenroll(sid, cid)) == RunCall(f, CUnenroll(sid, cid))
  {
    var g := RunSections(f, [SDropFromCourse(sid, cid)]);
    UnfoldOne(f, SDropFromCourse(sid, cid));
    CallResult(f, CUnenroll(sid, cid));
    CallResult(g, CUnenroll(sid, cid));
    DropFromCourseViews(f, sid, cid, sid, cid);
    NothingToUnlist(g, sid, cid);
  }

  /** Unenrolling leaves the student a hole and the course a free seat. */
  lemma UnenrollMakesRoom(f: Files, sid: Id, cid: Id)
    requires RecordInv(f) && CourseLists(f.courses, sid, cid) && StudentLists(f.students, sid, cid)
    ensures var h, i, j := DropFromStudent(DropFromCourse(f, sid, cid), sid, cid).0,
                           StudentAt(f.students, sid), CourseAt(f.courses, cid);
      && StudentAt(h.students, sid) == i && h.students[i].active == f.students[i].active && "" in h.students[i].slots
      && CourseAt(h.courses, cid) == j && CourseOk(h.courses[j]) && h.courses[j].count < h.courses[j].seats
  {
    var h, i, j := DropFromStudent(DropFromCourse(f, sid, cid), sid, cid).0,
                   StudentAt(f.students, sid), CourseAt(f.courses, cid);
    UnlistRoster(f.courses[j], sid);
    SameIdsSameLookup(f.students, h.students, sid);
    SameIdsSameCourse(f.courses, h.courses, cid);
    assert h.students[i].slots[IndexOf(f.students[i].slots, cid)] == "";
  }

  lemma CanEnrollAgain(f: Files, sid: Id, cid: Id)
    requires RecordInv(f) && Agree(f) && StudentLists(f.students, sid, cid)
    requires f.students[StudentAt(f.students, sid)].active
    ensures Enroll(RunCall(f, CUnenroll(sid, cid)), sid, cid).1 == Ok
  {
    assert CourseLists(f.courses, sid, cid);
    CallResult(f, CUnenroll(sid, cid));
    CallKeepsAgreement(f, CUnenroll(sid, cid));
    UnenrollMakesRoom(f, sid, cid);
    CallViews(f, CUnenroll(sid, cid), sid, cid);
    EnrollSucceedsExactly(RunCall(f, CUnenroll(sid, cid)), sid, cid);
  }

  lemma UnfoldOneCall(f: Files, a: Call)
    requires RecordInv(f) && AdmissibleCall(a)
    ensures RunCalls(f, [a]) == RunCall(f, a) && (NeverShrinks(f, [a]) <==> !Shrinks(f, a))
  {
    assert [a][1..] == [];
  }

  lemma UnfoldTwoCalls(f: Files, a: Call, b: Call)
    requires RecordInv(f) && AdmissibleCall(a) && AdmissibleCall(b)
    ensures RunCalls(f, [a, b]) == RunCall(RunCall(f, a), b)
    ensures NeverShrinks(f, [a, b]) <==> !Shrinks(f, a) && !Shrinks(RunCall(f, a), b)
  {
    var calls := [a, b];
    assert calls[1..] == [b];
    UnfoldOneCall(RunCall(f, a), b);
  }

  /** An input that fails that condition: the student unenrolls and enrolls again between the halves. */
  lemma SplitUnenrollBreaksAgreement(f: Files, sid: Id, cid: Id)
    requires RecordInv(f) && Agree(f) && StudentLists(f.students, sid, cid)
    requires f.students[StudentAt(f.students, sid)].active
    ensures var h := RunCalls(RunSections(f, [SDropFromCourse(sid, cid)]), [CUnenroll(sid, cid), CEnroll(sid, cid)]);
      !Agree(RunSections(h, [SDropFromStudent(sid, cid)]))
  {
    var g := RunSections(f, [SDropFromCourse(sid, cid)]);
    UnenrollAfterFirstHalf(f, sid, cid);
    CanEnrollAgain(f, sid, cid);
    UnfoldTwoCalls(g, CUnenroll(sid, cid), CEnroll(sid, cid));
    CallViews(RunCall(f, CUnenroll(sid, cid)), CEnroll(sid, cid), sid, cid);
    SplitUnenrollAgreesExactly(f, sid, cid, [CUnenroll(sid, cid), CEnroll(sid, cid)]);
  }
}
