/**
 The record files of the first server: students.dat, where each student has a hole-filled array
 of course ids, and courses.dat, where each course has a compacted prefix of student ids. This
 module says what each critical section does to the two files.
 */
module FileStore {

  type Id = string

  const MAX_COURSES: nat := 100
  const MAX_USERS: nat := 100

  datatype Code = Ok | NotFound | Full | AlreadyEnrolled | NotEnrolled | Blocked | CourseNotFound

  /** An empty slot holds the empty string, as memset leaves it. */
  datatype Student = Student(id: Id, active: bool, slots: seq<Id>)

  datatype Course = Course(id: Id, seats: int, count: int, enrolled: seq<Id>)

  datatype Files = Files(students: seq<Student>, courses: seq<Course>)

  predicate StudentOk(s: Student) { |s.slots| == MAX_COURSES }

  predicate CourseOk(c: Course) { |c.enrolled| == MAX_USERS && 0 <= c.count <= c.seats <= MAX_USERS }

  function Roster(c: Course): seq<Id>
    requires CourseOk(c)
  {
    c.enrolled[..c.count]
  }

  /** The position of the first x in xs, or |xs|. */
  function IndexOf(xs: seq<Id>, x: Id): (r: nat)
    ensures r <= |xs|
    ensures r < |xs| ==> xs[r] == x
    ensures forall k :: 0 <= k < r ==> xs[k] != x
  {
    if xs == [] || xs[0] == x then 0 else 1 + IndexOf(xs[1..], x)
  }

  /** The position of the first record of a student, or the end of the file. */
  function StudentAt(ss: seq<Student>, id: Id): (r: nat)
    ensures r <= |ss|
    ensures r < |ss| ==> ss[r].id == id
    ensures forall k :: 0 <= k < r ==> ss[k].id != id
  {
    var ids := seq(|ss|, i requires 0 <= i < |ss| => ss[i].id);
    assert forall k :: 0 <= k < |ss| ==> ss[k].id == ids[k];
    IndexOf(ids, id)
  }

  function CourseAt(cs: seq<Course>, id: Id): (r: nat)
    ensures r <= |cs|
    ensures r < |cs| ==> cs[r].id == id
    ensures forall k :: 0 <= k < r ==> cs[k].id != id
  {
    var ids := seq(|cs|, j requires 0 <= j < |cs| => cs[j].id);
    assert forall k :: 0 <= k < |cs| ==> cs[k].id == ids[k];
    IndexOf(ids, id)
  }

  ghost predicate WellFormed(f: Files) {
    && (forall i :: 0 <= i < |f.students| ==> StudentOk(f.students[i]))
    && (forall j :: 0 <= j < |f.courses| ==> CourseOk(f.courses[j]))
  }

  function EmptyRow(n: nat): seq<Id> { seq(n, _ => "") }

  /* ---------- The critical sections ---------- */

  function AddStudent(f: Files, id: Id): Files {
    f.(students := f.students + [Student(id, true, EmptyRow(MAX_COURSES))])
  }

  function SetActive(f: Files, id: Id, active: bool): (Files, Code) {
    var i := StudentAt(f.students, id);
    if i == |f.students| then (f, NotFound)
    else (f.(students := f.students[i := f.students[i].(active := active)]), Ok)
  }

  function AddCourse(f: Files, id: Id, seats: int): (Files, Code) {
    if CourseAt(f.courses, id) < |f.courses| then (f, NotFound)
    else (f.(courses := f.courses + [Course(id, seats, 0, EmptyRow(MAX_USERS))]), Ok)
  }

  /** A course with a new number of seats; the roster is cut when it no longer fits. */
  function Resize(c: Course, seats: int): (r: Course)
    requires CourseOk(c) && 0 <= seats <= MAX_USERS
    ensures CourseOk(r)
  {
    if c.count > seats then
      c.(seats := seats, count := seats, enrolled := c.enrolled[..seats] + EmptyRow(MAX_USERS - seats))
    else
      c.(seats := seats)
  }

  function UpdateCourse(f: Files, id: Id, seats: int): (Files, Code)
    requires WellFormed(f) && 0 <= seats <= MAX_USERS
  {
    var j := CourseAt(f.courses, id);
    if j == |f.courses| then (f, NotFound)
    else (f.(courses := f.courses[j := Resize(f.courses[j], seats)]), Ok)
  }

  function Without(cs: seq<Course>, id: Id): seq<Course> {
    if cs == [] then []
    else (if cs[0].id == id then [] else [cs[0]]) + Without(cs[1..], id)
  }

  /** The first half of remove_course: copies the other courses and renames the copy. */
  function RemoveRecord(f: Files, id: Id): (Files, Code) {
    if CourseAt(f.courses, id) == |f.courses| then (f, NotFound)
    else (f.(courses := Without(f.courses, id)), Ok)
  }

  function ClearSlots(slots: seq<Id>, id: Id): (r: seq<Id>)
    ensures |r| == |slots|
    ensures forall k :: 0 <= k < |r| ==> r[k] == if slots[k] == id then "" else slots[k]
  {
    seq(|slots|, k requires 0 <= k < |slots| => if slots[k] == id then "" else slots[k])
  }

  /** The second half of remove_course: clears the course from every student. */
  function ClearStudents(f: Files, id: Id): Files {
    f.(students := seq(|f.students|, i requires 0 <= i < |f.students| =>
                         f.students[i].(slots := ClearSlots(f.students[i].slots, id))))
  }

  /** enroll_course, one critical section over both files; its first failing check decides. */
  function Enroll(f: Files, sid: Id, cid: Id): (Files, Code)
    requires WellFormed(f)
  {
    var i := StudentAt(f.students, sid);
    if i == |f.students| then (f, NotFound) else
    var s := f.students[i];
    var slot := IndexOf(s.slots, "");
    if !s.active then (f, Blocked)
    else if cid in s.slots then (f, AlreadyEnrolled)
    else if slot == |s.slots| then (f, Full) else
    var j := CourseAt(f.courses, cid);
    if j == |f.courses| then (f, CourseNotFound) else
    var c := f.courses[j];
    if c.count >= c.seats then (f, Full)
    else if sid in Roster(c) then (f, AlreadyEnrolled)
    else (Files(f.students[i := s.(slots := s.slots[slot := cid])],
                f.courses[j := c.(count := c.count + 1, enrolled := c.enrolled[c.count := sid])]), Ok)
  }

  /** A roster without its first x: the later entries move up, the last stays behind the prefix. */
  function Unlist(c: Course, x: Id): Course
    requires CourseOk(c)
  {
    var k := IndexOf(Roster(c), x);
    if k == c.count then c
    else c.(count := c.count - 1, enrolled := c.enrolled[..k] + c.enrolled[k + 1..c.count] + c.enrolled[c.count - 1..])
  }

  /** The first half of unenroll_course. */
  function DropFromCourse(f: Files, sid: Id, cid: Id): Files
    requires WellFormed(f)
  {
    var j := CourseAt(f.courses, cid);
    if j == |f.courses| then f
    else f.(courses := f.courses[j := Unlist(f.courses[j], sid)])
  }

  /** The second half of unenroll_course, which also decides its result. */
  function DropFromStudent(f: Files, sid: Id, cid: Id): (Files, Code) {
    var i := StudentAt(f.students, sid);
    if i == |f.students| then (f, NotFound) else
    var s := f.students[i];
    var k := IndexOf(s.slots, cid);
    if k == |s.slots| then (f, NotEnrolled)
    else (f.(students := f.students[i := s.(slots := s.slots[k := ""])]), Ok)
  }

  /* ---------- Any interleaving of critical sections ---------- */

  datatype Section =
    | SAddStudent(id: Id)
    | SSetActive(id: Id, active: bool)
    | SAddCourse(id: Id, seats: int)
    | SUpdateCourse(id: Id, seats: int)
    | SRemoveRecord(id: Id)
    | SClearStudents(id: Id)
    | SEnroll(sid: Id, cid: Id)
    | SDropFromCourse(sid: Id, cid: Id)
    | SDropFromStudent(sid: Id, cid: Id)

  /** More seats than the record has room for would write outside it. */
  predicate Admissible(s: Section) {
    (s.SAddCourse? || s.SUpdateCourse?) ==> 0 <= s.seats <= MAX_USERS
  }

  ghost function RunSection(f: Files, s: Section): Files
    requires WellFormed(f) && Admissible(s)
  {
    match s
    case SAddStudent(id) => AddStudent(f, id)
    case SSetActive(id, b) => SetActive(f, id, b).0
    case SAddCourse(id, n) => AddCourse(f, id, n).0
    case SUpdateCourse(id, n) => UpdateCourse(f, id, n).0
    case SRemoveRecord(id) => RemoveRecord(f, id).0
    case SClearStudents(id) => ClearStudents(f, id)
    case SEnroll(sid, cid) => Enroll(f, sid, cid).0
    case SDropFromCourse(sid, cid) => DropFromCourse(f, sid, cid)
    case SDropFromStudent(sid, cid) => DropFromStudent(f, sid, cid).0
  }

  ghost predicate DistinctIds(xs: seq<Id>) {
    forall i, j :: 0 <= i < j < |xs| ==> xs[i] != xs[j]
  }

  ghost predicate DistinctUnlessEmpty(xs: seq<Id>) {
    forall i, j :: 0 <= i < j < |xs| && xs[i] != "" ==> xs[i] != xs[j]
  }

  /** What each record keeps whatever the order of the critical sections. */
  ghost predicate RecordInv(f: Files) {
    && WellFormed(f)
    && (forall i :: 0 <= i < |f.students| ==> DistinctUnlessEmpty(f.students[i].slots))
    && (forall j :: 0 <= j < |f.courses| ==> DistinctIds(Roster(f.courses[j])))
    && (forall i, j :: 0 <= i < j < |f.courses| ==> f.courses[i].id != f.courses[j].id)
  }

  lemma ResizeKeepsRoster(c: Course, seats: int)
    requires CourseOk(c) && 0 <= seats <= MAX_USERS
    ensures Roster(Resize(c, seats)) == Roster(c)[..if c.count > seats then seats else c.count]
  {
  }

  lemma UnlistRoster(c: Course, x: Id)
    requires CourseOk(c)
    ensures CourseOk(Unlist(c, x))
    ensures var k := IndexOf(Roster(c), x);
            Roster(Unlist(c, x)) == if k == c.count then Roster(c) else Roster(c)[..k] + Roster(c)[k + 1..]
  {
    var k := IndexOf(Roster(c), x);
    if k < c.count {
      assert Unlist(c, x).enrolled[..c.count - 1] == Roster(c)[..k] + Roster(c)[k + 1..];
    }
  }

  lemma RemoveDistinct(xs: seq<Id>, k: nat)
    requires DistinctIds(xs) && k < |xs|
    ensures var ys := xs[..k] + xs[k + 1..];
      DistinctIds(ys) && xs[k] !in ys && forall y :: y != xs[k] ==> (y in ys <==> y in xs)
  {
    assert xs == xs[..k] + [xs[k]] + xs[k + 1..];
  }

  /** Exactly one entry goes, the others keep their order, and the student is off the roster. */
  lemma UnlistRemovesOne(c: Course, x: Id)
    requires CourseOk(c) && DistinctIds(Roster(c))
    ensures CourseOk(Unlist(c, x)) && DistinctIds(Roster(Unlist(c, x)))
    ensures var k := IndexOf(Roster(c), x);
            Roster(Unlist(c, x)) == if k == c.count then Roster(c) else Roster(c)[..k] + Roster(c)[k + 1..]
    ensures forall y :: y in Roster(Unlist(c, x)) <==> y in Roster(c) && y != x
  {
    UnlistRoster(c, x);
    var k := IndexOf(Roster(c), x);
    if k < c.count { RemoveDistinct(Roster(c), k); }
  }

  lemma {:induction false} WithoutKeeps(cs: seq<Course>, id: Id)
    ensures forall j :: 0 <= j < |Without(cs, id)| ==> Without(cs, id)[j] in cs && Without(cs, id)[j].id != id
    ensures (forall i, j :: 0 <= i < j < |cs| ==> cs[i].id != cs[j].id) ==>
              (forall i, j :: 0 <= i < j < |Without(cs, id)| ==> Without(cs, id)[i].id != Without(cs, id)[j].id)
  {
    if cs == [] {
    } else {
      WithoutKeeps(cs[1..], id);
      var w := Without(cs[1..], id);
      forall j | 0 <= j < |w| ensures w[j] in cs[1..] {}
    }
  }

  lemma StudentWrite(f: Files, i: nat, s: Student)
    requires RecordInv(f) && i < |f.students| && StudentOk(s) && DistinctUnlessEmpty(s.slots)
    ensures RecordInv(f.(students := f.students[i := s]))
  {
  }

  lemma CourseWrite(f: Files, j: nat, c: Course)
    requires RecordInv(f) && j < |f.courses| && c.id == f.courses[j].id && CourseOk(c) && DistinctIds(Roster(c))
    ensures RecordInv(f.(courses := f.courses[j := c]))
  {
  }

  lemma EnrollKeepsRecords(f: Files, sid: Id, cid: Id)
    requires RecordInv(f)
    ensures RecordInv(Enroll(f, sid, cid).0)
  {
    var g := Enroll(f, sid, cid).0;
    if g != f {
      var i, j := StudentAt(f.students, sid), CourseAt(f.courses, cid);
      assert Roster(g.courses[j]) == Roster(f.courses[j]) + [sid];
      StudentWrite(f, i, g.students[i]);
      CourseWrite(f.(students := g.students), j, g.courses[j]);
    }
  }

  lemma AddKeepsRecords(f: Files, id: Id, seats: int)
    requires RecordInv(f) && 0 <= seats <= MAX_USERS
    ensures RecordInv(AddStudent(f, id)) && RecordInv(AddCourse(f, id, seats).0)
  {
  }

  lemma RemoveKeepsRecords(f: Files, id: Id)
    requires RecordInv(f)
    ensures RecordInv(RemoveRecord(f, id).0) && RecordInv(ClearStudents(f, id))
  {
    WithoutKeeps(f.courses, id);
  }

  lemma SectionKeepsRecords(f: Files, s: Section)
    requires RecordInv(f) && Admissible(s)
    ensures RecordInv(RunSection(f, s))
  {
    match s
    case SAddStudent(id) => AddKeepsRecords(f, id, 0);
    case SAddCourse(id, n) => AddKeepsRecords(f, id, n);
    case SUpdateCourse(id, n) =>
      var j := CourseAt(f.courses, id);
      if j < |f.courses| {
        ResizeKeepsRoster(f.courses[j], n);
        CourseWrite(f, j, Resize(f.courses[j], n));
      }
    case SRemoveRecord(id) => RemoveKeepsRecords(f, id);
    case SClearStudents(id) => RemoveKeepsRecords(f, id);
    case SEnroll(sid, cid) => EnrollKeepsRecords(f, sid, cid);
    case SDropFromCourse(sid, cid) =>
      var j := CourseAt(f.courses, cid);
      if j < |f.courses| {
        UnlistRemovesOne(f.courses[j], sid);
        CourseWrite(f, j, Unlist(f.courses[j], sid));
      }
    case SSetActive(id, b) =>
      var i := StudentAt(f.students, id);
      if i < |f.students| { StudentWrite(f, i, f.students[i].(active := b)); }
    case SDropFromStudent(sid, cid) =>
      var i := StudentAt(f.students, sid);
      if i < |f.students| { StudentWrite(f, i, DropFromStudent(f, sid, cid).0.students[i]); }
  }

  ghost function RunSections(f: Files, sections: seq<Section>): (g: Files)
    requires RecordInv(f) && forall i :: 0 <= i < |sections| ==> Admissible(sections[i])
    ensures RecordInv(g)
    decreases |sections|
  {
    if sections == [] then f else
      SectionKeepsRecords(f, sections[0]);
      RunSections(RunSection(f, sections[0]), sections[1..])
  }
}
