/**
 Whole-call runs that also create, update and delete courses and users. The schema's cascades
 and the services' checks keep every course within its capacity, and the three ways in which
 enrolments are counted agree.
 */
module Catalogue {
  import opened RegistrationTables
  import opened SilentFailures

  datatype Role = Admin | Faculty | Student

  datatype Requester = Requester(id: int, role: Role)

  /** The course that a request describes. */
  datatype Form = Form(
    id: int, code: string, name: string, credits: int, faculty: int, capacity: int, schedule: string)

  datatype CourseError =
    | NoCourseError | Unauthorized | CodeRequired | NameRequired | CapacityNotPositive | BadCredits
    | CodeExists | CreateFailed | NotFound | NotYours | BelowEnrolment

  datatype CourseResult = CourseResult(success: bool, id: int, error: CourseError)

  function CourseFailed(error: CourseError): CourseResult { CourseResult(false, 0, error) }

  datatype Outcome = Outcome(tables: Tables, result: CourseResult)

  /**
   Which steps of a call on courses or users fail: the lookup and the count read nothing, and an
   UPDATE or DELETE changes nothing, all without the call noticing; a failing INSERT throws.
   */
  datatype Faults = Faults(find: bool, count: bool, write: bool)

  const NO_FAULTS: Faults := Faults(false, false, false)

  /* ---------- Statements on courses and users ---------- */

  predicate CodeTaken(t: Tables, code: string) {
    exists c | c in t.courses :: t.courses[c].code == code
  }

  /** DELETE FROM courses, with its cascade to registrations. */
  function RemoveCourse(t: Tables, c: int): Tables {
    t.(courses := t.courses - {c},
       regs := map id | id in t.regs && t.regs[id].course != c :: t.regs[id])
  }

  /** DELETE FROM users: registrations go with the student, courses lose their faculty. */
  function RemoveUser(t: Tables, u: int): Tables {
    t.(users := t.users - {u},
       courses := map c | c in t.courses ::
                    if t.courses[c].faculty == u then t.courses[c].(faculty := 0) else t.courses[c],
       regs := map id | id in t.regs && t.regs[id].student != u :: t.regs[id])
  }

  /* ---------- Calls ---------- */

  /** A lookup of the code that fails leaves it to the UNIQUE key to refuse a code that is taken. */
  function CreateCourse(t: Tables, f: Form, q: Requester, x: Faults): Outcome {
    if q.role != Admin && q.role != Faculty then Outcome(t, CourseFailed(Unauthorized))
    else if f.code == "" then Outcome(t, CourseFailed(CodeRequired))
    else if f.name == "" then Outcome(t, CourseFailed(NameRequired))
    else if f.capacity <= 0 then Outcome(t, CourseFailed(CapacityNotPositive))
    else if f.credits <= 0 || f.credits > 6 then Outcome(t, CourseFailed(BadCredits))
    else if !x.find && CodeTaken(t, f.code) then Outcome(t, CourseFailed(CodeExists))
    else if x.write || CodeTaken(t, f.code) || f.faculty !in t.users then Outcome(t, CourseFailed(CreateFailed))
    else
      var row := CourseRow(f.code, f.name, f.credits, f.faculty, f.capacity, f.schedule);
      Outcome(t.(courses := t.courses[t.nextCourse := row], nextCourse := t.nextCourse + 1),
              CourseResult(true, t.nextCourse, NoCourseError))
  }

  /** What the UPDATE asks for: every column but the code. */
  function Asked(row: CourseRow, f: Form): CourseRow {
    row.(name := f.name, credits := f.credits, faculty := f.faculty, capacity := f.capacity, schedule := f.schedule)
  }

  /** The result of the UPDATE is ignored: a faculty that does not exist leaves the row alone. */
  function UpdateCourse(t: Tables, f: Form, q: Requester, x: Faults): Outcome {
    if x.find || f.id !in t.courses then Outcome(t, CourseFailed(NotFound))
    else if q.role == Faculty && t.courses[f.id].faculty != q.id then Outcome(t, CourseFailed(NotYours))
    else if f.name == "" then Outcome(t, CourseFailed(NameRequired))
    else if f.capacity <= 0 then Outcome(t, CourseFailed(CapacityNotPositive))
    else if f.capacity < (if x.count then 0 else EnrolledCount(t, f.id)) then Outcome(t, CourseFailed(BelowEnrolment))
    else
      var updated := t.(courses := t.courses[f.id := Asked(t.courses[f.id], f)]);
      Outcome(if !x.write && f.faculty in t.users then updated else t, CourseResult(true, f.id, NoCourseError))
  }

  /** Only requesters other than admins are looked at, and of those only faculty for ownership. */
  function DeleteCourse(t: Tables, c: int, q: Requester, x: Faults): Outcome {
    if q.role != Admin && (x.find || c !in t.courses) then Outcome(t, CourseFailed(NotFound))
    else if q.role == Faculty && t.courses[c].faculty != q.id then Outcome(t, CourseFailed(NotYours))
    else Outcome(if x.write then t else RemoveCourse(t, c), CourseResult(true, c, NoCourseError))
  }

  /** A whole call, and what fails in it. */
  datatype Call =
    | Enrol(op: Op, failures: Failures)
    | Add(form: Form, requester: Requester, faults: Faults)
    | Update(form: Form, requester: Requester, faults: Faults)
    | Delete(course: int, requester: Requester, faults: Faults)
    | AddUser
    | DeleteUser(user: int, requester: Requester, faults: Faults)

  /** The tables after a whole call; one that throws leaves them as they were. */
  ghost function After(t: Tables, call: Call): Tables {
    match call
    case Enrol(op, x) => AfterCall(t, op, x)
    case Add(f, q, x) => CreateCourse(t, f, q, x).tables
    case Update(f, q, x) => UpdateCourse(t, f, q, x).tables
    case Delete(c, q, x) => DeleteCourse(t, c, q, x).tables
    case AddUser => t.(users := t.users + {t.nextUser}, nextUser := t.nextUser + 1)
    case DeleteUser(u, q, x) => if q.role == Admin && q.id != u && !x.write then RemoveUser(t, u) else t
  }

  ghost function AfterAll(t: Tables, calls: seq<Call>): Tables
    decreases |calls|
  {
    if calls == [] then t else AfterAll(After(t, calls[0]), calls[1..])
  }

  /* ---------- What every call keeps ---------- */

  lemma SameRowsSameCount(t: Tables, t': Tables, c: int)
    requires t'.regs == t.regs
    ensures EnrolledCount(t', c) == EnrolledCount(t, c)
  {
    assert ActiveRows(t', c) == ActiveRows(t, c);
  }

  lemma FewerRowsFewerSeats(t: Tables, t': Tables, c: int)
    requires forall id :: id in t'.regs ==> id in t.regs && t'.regs[id] == t.regs[id]
    ensures EnrolledCount(t', c) <= EnrolledCount(t, c)
  {
    var fewer, rows := ActiveRows(t', c), ActiveRows(t, c);
    assert forall id :: id in fewer ==> t'.regs[id] == t.regs[id] && id in rows;
    assert rows == fewer + (rows - fewer);
  }

  lemma CourseCreateKeepsValid(t: Tables, f: Form, q: Requester, x: Faults)
    requires Valid(t)
    ensures Valid(CreateCourse(t, f, q, x).tables)
  {
    var t' := CreateCourse(t, f, q, x).tables;
    forall c ensures EnrolledCount(t', c) == EnrolledCount(t, c) { SameRowsSameCount(t, t', c); }
    assert forall id :: id in t.regs ==> t.regs[id].course != t.nextCourse;
    assert ActiveRows(t, t.nextCourse) == {};
  }

  /** The one way below enrolment: the count fails and the capacity asked for is then stored. */
  predicate Undercuts(t: Tables, f: Form, q: Requester, x: Faults) {
    && !x.find && x.count && !x.write && f.id in t.courses && f.faculty in t.users
    && (q.role == Faculty ==> t.courses[f.id].faculty == q.id) && f.name != ""
    && 0 < f.capacity < EnrolledCount(t, f.id)
  }

  lemma UpdateKeepsValidExactly(t: Tables, f: Form, q: Requester, x: Faults)
    requires Valid(t)
    ensures Valid(UpdateCourse(t, f, q, x).tables) <==> !Undercuts(t, f, q, x)
  {
    var t' := UpdateCourse(t, f, q, x).tables;
    forall c ensures EnrolledCount(t', c) == EnrolledCount(t, c) { SameRowsSameCount(t, t', c); }
    if Undercuts(t, f, q, x) {
      assert f.id in t'.courses && EnrolledCount(t', f.id) > t'.courses[f.id].capacity;
    }
  }

  lemma RemoveCourseKeepsValid(t: Tables, c: int)
    requires Valid(t)
    ensures Valid(RemoveCourse(t, c))
  {
    forall d ensures EnrolledCount(RemoveCourse(t, c), d) <= EnrolledCount(t, d) {
      FewerRowsFewerSeats(t, RemoveCourse(t, c), d);
    }
  }

  lemma RemoveUserKeepsValid(t: Tables, u: int)
    requires Valid(t)
    ensures Valid(RemoveUser(t, u))
  {
    forall d ensures EnrolledCount(RemoveUser(t, u), d) <= EnrolledCount(t, d) {
      FewerRowsFewerSeats(t, RemoveUser(t, u), d);
    }
  }

  lemma AddUserKeepsValid(t: Tables)
    requires Valid(t)
    ensures Valid(After(t, AddUser))
  {
    forall c ensures EnrolledCount(After(t, AddUser), c) == EnrolledCount(t, c) {
      SameRowsSameCount(t, After(t, AddUser), c);
    }
  }

  /** A call that puts a course over its capacity. */
  ghost predicate Harms(t: Tables, call: Call) {
    || (call.Enrol? && Overbooks(t, call.op, call.failures))
    || (call.Update? && Undercuts(t, call.form, call.requester, call.faults))
  }

  lemma EnrolKeepsValidExactly(t: Tables, op: Op, x: Failures)
    requires Valid(t)
    ensures Valid(AfterCall(t, op, x)) <==> !Overbooks(t, op, x)
  {
    if BodyWith(t, op, x).Written? {
      CapacitySurvivesExactly(t, op, x);
    } else if Overbooks(t, op, x) {
      OverbookingReturns(t, op, x);
    }
  }

  lemma CallKeepsValid(t: Tables, call: Call)
    requires Valid(t)
    ensures Valid(After(t, call)) <==> !Harms(t, call)
  {
    match call
    case Enrol(op, x) => EnrolKeepsValidExactly(t, op, x);
    case Add(f, q, x) => CourseCreateKeepsValid(t, f, q, x);
    case Update(f, q, x) => UpdateKeepsValidExactly(t, f, q, x);
    case Delete(c, q, _) => RemoveCourseKeepsValid(t, c);
    case AddUser => AddUserKeepsValid(t);
    case DeleteUser(u, q, _) => RemoveUserKeepsValid(t, u);
  }

  ghost predicate ValidThroughout(t: Tables, calls: seq<Call>)
    decreases |calls|
  {
    Valid(t) && (calls == [] || ValidThroughout(After(t, calls[0]), calls[1..]))
  }

  ghost predicate NoneHarms(t: Tables, calls: seq<Call>)
    decreases |calls|
  {
    calls == [] || (!Harms(t, calls[0]) && NoneHarms(After(t, calls[0]), calls[1..]))
  }

  /**
   Any run of whole calls, whatever fails in them, keeps active <= capacity, unique pairs and codes
   and referential integrity throughout, exactly when no call overbooks or undercuts.
   */
  lemma {:induction false} RunKeepsValid(t: Tables, calls: seq<Call>)
    requires Valid(t)
    ensures ValidThroughout(t, calls) <==> NoneHarms(t, calls)
    ensures NoneHarms(t, calls) ==> Valid(AfterAll(t, calls))
    decreases |calls|
  {
    if calls == [] {
    } else {
      CallKeepsValid(t, calls[0]);
      if !Harms(t, calls[0]) {
        RunKeepsValid(After(t, calls[0]), calls[1..]);
      }
    }
  }

  /** Nothing harms when nothing fails. */
  predicate NothingFails(call: Call) {
    match call
    case Enrol(_, x) => x == NONE
    case AddUser => true
    case _ => call.faults == NO_FAULTS
  }

  lemma {:induction false} RunWithoutFaultsKeepsValid(t: Tables, calls: seq<Call>)
    requires Valid(t) && forall i :: 0 <= i < |calls| ==> NothingFails(calls[i])
    ensures NoneHarms(t, calls) && ValidThroughout(t, calls) && Valid(AfterAll(t, calls))
    decreases |calls|
  {
    if calls == [] {
    } else {
      CallKeepsValid(t, calls[0]);
      RunWithoutFaultsKeepsValid(After(t, calls[0]), calls[1..]);
    }
  }

  /* ---------- Counting enrolments in three ways ---------- */

  /** count_active. */
  function AllActive(t: Tables): set<int> { set id | id in t.regs && t.regs[id].active }

  function CountActive(t: Tables): nat { |AllActive(t)| }

  /** find_by_course joins each row with its user and its course. */
  function Roster(t: Tables, c: int): set<int> {
    set id | id in ActiveRows(t, c) && t.regs[id].student in t.users && t.regs[id].course in t.courses
  }

  /** The active rows of the courses in cs. */
  function ActiveIn(t: Tables, cs: set<int>): set<int> {
    set id | id in t.regs && t.regs[id].active && t.regs[id].course in cs
  }

  ghost function SumEnrolled(t: Tables, cs: seq<int>): nat {
    if cs == [] then 0 else EnrolledCount(t, cs[0]) + SumEnrolled(t, cs[1..])
  }

  ghost predicate Lists(cs: seq<int>, courses: set<int>) {
    (forall c :: c in cs <==> c in courses) && forall i, j :: 0 <= i < j < |cs| ==> cs[i] != cs[j]
  }

  lemma {:induction false} SumEnrolledAppend(t: Tables, cs: seq<int>, c: int)
    ensures SumEnrolled(t, cs + [c]) == SumEnrolled(t, cs) + EnrolledCount(t, c)
    decreases |cs|
  {
    if cs == [] {
      assert cs + [c] == [c];
    } else {
      assert (cs + [c])[1..] == cs[1..] + [c];
      SumEnrolledAppend(t, cs[1..], c);
    }
  }

  lemma ListsOneMore(cs: seq<int>, courses: set<int>, c: int)
    requires Lists(cs, courses) && c !in courses
    ensures Lists(cs + [c], courses + {c})
  {
    assert forall d :: d in cs + [c] <==> d in cs || d == c;
  }

  lemma {:induction false} ListLength(cs: seq<int>, courses: set<int>)
    requires Lists(cs, courses)
    ensures |cs| == |courses|
    decreases |cs|
  {
    if cs == [] {
      assert forall c :: c in courses ==> c in cs;
      assert courses == {};
    } else {
      assert forall c :: c in cs <==> c == cs[0] || c in cs[1..];
      ListLength(cs[1..], courses - {cs[0]});
    }
  }

  lemma {:induction false} SumIsActiveIn(t: Tables, cs: seq<int>, courses: set<int>)
    requires Lists(cs, courses)
    ensures SumEnrolled(t, cs) == |ActiveIn(t, courses)|
    decreases |cs|
  {
    if cs == [] {
      assert forall c :: c in courses ==> c in cs;
      assert courses == {};
      assert ActiveIn(t, courses) == {};
    } else {
      var rest := courses - {cs[0]};
      assert forall c :: c in cs[1..] <==> c in rest by {
        assert forall c :: c in cs <==> c == cs[0] || c in cs[1..];
      }
      SumIsActiveIn(t, cs[1..], rest);
      assert ActiveIn(t, courses) == ActiveRows(t, cs[0]) + ActiveIn(t, rest);
    }
  }

  /** The seats of the courses in cs, each numbered within its course. */
  function Seats(t: Tables, cs: set<int>): set<(int, int)> {
    set c, k | c in cs && c in t.courses && 0 <= k < t.courses[c].capacity :: (c, k)
  }

  ghost function SumCapacity(t: Tables, cs: seq<int>): int
    requires forall i :: 0 <= i < |cs| ==> cs[i] in t.courses
  {
    if cs == [] then 0 else SumCapacity(t, cs[..|cs| - 1]) + t.courses[cs[|cs| - 1]].capacity
  }

  /** What a course adds to the two sums. */
  lemma SumsUpTo(t: Tables, cs: seq<int>, i: nat)
    requires Valid(t) && i < |cs| && forall j :: 0 <= j < |cs| ==> cs[j] in t.courses
    ensures SumCapacity(t, cs[..i + 1]) == SumCapacity(t, cs[..i]) + t.courses[cs[i]].capacity
    ensures SumEnrolled(t, cs[..i + 1]) == SumEnrolled(t, cs[..i]) + EnrolledCount(t, cs[i])
    ensures EnrolledCount(t, cs[i]) <= t.courses[cs[i]].capacity
  {
    SumEnrolledAppend(t, cs[..i], cs[i]);
    assert cs[..i + 1] == cs[..i] + [cs[i]];
  }

  lemma {:induction false} SumsWithin(t: Tables, cs: seq<int>, i: nat)
    requires Valid(t) && i <= |cs| && forall j :: 0 <= j < |cs| ==> cs[j] in t.courses
    ensures SumEnrolled(t, cs[..i]) <= SumCapacity(t, cs[..i])
  {
    if i == 0 {
    } else {
      SumsUpTo(t, cs, i - 1);
      SumsWithin(t, cs, i - 1);
    }
  }

  lemma {:induction false} SeatsOfCourse(c: int, n: nat)
    ensures |set k | 0 <= k < n :: (c, k)| == n
  {
    var seats := set k | 0 <= k < n :: (c, k);
    if n == 0 {
      assert seats == {};
    } else {
      SeatsOfCourse(c, n - 1);
      assert seats == (set k | 0 <= k < n - 1 :: (c, k)) + {(c, n - 1)};
    }
  }

  lemma SeatsOfOneMore(t: Tables, cs: set<int>, c: int)
    requires c in cs && c in t.courses && t.courses[c].capacity >= 0
    ensures |Seats(t, cs)| == |Seats(t, cs - {c})| + t.courses[c].capacity
  {
    var own := set k | 0 <= k < t.courses[c].capacity :: (c, k);
    SeatsOfCourse(c, t.courses[c].capacity);
    assert Seats(t, cs) == Seats(t, cs - {c}) + own;
  }

  lemma ListsAllButLast(cs: seq<int>, courses: set<int>)
    requires Lists(cs, courses) && cs != []
    ensures cs[|cs| - 1] in courses && Lists(cs[..|cs| - 1], courses - {cs[|cs| - 1]})
  {
    assert forall c :: c in cs <==> c == cs[|cs| - 1] || c in cs[..|cs| - 1];
  }

  /** Capacities added up in any listing order give the number of seats there are. */
  lemma {:induction false} SumIsSeats(t: Tables, cs: seq<int>, courses: set<int>)
    requires Lists(cs, courses) && courses <= t.courses.Keys
    requires forall c :: c in t.courses ==> t.courses[c].capacity >= 0
    ensures forall i :: 0 <= i < |cs| ==> cs[i] in t.courses
    ensures SumCapacity(t, cs) == |Seats(t, courses)|
    decreases |cs|
  {
    if cs == [] {
      assert forall c :: c in courses ==> c in cs;
      assert courses == {} && Seats(t, courses) == {};
    } else {
      var n := |cs| - 1;
      ListsAllButLast(cs, courses);
      SumIsSeats(t, cs[..n], courses - {cs[n]});
      SeatsOfOneMore(t, courses, cs[n]);
    }
  }

  /** What the statistics page shows: the seats, the enrolments, and that these fit in those. */
  lemma TotalsOfListing(t: Tables, cs: seq<int>)
    requires Valid(t) && Lists(cs, t.courses.Keys)
    ensures forall i :: 0 <= i < |cs| ==> cs[i] in t.courses
    ensures SumCapacity(t, cs) == |Seats(t, t.courses.Keys)| >= SumEnrolled(t, cs) == CountActive(t)
  {
    SumIsSeats(t, cs, t.courses.Keys);
    SumsWithin(t, cs, |cs|);
    assert cs[..|cs|] == cs;
    CountsAddUp(t, cs);
  }

  /** In every valid database the per-course counts add up to the total, in any listing order. */
  lemma CountsAddUp(t: Tables, cs: seq<int>)
    requires Valid(t) && Lists(cs, t.courses.Keys)
    ensures SumEnrolled(t, cs) == CountActive(t)
  {
    SumIsActiveIn(t, cs, t.courses.Keys);
    assert forall id :: id in AllActive(t) ==> t.regs[id].course in t.courses;
    assert ActiveIn(t, t.courses.Keys) == AllActive(t);
  }

  /** The join of a roster loses nobody. */
  lemma RosterIsEnrolled(t: Tables, c: int)
    requires Valid(t)
    ensures |Roster(t, c)| == EnrolledCount(t, c)
  {
    assert forall id :: id in ActiveRows(t, c) ==> t.regs[id].student in t.users && t.regs[id].course in t.courses;
    assert Roster(t, c) == ActiveRows(t, c);
  }

  /** After any run of calls, rosters, per-course counts and the total agree. */
  lemma CountsAgreeAfterAnyRun(t: Tables, calls: seq<Call>, cs: seq<int>, c: int)
    requires Valid(t) && NoneHarms(t, calls) && Lists(cs, AfterAll(t, calls).courses.Keys)
    ensures var t' := AfterAll(t, calls);
      SumEnrolled(t', cs) == CountActive(t') && |Roster(t', c)| == EnrolledCount(t', c)
  {
    RunKeepsValid(t, calls);
    CountsAddUp(AfterAll(t, calls), cs);
    RosterIsEnrolled(AfterAll(t, calls), c);
  }

  /* ---------- What single calls promise ---------- */

  /**
   An update that reports success has stored every column it was asked to exactly when its UPDATE
   did not fail and the faculty it names exists, or every column already had the value asked for.
   */
  lemma UpdateTookEffectExactly(t: Tables, f: Form, q: Requester, x: Faults)
    requires UpdateCourse(t, f, q, x).result.success
    ensures var t' := UpdateCourse(t, f, q, x).tables;
      && f.id in t.courses && f.id in t'.courses && t' == t.(courses := t.courses[f.id := t'.courses[f.id]])
      && (t'.courses[f.id] == Asked(t.courses[f.id], f) <==>
            || (!x.write && f.faculty in t.users)
            || (var row := t.courses[f.id];
                && row.name == f.name && row.credits == f.credits && row.faculty == f.faculty
                && row.capacity == f.capacity && row.schedule == f.schedule))
  {
    var t', row := UpdateCourse(t, f, q, x).tables, t.courses[f.id];
    assert t.courses == t.courses[f.id := row];
    assert row == Asked(row, Form(f.id, row.code, row.name, row.credits, row.faculty, row.capacity, row.schedule));
  }

  /** A lookup of the code that fails changes the message of a refusal and nothing else. */
  lemma CodesStayUniqueWithoutLookup(t: Tables, f: Form, q: Requester, x: Faults)
    ensures var o, o' := CreateCourse(t, f, q, x.(find := false)), CreateCourse(t, f, q, x.(find := true));
      o'.tables == o.tables && o'.result.success == o.result.success && o'.result.id == o.result.id
  {
  }

  /**
   Who can delete a course: admins, the faculty who owns it, and every requester who is neither,
   because only faculty are asked whether the course is theirs.
   */
  lemma DeletesExactly(t: Tables, c: int, q: Requester, x: Faults)
    requires c in t.courses
    ensures var o := DeleteCourse(t, c, q, x);
      && (o.result.success <==>
            q.role == Admin || (!x.find && (q.role == Student || t.courses[c].faculty == q.id)))
      && (c !in o.tables.courses <==> o.result.success && !x.write)
      && (c in o.tables.courses ==> o.tables == t)
  {
  }

  /** The form of a course as find_by_id reads it back. */
  function ReadBack(t: Tables, c: int): Form
    requires c in t.courses
  {
    var row := t.courses[c];
    Form(c, row.code, row.name, row.credits, row.faculty, row.capacity, row.schedule)
  }

  /**
   Once the faculty of a course has been deleted, no update that leaves the faculty as it reads
   back can change the course, whatever else it asks for, and each of them reports success.
   */
  lemma OrphanedCourseCannotBeChanged(t: Tables, u: int, c: int, f: Form, q: Requester)
    requires Valid(t) && u in t.users && c in t.courses && t.courses[c].faculty == u
    requires var now := RemoveUser(t, u);
      && c in now.courses && f.id == c && f.faculty == ReadBack(now, c).faculty
      && f.name != "" && f.capacity > 0 && f.capacity >= EnrolledCount(now, c) && q.role == Admin
    ensures UpdateCourse(RemoveUser(t, u), f, q, NO_FAULTS) ==
      Outcome(RemoveUser(t, u), CourseResult(true, c, NoCourseError))
    ensures var row := RemoveUser(t, u).courses[c]; row != t.courses[c] && (f.name != row.name ==> row != Asked(row, f))
  {
    RemoveUserKeepsValid(t, u);
  }

  /** Deleting a course that was just created leaves nothing but a used-up id. */
  lemma DeleteUndoesCreate(t: Tables, f: Form, q: Requester)
    requires Valid(t) && CreateCourse(t, f, q, NO_FAULTS).result.success
    ensures var made := CreateCourse(t, f, q, NO_FAULTS);
      RemoveCourse(made.tables, made.result.id) == t.(nextCourse := t.nextCourse + 1)
  {
    var made := CreateCourse(t, f, q, NO_FAULTS);
    var t' := RemoveCourse(made.tables, made.result.id);
    assert t'.courses == t.courses;
    assert forall id :: id in t.regs ==> t.regs[id].course != t.nextCourse;
    assert t'.regs == t.regs;
  }

  lemma PairHasOneActiveRow(t: Tables, u: int, c: int)
    requires UniquePairs(t.regs)
    ensures |set id | id in ActiveRows(t, c) && t.regs[id].student == u| == if Enrolled(t, u, c) then 1 else 0
  {
    var rows := set id | id in ActiveRows(t, c) && t.regs[id].student == u;
    if Enrolled(t, u, c) {
      var id :| id in t.regs && t.regs[id] == RegRow(u, c, true);
      assert id in rows;
      forall k | k in rows ensures k == id {
        assert t.regs[k].student == u && t.regs[k].course == c;
      }
      assert rows == {id};
    } else {
      assert forall id :: id in rows ==> t.regs[id] == RegRow(u, c, true);
      SomeElement(rows);
    }
  }

  /** Deleting a user frees one seat in each course the user was enrolled in, and no other seat. */
  lemma DeleteUserFreesSeats(t: Tables, u: int, c: int)
    requires Valid(t)
    ensures EnrolledCount(RemoveUser(t, u), c) == EnrolledCount(t, c) - if Enrolled(t, u, c) then 1 else 0
    ensures !Enrolled(RemoveUser(t, u), u, c)
  {
    var gone := set id | id in ActiveRows(t, c) && t.regs[id].student == u;
    PairHasOneActiveRow(t, u, c);
    assert ActiveRows(RemoveUser(t, u), c) == ActiveRows(t, c) - gone;
  }

  /** Deleting a course drops its enrolments from the total. */
  lemma DeleteCourseLowersTotal(t: Tables, c: int)
    ensures CountActive(RemoveCourse(t, c)) == CountActive(t) - EnrolledCount(t, c)
  {
    var rest, rows := AllActive(RemoveCourse(t, c)), ActiveRows(t, c);
    assert AllActive(t) == rest + rows;
    assert rest !! rows;
  }

  /** Deleting a course touches the seats of no other course. */
  lemma DeleteCourseFreesSeats(t: Tables, c: int, d: int)
    ensures EnrolledCount(RemoveCourse(t, c), d) == if d == c then 0 else EnrolledCount(t, d)
  {
    var t' := RemoveCourse(t, c);
    if d == c {
      assert ActiveRows(t', d) == {};
    } else {
      assert ActiveRows(t', d) == ActiveRows(t, d);
    }
  }
}
