/**
 The same code as objects that change in place: the database behind its one connection, with a
 saved copy while a transaction is open, the repositories' statements, and the services. Each
 method is tied to the functions that the concurrent model and the whole-call runs are built from.
 */
module RegistrationClass {
  import opened RegistrationTables
  import opened SilentFailures
  import C = Catalogue

  datatype Option<T> = None | Some(value: T)

  /** What find_by_id reports of a course. */
  datatype Course = Course(capacity: int, enrolled: int, faculty: int)

  class Database {
    var users: set<int>
    var nextUser: int
    var courses: map<int, CourseRow>
    var nextCourse: int
    var regs: map<int, RegRow>
    var nextReg: int
    var saved: Option<Tables>

    ghost function View(): Tables reads this { Tables(users, nextUser, courses, nextCourse, regs, nextReg) }

    ghost predicate Consistent() reads this { Valid(View()) && (saved.Some? ==> Valid(saved.value)) }

    constructor ()
      ensures Consistent() && saved.None? && View() == Tables({}, 1, map[], 1, map[], 1)
    {
      users, nextUser, courses, nextCourse, regs, nextReg := {}, 1, map[], 1, map[], 1;
      saved := None;
    }

    method BeginTransaction() returns (ok: bool)
      modifies this`saved
      ensures ok <==> old(saved).None?
      ensures saved == if ok then Some(View()) else old(saved)
    {
      ok := saved.None?;
      if ok {
        saved := Some(Tables(users, nextUser, courses, nextCourse, regs, nextReg));
      }
    }

    method Commit()
      modifies this`saved
      ensures saved.None?
    {
      saved := None;
    }

    method Rollback()
      requires saved.Some?
      modifies this
      ensures saved.None? && View() == old(saved).value
    {
      var t := saved.value;
      users, nextUser := t.users, t.nextUser;
      courses, nextCourse := t.courses, t.nextCourse;
      regs, nextReg := t.regs, t.nextReg;
      saved := None;
    }

    /* ---------- Repositories ---------- */

    /** A SELECT whose step fails reads no row, and its count reads 0. */
    method GetEnrolledCount(c: int, fails: bool) returns (n: int)
      ensures n == if fails then 0 else EnrolledCount(View(), c)
    {
      if fails { return 0; }
      var rows := set id | id in regs && regs[id].course == c && regs[id].active;
      assert rows == ActiveRows(View(), c);
      n := |rows|;
    }

    method FindById(c: int, fails: bool) returns (course: Option<Course>)
      ensures course ==
        if !fails && c in courses then Some(Course(courses[c].capacity, EnrolledCount(View(), c), courses[c].faculty))
        else None
    {
      if !fails && c in courses {
        var n := GetEnrolledCount(c, false);
        course := Some(Course(courses[c].capacity, n, courses[c].faculty));
      } else {
        course := None;
      }
    }

    method Exists(s: int, c: int, fails: bool) returns (found: bool)
      ensures found <==> !fails && Enrolled(View(), s, c)
    {
      found := !fails && exists id | id in regs :: regs[id] == RegRow(s, c, true);
    }

    /** UPDATE of a pair's rows with the other status; was any row changed? */
    method SetActive(s: int, c: int, active: bool) returns (changed: bool)
      modifies this`regs
      ensures View() == Activate(old(View()), s, c, active)
      ensures changed <==> if active then Dropped(old(View()), s, c) else Enrolled(old(View()), s, c)
    {
      ghost var before := View();
      var hit := set id | id in regs && regs[id] == RegRow(s, c, !active);
      SomeElement(hit);
      assert forall id :: id in hit <==> id in before.regs && before.regs[id] == RegRow(s, c, !active);
      changed := hit != {};
      regs := map id | id in regs :: if regs[id] == RegRow(s, c, !active) then RegRow(s, c, active) else regs[id];
      assert regs == Activate(before, s, c, active).regs;
    }

    /** The id of a pair's row; a lookup that fails, or finds none, reads 0. */
    method FindRow(s: int, c: int, fails: bool) returns (id: int)
      requires UniquePairs(regs)
      ensures id == if fails || RowsOf(View(), s, c) == {} then 0 else AnyRow(View(), s, c)
    {
      ghost var rows := RowsOf(View(), s, c);
      SomeElement(rows);
      id := 0;
      if !fails {
        if row :| row in regs && regs[row].student == s && regs[row].course == c {
          assert row in rows;
          OneRowPerPair(View(), s, c, row);
          id := row;
        } else {
          assert forall k :: k !in rows;
        }
      }
    }

    /** Reactivates a dropped row, or inserts; None when the INSERT violates the schema. */
    method Create(s: int, c: int, x: Failures) returns (id: Option<int>)
      requires Valid(View())
      modifies this`regs, this`nextReg
      ensures match CreateWith(old(View()), s, c, x)
              case Threw => id.None? && View() == old(View())
              case Created(t, k) => id == Some(k) && View() == t
    {
      ghost var t := View();
      var changed := x.staleChanges;
      if !x.reactivate {
        changed := SetActive(s, c, true);
        UntouchedUnlessDropped(t, s, c);
      }
      if changed {
        SameRowsOf(t, View(), s, c);
        var row := FindRow(s, c, x.selectId);
        id := Some(row);
      } else {
        assert View() == t;
        var taken := exists k | k in regs :: regs[k].student == s && regs[k].course == c;
        SomeElement(RowsOf(t, s, c));
        assert taken <==> RowsOf(t, s, c) != {} by {
          if taken {
            var k :| k in regs && regs[k].student == s && regs[k].course == c;
            assert k in RowsOf(t, s, c);
          }
        }
        if s !in users || c !in courses || taken {
          id := None;
        } else {
          id := Some(nextReg);
          regs, nextReg := regs[nextReg := RegRow(s, c, true)], nextReg + 1;
        }
      }
    }

    /** drop_registration: whether a row was dropped, or the UPDATE failed, is not asked. */
    method DropRegistration(s: int, c: int, fails: bool)
      modifies this`regs
      ensures View() == if fails then old(View()) else Activate(old(View()), s, c, false)
    {
      if !fails {
        var changed := SetActive(s, c, false);
      }
    }

    /** One row of the result at a time, in no particular order. */
    method FindByCourse(c: int) returns (roster: seq<int>)
      ensures C.Lists(roster, C.Roster(View(), c))
      ensures Valid(View()) ==> |roster| == EnrolledCount(View(), c)
    {
      var rows := set id | id in regs && regs[id].course == c && regs[id].active
                           && regs[id].student in users && regs[id].course in courses;
      ghost var active := ActiveRows(View(), c);
      assert forall id :: id in active <==> id in regs && regs[id].course == c && regs[id].active;
      assert rows == C.Roster(View(), c);
      roster := ListOut(rows);
      C.ListLength(roster, rows);
      if Valid(View()) {
        C.RosterIsEnrolled(View(), c);
      }
    }

    method ListOut(rows: set<int>) returns (list: seq<int>)
      ensures C.Lists(list, rows)
    {
      var pending := rows;
      list := [];
      while pending != {}
        invariant pending <= rows
        invariant C.Lists(list, rows - pending)
        decreases |pending|
      {
        SomeElement(pending);
        var id :| id in pending;
        ghost var before := list;
        list, pending := list + [id], pending - {id};
        C.ListsOneMore(before, rows - (pending + {id}), id);
        assert rows - pending == (rows - (pending + {id})) + {id};
      }
      assert rows - pending == rows;
    }

    method CountActive() returns (n: int)
      ensures n == C.CountActive(View())
    {
      var rows := set id | id in regs && regs[id].active;
      assert rows == C.AllActive(View());
      n := |rows|;
    }

    /** The totals of the statistics page, added up course by course. */
    method Statistics() returns (totalCapacity: int, totalEnrolled: int, totalRegistrations: int)
      requires Valid(View())
      ensures totalEnrolled == totalRegistrations == C.CountActive(View())
      ensures totalCapacity == |C.Seats(View(), courses.Keys)| && totalEnrolled <= totalCapacity
    {
      var list := ListOut(courses.Keys);
      ghost var t := View();
      C.TotalsOfListing(t, list);
      totalCapacity, totalEnrolled := 0, 0;
      var i := 0;
      while i < |list|
        invariant 0 <= i <= |list| && View() == t
        invariant totalCapacity == C.SumCapacity(t, list[..i]) && totalEnrolled == C.SumEnrolled(t, list[..i])
      {
        var course := FindById(list[i], false);
        C.SumsUpTo(t, list, i);
        totalCapacity := totalCapacity + course.value.capacity;
        totalEnrolled := totalEnrolled + course.value.enrolled;
        i := i + 1;
      }
      assert list[..i] == list;
      totalRegistrations := CountActive();
    }
  }

  /** What a call does when it runs alone: its body, or an exception that changes nothing. */
  ghost predicate RunsAlone(t: Tables, busy: bool, op: Op, x: Failures, commitFails: bool, r: Result, t': Tables) {
    if busy || commitFails || BodyWith(t, op, x).WriteThrew? then t' == t && r == Failed(Exception, 0)
    else BodyWith(t, op, x) == Written(t', r)
  }

  /** Reactivation is the identity on a pair without a dropped row. */
  lemma UntouchedUnlessDropped(t: Tables, s: int, c: int)
    ensures !Dropped(t, s, c) ==> Activate(t, s, c, true) == t
  {
    if !Dropped(t, s, c) {
      var t' := Activate(t, s, c, true);
      forall id | id in t.regs ensures t'.regs[id] == t.regs[id] {
        assert t.regs[id] != RegRow(s, c, false);
      }
      assert t'.regs == t.regs;
    }
  }

  lemma SameRowsOf(t: Tables, t': Tables, s: int, c: int)
    requires Valid(t) && (t' == t || t' == Activate(t, s, c, true))
    ensures UniquePairs(t'.regs) && RowsOf(t', s, c) == RowsOf(t, s, c)
    ensures RowsOf(t, s, c) != {} ==> AnyRow(t', s, c) == AnyRow(t, s, c)
  {
    assert RowsOf(t', s, c) == RowsOf(t, s, c);
    if RowsOf(t, s, c) != {} {
      OneRowPerPair(t, s, c, AnyRow(t, s, c));
    }
  }

  class RegistrationService {
    const db: Database
    var mutexes: map<int, nat>
    var nextMutex: nat

    constructor (db: Database)
      ensures this.db == db && mutexes == map[]
    {
      this.db, mutexes, nextMutex := db, map[], 0;
    }

    /** Looked up under the shared lock first; try_emplace does not replace an entry. */
    method GetCourseMutex(c: int) returns (m: nat)
      modifies this`mutexes, this`nextMutex
      ensures c in mutexes && m == mutexes[c]
      ensures c in old(mutexes) ==> mutexes == old(mutexes) && nextMutex == old(nextMutex)
      ensures c !in old(mutexes) ==>
        mutexes == old(mutexes)[c := old(nextMutex)] && nextMutex == old(nextMutex) + 1
    {
      if c in mutexes {
        m := mutexes[c];
      } else {
        mutexes, nextMutex := mutexes[c := nextMutex], nextMutex + 1;
        m := mutexes[c];
      }
    }

    /** x says which statements fail silently. */
    method RegisterStudent(s: int, c: int, x: Failures, commitFails: bool) returns (r: Result)
      requires db.Consistent()
      modifies this`mutexes, this`nextMutex, db
      ensures RunsAlone(old(db.View()), old(db.saved).Some?, Register(s, c), x, commitFails, r, db.View())
      ensures db.saved == old(db.saved) && (!Overbooks(old(db.View()), Register(s, c), x) ==> db.Consistent())
    {
      var m := GetCourseMutex(c);
      C.EnrolKeepsValidExactly(db.View(), Register(s, c), x);
      var began := db.BeginTransaction();
      if !began {
        return Failed(Exception, 0);
      }
      var threw := false;
      var course := db.FindById(c, x.find);
      var enrolled := db.Exists(s, c, x.exist);
      if course.None? {
        r := Failed(CourseNotFound, 0);
      } else if enrolled {
        r := Failed(AlreadyEnrolled, course.value.capacity - course.value.enrolled);
      } else {
        var count := db.GetEnrolledCount(c, x.count);
        var remaining := course.value.capacity - count;
        if remaining <= 0 {
          r := Failed(CourseFull, 0);
        } else {
          var id := db.Create(s, c, x);
          threw := id.None?;
          r := if threw then Failed(Exception, 0) else Result(true, id.value, NoError, remaining - 1);
        }
      }
      if threw || commitFails {
        db.Rollback();
        r := Failed(Exception, 0);
      } else {
        db.Commit();
      }
    }

    method DropStudent(s: int, c: int, x: Failures, commitFails: bool) returns (r: Result)
      requires db.Consistent()
      modifies this`mutexes, this`nextMutex, db
      ensures RunsAlone(old(db.View()), old(db.saved).Some?, Drop(s, c), x, commitFails, r, db.View())
      ensures db.Consistent() && db.saved == old(db.saved)
    {
      var m := GetCourseMutex(c);
      C.EnrolKeepsValidExactly(db.View(), Drop(s, c), x);
      var began := db.BeginTransaction();
      if !began {
        return Failed(Exception, 0);
      }
      var enrolled := db.Exists(s, c, x.exist);
      if !enrolled {
        r := Failed(NotEnrolled, 0);
      } else {
        db.DropRegistration(s, c, x.drop);
        var course := db.FindById(c, x.findAfter);
        var remaining := if course.Some? then course.value.capacity - course.value.enrolled + 1 else 0;
        r := Result(true, 0, NoError, remaining);
      }
      if commitFails {
        db.Rollback();
        r := Failed(Exception, 0);
      } else {
        db.Commit();
      }
    }
  }

  class CourseService {
    const db: Database

    constructor (db: Database)
      ensures this.db == db
    {
      this.db := db;
    }

    method CreateCourse(f: C.Form, q: C.Requester, x: C.Faults) returns (r: C.CourseResult)
      requires db.Consistent()
      modifies db`courses, db`nextCourse
      ensures C.Outcome(db.View(), r) == C.CreateCourse(old(db.View()), f, q, x)
      ensures r.success ==> r.id !in old(db.courses) && r.id in db.courses
      ensures r.success ==> C.ReadBack(db.View(), r.id) == f.(id := r.id)
      ensures !r.success ==> db.courses == old(db.courses)
      ensures db.Consistent()
    {
      C.CourseCreateKeepsValid(db.View(), f, q, x);
      if q.role != C.Admin && q.role != C.Faculty { return C.CourseFailed(C.Unauthorized); }
      if f.code == "" { return C.CourseFailed(C.CodeRequired); }
      if f.name == "" { return C.CourseFailed(C.NameRequired); }
      if f.capacity <= 0 { return C.CourseFailed(C.CapacityNotPositive); }
      if f.credits <= 0 || f.credits > 6 { return C.CourseFailed(C.BadCredits); }
      var taken := exists c | c in db.courses :: db.courses[c].code == f.code;
      if !x.find && taken { return C.CourseFailed(C.CodeExists); }
      if x.write || taken || f.faculty !in db.users { return C.CourseFailed(C.CreateFailed); }
      r := C.CourseResult(true, db.nextCourse, C.NoCourseError);
      var row := CourseRow(f.code, f.name, f.credits, f.faculty, f.capacity, f.schedule);
      db.courses := db.courses[db.nextCourse := row];
      db.nextCourse := db.nextCourse + 1;
    }

    method UpdateCourse(f: C.Form, q: C.Requester, x: C.Faults) returns (r: C.CourseResult)
      requires db.Consistent()
      modifies db`courses
      ensures C.Outcome(db.View(), r) == C.UpdateCourse(old(db.View()), f, q, x)
      ensures !C.Undercuts(old(db.View()), f, q, x) ==> db.Consistent()
    {
      C.UpdateKeepsValidExactly(db.View(), f, q, x);
      var existing := db.FindById(f.id, x.find);
      if existing.None? { return C.CourseFailed(C.NotFound); }
      if q.role == C.Faculty && existing.value.faculty != q.id { return C.CourseFailed(C.NotYours); }
      if f.name == "" { return C.CourseFailed(C.NameRequired); }
      if f.capacity <= 0 { return C.CourseFailed(C.CapacityNotPositive); }
      var enrolled := db.GetEnrolledCount(f.id, x.count);
      if f.capacity < enrolled { return C.CourseFailed(C.BelowEnrolment); }
      if !x.write && f.faculty in db.users {
        var row := db.courses[f.id];
        db.courses := db.courses[f.id := CourseRow(row.code, f.name, f.credits, f.faculty, f.capacity, f.schedule)];
      }
      r := C.CourseResult(true, f.id, C.NoCourseError);
    }

    method DeleteCourse(c: int, q: C.Requester, x: C.Faults) returns (r: C.CourseResult)
      requires db.Consistent()
      modifies db`courses, db`regs
      ensures C.Outcome(db.View(), r) == C.DeleteCourse(old(db.View()), c, q, x)
      ensures db.Consistent()
    {
      C.RemoveCourseKeepsValid(db.View(), c);
      ghost var t := db.View();
      if q.role != C.Admin {
        var existing := db.FindById(c, x.find);
        if existing.None? { return C.CourseFailed(C.NotFound); }
        if q.role == C.Faculty && existing.value.faculty != q.id { return C.CourseFailed(C.NotYours); }
      }
      if !x.write {
        db.courses := db.courses - {c};
        db.regs := map id | id in db.regs && db.regs[id].course != c :: db.regs[id];
        assert db.regs == C.RemoveCourse(t, c).regs;
      }
      r := C.CourseResult(true, c, C.NoCourseError);
    }
  }
}
