/**
 The file operations as loops over records and in-place array updates, each critical section
 proved to do what the FileStore module says it does.
 */
module FileStoreClass {
  import opened FileStore
  import Answers = FileStoreAnswers

  lemma {:induction false} WithoutAppend(cs: seq<Course>, c: Course, id: Id)
    ensures Without(cs + [c], id) == Without(cs, id) + if c.id == id then [] else [c]
  {
    if cs == [] {
      assert cs + [c] == [c] && [c][1..] == [];
      assert Without([c], id) == (if c.id == id then [] else [c]) + Without([], id);
    } else {
      assert (cs + [c])[1..] == cs[1..] + [c];
      WithoutAppend(cs[1..], c, id);
    }
  }

  class Store {
    var students: seq<Student>
    var courses: seq<Course>

    ghost function View(): Files
      reads this
    {
      Files(students, courses)
    }

    constructor ()
      ensures View() == Files([], [])
    {
      students, courses := [], [];
    }

    /** The read loop: stops at the first record with the id, or at the end of the file. */
    method FindStudent(id: Id) returns (pos: nat)
      ensures pos == StudentAt(students, id)
    {
      pos := 0;
      while pos < |students| && students[pos].id != id
        invariant pos <= |students|
        invariant forall k :: 0 <= k < pos ==> students[k].id != id
      {
        pos := pos + 1;
      }
      var r := StudentAt(students, id);
      assert !(r < pos) && !(pos < r);
    }

    method FindCourse(id: Id) returns (pos: nat)
      ensures pos == CourseAt(courses, id)
    {
      pos := 0;
      while pos < |courses| && courses[pos].id != id
        invariant pos <= |courses|
        invariant forall k :: 0 <= k < pos ==> courses[k].id != id
      {
        pos := pos + 1;
      }
      var r := CourseAt(courses, id);
      assert !(r < pos) && !(pos < r);
    }

    method AddStudent(id: Id)
      modifies this
      ensures View() == FileStore.AddStudent(old(View()), id)
    {
      students := students + [Student(id, true, EmptyRow(MAX_COURSES))];
    }

    method SetActive(id: Id, active: bool) returns (code: Code)
      modifies this
      ensures (View(), code) == FileStore.SetActive(old(View()), id, active)
    {
      var pos := FindStudent(id);
      if pos == |students| { return NotFound; }
      students := students[pos := students[pos].(active := active)];
      return Ok;
    }

    method AddCourse(id: Id, seats: int) returns (code: Code)
      modifies this
      ensures (View(), code) == FileStore.AddCourse(old(View()), id, seats)
    {
      var pos := FindCourse(id);
      if pos < |courses| { return NotFound; }
      courses := courses + [Course(id, seats, 0, EmptyRow(MAX_USERS))];
      return Ok;
    }

    /** Clears the entries from position n on, as the loop over memset does. */
    method ClearFrom(a: array<Id>, n: nat)
      requires n <= a.Length
      modifies a
      ensures a[..] == old(a[..n]) + EmptyRow(a.Length - n)
    {
      var i := n;
      while i < a.Length
        invariant n <= i <= a.Length
        invariant forall k :: 0 <= k < n ==> a[k] == old(a[k])
        invariant forall k :: n <= k < i ==> a[k] == ""
      {
        a[i] := "";
        i := i + 1;
      }
    }

    method UpdateCourse(id: Id, seats: int) returns (code: Code)
      requires WellFormed(View()) && 0 <= seats <= MAX_USERS
      modifies this
      ensures (View(), code) == FileStore.UpdateCourse(old(View()), id, seats)
      ensures var j := CourseAt(old(courses), id);
        if j < |old(courses)| then code == Ok && j < |courses| && courses[j].id == id && courses[j].seats == seats
        else code == NotFound && View() == old(View())
    {
      var pos := FindCourse(id);
      if pos == |courses| { return NotFound; }
      var course := courses[pos].(seats := seats);
      if course.count > seats {
        var row := new Id[MAX_USERS](i requires 0 <= i < MAX_USERS => course.enrolled[i]);
        assert row[..] == course.enrolled;
        ClearFrom(row, seats);
        course := course.(count := seats, enrolled := row[..]);
      }
      courses := courses[pos := course];
      return Ok;
    }

    /** The first critical section of remove_course: the copy without the course takes its place. */
    method RemoveRecord(id: Id) returns (code: Code)
      modifies this
      ensures (View(), code) == FileStore.RemoveRecord(old(View()), id)
    {
      var pos := FindCourse(id);
      if pos == |courses| { return NotFound; }
      var temp: seq<Course> := [];
      for i := 0 to |courses|
        invariant View() == old(View()) && temp == Without(courses[..i], id)
      {
        WithoutAppend(courses[..i], courses[i], id);
        if courses[i].id != id {
          temp := temp + [courses[i]];
        }
        assert courses[..i + 1] == courses[..i] + [courses[i]];
      }
      assert courses[..|courses|] == courses;
      courses := temp;
      return Ok;
    }

    /** remove_course when nothing comes between its critical sections. */
    method RemoveCourse(id: Id) returns (code: Code)
      modifies this
      ensures (View(), code) == Answers.Remove(old(View()), id)
    {
      code := RemoveRecord(id);
      ClearStudents(id);
    }

    method ClearRow(slots: seq<Id>, id: Id) returns (cleared: seq<Id>)
      ensures cleared == ClearSlots(slots, id)
    {
      var row := new Id[|slots|](i requires 0 <= i < |slots| => slots[i]);
      for i := 0 to |slots|
        invariant forall k :: 0 <= k < i ==> row[k] == if slots[k] == id then "" else slots[k]
        invariant forall k :: i <= k < |slots| ==> row[k] == slots[k]
      {
        if row[i] == id { row[i] := ""; }
      }
      return row[..];
    }

    /** The second critical section of remove_course. */
    method ClearStudents(id: Id)
      modifies this
      ensures View() == FileStore.ClearStudents(old(View()), id)
    {
      var pos := 0;
      while pos < |students|
        invariant pos <= |students| == |old(students)| && courses == old(courses)
        invariant forall k :: 0 <= k < pos ==>
          students[k] == old(students)[k].(slots := ClearSlots(old(students)[k].slots, id))
        invariant forall k :: pos <= k < |students| ==> students[k] == old(students)[k]
      {
        var slots := ClearRow(students[pos].slots, id);
        students := students[pos := students[pos].(slots := slots)];
        pos := pos + 1;
      }
    }

    /** Scans the slots for the course and the first hole; stops when the course is there. */
    method ScanSlots(slots: seq<Id>, cid: Id) returns (already: bool, empty: int)
      ensures already == (cid in slots)
      ensures !already ==> empty == if IndexOf(slots, "") == |slots| then -1 else IndexOf(slots, "")
    {
      already, empty := false, -1;
      for i := 0 to |slots|
        invariant cid !in slots[..i]
        invariant empty == -1 ==> "" !in slots[..i]
        invariant empty != -1 ==> 0 <= empty < i && slots[empty] == "" && "" !in slots[..empty]
      {
        if slots[i] == cid { return true, empty; }
        if empty == -1 && slots[i] == "" { empty := i; }
        assert slots[..i + 1] == slots[..i] + [slots[i]];
      }
      assert slots == slots[..|slots|];
      var k := IndexOf(slots, "");
      assert k < |slots| ==> slots[k] in slots;
      assert empty != -1 ==> !(k < empty);
    }

    method OnRoster(course: Course, sid: Id) returns (found: bool)
      requires CourseOk(course)
      ensures found == (sid in Roster(course))
    {
      var i := 0;
      while i < course.count
        invariant 0 <= i <= course.count
        invariant sid !in Roster(course)[..i]
      {
        if course.enrolled[i] == sid {
          assert Roster(course)[i] == sid;
          return true;
        }
        assert Roster(course)[..i + 1] == Roster(course)[..i] + [Roster(course)[i]];
        i := i + 1;
      }
      assert Roster(course)[..i] == Roster(course);
      return false;
    }

    method Enroll(sid: Id, cid: Id) returns (code: Code)
      requires WellFormed(View())
      modifies this
      ensures (View(), code) == FileStore.Enroll(old(View()), sid, cid)
    {
      var spos := FindStudent(sid);
      if spos == |students| { return NotFound; }
      var student := students[spos];
      if !student.active { return Blocked; }
      var already, empty := ScanSlots(student.slots, cid);
      if already { return AlreadyEnrolled; }
      if empty == -1 { return Full; }
      var cpos := FindCourse(cid);
      if cpos == |courses| { return CourseNotFound; }
      var course := courses[cpos];
      if course.count >= course.seats { return Full; }
      var listed := OnRoster(course, sid);
      if listed { return AlreadyEnrolled; }
      students := students[spos := student.(slots := student.slots[empty := cid])];
      courses := courses[cpos := course.(enrolled := course.enrolled[course.count := sid], count := course.count + 1)];
      return Ok;
    }

    /** The shift loop: entries after position i move up by one, up to position count - 1. */
    method ShiftUp(a: array<Id>, i: nat, count: nat)
      requires i < count <= a.Length
      modifies a
      ensures a[..] == old(a[..i]) + old(a[i + 1..count]) + old(a[count - 1..])
    {
      var j := i;
      while j < count - 1
        invariant i <= j <= count - 1
        invariant forall k :: 0 <= k < i ==> a[k] == old(a[k])
        invariant forall k :: i <= k < j ==> a[k] == old(a[k + 1])
        invariant forall k :: j <= k < a.Length ==> a[k] == old(a[k])
      {
        a[j] := a[j + 1];
        j := j + 1;
      }
    }

    /** The search loop over the enrolled prefix. */
    method RosterPosition(course: Course, x: Id) returns (i: nat)
      requires CourseOk(course)
      ensures i == IndexOf(Roster(course), x)
    {
      i := 0;
      while i < course.count && course.enrolled[i] != x
        invariant 0 <= i <= course.count
        invariant forall k :: 0 <= k < i ==> Roster(course)[k] != x
      {
        i := i + 1;
      }
      var k := IndexOf(Roster(course), x);
      assert !(k < i);
      assert i < course.count ==> Roster(course)[i] == x;
    }

    method Unlist(course: Course, x: Id) returns (r: Course)
      requires CourseOk(course)
      ensures r == FileStore.Unlist(course, x)
    {
      r := course;
      var i := RosterPosition(course, x);
      if i < course.count {
        var row := new Id[MAX_USERS](m requires 0 <= m < MAX_USERS => course.enrolled[m]);
        ghost var before := row[..];
        assert before == course.enrolled;
        ShiftUp(row, i, course.count);
        r := course.(count := course.count - 1, enrolled := row[..]);
        assert row[..] == before[..i] + before[i + 1..course.count] + before[course.count - 1..];
      }
    }

    /** The first critical section of unenroll_course. */
    method DropFromCourse(sid: Id, cid: Id)
      requires WellFormed(View())
      modifies this
      ensures View() == FileStore.DropFromCourse(old(View()), sid, cid)
    {
      var pos := FindCourse(cid);
      if pos < |courses| {
        var course := Unlist(courses[pos], sid);
        courses := courses[pos := course];
      }
    }

    /** The second critical section of unenroll_course. */
    method DropFromStudent(sid: Id, cid: Id) returns (code: Code)
      modifies this
      ensures (View(), code) == FileStore.DropFromStudent(old(View()), sid, cid)
      ensures var i := StudentAt(old(students), sid);
        code == if i == |old(students)| then NotFound else if cid in old(students)[i].slots then Ok else NotEnrolled
    {
      var pos := FindStudent(sid);
      if pos == |students| { return NotFound; }
      var slots := students[pos].slots;
      for i := 0 to |slots|
        invariant cid !in slots[..i]
        invariant View() == old(View())
      {
        if slots[i] == cid {
          students := students[pos := students[pos].(slots := slots[i := ""])];
          assert !(IndexOf(slots, cid) < i);
          return Ok;
        }
        assert slots[..i + 1] == slots[..i] + [slots[i]];
      }
      assert slots[..|slots|] == slots;
      return NotEnrolled;
    }

    /** unenroll_course when nothing comes between its critical sections. */
    method UnenrollCourse(sid: Id, cid: Id) returns (code: Code)
      requires WellFormed(View())
      modifies this
      ensures (View(), code) == Answers.Unenroll(old(View()), sid, cid)
    {
      DropFromCourse(sid, cid);
      code := DropFromStudent(sid, cid);
    }
  }
}
