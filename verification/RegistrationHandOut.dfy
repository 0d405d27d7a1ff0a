/**
 Students racing for one course get exactly the free seats: in every complete schedule the first
 k calls to commit succeed, told k-1, k-2, ... remaining seats, and all others find it full.
 */
module RegistrationHandOut {
  import opened Orders
  import opened RegistrationTables
  import opened RegistrationMachine
  import opened RegistrationProgress
  import opened RegistrationRefinement

  /* ---------- One after the other ---------- */

  ghost predicate RacesFor(log: seq<Entry>, c: int) {
    && (forall i :: 0 <= i < |log| ==> log[i].op.Register? && log[i].op.course == c)
    && (forall i, j :: 0 <= i < j < |log| ==> log[i].op.student != log[j].op.student)
  }

  function Min(a: int, b: int): int { if a < b then a else b }

  /** What the i-th to commit is told when k seats were free before the first. */
  ghost predicate IthOfRace(r: Result, i: int, k: int) {
    if i < k then r.success && r.remaining == k - 1 - i && r.error == NoError
    else !r.success && r.error == CourseFull
  }

  lemma TakeSeat(e: Enrolment, s: int, c: int)
    requires (s, c) !in e.pairs
    ensures |Taken(e.(pairs := e.pairs + {(s, c)}), c)| == |Taken(e, c)| + 1
  {
    assert Taken(e.(pairs := e.pairs + {(s, c)}), c) == Taken(e, c) + {(s, c)};
  }

  lemma {:induction false} SequentialRace(e: Enrolment, log: seq<Entry>, e': Enrolment, c: int)
    requires Replays(e, log, e') && RacesFor(log, c)
    requires c in e.capacity && forall i :: 0 <= i < |log| ==> (log[i].op.student, c) !in e.pairs
    ensures var k := e.capacity[c] - |Taken(e, c)|;
      && (forall i :: 0 <= i < |log| ==> IthOfRace(log[i].result, i, k))
      && (k >= 0 ==> |Taken(e', c)| == |Taken(e, c)| + Min(|log|, k))
    decreases |log|
  {
    if log == [] {
    } else {
      var k := e.capacity[c] - |Taken(e, c)|;
      var m :| Takes(e, log[0].op, log[0].result, m) && Replays(m, log[1..], e');
      if log[0].result.success {
        TakeSeat(e, log[0].op.student, c);
      }
      var rest := log[1..];
      SequentialRace(m, rest, e', c);
      assert forall i :: 1 <= i < |log| ==> log[i] == rest[i - 1];
    }
  }

  /* ---------- Racing ---------- */

  predicate Done(p: Pc) { p.Unlocking? || p.Returned? }

  /** Every thread is about to register its own student for c; nothing else is going on. */
  ghost predicate RaceStart(s: State, c: int, students: seq<int>) {
    && Inv(s) && s.log == [] && c in s.tables.courses
    && |s.threads| == |students| && Distinct(students)
    && forall t :: 0 <= t < |students| ==>
         && s.threads[t] == Lookup(Register(students[t], c))
         && students[t] in s.tables.users && !Enrolled(s.tables, students[t], c)
  }

  /** Nobody fails; those who are done are in the log, once each. */
  ghost predicate RaceInv(s: State, c: int, students: seq<int>) {
    && |s.threads| == |students|
    && (forall t :: 0 <= t < |students| ==>
          && !s.threads[t].Idle? && !s.threads[t].Throwing? && s.threads[t].op == Register(students[t], c)
          && students[t] in s.tables.users
          && (Done(s.threads[t]) ==> Entry(t, s.threads[t].op, s.threads[t].result) in s.log))
    && (forall j :: 0 <= j < |s.log| ==>
          && s.log[j].tid < |s.threads| && Done(s.threads[s.log[j].tid])
          && s.log[j].op == s.threads[s.log[j].tid].op && s.log[j].result == s.threads[s.log[j].tid].result)
    && (forall i, j :: 0 <= i < j < |s.log| ==> s.log[i].tid != s.log[j].tid)
  }

  /** With one course there is one mutex, so nobody finds a transaction open. */
  lemma NoCollision(s: State, c: int, students: seq<int>, t: Tid)
    requires Inv(s) && RaceInv(s, c, students) && t < |s.threads| && s.threads[t].Locked?
    ensures s.conn.Closed?
  {
    if s.conn.Open? {
      MutualExclusion(s, t, s.conn.owner);
      assert false;
    }
  }

  lemma WriteSucceeds(s: State, c: int, students: seq<int>, t: Tid)
    requires Inv(s) && RaceInv(s, c, students) && t < |s.threads| && s.threads[t].Checked?
    ensures Write(s.tables, s.threads[t].op, s.threads[t].remaining).Written?
    ensures Write(s.tables, s.threads[t].op, s.threads[t].remaining).tables.users == s.tables.users
  {
    CreateEffect(s.tables, students[t], c);
  }

  /** Before its commit a thread's move keeps the race going. */
  lemma MoveInRace(s: State, c: int, students: seq<int>, t: Tid)
    requires Inv(s) && RaceInv(s, c, students) && CanMove(s, t) && !s.threads[t].Returning?
    ensures var s' := Advance(s, t);
      && OneThreadMoves(s, s', t) && s'.log == s.log && s'.tables.users == s.tables.users
      && var p, q := s.threads[t], s'.threads[t];
         && !q.Idle? && !q.Throwing? && q.op == p.op && Done(q) == Done(p) && (Done(p) ==> q.result == p.result)
  {
    if s.threads[t].Locked? {
      NoCollision(s, c, students, t);
    } else if s.threads[t].Checked? {
      WriteSucceeds(s, c, students, t);
    }
  }

  lemma QuietMoveKeepsRace(s: State, s': State, c: int, students: seq<int>, t: Tid)
    requires RaceInv(s, c, students)
    requires OneThreadMoves(s, s', t) && s'.log == s.log && s'.tables.users == s.tables.users
    requires var p, q := s.threads[t], s'.threads[t];
      !q.Idle? && !q.Throwing? && q.op == p.op && Done(q) == Done(p) && (Done(p) ==> q.result == p.result)
    ensures RaceInv(s', c, students)
  {
  }

  lemma CommitKeepsRace(s: State, c: int, students: seq<int>, t: Tid)
    requires RaceInv(s, c, students) && CanMove(s, t) && s.threads[t].Returning?
    ensures RaceInv(Advance(s, t), c, students)
  {
    var s', p := Advance(s, t), s.threads[t];
    var e := Entry(t, p.op, p.result);
    assert s'.log[|s.log|] == e && forall x :: x in s.log ==> x in s'.log;
    assert s'.threads == s.threads[t := Unlocking(p.op, p.mutex, p.result)];
    forall j | 0 <= j < |s'.log| ensures s'.log[j].tid == t <==> j == |s.log| {
      if j < |s.log| { assert s'.log[j] == s.log[j] && Done(s.threads[s.log[j].tid]); }
    }
  }

  lemma MoveKeepsRace(s: State, c: int, students: seq<int>, t: Tid)
    requires Inv(s) && RaceInv(s, c, students) && CanMove(s, t)
    ensures RaceInv(Advance(s, t), c, students)
  {
    if s.threads[t].Returning? {
      CommitKeepsRace(s, c, students, t);
    } else {
      MoveInRace(s, c, students, t);
      QuietMoveKeepsRace(s, Advance(s, t), c, students, t);
    }
  }

  ghost predicate AllMoves(schedule: seq<Step>) {
    forall i :: 0 <= i < |schedule| ==> schedule[i].Move?
  }

  lemma {:induction false} RunKeepsRace(s: State, c: int, students: seq<int>, schedule: seq<Step>)
    requires Inv(s) && RaceInv(s, c, students) && Legal(s, schedule) && AllMoves(schedule)
    ensures Inv(After(s, schedule)) && RaceInv(After(s, schedule), c, students)
    decreases |schedule|
  {
    if schedule == [] {
    } else {
      StepKeepsInv(s, schedule[0]);
      MoveKeepsRace(s, c, students, schedule[0].tid);
      RunKeepsRace(Apply(s, schedule[0]), c, students, schedule[1..]);
    }
  }

  /* ---------- The result ---------- */

  ghost function Tids(log: seq<Entry>): seq<Tid> {
    seq(|log|, i requires 0 <= i < |log| => log[i].tid)
  }

  /** Every thread has returned, and has one entry in the log with the result it returned. */
  ghost predicate LogIsResults(s: State) {
    && IsPermutation(Tids(s.log), |s.threads|)
    && (forall i :: 0 <= i < |s.log| ==> s.threads[Tids(s.log)[i]] == Returned(s.log[i].op, s.log[i].result))
  }

  ghost function Winners(s: State): set<Tid> {
    set t: Tid | t < |s.threads| && s.threads[t].Returned? && s.threads[t].result.success
  }

  lemma EverybodyIsLogged(s: State, c: int, students: seq<int>)
    requires RaceInv(s, c, students) && forall t :: 0 <= t < |s.threads| ==> s.threads[t].Returned?
    ensures LogIsResults(s)
  {
    var tids := Tids(s.log);
    assert Distinct(tids);
    forall t: Tid ensures t in tids <==> t < |s.threads| {
      if t < |s.threads| {
        var j :| 0 <= j < |s.log| && s.log[j] == Entry(t, s.threads[t].op, s.threads[t].result);
        assert tids[j] == t;
      }
    }
    CompleteIsPermutation(tids, |s.threads|);
  }

  lemma FirstOfPermutation(tids: seq<Tid>, n: nat, w: nat)
    requires IsPermutation(tids, n) && w <= n
    ensures |set t: Tid | t < n && t in tids[..w]| == w
  {
    ElementsSize(tids[..w]);
    assert (set t: Tid | t < n && t in tids[..w]) == Elements(tids[..w]);
  }

  lemma CountWinners(s: State, k: nat)
    requires LogIsResults(s) && forall i :: 0 <= i < |s.log| ==> IthOfRace(s.log[i].result, i, k)
    ensures |Winners(s)| == Min(|s.threads|, k)
  {
    var n, w, tids := |s.threads|, Min(|s.threads|, k), Tids(s.log);
    FirstOfPermutation(tids, n, w);
    forall t: Tid ensures t in Winners(s) <==> t < n && t in tids[..w] {
      if t in tids[..w] {
        var i :| 0 <= i < w && tids[i] == t;
      } else if t < n {
        var i := ComesLater(tids, n, w, t);
      }
    }
    assert Winners(s) == set t: Tid | t < n && t in tids[..w];
  }

  lemma LogIsARace(s: State, s': State, c: int, students: seq<int>)
    requires RaceStart(s, c, students) && RaceInv(s', c, students)
    ensures Committed(s) == s.tables && Valid(s.tables)
    ensures RacesFor(s'.log, c)
    ensures forall i :: 0 <= i < |s'.log| ==> !Enrolled(s.tables, s'.log[i].op.student, c)
  {
  }

  ghost function FreeSeats(t: Tables, c: int): int
    requires c in t.courses
  {
    t.courses[c].capacity - EnrolledCount(t, c)
  }

  lemma RaceIsAQueue(t: Tables, log: seq<Entry>, t': Tables, c: int)
    requires UniquePairs(t.regs) && UniquePairs(t'.regs) && WithinCapacity(t)
    requires c in t.courses && RacesFor(log, c) && Replays(Abs(t), log, Abs(t'))
    requires forall i :: 0 <= i < |log| ==> !Enrolled(t, log[i].op.student, c)
    ensures forall i :: 0 <= i < |log| ==> IthOfRace(log[i].result, i, FreeSeats(t, c))
    ensures EnrolledCount(t', c) == EnrolledCount(t, c) + Min(|log|, FreeSeats(t, c))
  {
    forall i | 0 <= i < |log| ensures (log[i].op.student, c) !in Abs(t).pairs {
      EnrolledIsPair(t, log[i].op.student, c);
    }
    TakenIsEnrolled(t, c);
    TakenIsEnrolled(t', c);
    SequentialRace(Abs(t), log, Abs(t'), c);
  }

  /**
   The exact hand-out. n students, each with their own thread, race for a course with k free
   seats. However the moves interleave, when no thread can move any more every call has
   returned, min(n, k) of them have won, and the i-th to commit was told what the i-th in a
   queue of n would be told.
   */
  lemma ExactHandOut(s: State, c: int, students: seq<int>, schedule: seq<Step>)
    requires RaceStart(s, c, students) && Legal(s, schedule) && AllMoves(schedule)
    requires forall t: Tid :: !CanMove(After(s, schedule), t)
    ensures var k, s' := FreeSeats(s.tables, c), After(s, schedule);
      && k >= 0 && |s'.threads| == |students| && LogIsResults(s')
      && (forall i :: 0 <= i < |s'.log| ==> IthOfRace(s'.log[i].result, i, k))
      && |Winners(s')| == Min(|students|, k)
      && EnrolledCount(Committed(s'), c) == EnrolledCount(s.tables, c) + Min(|students|, k)
  {
    var s' := After(s, schedule);
    assert RaceInv(s, c, students);
    RunKeepsRace(s, c, students, schedule);
    AtRestMeansReturned(s, schedule);
    EverybodyIsLogged(s', c, students);
    var entries := EveryRunIsAtomic(s, schedule);
    assert s'.log == entries;
    LogIsARace(s, s', c, students);
    RaceIsAQueue(s.tables, s'.log, Committed(s'), c);
    CountWinners(s', FreeSeats(s.tables, c));
  }
}
