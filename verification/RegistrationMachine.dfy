/**
 Any number of threads running register_student and drop_student, step by step: the
 double-checked map of course mutexes under a shared lock, the course mutex, and a transaction
 on the one connection that all threads share. BEGIN IMMEDIATE fails when a transaction is
 already open on the connection, and that failure does not touch the open transaction.
 */
module RegistrationMachine {
  import opened RegistrationTables

  type Tid = nat
  type MutexId = nat

  /** Where a thread is in its call. Holding states are named after what has just been acquired. */
  datatype Pc =
    | Idle
    | Lookup(op: Op)
    | ReadingMap(op: Op)
    | WantsInsert(op: Op)
    | WritingMap(op: Op)
    | HasMutex(op: Op, mutex: MutexId)
    | Locked(op: Op, mutex: MutexId)
    | InTx(op: Op, mutex: MutexId)
    | Checked(op: Op, mutex: MutexId, remaining: int)
    | Throwing(op: Op, mutex: MutexId)
    | Returning(op: Op, mutex: MutexId, result: Result)
    | Unlocking(op: Op, mutex: MutexId, result: Result)
    | Returned(op: Op, result: Result)

  datatype Conn = Closed | Open(owner: Tid, saved: Tables)

  datatype Writer = NoWriter | Writer(tid: Tid)

  /** A committed call, in the order of the commits. */
  datatype Entry = Entry(tid: Tid, op: Op, result: Result)

  datatype State = State(
    tables: Tables,
    conn: Conn,
    readers: set<Tid>,
    writer: Writer,
    mutexes: map<int, MutexId>,
    nextMutex: MutexId,
    owners: map<MutexId, Tid>,
    threads: seq<Pc>,
    log: seq<Entry>)

  datatype Step =
    | Start(tid: Tid, op: Op)
    | Move(tid: Tid)
    | Fault(tid: Tid)
    | Finish(tid: Tid)

  predicate OwnsMutex(p: Pc) {
    p.Locked? || p.InTx? || p.Checked? || p.Throwing? || p.Returning? || p.Unlocking?
  }

  predicate KnowsMutex(p: Pc) { p.HasMutex? || OwnsMutex(p) }

  predicate OwnsTx(p: Pc) { p.InTx? || p.Checked? || p.Throwing? || p.Returning? }

  predicate CanThrow(p: Pc) { p.Locked? || p.InTx? || p.Checked? || p.Returning? }

  const EXCEPTION: Result := Failed(Exception, 0)

  /** A thread can move unless the lock it needs next is taken. */
  predicate CanMove(s: State, t: Tid) {
    t < |s.threads| &&
    match s.threads[t]
    case Idle => false
    case Returned(_, _) => false
    case Lookup(_) => s.writer.NoWriter?
    case WantsInsert(_) => s.writer.NoWriter? && s.readers == {}
    case HasMutex(_, m) => m !in s.owners
    case _ => true
  }

  /**
   BEGIN, COMMIT, the preparation of any statement and the INSERT throw when they fail. A SELECT or
   UPDATE whose step fails does not throw; those failures are in SilentFailures.
   */
  predicate Enabled(s: State, step: Step) {
    match step
    case Start(t, _) => t < |s.threads| && s.threads[t].Idle?
    case Finish(t) => t < |s.threads| && s.threads[t].Returned?
    case Move(t) => CanMove(s, t)
    case Fault(t) => t < |s.threads| && CanThrow(s.threads[t])
  }

  function Goto(s: State, t: Tid, p: Pc): State
    requires t < |s.threads|
  {
    s.(threads := s.threads[t := p])
  }

  /** try_emplace: an existing entry stays. */
  function Emplace(s: State, c: int): State {
    if c in s.mutexes then s
    else s.(mutexes := s.mutexes[c := s.nextMutex], nextMutex := s.nextMutex + 1)
  }

  ghost function Advance(s: State, t: Tid): State
    requires CanMove(s, t)
  {
    match s.threads[t]
    case Lookup(op) => Goto(s.(readers := s.readers + {t}), t, ReadingMap(op))
    case ReadingMap(op) =>
      Goto(s.(readers := s.readers - {t}), t,
           if op.course in s.mutexes then HasMutex(op, s.mutexes[op.course]) else WantsInsert(op))
    case WantsInsert(op) => Goto(s.(writer := Writer(t)), t, WritingMap(op))
    case WritingMap(op) =>
      var s' := Emplace(s, op.course);
      Goto(s'.(writer := NoWriter), t, HasMutex(op, s'.mutexes[op.course]))
    case HasMutex(op, m) => Goto(s.(owners := s.owners[m := t]), t, Locked(op, m))
    case Locked(op, m) =>
      if s.conn.Open? then Goto(s, t, Unlocking(op, m, EXCEPTION))
      else Goto(s.(conn := Open(t, s.tables)), t, InTx(op, m))
    case InTx(op, m) =>
      (match Check(s.tables, op)
       case Refuse(r) => Goto(s, t, Returning(op, m, r))
       case Proceed(remaining) => Goto(s, t, Checked(op, m, remaining)))
    case Checked(op, m, remaining) =>
      (match Write(s.tables, op, remaining)
       case WriteThrew => Goto(s, t, Throwing(op, m))
       case Written(tables, r) => Goto(s.(tables := tables), t, Returning(op, m, r)))
    case Throwing(op, m) =>
      var before := if s.conn.Open? then s.conn.saved else s.tables;
      Goto(s.(tables := before, conn := Closed), t, Unlocking(op, m, EXCEPTION))
    case Returning(op, m, r) =>
      Goto(s.(conn := Closed, log := s.log + [Entry(t, op, r)]), t, Unlocking(op, m, r))
    case Unlocking(op, m, r) => Goto(s.(owners := s.owners - {m}), t, Returned(op, r))
    case _ => s
  }

  ghost function Apply(s: State, step: Step): State
    requires Enabled(s, step)
  {
    match step
    case Start(t, op) => Goto(s, t, Lookup(op))
    case Finish(t) => Goto(s, t, Idle)
    case Move(t) => Advance(s, t)
    case Fault(t) =>
      var p := s.threads[t];
      if p.Locked? then Goto(s, t, Unlocking(p.op, p.mutex, EXCEPTION)) else Goto(s, t, Throwing(p.op, p.mutex))
  }

  /** The database as the last commit left it. */
  function Committed(s: State): Tables {
    if s.conn.Open? then s.conn.saved else s.tables
  }

  ghost predicate Init(s: State) {
    && Valid(s.tables) && s.conn.Closed? && s.readers == {} && s.writer.NoWriter?
    && s.mutexes == map[] && s.nextMutex == 0 && s.owners == map[] && s.log == []
    && forall t :: 0 <= t < |s.threads| ==> s.threads[t].Idle? || s.threads[t].Lookup?
  }

  ghost predicate Legal(s: State, schedule: seq<Step>)
    decreases |schedule|
  {
    schedule == [] || (Enabled(s, schedule[0]) && Legal(Apply(s, schedule[0]), schedule[1..]))
  }

  ghost function After(s: State, schedule: seq<Step>): State
    requires Legal(s, schedule)
    decreases |schedule|
  {
    if schedule == [] then s else After(Apply(s, schedule[0]), schedule[1..])
  }

  /* ---------- What every step keeps ---------- */

  /** The shared lock on the map: its holders are the threads inside the two sections. */
  ghost predicate MapLockInv(s: State) {
    && (forall t: Tid :: t in s.readers <==> t < |s.threads| && s.threads[t].ReadingMap?)
    && (forall t: Tid :: s.writer == Writer(t) <==> t < |s.threads| && s.threads[t].WritingMap?)
    && (s.writer.Writer? ==> s.readers == {})
  }

  /** One mutex per course, never replaced; a thread that knows a mutex knows that of its course. */
  ghost predicate MutexMapInv(s: State) {
    && (forall c :: c in s.mutexes ==> s.mutexes[c] < s.nextMutex)
    && (forall c, d :: c in s.mutexes && d in s.mutexes && s.mutexes[c] == s.mutexes[d] ==> c == d)
    && (forall t :: 0 <= t < |s.threads| && KnowsMutex(s.threads[t]) ==>
          var p := s.threads[t]; p.op.course in s.mutexes && s.mutexes[p.op.course] == p.mutex)
  }

  ghost predicate OwnersInv(s: State) {
    && (forall m :: m in s.owners ==>
          var t := s.owners[m]; t < |s.threads| && OwnsMutex(s.threads[t]) && s.threads[t].mutex == m)
    && (forall t :: 0 <= t < |s.threads| && OwnsMutex(s.threads[t]) ==>
          s.threads[t].mutex in s.owners && s.owners[s.threads[t].mutex] == t)
  }

  ghost predicate ConnInv(s: State) {
    && (s.conn.Open? ==> s.conn.owner < |s.threads| && OwnsTx(s.threads[s.conn.owner]))
    && (forall t :: 0 <= t < |s.threads| && OwnsTx(s.threads[t]) ==> s.conn.Open? && s.conn.owner == t)
  }

  /** What the thread in a transaction has seen and written, in terms of the saved tables. */
  ghost predicate TxInv(s: State) {
    && Valid(Committed(s)) && Valid(s.tables)
    && (s.conn.Open? && s.conn.owner < |s.threads| ==>
          match s.threads[s.conn.owner]
          case InTx(_, _) => s.tables == s.conn.saved
          case Checked(op, _, remaining) => s.tables == s.conn.saved && Check(s.tables, op) == Proceed(remaining)
          case Returning(op, _, r) => Body(s.conn.saved, op) == Written(s.tables, r)
          case _ => true)
  }

  ghost predicate Inv(s: State) {
    MapLockInv(s) && MutexMapInv(s) && OwnersInv(s) && ConnInv(s) && TxInv(s)
  }

  /** A step moves one thread, and moves its locks along with it. */
  ghost predicate OneThreadMoves(s: State, s': State, t: Tid) {
    t < |s.threads| && |s'.threads| == |s.threads| && s'.threads == s.threads[t := s'.threads[t]]
  }

  ghost predicate MapLockMoves(s: State, s': State, t: Tid) {
    && OneThreadMoves(s, s', t)
    && var p, q := s.threads[t], s'.threads[t];
       && (p.ReadingMap? ==> !q.ReadingMap?)
       && (q.ReadingMap? ==> s.writer.NoWriter?)
       && (q.WritingMap? ==> s.writer.NoWriter? && s.readers == {})
       && s'.readers == (if q.ReadingMap? then s.readers + {t}
                         else if p.ReadingMap? then s.readers - {t} else s.readers)
       && s'.writer == (if q.WritingMap? then Writer(t) else if p.WritingMap? then NoWriter else s.writer)
  }

  ghost predicate MutexMapMoves(s: State, s': State, t: Tid) {
    && OneThreadMoves(s, s', t)
    && ((s'.mutexes == s.mutexes && s'.nextMutex == s.nextMutex)
        || exists c :: c !in s.mutexes && s'.mutexes == s.mutexes[c := s.nextMutex] && s'.nextMutex == s.nextMutex + 1)
    && var p, q := s.threads[t], s'.threads[t];
       KnowsMutex(q) ==> (
         || (KnowsMutex(p) && p.op == q.op && p.mutex == q.mutex)
         || (q.op.course in s'.mutexes && s'.mutexes[q.op.course] == q.mutex))
  }

  ghost predicate OwnersMove(s: State, s': State, t: Tid) {
    && OneThreadMoves(s, s', t)
    && var p, q := s.threads[t], s'.threads[t];
       if OwnsMutex(q) && !OwnsMutex(p) then q.mutex !in s.owners && s'.owners == s.owners[q.mutex := t]
       else if OwnsMutex(q) then q.mutex == p.mutex && s'.owners == s.owners
       else if OwnsMutex(p) then s'.owners == s.owners - {p.mutex}
       else s'.owners == s.owners
  }

  ghost predicate ConnMoves(s: State, s': State, t: Tid) {
    && OneThreadMoves(s, s', t)
    && var p, q := s.threads[t], s'.threads[t];
       if OwnsTx(q) && !OwnsTx(p) then s.conn.Closed? && s'.conn == Open(t, s.tables)
       else if OwnsTx(q) then s'.conn == s.conn
       else if OwnsTx(p) then s'.conn == Closed
       else s'.conn == s.conn
  }

  /** Entries of the mutex map are never replaced. */
  ghost predicate MutexesGrow(s: State, s': State) {
    forall c :: c in s.mutexes ==> c in s'.mutexes && s'.mutexes[c] == s.mutexes[c]
  }

  lemma StepMovesMapLock(s: State, step: Step)
    requires Enabled(s, step)
    ensures MapLockMoves(s, Apply(s, step), step.tid)
  {
  }

  lemma AdvanceMovesOwners(s: State, t: Tid)
    requires CanMove(s, t)
    ensures OwnersMove(s, Advance(s, t), t)
  {
    var p := s.threads[t];
    if p.HasMutex? || p.Unlocking? {
      assert Advance(s, t).threads[t] == if p.HasMutex? then Locked(p.op, p.mutex) else Returned(p.op, p.result);
    } else {
      assert Advance(s, t).owners == s.owners;
    }
  }

  lemma StepMovesOwners(s: State, step: Step)
    requires Enabled(s, step)
    ensures OwnersMove(s, Apply(s, step), step.tid)
  {
    if step.Move? {
      AdvanceMovesOwners(s, step.tid);
    }
  }

  /** Only BEGIN, COMMIT and ROLLBACK touch the connection. */
  lemma OpeningMovesConn(s: State, t: Tid)
    requires CanMove(s, t) && s.threads[t].Locked?
    ensures ConnMoves(s, Advance(s, t), t)
  {
  }

  lemma ClosingMovesConn(s: State, t: Tid)
    requires CanMove(s, t) && (s.threads[t].Throwing? || s.threads[t].Returning?)
    ensures ConnMoves(s, Advance(s, t), t)
  {
  }

  lemma OtherMovesConn(s: State, t: Tid)
    requires CanMove(s, t) && !s.threads[t].Locked? && !s.threads[t].Throwing? && !s.threads[t].Returning?
    ensures ConnMoves(s, Advance(s, t), t)
  {
    assert Advance(s, t).conn == s.conn;
  }

  lemma StepMovesConn(s: State, step: Step)
    requires Enabled(s, step)
    ensures ConnMoves(s, Apply(s, step), step.tid)
  {
    if step.Move? {
      var p := s.threads[step.tid];
      if p.Locked? {
        OpeningMovesConn(s, step.tid);
      } else if p.Throwing? || p.Returning? {
        ClosingMovesConn(s, step.tid);
      } else {
        OtherMovesConn(s, step.tid);
      }
    }
  }

  lemma StepMovesMutexMap(s: State, step: Step)
    requires Enabled(s, step)
    ensures MutexMapMoves(s, Apply(s, step), step.tid)
  {
  }

  lemma KeepsMapLock(s: State, s': State, t: Tid)
    requires MapLockInv(s) && MapLockMoves(s, s', t)
    ensures MapLockInv(s')
  {
  }

  lemma KeepsMutexMap(s: State, s': State, t: Tid)
    requires MutexMapInv(s) && MutexMapMoves(s, s', t)
    ensures MutexMapInv(s')
  {
  }

  lemma KeepsOwners(s: State, s': State, t: Tid)
    requires OwnersInv(s) && OwnersMove(s, s', t)
    ensures OwnersInv(s')
  {
  }

  lemma KeepsConn(s: State, s': State, t: Tid)
    requires ConnInv(s) && ConnMoves(s, s', t)
    ensures ConnInv(s')
  {
  }

  /** Only the thread that owns the transaction, or begins it, touches tables or connection. */
  lemma OthersKeepTx(s: State, s': State, t: Tid)
    requires ConnInv(s) && TxInv(s) && OneThreadMoves(s, s', t) && !OwnsTx(s.threads[t])
    requires s'.tables == s.tables && s'.conn == s.conn
    ensures TxInv(s')
  {
  }

  lemma WriteKeepsTx(s: State, t: Tid)
    requires ConnInv(s) && TxInv(s) && CanMove(s, t) && s.threads[t].Checked?
    ensures TxInv(Advance(s, t))
  {
    var p := s.threads[t];
    assert Body(s.tables, p.op) == Write(s.tables, p.op, p.remaining);
    if Body(s.tables, p.op).Written? {
      BodyKeepsValid(s.tables, p.op);
    }
  }

  lemma OwnerKeepsTx(s: State, t: Tid)
    requires ConnInv(s) && TxInv(s) && CanMove(s, t)
    requires (OwnsTx(s.threads[t]) && !s.threads[t].Checked?) || s.threads[t].Locked?
    ensures TxInv(Advance(s, t))
  {
  }

  lemma StepKeepsTx(s: State, step: Step)
    requires ConnInv(s) && TxInv(s) && Enabled(s, step)
    ensures TxInv(Apply(s, step))
  {
    var t := step.tid;
    var p := s.threads[t];
    if step.Move? && p.Checked? {
      WriteKeepsTx(s, t);
    } else if step.Move? && (OwnsTx(p) || p.Locked?) {
      OwnerKeepsTx(s, t);
    } else if !OwnsTx(p) {
      OthersKeepTx(s, Apply(s, step), t);
    }
  }

  lemma StepKeepsInv(s: State, step: Step)
    requires Inv(s) && Enabled(s, step)
    ensures Inv(Apply(s, step)) && |Apply(s, step).threads| == |s.threads| && MutexesGrow(s, Apply(s, step))
  {
    var s', t := Apply(s, step), step.tid;
    StepMovesMapLock(s, step);
    StepMovesOwners(s, step);
    StepMovesConn(s, step);
    StepMovesMutexMap(s, step);
    KeepsMapLock(s, s', t);
    KeepsMutexMap(s, s', t);
    KeepsOwners(s, s', t);
    KeepsConn(s, s', t);
    StepKeepsTx(s, step);
  }

  lemma {:induction false} RunKeepsInv(s: State, schedule: seq<Step>)
    requires Inv(s) && Legal(s, schedule)
    ensures Inv(After(s, schedule)) && |After(s, schedule).threads| == |s.threads|
    ensures MutexesGrow(s, After(s, schedule))
    decreases |schedule|
  {
    if schedule == [] {
    } else {
      StepKeepsInv(s, schedule[0]);
      RunKeepsInv(Apply(s, schedule[0]), schedule[1..]);
    }
  }

  /** In any run, calls for one course get one mutex and calls for different courses different ones. */
  lemma OneMutexPerCourse(s: State, earlier: seq<Step>, later: seq<Step>, t: Tid, u: Tid)
    requires Inv(s) && Legal(s, earlier) && Legal(After(s, earlier), later)
    requires t < |s.threads| && u < |s.threads|
    requires |After(s, earlier).threads| == |s.threads| && |After(After(s, earlier), later).threads| == |s.threads|
    requires KnowsMutex(After(s, earlier).threads[t]) && KnowsMutex(After(After(s, earlier), later).threads[u])
    ensures var p, q := After(s, earlier).threads[t], After(After(s, earlier), later).threads[u];
            p.mutex == q.mutex <==> p.op.course == q.op.course
  {
    RunKeepsInv(s, earlier);
    RunKeepsInv(After(s, earlier), later);
  }

  /** A course mutex is held by one thread at a time, and a transaction by the thread that began it. */
  lemma MutualExclusion(s: State, t: Tid, u: Tid)
    requires Inv(s) && t < |s.threads| && u < |s.threads|
    ensures OwnsMutex(s.threads[t]) && OwnsMutex(s.threads[u]) ==>
      s.threads[t].op.course == s.threads[u].op.course ==> t == u
    ensures OwnsTx(s.threads[t]) && OwnsTx(s.threads[u]) ==> t == u
  {
  }
}
