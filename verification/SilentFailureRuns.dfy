/**
 Interleaved runs in which the statements of any transaction may fail without throwing: each call
 carries the failures that its transaction meets. Capacity holds throughout a run, and all its
 commits are atomic, exactly under the conditions that the bodies have on their own.
 */
module SilentFailureRuns {
  import opened RegistrationTables
  import opened RegistrationMachine
  import opened RegistrationRefinement
  import opened SilentFailures

  /** The machine, and the failures that each thread's call meets. */
  datatype FState = FState(base: State, fails: seq<Failures>)

  /** A step; when it starts a call, x is what the call's transaction will meet. */
  datatype FStep = FStep(step: Step, x: Failures)

  ghost predicate FEnabled(f: FState, st: FStep) {
    |f.fails| == |f.base.threads| && Enabled(f.base, st.step)
  }

  /** The reads and the write of a transaction run with the failures of its call. */
  ghost function FAdvance(s: State, t: Tid, x: Failures): State
    requires CanMove(s, t)
  {
    match s.threads[t]
    case InTx(op, m) =>
      (match CheckWith(s.tables, op, x)
       case Refuse(r) => Goto(s, t, Returning(op, m, r))
       case Proceed(remaining) => Goto(s, t, Pc.Checked(op, m, remaining)))
    case Checked(op, m, remaining) =>
      (match WriteWith(s.tables, op, remaining, x)
       case WriteThrew => Goto(s, t, Throwing(op, m))
       case Written(tables, r) => Goto(s.(tables := tables), t, Returning(op, m, r)))
    case _ => Advance(s, t)
  }

  ghost function FApply(f: FState, st: FStep): FState
    requires FEnabled(f, st)
  {
    match st.step
    case Start(t, _) => FState(Apply(f.base, st.step), f.fails[t := st.x])
    case Move(t) => f.(base := FAdvance(f.base, t, f.fails[t]))
    case _ => f.(base := Apply(f.base, st.step))
  }

  /** A call that meets no failure moves as in the machine without them. */
  lemma NoFailuresIsTheMachine(s: State, t: Tid)
    requires CanMove(s, t) && Valid(s.tables)
    ensures FAdvance(s, t, NONE) == Advance(s, t)
  {
    match s.threads[t]
    case InTx(op, _) => NoFailuresIsBody(s.tables, op);
    case Checked(op, _, remaining) => NoFailuresIsWrite(s.tables, op, remaining);
    case _ =>
  }

  ghost predicate FLegal(f: FState, schedule: seq<FStep>)
    decreases |schedule|
  {
    schedule == [] || (FEnabled(f, schedule[0]) && FLegal(FApply(f, schedule[0]), schedule[1..]))
  }

  /** What the thread in a transaction has seen and written, given its failures. */
  ghost predicate FTxInv(f: FState) {
    && |f.fails| == |f.base.threads|
    && (f.base.conn.Open? && f.base.conn.owner < |f.base.threads| ==>
          var x := f.fails[f.base.conn.owner];
          match f.base.threads[f.base.conn.owner]
          case InTx(_, _) => f.base.tables == f.base.conn.saved
          case Checked(op, _, remaining) =>
            f.base.tables == f.base.conn.saved && CheckWith(f.base.conn.saved, op, x) == Proceed(remaining)
          case Returning(op, _, r) => BodyWith(f.base.conn.saved, op, x) == Written(f.base.tables, r)
          case _ => true)
  }

  ghost predicate LocksInv(s: State) { MapLockInv(s) && MutexMapInv(s) && OwnersInv(s) && ConnInv(s) }

  ghost predicate FInv(f: FState) { LocksInv(f.base) && FTxInv(f) }

  /** The reads and the write of a transaction: the steps that failures can touch. */
  predicate InsideTx(s: State, step: Step) {
    step.Move? && step.tid < |s.threads| && (s.threads[step.tid].InTx? || s.threads[step.tid].Checked?)
  }

  lemma FStepMovesConn(f: FState, st: FStep)
    requires FEnabled(f, st)
    ensures ConnMoves(f.base, FApply(f, st).base, st.step.tid)
  {
    if InsideTx(f.base, st.step) {
    } else {
      StepMovesConn(f.base, st.step);
      if st.step.Move? {
        assert FApply(f, st).base == Advance(f.base, st.step.tid);
      }
    }
  }

  /** Reads and writes touch no lock. */
  lemma InsideTxKeepsLocks(f: FState, st: FStep)
    requires LocksInv(f.base) && FEnabled(f, st) && InsideTx(f.base, st.step)
    ensures LocksInv(FApply(f, st).base)
  {
    var s, s', t := f.base, FApply(f, st).base, st.step.tid;
    assert MapLockMoves(s, s', t) && MutexMapMoves(s, s', t);
    assert OwnersMove(s, s', t) && ConnMoves(s, s', t);
    KeepsMapLock(s, s', t);
    KeepsMutexMap(s, s', t);
    KeepsOwners(s, s', t);
    KeepsConn(s, s', t);
  }

  lemma FStepKeepsLocks(f: FState, st: FStep)
    requires LocksInv(f.base) && FEnabled(f, st)
    ensures LocksInv(FApply(f, st).base)
  {
    var s, t := f.base, st.step.tid;
    if InsideTx(s, st.step) {
      InsideTxKeepsLocks(f, st);
    } else {
      var s' := Apply(s, st.step);
      assert FApply(f, st).base == s';
      StepMovesMapLock(s, st.step);
      StepMovesMutexMap(s, st.step);
      StepMovesOwners(s, st.step);
      StepMovesConn(s, st.step);
      KeepsMapLock(s, s', t);
      KeepsMutexMap(s, s', t);
      KeepsOwners(s, s', t);
      KeepsConn(s, s', t);
    }
  }

  lemma InsideTxKeepsInv(f: FState, st: FStep)
    requires ConnInv(f.base) && FTxInv(f) && FEnabled(f, st) && InsideTx(f.base, st.step)
    ensures FTxInv(FApply(f, st))
    ensures Committed(FApply(f, st).base) == Committed(f.base)
  {
    assert f.base.conn.owner == st.step.tid;
  }

  /** Other steps leave the tables of an open transaction alone. */
  lemma OutsideTxKeepsInv(f: FState, st: FStep)
    requires ConnInv(f.base) && FTxInv(f) && FEnabled(f, st) && !InsideTx(f.base, st.step)
    ensures FTxInv(FApply(f, st))
  {
    var s, s', t := f.base, FApply(f, st).base, st.step.tid;
    FStepMovesConn(f, st);
    if s'.conn.Open? && s'.conn.owner != t {
      OthersLeaveTables(s, st.step);
    }
  }

  lemma OthersLeaveTables(s: State, step: Step)
    requires ConnInv(s) && Enabled(s, step) && s.conn.Open? && s.conn.owner != step.tid
    ensures Apply(s, step).tables == s.tables && Apply(s, step).conn == s.conn
  {
  }

  /** A thread commits: its transaction is open, and what it leaves is what its body left. */
  ghost predicate Commits(f: FState, st: FStep) {
    st.step.Move? && st.step.tid < |f.base.threads| && f.base.threads[st.step.tid].Returning?
  }

  lemma StepKeepsFInv(f: FState, st: FStep)
    requires FInv(f) && FEnabled(f, st)
    ensures FInv(FApply(f, st))
    ensures !Commits(f, st) ==> Committed(FApply(f, st).base) == Committed(f.base)
  {
    FStepKeepsLocks(f, st);
    if InsideTx(f.base, st.step) {
      InsideTxKeepsInv(f, st);
    } else {
      OutsideTxKeepsInv(f, st);
      if !Commits(f, st) {
        QuietStep(f.base, st.step);
      }
    }
  }

  /** A commit publishes what the body left of the saved tables. */
  lemma CommitPublishes(f: FState, st: FStep)
    requires FInv(f) && FEnabled(f, st) && Commits(f, st)
    ensures var p, f' := f.base.threads[st.step.tid], FApply(f, st);
      && BodyWith(Committed(f.base), p.op, f.fails[st.step.tid]) == Written(Committed(f'.base), p.result)
      && f'.base.log == f.base.log + [Entry(st.step.tid, p.op, p.result)]
  {
    assert f.base.conn.Open? && f.base.conn.owner == st.step.tid;
  }

  /* ---------- Capacity over interleaved runs ---------- */

  ghost predicate CommitOverbooks(f: FState, st: FStep) {
    && Commits(f, st) && st.step.tid < |f.fails|
    && Overbooks(Committed(f.base), f.base.threads[st.step.tid].op, f.fails[st.step.tid])
  }

  /** The committed database is valid at every moment of the run. */
  ghost predicate StaysValidThroughout(f: FState, schedule: seq<FStep>)
    requires FLegal(f, schedule)
    decreases |schedule|
  {
    Valid(Committed(f.base)) && (schedule == [] || StaysValidThroughout(FApply(f, schedule[0]), schedule[1..]))
  }

  ghost predicate NoCommitOverbooks(f: FState, schedule: seq<FStep>)
    requires FLegal(f, schedule)
    decreases |schedule|
  {
    schedule == [] || (
      !CommitOverbooks(f, schedule[0]) && NoCommitOverbooks(FApply(f, schedule[0]), schedule[1..]))
  }

  lemma StepStaysValidExactly(f: FState, st: FStep)
    requires FInv(f) && FEnabled(f, st) && Valid(Committed(f.base))
    ensures Valid(Committed(FApply(f, st).base)) <==> !CommitOverbooks(f, st)
  {
    StepKeepsFInv(f, st);
    if Commits(f, st) {
      CommitPublishes(f, st);
      CapacitySurvivesExactly(Committed(f.base), f.base.threads[st.step.tid].op, f.fails[st.step.tid]);
    }
  }

  /**
   In every interleaved run, whatever fails silently in whichever transaction, the database is
   valid throughout, no course over its capacity, exactly when no transaction that commits has a
   failing count of a full course and then takes a seat.
   */
  lemma {:induction false} CapacityHoldsExactly(f: FState, schedule: seq<FStep>)
    requires FInv(f) && Valid(Committed(f.base)) && FLegal(f, schedule)
    ensures StaysValidThroughout(f, schedule) <==> NoCommitOverbooks(f, schedule)
    decreases |schedule|
  {
    if schedule == [] {
    } else {
      StepKeepsFInv(f, schedule[0]);
      StepStaysValidExactly(f, schedule[0]);
      if !CommitOverbooks(f, schedule[0]) {
        CapacityHoldsExactly(FApply(f, schedule[0]), schedule[1..]);
      }
    }
  }

  /* ---------- Atomicity over interleaved runs ---------- */

  /** A commit is a step of the relation and names the row of its pair. */
  ghost predicate CommitIsAtomic(f: FState, st: FStep)
    requires FEnabled(f, st)
  {
    Commits(f, st) ==>
      var p, t' := f.base.threads[st.step.tid], Committed(FApply(f, st).base);
      Takes(Abs(Committed(f.base)), p.op, p.result, Abs(t')) && NamesItsRow(t', p.op, p.result)
  }

  ghost predicate CommitIsHarmless(f: FState, st: FStep)
    requires FEnabled(f, st)
  {
    Commits(f, st) ==> Harmless(Committed(f.base), f.base.threads[st.step.tid].op, f.fails[st.step.tid])
  }

  ghost predicate AllAtomic(f: FState, schedule: seq<FStep>)
    requires FLegal(f, schedule)
    decreases |schedule|
  {
    schedule == [] || (CommitIsAtomic(f, schedule[0]) && AllAtomic(FApply(f, schedule[0]), schedule[1..]))
  }

  ghost predicate AllHarmless(f: FState, schedule: seq<FStep>)
    requires FLegal(f, schedule)
    decreases |schedule|
  {
    schedule == [] || (CommitIsHarmless(f, schedule[0]) && AllHarmless(FApply(f, schedule[0]), schedule[1..]))
  }

  lemma StepAtomicExactly(f: FState, st: FStep)
    requires FInv(f) && FEnabled(f, st) && Valid(Committed(f.base))
    ensures CommitIsAtomic(f, st) <==> CommitIsHarmless(f, st)
    ensures CommitIsHarmless(f, st) ==> Valid(Committed(FApply(f, st).base))
  {
    StepKeepsFInv(f, st);
    if Commits(f, st) {
      var t, op, x := Committed(f.base), f.base.threads[st.step.tid].op, f.fails[st.step.tid];
      CommitPublishes(f, st);
      AtomicitySurvivesExactly(t, op, x);
      UnnoticedExactly(t, op, x);
      if Harmless(t, op, x) { BodyKeepsValid(t, op); }
    }
  }

  /** In every interleaved run, all commits are atomic exactly when the failures of all of them are harmless. */
  lemma {:induction false} AtomicityHoldsExactly(f: FState, schedule: seq<FStep>)
    requires FInv(f) && Valid(Committed(f.base)) && FLegal(f, schedule)
    ensures AllAtomic(f, schedule) <==> AllHarmless(f, schedule)
    decreases |schedule|
  {
    if schedule == [] {
    } else {
      StepKeepsFInv(f, schedule[0]);
      StepAtomicExactly(f, schedule[0]);
      if CommitIsHarmless(f, schedule[0]) {
        AtomicityHoldsExactly(FApply(f, schedule[0]), schedule[1..]);
      }
    }
  }
}
