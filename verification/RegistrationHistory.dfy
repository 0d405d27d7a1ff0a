/**
 The history of the registrations table: rows are never removed by register and drop, there is
 one per pair that was ever registered, and registering again returns the same id.
 */
module RegistrationHistory {
  import opened RegistrationTables
  import opened RegistrationMachine
  import opened RegistrationRefinement

  ghost function PairOf(r: RegRow): (int, int) { (r.student, r.course) }

  ghost function PairsOf(regs: map<int, RegRow>): set<(int, int)> {
    set id | id in regs :: PairOf(regs[id])
  }

  /** Rows stay where they are; only their status changes. */
  ghost predicate RowsKept(before: map<int, RegRow>, after: map<int, RegRow>) {
    forall id :: id in before ==> id in after && PairOf(after[id]) == PairOf(before[id])
  }

  /** The pairs of the successful registrations in a log. */
  ghost function Registered(log: seq<Entry>): set<(int, int)> {
    set e | e in log && e.op.Register? && e.result.success :: (e.op.student, e.op.course)
  }

  /** The ids that successful registrations returned are those of their rows. */
  ghost predicate IdsAreRows(regs: map<int, RegRow>, log: seq<Entry>) {
    forall e :: e in log && e.op.Register? && e.result.success ==>
      e.result.id in regs && PairOf(regs[e.result.id]) == (e.op.student, e.op.course)
  }

  lemma {:induction false} RowsArePairs(regs: map<int, RegRow>, ids: set<int>)
    requires UniquePairs(regs) && forall id :: id in ids ==> id in regs
    ensures |set id | id in ids :: PairOf(regs[id])| == |ids|
    decreases |ids|
  {
    SomeElement(ids);
    if id :| id in ids {
      RowsArePairs(regs, ids - {id});
      var rest := set k | k in ids - {id} :: PairOf(regs[k]);
      assert (set k | k in ids :: PairOf(regs[k])) == rest + {PairOf(regs[id])};
    } else {
      assert ids == {};
    }
  }

  lemma RowsCountPairs(regs: map<int, RegRow>)
    requires UniquePairs(regs)
    ensures |regs| == |PairsOf(regs)|
  {
    RowsArePairs(regs, regs.Keys);
    assert PairsOf(regs) == set id | id in regs.Keys :: PairOf(regs[id]);
  }

  /** What a body does to rows. */
  lemma BodyRows(t: Tables, op: Op)
    requires Valid(t) && Body(t, op).Written?
    ensures var Written(t', r) := Body(t, op);
      && RowsKept(t.regs, t'.regs)
      && (op.Register? && r.success ==> r.id in t'.regs && PairOf(t'.regs[r.id]) == (op.student, op.course))
      && forall id :: id in t'.regs && id !in t.regs ==> op.Register? && r.success && id == r.id
  {
    if Check(t, op).Proceed? && op.Register? {
      CreateEffect(t, op.student, op.course);
    }
  }

  lemma BodyPairs(t: Tables, op: Op)
    requires Valid(t) && Body(t, op).Written?
    ensures var Written(t', r) := Body(t, op);
      PairsOf(t'.regs) == PairsOf(t.regs) + if op.Register? && r.success then {(op.student, op.course)} else {}
  {
    BodyRows(t, op);
    var Written(t', r) := Body(t, op);
    var added := if op.Register? && r.success then {(op.student, op.course)} else {};
    forall p ensures p in PairsOf(t'.regs) <==> p in PairsOf(t.regs) || p in added {
      if p in PairsOf(t'.regs) {
        var id :| id in t'.regs && PairOf(t'.regs[id]) == p;
        assert id in t.regs || id == r.id;
      }
      if p in PairsOf(t.regs) {
        var id :| id in t.regs && PairOf(t.regs[id]) == p;
        assert PairOf(t'.regs[id]) == p;
      }
    }
  }

  /** base is the set of pairs that had rows before the log began. */
  ghost predicate HistoryInv(s: State, base: set<(int, int)>) {
    PairsOf(Committed(s).regs) == base + Registered(s.log) && IdsAreRows(Committed(s).regs, s.log)
  }

  lemma RegisteredAppend(log: seq<Entry>, e: Entry)
    ensures Registered(log + [e]) ==
      Registered(log) + if e.op.Register? && e.result.success then {(e.op.student, e.op.course)} else {}
  {
    assert (log + [e])[|log|] == e;
    assert forall x :: x in log + [e] <==> x in log || x == e;
  }

  lemma CommitKeepsHistory(saved: Tables, t': Tables, log: seq<Entry>, e: Entry, base: set<(int, int)>)
    requires Valid(saved) && Body(saved, e.op) == Written(t', e.result)
    requires PairsOf(saved.regs) == base + Registered(log) && IdsAreRows(saved.regs, log)
    ensures PairsOf(t'.regs) == base + Registered(log + [e]) && IdsAreRows(t'.regs, log + [e])
    ensures RowsKept(saved.regs, t'.regs)
  {
    BodyRows(saved, e.op);
    BodyPairs(saved, e.op);
    RegisteredAppend(log, e);
  }

  lemma StepKeepsHistory(s: State, step: Step, base: set<(int, int)>)
    requires Inv(s) && Enabled(s, step) && HistoryInv(s, base)
    ensures HistoryInv(Apply(s, step), base) && RowsKept(Committed(s).regs, Committed(Apply(s, step)).regs)
  {
    if step.Move? && s.threads[step.tid].Returning? {
      var p := s.threads[step.tid];
      CommitKeepsHistory(s.conn.saved, s.tables, s.log, Entry(step.tid, p.op, p.result), base);
    } else {
      QuietStep(s, step);
    }
  }

  lemma {:induction false} RunKeepsHistory(s: State, schedule: seq<Step>, base: set<(int, int)>)
    requires Inv(s) && Legal(s, schedule) && HistoryInv(s, base)
    ensures Inv(After(s, schedule)) && HistoryInv(After(s, schedule), base)
    ensures RowsKept(Committed(s).regs, Committed(After(s, schedule)).regs)
    decreases |schedule|
  {
    if schedule == [] {
    } else {
      StepKeepsInv(s, schedule[0]);
      StepKeepsHistory(s, schedule[0], base);
      RunKeepsHistory(Apply(s, schedule[0]), schedule[1..], base);
    }
  }

  lemma InitHistory(s: State)
    requires Init(s)
    ensures Inv(s) && HistoryInv(s, PairsOf(s.tables.regs)) && Committed(s) == s.tables
  {
    assert Registered(s.log) == {};
  }

  lemma HistoryCountsRows(s: State, base: set<(int, int)>)
    requires Valid(Committed(s)) && HistoryInv(s, base)
    ensures |Committed(s).regs| == |base + Registered(s.log)|
  {
    RowsCountPairs(Committed(s).regs);
  }

  /** After any run the table has one row for each pair that had one or was ever registered. */
  lemma OneRowPerRegisteredPair(s: State, schedule: seq<Step>)
    requires Init(s) && Legal(s, schedule)
    ensures var s' := After(s, schedule);
      && |Committed(s').regs| == |PairsOf(s.tables.regs) + Registered(s'.log)|
      && RowsKept(s.tables.regs, Committed(s').regs)
  {
    InitHistory(s);
    RunKeepsHistory(s, schedule, PairsOf(s.tables.regs));
    HistoryCountsRows(After(s, schedule), PairsOf(s.tables.regs));
  }

  /** Two successful registrations of one pair return one id, whatever happened in between. */
  lemma SamePairSameId(s: State, schedule: seq<Step>, i: nat, j: nat)
    requires Init(s) && Legal(s, schedule)
    requires var log := After(s, schedule).log;
      && i < |log| && j < |log| && log[i].op.Register? && log[j].op.Register?
      && log[i].result.success && log[j].result.success
    ensures var log := After(s, schedule).log;
      log[i].result.id == log[j].result.id <==>
        log[i].op.student == log[j].op.student && log[i].op.course == log[j].op.course
  {
    InitHistory(s);
    RunKeepsHistory(s, schedule, PairsOf(s.tables.regs));
    var log := After(s, schedule).log;
    assert log[i] in log && log[j] in log;
  }
}
