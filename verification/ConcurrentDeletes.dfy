/** Any number of writers and deleters on the memory journal.  A write is one transaction; a
    delete reads the rows of its id in one transaction and takes out the covered ones in another,
    and anything may be committed in between (DeleteEvents in eventstore/memory/events_store.go). */
module ConcurrentDeletes {
  import opened Base
  import opened Sequences
  import opened Journal
  import opened MemoryEvents

  datatype Job = Job(id: string, to: uint64, snapshot: seq<Row>) {
    function Targets(): seq<Row> {
      MemoryEvents.Targets(snapshot, to)
    }
  }

  datatype Finished = Finished(job: Job, ok: bool)

  // The table, with a record of every row ever committed and of the delete that took out each key.
  datatype State = State(
    live: seq<Row>,
    committed: seq<Row>,
    running: map<nat, Job>,
    finished: map<nat, Finished>,
    removals: map<string, nat>)

  const EMPTY := State([], [], map[], map[], map[])

  datatype Step =
    | Write(events: seq<Event>, keys: seq<string>)
    | Read(d: nat, id: string, to: uint64)
    | Commit(d: nat)

  ghost predicate Enabled(s: State, step: Step) {
    match step
    case Write(events, keys) => |keys| == |events| && FreshKeys(keys, s.committed)
    case Read(d, _, _) => d !in s.running && d !in s.finished
    case Commit(d) => d in s.running
  }

  function KeysOf(rows: seq<Row>): set<string> {
    set r | r in rows :: r.ordering
  }

  ghost function Next(s: State, step: Step): State
    requires Enabled(s, step)
  {
    match step
    case Write(events, keys) =>
      if forall e :: e in events ==> Present(e.persistenceId) then
        s.(live := InsertRows(s.live, RowsOf(events, keys)), committed := s.committed + RowsOf(events, keys))
      else s
    case Read(d, id, to) =>
      s.(running := s.running[d := Job(id, to, Snapshot(s.live, id))])
    case Commit(d) =>
      var job := s.running[d];
      var s' := s.(running := s.running - {d});
      match DeleteRows(s.live, job.Targets())
      case None => s'.(finished := s.finished[d := Finished(job, false)])
      case Some(left) =>
        s'.(live := left,
            finished := s.finished[d := Finished(job, true)],
            removals := s.removals + map key | key in KeysOf(job.Targets()) :: d)
  }

  // ----- The invariant, in parts -----

  ghost predicate Partitioned(s: State) {
    && OrderingsDistinct(s.committed) && OrderingsDistinct(s.live)
    && (forall r :: r in s.live ==> r in s.committed)
    && (forall r :: r in s.committed ==> (r in s.live <==> r.ordering !in s.removals))
  }

  ghost predicate JobValid(job: Job, committed: seq<Row>) {
    && OrderingsDistinct(job.snapshot)
    && (forall r :: r in job.snapshot ==> r in committed && r.event.persistenceId == job.id)
  }

  ghost predicate JobsValid(s: State) {
    && (forall d :: d in s.running ==> d !in s.finished && JobValid(s.running[d], s.committed))
    && (forall d :: d in s.finished ==> JobValid(s.finished[d].job, s.committed))
  }

  // Every removal is the work of a successful delete that aimed at the row.
  ghost predicate Justified(s: State) {
    forall key :: key in s.removals ==>
      && s.removals[key] in s.finished
      && s.finished[s.removals[key]].ok
      && key in KeysOf(s.finished[s.removals[key]].job.Targets())
  }

  ghost predicate SucceededAll(s: State, d: nat)
    requires d in s.finished
  {
    forall key :: key in KeysOf(s.finished[d].job.Targets()) ==> key in s.removals && s.removals[key] == d
  }

  ghost predicate ForestalledBy(s: State, job: Job, d: nat, key: string) {
    key in KeysOf(job.Targets()) && key in s.removals && s.removals[key] != d
  }

  ghost predicate Outcome(s: State, d: nat)
    requires d in s.finished
  {
    if s.finished[d].ok then SucceededAll(s, d)
    else exists key :: ForestalledBy(s, s.finished[d].job, d, key)
  }

  ghost predicate Outcomes(s: State) {
    forall d :: d in s.finished ==> Outcome(s, d)
  }

  ghost predicate Inv(s: State) {
    Partitioned(s) && JobsValid(s) && Justified(s) && Outcomes(s)
  }

  // ----- Steps keep it -----

  lemma WriteKeepsPartition(s: State, events: seq<Event>, keys: seq<string>)
    requires Inv(s) && |keys| == |events| && FreshKeys(keys, s.committed)
    ensures var added := RowsOf(events, keys);
      Partitioned(s.(live := InsertRows(s.live, added), committed := s.committed + added))
  {
    hide InsertRows, JobsValid, Justified, Outcomes, RowsOf;
    var added := RowsOf(events, keys);
    InsertRowsMembers(s.live, added);
    forall r | r in s.committed, x | x in added ensures r.ordering != x.ordering {
      FreshRow(s, events, keys, x);
    }
    forall r | r in added ensures r.ordering !in s.removals {
      FreshRow(s, events, keys, r);
    }
    InsertRowsDistinct(s.live, added);
  }

  lemma FreshRow(s: State, events: seq<Event>, keys: seq<string>, x: Row)
    requires Inv(s) && |keys| == |events| && FreshKeys(keys, s.committed) && x in RowsOf(events, keys)
    ensures forall r :: r in s.committed ==> r.ordering != x.ordering
    ensures x.ordering !in s.removals
  {
    var added := RowsOf(events, keys);
    var i :| 0 <= i < |added| && added[i] == x;
    assert x.ordering == keys[i];
    if x.ordering in s.removals {
      var job := s.finished[s.removals[x.ordering]].job;
      var t :| t in job.Targets() && t.ordering == x.ordering;
      TargetsCommitted(job, s.committed, t);
    }
  }

  lemma InsertRowsMembers(rows: seq<Row>, added: seq<Row>)
    ensures forall r :: r in InsertRows(rows, added) <==> r in rows || r in added
  {
    InsertRowsPermutes(rows, added);
    forall r ensures r in InsertRows(rows, added) <==> r in rows || r in added {
      assert r in InsertRows(rows, added) <==> r in multiset(InsertRows(rows, added));
      assert r in multiset(rows) + multiset(added) <==> r in multiset(rows) || r in multiset(added);
    }
  }

  lemma WriteKeepsInv(s: State, step: Step)
    requires Inv(s) && step.Write? && Enabled(s, step)
    ensures Inv(Next(s, step))
  {
    hide OrderingsDistinct, InsertRows, KeysOf;
    var s' := Next(s, step);
    if s' != s {
      WriteKeepsPartition(s, step.events, step.keys);
      OutcomesSame(s, s');
    }
  }

  lemma TargetsCommitted(job: Job, committed: seq<Row>, t: Row)
    requires JobValid(job, committed) && t in job.Targets()
    ensures t in committed && t in job.snapshot && Covered(job.id, job.to)(t.event)
  {
    FilterMembers(job.snapshot, OnEvent(UpTo(job.to)));
  }

  lemma {:induction false} InsertRowsDistinct(rows: seq<Row>, added: seq<Row>)
    requires OrderingsDistinct(rows) && OrderingsDistinct(added)
    requires forall r, x :: r in rows && x in added ==> r.ordering != x.ordering
    ensures OrderingsDistinct(InsertRows(rows, added))
  {
    hide InsertLeft;
    if added != [] {
      var n := |added| - 1;
      assert added == added[..n] + [added[n]];
      InsertRowsDistinct(rows, added[..n]);
      var before := InsertRows(rows, added[..n]);
      InsertRowsMembers(rows, added[..n]);
      forall i | 0 <= i < |before| ensures before[i].ordering != added[n].ordering {
        assert before[i] in before;
      }
      OneMoreDistinct(before, added[n]);
    }
  }

  lemma OneMoreDistinct(before: seq<Row>, x: Row)
    requires OrderingsDistinct(before)
    requires forall i :: 0 <= i < |before| ==> before[i].ordering != x.ordering
    ensures OrderingsDistinct(InsertLeft(before, x, RowLt()))
  {
    hide InsertLeft;
    var j := InsertLeftShape(before, x, RowLt());
  }

  // Deletes that are over keep their outcome while removals are only added to.
  lemma OutcomeKept(s: State, s': State, d: nat)
    requires d in s.finished && d in s'.finished && s'.finished[d] == s.finished[d] && Outcome(s, d)
    requires forall key :: key in s.removals ==> key in s'.removals && s'.removals[key] == s.removals[key]
    ensures Outcome(s', d)
  {
    hide KeysOf;
    if s.finished[d].ok {
      assert SucceededAll(s, d);
    } else {
      var key :| ForestalledBy(s, s.finished[d].job, d, key);
      assert ForestalledBy(s', s'.finished[d].job, d, key);
    }
  }

  lemma OutcomesSame(s: State, s': State)
    requires Outcomes(s) && s'.finished == s.finished && s'.removals == s.removals
    ensures Outcomes(s')
  {
    hide Outcome;
    forall d | d in s'.finished ensures Outcome(s', d) {
      OutcomeKept(s, s', d);
    }
  }

  lemma ReadKeepsInv(s: State, step: Step)
    requires Inv(s) && step.Read? && Enabled(s, step)
    ensures Inv(Next(s, step))
  {
    var s' := Next(s, step);
    FilterRowsDistinct(s.live, OnEvent(HasId(step.id)));
    FilterMembers(s.live, OnEvent(HasId(step.id)));
    assert JobValid(s'.running[step.d], s'.committed);
    OutcomesSame(s, s');
  }

  // A delete's commit goes through exactly when none of its targets has been taken out.
  lemma CommitVerdict(s: State, d: nat)
    requires Inv(s) && d in s.running
    ensures var targets := s.running[d].Targets();
      && (DeleteRows(s.live, targets).Some? <==> KeysOf(targets) !! s.removals.Keys)
      && (DeleteRows(s.live, targets).Some? ==>
            DeleteRows(s.live, targets).value == Filter(s.live, KeyNotAmong(targets)))
  {
    hide DeleteRows, Filter, MemoryEvents.Targets;
    var job := s.running[d];
    var targets := job.Targets();
    TargetsDistinct(job);
    DeleteRowsExact(s.live, targets);
    forall t | t in targets ensures HasKey(s.live, t.ordering) <==> t.ordering !in s.removals {
      TargetsCommitted(job, s.committed, t);
      if HasKey(s.live, t.ordering) {
        var r :| r in s.live && r.ordering == t.ordering;
        SameKey(s.committed, r, t);
      }
    }
  }

  lemma TargetsDistinct(job: Job)
    requires OrderingsDistinct(job.snapshot)
    ensures OrderingsDistinct(job.Targets())
  {
    FilterRowsDistinct(job.snapshot, OnEvent(UpTo(job.to)));
  }

  lemma SameKey(rows: seq<Row>, a: Row, b: Row)
    requires OrderingsDistinct(rows) && a in rows && b in rows && a.ordering == b.ordering
    ensures a == b
  {
  }

  lemma FailedCommitOutcome(s: State, d: nat)
    requires Inv(s) && d in s.running && DeleteRows(s.live, s.running[d].Targets()).None?
    ensures Outcome(Next(s, Commit(d)), d)
  {
    hide DeleteRows, OrderingsDistinct, KeysOf, MemoryEvents.Targets, JobsValid, Justified;
    var s' := Next(s, Commit(d));
    CommitVerdict(s, d);
    var key :| key in KeysOf(s.running[d].Targets()) && key in s.removals;
    assert key in s'.removals && s'.removals[key] != d by {
      NotYetCharged(s, d, key);
    }
    assert ForestalledBy(s', s'.finished[d].job, d, key);
  }

  // A delete that has not committed has taken out nothing.
  lemma NotYetCharged(s: State, d: nat, key: string)
    requires Inv(s) && d in s.running && key in s.removals
    ensures s.removals[key] != d
  {
  }

  lemma FailedCommitKeepsInv(s: State, d: nat)
    requires Inv(s) && d in s.running && DeleteRows(s.live, s.running[d].Targets()).None?
    ensures Inv(Next(s, Commit(d)))
  {
    hide DeleteRows, OrderingsDistinct, KeysOf, Outcome, MemoryEvents.Targets;
    var s' := Next(s, Commit(d));
    FailedCommitOutcome(s, d);
    forall x | x in s'.finished && x != d ensures Outcome(s', x) {
      OutcomeKept(s, s', x);
    }
  }

  lemma CommitKeepsPartition(s: State, d: nat)
    requires Inv(s) && d in s.running && DeleteRows(s.live, s.running[d].Targets()).Some?
    ensures Partitioned(Next(s, Commit(d)))
  {
    hide DeleteRows, Filter, MemoryEvents.Targets;
    var s' := Next(s, Commit(d));
    var targets := s.running[d].Targets();
    CommitVerdict(s, d);
    FilterMembers(s.live, KeyNotAmong(targets));
    FilterRowsDistinct(s.live, KeyNotAmong(targets));
    forall r | r in s'.committed ensures r in s'.live <==> r.ordering !in s'.removals {
      assert KeyNotAmong(targets)(r) <==> r.ordering !in KeysOf(targets);
    }
  }

  lemma CommitKeepsRecords(s: State, d: nat)
    requires Inv(s) && d in s.running && DeleteRows(s.live, s.running[d].Targets()).Some?
    ensures JobsValid(Next(s, Commit(d))) && Justified(Next(s, Commit(d)))
  {
    hide DeleteRows, OrderingsDistinct, KeysOf, Outcome, MemoryEvents.Targets;
    CommitVerdict(s, d);
  }

  lemma CommitKeepsOutcomes(s: State, d: nat)
    requires Inv(s) && d in s.running && DeleteRows(s.live, s.running[d].Targets()).Some?
    ensures Outcomes(Next(s, Commit(d)))
  {
    hide DeleteRows, OrderingsDistinct, KeysOf, MemoryEvents.Targets, Justified, JobValid;
    var s' := Next(s, Commit(d));
    CommitVerdict(s, d);
    assert SucceededAll(s', d);
    assert Outcome(s', d);
    hide Outcome;
    forall x | x in s'.finished && x != d ensures Outcome(s', x) {
      OutcomeKept(s, s', x);
    }
  }

  lemma StepKeepsInv(s: State, step: Step)
    requires Inv(s) && Enabled(s, step)
    ensures Inv(Next(s, step))
  {
    match step {
      case Write(_, _) => WriteKeepsInv(s, step);
      case Read(_, _, _) => ReadKeepsInv(s, step);
      case Commit(d) =>
        if DeleteRows(s.live, s.running[d].Targets()).None? {
          FailedCommitKeepsInv(s, d);
        } else {
          CommitKeepsPartition(s, d);
          CommitKeepsRecords(s, d);
          CommitKeepsOutcomes(s, d);
        }
    }
  }

  // ----- Runs -----

  ghost predicate IsRun(s: State, steps: seq<Step>)
    decreases |steps|
  {
    steps != [] ==> Enabled(s, steps[0]) && IsRun(Next(s, steps[0]), steps[1..])
  }

  ghost function Run(s: State, steps: seq<Step>): State
    requires IsRun(s, steps)
    decreases |steps|
  {
    if steps == [] then s else Run(Next(s, steps[0]), steps[1..])
  }

  lemma {:induction false} RunKeepsInv(s: State, steps: seq<Step>)
    requires Inv(s) && IsRun(s, steps)
    ensures Inv(Run(s, steps))
    decreases |steps|
  {
    if steps != [] {
      StepKeepsInv(s, steps[0]);
      RunKeepsInv(Next(s, steps[0]), steps[1..]);
    }
  }

  // The delete d took out row r.
  ghost predicate Took(s: State, d: nat, r: Row) {
    r.ordering in s.removals && s.removals[r.ordering] == d
  }

  /** Every row ever committed is either still live, or was taken out by exactly one delete, which
      succeeded, was for the row's id, and had a bound at or above its sequence number. */
  lemma EveryRowAccountedFor(steps: seq<Step>, r: Row)
    requires IsRun(EMPTY, steps) && r in Run(EMPTY, steps).committed
    ensures var s := Run(EMPTY, steps);
      if r in s.live then forall d :: !Took(s, d, r)
      else exists d ::
        && Took(s, d, r) && d in s.finished && s.finished[d].ok
        && r.event.persistenceId == s.finished[d].job.id && r.event.sequenceNumber <= s.finished[d].job.to
        && forall d' :: Took(s, d', r) ==> d' == d
  {
    hide *;
    EmptyInv();
    RunKeepsInv(EMPTY, steps);
    RowAccountedFor(Run(EMPTY, steps), r);
  }

  lemma RowAccountedFor(s: State, r: Row)
    requires Inv(s) && r in s.committed
    ensures
      if r in s.live then forall d :: !Took(s, d, r)
      else exists d ::
        && Took(s, d, r) && d in s.finished && s.finished[d].ok
        && r.event.persistenceId == s.finished[d].job.id && r.event.sequenceNumber <= s.finished[d].job.to
        && forall d' :: Took(s, d', r) ==> d' == d
  {
    hide OrderingsDistinct, MemoryEvents.Targets, Outcomes;
    if r !in s.live {
      var d := s.removals[r.ordering];
      var job := s.finished[d].job;
      var t :| t in job.Targets() && t.ordering == r.ordering;
      TargetsCommitted(job, s.committed, t);
      SameKey(s.committed, r, t);
      assert Took(s, d, r);
    }
  }

  /** A delete that succeeded has taken out every covered row it saw, for good; one that failed
      has taken out none. */
  lemma DeletesAllOrNothing(steps: seq<Step>, d: nat, r: Row)
    requires IsRun(EMPTY, steps) && d in Run(EMPTY, steps).finished
    ensures var s := Run(EMPTY, steps);
      var f := s.finished[d];
      && (f.ok && r in f.job.snapshot && r.event.sequenceNumber <= f.job.to ==> Took(s, d, r) && r !in s.live)
      && (!f.ok ==> !Took(s, d, r))
  {
    RunKeepsInv(EMPTY, steps);
    var s := Run(EMPTY, steps);
    var f := s.finished[d];
    if f.ok && r in f.job.snapshot && r.event.sequenceNumber <= f.job.to {
      FilterMembers(f.job.snapshot, OnEvent(UpTo(f.job.to)));
      assert OnEvent(UpTo(f.job.to))(r) && r in f.job.Targets();
      assert r.ordering in KeysOf(f.job.Targets());
      assert Outcome(s, d) && SucceededAll(s, d);
    }
  }

  /** A delete fails exactly when another delete took out one of the rows it aimed at. */
  lemma DeleteFailsExactly(steps: seq<Step>, d: nat)
    requires IsRun(EMPTY, steps) && d in Run(EMPTY, steps).finished
    ensures var s := Run(EMPTY, steps);
      !s.finished[d].ok <==>
      exists r, d' :: r in s.finished[d].job.Targets() && d' != d && Took(s, d', r)
  {
    RunKeepsInv(EMPTY, steps);
    var s := Run(EMPTY, steps);
    var f := s.finished[d];
    assert Outcome(s, d);
    if f.ok {
      forall r, d' | r in f.job.Targets() && d' != d ensures !Took(s, d', r) {
        assert r.ordering in KeysOf(f.job.Targets());
      }
    } else {
      var key :| ForestalledBy(s, f.job, d, key);
      var r :| r in f.job.Targets() && r.ordering == key;
      assert Took(s, s.removals[key], r);
    }
  }

  // ----- Two runs -----

  // A write between the two transactions: the delete succeeds and a covered row is left.
  lemma LateWriteSurvives(e: Event, id: string, to: uint64)
    requires Present(id) && e.persistenceId == id && e.sequenceNumber <= to
    ensures var steps := [Read(0, id, to), Write([e], ["k"]), Commit(0)];
      && IsRun(EMPTY, steps)
      && Run(EMPTY, steps).finished == map[0 := Finished(Job(id, to, []), true)]
      && Run(EMPTY, steps).live == [Row("k", Stored(e))]
  {
    var w := Write([e], ["k"]);
    var s1 := Next(EMPTY, Read(0, id, to));
    var job := Job(id, to, []);
    assert Snapshot([], id) == [] && job.Targets() == [];
    assert s1 == State([], [], map[0 := job], map[], map[]);
    var rows := RowsOf([e], ["k"]);
    assert rows == [Row("k", Stored(e))];
    OneRow(rows[0]);
    var s2 := Next(s1, w);
    assert s2.live == rows && s2.running == map[0 := job];
    var s3 := Next(s2, Commit(0));
    assert DeleteRows(rows, []) == Some(rows);
    assert s3.live == rows && s3.finished == map[0 := Finished(job, true)];
    var steps := [Read(0, id, to), w, Commit(0)];
    assert steps[1..] == [w, Commit(0)] && steps[1..][1..] == [Commit(0)] && steps[1..][1..][1..] == [];
    assert Run(s2, [Commit(0)]) == s3 && Run(s1, [w, Commit(0)]) == s3;
  }

  // Two deletes of one row, both past their read: the second to commit fails.
  lemma SecondDeleteFails(e: Event, id: string, to: uint64)
    requires Present(id) && e.persistenceId == id && e.sequenceNumber <= to
    ensures var steps := [Write([e], ["k"]), Read(0, id, to), Read(1, id, to), Commit(0), Commit(1)];
      var job := Job(id, to, [Row("k", Stored(e))]);
      && IsRun(EMPTY, steps)
      && Run(EMPTY, steps).finished == map[0 := Finished(job, true), 1 := Finished(job, false)]
      && Run(EMPTY, steps).live == []
  {
    hide Snapshot, MemoryEvents.Targets, DeleteRows, InsertRows, KeysOf, IsRun, Run;
    var row := Row("k", Stored(e));
    var rows, job := [row], Job(id, to, [row]);
    assert RowsOf([e], ["k"]) == rows;
    OneRow(row);
    OneTarget(row, id, to);
    var s1 := State(rows, rows, map[], map[], map[]);
    assert Next(EMPTY, Write([e], ["k"])) == s1;
    var s2 := s1.(running := map[0 := job]);
    assert Next(s1, Read(0, id, to)) == s2;
    var s3 := s1.(running := map[0 := job, 1 := job]);
    assert Next(s2, Read(1, id, to)) == s3;
    var s4 := Next(s3, Commit(0));
    assert s4.live == [] && s4.running == map[1 := job] && s4.finished == map[0 := Finished(job, true)];
    FiveSteps(EMPTY, Write([e], ["k"]), Read(0, id, to), Read(1, id, to), Commit(0), Commit(1));
  }

  // The one row of a table, aimed at.
  lemma OneTarget(row: Row, id: string, to: uint64)
    requires row.event.persistenceId == id && row.event.sequenceNumber <= to
    ensures Snapshot([row], id) == [row] && MemoryEvents.Targets([row], to) == [row]
    ensures DeleteRows([row], [row]) == Some([]) && DeleteRows([], [row]) == None
  {
    hide DeleteRows, Filter;
    FilterAll([row], OnEvent(HasId(id)));
    FilterAll([row], OnEvent(UpTo(to)));
    DeleteRowsExact([row], [row]);
    DeleteRowsExact([], [row]);
    assert row in [row];
    FilterNone([row], KeyNotAmong([row]));
  }

  lemma FiveSteps(s: State, a: Step, b: Step, c: Step, d: Step, e: Step)
    requires Enabled(s, a) && Enabled(Next(s, a), b) && Enabled(Next(Next(s, a), b), c)
    requires Enabled(Next(Next(Next(s, a), b), c), d) && Enabled(Next(Next(Next(Next(s, a), b), c), d), e)
    ensures IsRun(s, [a, b, c, d, e])
    ensures Run(s, [a, b, c, d, e]) == Next(Next(Next(Next(Next(s, a), b), c), d), e)
  {
    hide Enabled, Next, IsRun, Run;
    var s1 := Next(s, a);
    var s2 := Next(s1, b);
    var s3 := Next(s2, c);
    var s4 := Next(s3, d);
    NoSteps(Next(s4, e));
    assert [e] + [] == [e] && [d] + [e] == [d, e] && [c] + [d, e] == [c, d, e];
    assert [b] + [c, d, e] == [b, c, d, e] && [a] + [b, c, d, e] == [a, b, c, d, e];
    FirstStep(s4, e, []);
    FirstStep(s3, d, [e]);
    FirstStep(s2, c, [d, e]);
    FirstStep(s1, b, [c, d, e]);
    FirstStep(s, a, [b, c, d, e]);
  }

  lemma NoSteps(s: State)
    ensures IsRun(s, []) && Run(s, []) == s
  {
  }

  lemma FirstStep(s: State, step: Step, rest: seq<Step>)
    requires Enabled(s, step) && IsRun(Next(s, step), rest)
    ensures IsRun(s, [step] + rest)
    ensures Run(s, [step] + rest) == Run(Next(s, step), rest)
  {
    assert ([step] + rest)[1..] == rest;
  }

  lemma OneRow(r: Row)
    ensures InsertRows([], [r]) == [r]
  {
  }

  // ----- What a successful delete leaves -----

  lemma {:induction false} RunConcat(s: State, a: seq<Step>, b: seq<Step>)
    requires IsRun(s, a + b)
    ensures IsRun(s, a) && IsRun(Run(s, a), b) && Run(s, a + b) == Run(Run(s, a), b)
    decreases |a|
  {
    hide Next, Enabled;
    if a == [] {
      assert a + b == b;
    } else {
      assert (a + b)[1..] == a[1..] + b;
      RunConcat(Next(s, a[0]), a[1..], b);
    }
  }

  // The write transaction of the step commits row r.
  ghost predicate Adds(step: Step, r: Row) {
    && step.Write? && |step.keys| == |step.events|
    && (forall e :: e in step.events ==> Present(e.persistenceId))
    && r in RowsOf(step.events, step.keys)
  }

  ghost predicate Added(steps: seq<Step>, r: Row) {
    exists i :: 0 <= i < |steps| && Adds(steps[i], r)
  }

  lemma AddedMeans(steps: seq<Step>, r: Row)
    ensures Added(steps, r) <==> exists i, j ::
      && 0 <= i < |steps| && steps[i].Write? && |steps[i].keys| == |steps[i].events|
      && (forall e :: e in steps[i].events ==> e.persistenceId != "")
      && 0 <= j < |steps[i].events|
      && var e := steps[i].events[j];
         r == Row(steps[i].keys[j], Event(
           e.persistenceId, e.sequenceNumber, e.isDeleted, e.payload, e.timestamp, e.shard, "", false))
  {
    if Added(steps, r) {
      var i :| 0 <= i < |steps| && Adds(steps[i], r);
      var rows := RowsOf(steps[i].events, steps[i].keys);
      var j :| 0 <= j < |rows| && rows[j] == r;
      assert rows[j] == Row(steps[i].keys[j], Stored(steps[i].events[j]));
    }
    if i, j :|
      && 0 <= i < |steps| && steps[i].Write? && |steps[i].keys| == |steps[i].events|
      && (forall e :: e in steps[i].events ==> e.persistenceId != "")
      && 0 <= j < |steps[i].events|
      && r == Row(steps[i].keys[j], Stored(steps[i].events[j]))
    {
      assert RowsOf(steps[i].events, steps[i].keys)[j] == r;
      assert Adds(steps[i], r);
    }
  }

  /** The rows ever committed are those of the accepted writes, whole but for the encryption fields. */
  lemma CommittedIsWritten(steps: seq<Step>, r: Row)
    requires IsRun(EMPTY, steps)
    ensures r in Run(EMPTY, steps).committed <==> exists i, j ::
      && 0 <= i < |steps| && steps[i].Write? && |steps[i].keys| == |steps[i].events|
      && (forall e :: e in steps[i].events ==> e.persistenceId != "")
      && 0 <= j < |steps[i].events|
      && var e := steps[i].events[j];
         r == Row(steps[i].keys[j], Event(
           e.persistenceId, e.sequenceNumber, e.isDeleted, e.payload, e.timestamp, e.shard, "", false))
  {
    hide IsRun, Run, Added, Inv;
    EmptyInv();
    RunAdds(EMPTY, steps, r);
    AddedMeans(steps, r);
  }

  lemma StepAdds(s: State, step: Step, r: Row)
    requires Inv(s) && Enabled(s, step)
    ensures r in Next(s, step).committed <==> r in s.committed || Adds(step, r)
    ensures r in s.committed ==> !Adds(step, r)
  {
    hide InsertRows, DeleteRows, RowsOf;
    if Adds(step, r) {
      FreshRow(s, step.events, step.keys, r);
    }
  }

  // The rows a stretch of steps commits are the rows its writes add, all new.
  lemma {:induction false} RunAdds(s: State, steps: seq<Step>, r: Row)
    requires Inv(s) && IsRun(s, steps)
    ensures r in Run(s, steps).committed <==> r in s.committed || Added(steps, r)
    ensures r in s.committed ==> !Added(steps, r)
    decreases |steps|
  {
    hide Inv, Enabled, Next, Adds;
    if steps != [] {
      StepAdds(s, steps[0], r);
      StepKeepsInv(s, steps[0]);
      RunAdds(Next(s, steps[0]), steps[1..], r);
      if Added(steps, r) && !Adds(steps[0], r) {
        var i :| 0 <= i < |steps| && Adds(steps[i], r);
        assert steps[1..][i - 1] == steps[i];
      }
      if Added(steps[1..], r) {
        var i :| 0 <= i < |steps[1..]| && Adds(steps[1..][i], r);
        assert steps[i + 1] == steps[1..][i];
      }
    }
  }

  // Nothing that is gone comes back, and a delete keeps its snapshot.
  lemma StepKeepsRecords(s: State, step: Step, d: nat)
    requires Enabled(s, step) && (d in s.running || d in s.finished)
    ensures var s' := Next(s, step);
      && s.removals.Keys <= s'.removals.Keys
      && (d in s'.running || d in s'.finished)
      && (d in s.finished ==> d in s'.finished)
      && (d in s'.running && d !in s.finished ==> d in s.running && s'.running[d] == s.running[d])
  {
    hide InsertRows, DeleteRows, RowsOf;
  }

  lemma {:induction false} RunKeepsRecords(s: State, steps: seq<Step>, d: nat)
    requires Inv(s) && IsRun(s, steps) && (d in s.running || d in s.finished)
    ensures var s' := Run(s, steps);
      && s.removals.Keys <= s'.removals.Keys
      && (d in s'.running || d in s'.finished)
      && (d in s.finished ==> d in s'.finished)
      && (d in s'.running ==> d in s.running && s'.running[d] == s.running[d])
    decreases |steps|
  {
    hide Enabled, Next, Partitioned, Justified, Outcomes;
    if steps != [] {
      StepKeepsRecords(s, steps[0], d);
      StepKeepsInv(s, steps[0]);
      RunKeepsRecords(Next(s, steps[0]), steps[1..], d);
    }
  }

  // The run of one delete: what it saw, and what was committed after it looked.
  lemma DeleteSpan(before: seq<Step>, between: seq<Step>, d: nat, id: string, to: uint64) returns (seen: State)
    requires var steps := before + [Read(d, id, to)] + between + [Commit(d)]; IsRun(EMPTY, steps)
    ensures var steps := before + [Read(d, id, to)] + between + [Commit(d)];
      var s := Run(EMPTY, steps);
      && Inv(seen) && Inv(s) && d in s.finished
      && s.finished[d].job == Job(id, to, Snapshot(seen.live, id))
      && seen.removals.Keys <= s.removals.Keys
      && (forall r :: r in s.committed <==> r in seen.committed || Added(between, r))
      && (forall r :: r in seen.committed ==> !Added(between, r))
  {
    hide IsRun, Run, Inv, Added, Snapshot;
    var read, commit := Read(d, id, to), Commit(d);
    var steps := before + [read] + between + [commit];
    RunConcat(EMPTY, before + [read] + between, [commit]);
    RunConcat(EMPTY, before + [read], between);
    RunConcat(EMPTY, before, [read]);
    EmptyInv();
    RunKeepsInv(EMPTY, before);
    seen := Run(EMPTY, before);
    OneStep(seen, read);
    StepKeepsInv(seen, read);
    var s1 := Next(seen, read);
    RunKeepsInv(s1, between);
    RunKeepsRecords(s1, between, d);
    var s2 := Run(s1, between);
    OneStep(s2, commit);
    StepKeepsInv(s2, commit);
    StepKeepsRecords(s2, commit, d);
    forall r
      ensures r in Next(s2, commit).committed <==> r in seen.committed || Added(between, r)
      ensures r in seen.committed ==> !Added(between, r)
    {
      RunAdds(s1, between, r);
      StepAdds(s2, commit, r);
    }
  }

  lemma EmptyInv()
    ensures Inv(EMPTY)
  {
  }

  lemma OneStep(s: State, step: Step)
    requires IsRun(s, [step])
    ensures Enabled(s, step) && Run(s, [step]) == Next(s, step)
  {
    assert [step][1..] == [];
  }

  /** A successful delete leaves exactly those covered rows that were written between its two
      transactions and that no other delete took; undisturbed by such writes it leaves none. */
  lemma DeleteLeavesExactly(before: seq<Step>, between: seq<Step>, d: nat, id: string, to: uint64, r: Row)
    requires var steps := before + [Read(d, id, to)] + between + [Commit(d)]; IsRun(EMPTY, steps)
    requires var s := Run(EMPTY, before + [Read(d, id, to)] + between + [Commit(d)]);
      d in s.finished && s.finished[d].ok
    requires r.event.persistenceId == id && r.event.sequenceNumber <= to
    ensures var s := Run(EMPTY, before + [Read(d, id, to)] + between + [Commit(d)]);
      r in s.live <==> Added(between, r) && forall other :: other != d ==> !Took(s, other, r)
    ensures Added(between, r) <==> exists i, j ::
      && 0 <= i < |between| && between[i].Write? && |between[i].keys| == |between[i].events|
      && (forall e :: e in between[i].events ==> e.persistenceId != "")
      && 0 <= j < |between[i].events|
      && var e := between[i].events[j];
         r == Row(between[i].keys[j], Event(
           e.persistenceId, e.sequenceNumber, e.isDeleted, e.payload, e.timestamp, e.shard, "", false))
  {
    hide IsRun, Run, Added, OrderingsDistinct, MemoryEvents.Targets;
    AddedMeans(between, r);
    var seen := DeleteSpan(before, between, d, id, to);
    var s := Run(EMPTY, before + [Read(d, id, to)] + between + [Commit(d)]);
    SeenAndTaken(seen, s, d, id, to, r);
  }

  lemma SeenAndTaken(seen: State, s: State, d: nat, id: string, to: uint64, r: Row)
    requires Inv(seen) && Inv(s) && d in s.finished && s.finished[d].ok && Covered(id, to)(r.event)
    requires s.finished[d].job == Job(id, to, Snapshot(seen.live, id))
    requires seen.removals.Keys <= s.removals.Keys
    requires r in seen.committed ==> r in s.committed
    ensures r in s.live ==> r in s.committed && r !in seen.committed && forall other :: !Took(s, other, r)
    ensures r in s.committed && r !in seen.committed && (forall other :: other != d ==> !Took(s, other, r)) ==>
      r in s.live
  {
    hide OrderingsDistinct, Filter, MemoryEvents.Targets, Snapshot;
    var job := s.finished[d].job;
    TargetsMember(seen.live, id, to, r);
    assert Outcome(s, d);
    if r in seen.live {
      assert r.ordering in KeysOf(job.Targets());
    }
    if r in s.committed && r !in seen.committed && r.ordering in s.removals {
      assert Took(s, s.removals[r.ordering], r);
      if Took(s, d, r) {
        var t :| t in job.Targets() && t.ordering == r.ordering;
        TargetsMember(seen.live, id, to, t);
        TargetsCommitted(job, s.committed, t);
        SameKey(s.committed, t, r);
        assert false;
      }
    }
  }

  // ----- Steps and the store -----

  /** What a write step does, row by row. */
  lemma WriteEffect(s: State, step: Step, r: Row)
    requires Inv(s) && Enabled(s, step) && step.Write?
    ensures var s' := Next(s, step);
      var accepted := forall e :: e in step.events ==> e.persistenceId != "";
      var written := exists j ::
        && 0 <= j < |step.events|
        && var e := step.events[j];
           r == Row(step.keys[j], Event(
             e.persistenceId, e.sequenceNumber, e.isDeleted, e.payload, e.timestamp, e.shard, "", false));
      && s'.running == s.running && s'.finished == s.finished && s'.removals == s.removals
      && (r in s'.live <==> r in s.live || (accepted && written))
  {
    hide InsertRows, RowsOf, Inv;
    var added := RowsOf(step.events, step.keys);
    InsertRowsMembers(s.live, added);
    if r in added {
      var j :| 0 <= j < |added| && added[j] == r;
      assert r == Row(step.keys[j], Stored(step.events[j]));
    }
    if j :| 0 <= j < |step.events| && r == Row(step.keys[j], Stored(step.events[j])) {
      assert added[j] == r;
    }
  }

  // Whether a commit goes through, and what it leaves.
  lemma CommitOutcome(s: State, d: nat, r: Row)
    requires Inv(s) && d in s.running
    ensures var job := s.running[d];
      var ok := forall t :: t in job.snapshot && t.event.sequenceNumber <= job.to ==> t in s.live;
      var left := DeleteRows(s.live, job.Targets());
      && (left.Some? <==> ok)
      && (left.Some? ==> (r in left.value <==> r in s.live && !(r in job.snapshot && r.event.sequenceNumber <= job.to)))
  {
    hide OrderingsDistinct, Filter, DeleteRows, MemoryEvents.Targets, JobsValid, Justified, Outcomes;
    var job := s.running[d];
    var targets := job.Targets();
    JobValidOf(s, d);
    AimedAt(job);
    CommitVerdict(s, d);
    forall t | t in targets ensures t in s.committed && (t in s.live <==> t.ordering !in s.removals) {
      TargetsCommitted(job, s.committed, t);
    }
    FilterMembers(s.live, KeyNotAmong(targets));
    if r in s.live && r !in targets {
      forall t | t in targets ensures t.ordering != r.ordering {
        if t.ordering == r.ordering {
          SameKey(s.committed, t, r);
        }
      }
      assert KeyNotAmong(targets)(r);
    }
  }

  lemma JobValidOf(s: State, d: nat)
    requires Inv(s) && d in s.running
    ensures JobValid(s.running[d], s.committed)
  {
  }

  /** A commit charges to itself exactly the committed rows it takes. */
  lemma CommitCharges(s: State, d: nat, r: Row)
    requires Inv(s) && d in s.running && r in s.committed
    ensures var job, taken := s.running[d], Next(s, Commit(d)).removals;
      r.ordering in taken && taken[r.ordering] == d <==>
        && (forall t :: t in job.snapshot && t.event.sequenceNumber <= job.to ==> t in s.live)
        && r in job.snapshot && r.event.sequenceNumber <= job.to
  {
    hide OrderingsDistinct, Filter, DeleteRows, MemoryEvents.Targets, JobsValid, Justified, Outcomes;
    var job := s.running[d];
    JobValidOf(s, d);
    AimedAt(job);
    CommitOutcome(s, d, r);
    forall t | t in job.Targets() && t.ordering == r.ordering ensures t == r {
      TargetsCommitted(job, s.committed, t);
      SameKey(s.committed, t, r);
    }
    if r.ordering in s.removals {
      NotYetCharged(s, d, r.ordering);
    }
  }

  lemma AimedAt(job: Job)
    ensures forall t :: t in job.Targets() <==> t in job.snapshot && t.event.sequenceNumber <= job.to
  {
    FilterMembers(job.snapshot, OnEvent(UpTo(job.to)));
    assert forall t :: OnEvent(UpTo(job.to))(t) <==> t.event.sequenceNumber <= job.to;
  }

  /** What the read phase of a delete does: it sees the live rows of its id. */
  lemma ReadEffect(s: State, d: nat, id: string, to: uint64, r: Row)
    requires Enabled(s, Read(d, id, to))
    ensures var s' := Next(s, Read(d, id, to));
      && s' == s.(running := s.running[d := Job(id, to, s'.running[d].snapshot)])
      && (r in s'.running[d].snapshot <==> r in s.live && r.event.persistenceId == id)
  {
    FilterMembers(s.live, OnEvent(HasId(id)));
    assert OnEvent(HasId(id))(r) <==> r.event.persistenceId == id;
  }

  /** What its commit phase does, row by row: it goes through exactly when every covered row it saw is
      still there, and takes those. */
  lemma CommitEffect(s: State, d: nat, r: Row)
    requires Inv(s) && d in s.running
    ensures var s' := Next(s, Commit(d));
      var job := s.running[d];
      var ok := forall t :: t in job.snapshot && t.event.sequenceNumber <= job.to ==> t in s.live;
      && s'.committed == s.committed && s'.running == s.running - {d}
      && s'.finished == s.finished[d := Finished(job, ok)]
      && (r in s'.live <==> r in s.live && !(ok && r in job.snapshot && r.event.sequenceNumber <= job.to))
  {
    hide Filter, DeleteRows, MemoryEvents.Targets, Inv, KeysOf;
    AimedAt(s.running[d]);
    CommitOutcome(s, d, r);
  }

  // A write step, on the store itself.
  method PerformWrite(store: EventsStore, ghost s: State, events: seq<Event>, keys: seq<string>)
    requires store.Valid() && store.connected && store.db == s.live
    requires Enabled(s, Write(events, keys)) && FreshKeys(keys, store.db)
    modifies store
    ensures store.Valid() && store.connected && store.db == Next(s, Write(events, keys)).live
  {
    var _ := store.WriteEvents(events, keys);
  }

  // A delete with nothing in between, on the store itself.
  method PerformDelete(store: EventsStore, ghost s: State, d: nat, id: string, to: uint64) returns (r: Result<()>)
    requires store.Valid() && store.connected && store.db == s.live
    requires IsRun(s, [Read(d, id, to), Commit(d)])
    modifies store
    ensures store.Valid() && store.connected
    ensures var s' := Run(s, [Read(d, id, to), Commit(d)]);
      store.db == s'.live && d in s'.finished && (s'.finished[d].ok <==> r.Ok?)
  {
    var read, commit := Read(d, id, to), Commit(d);
    assert [read, commit] == [read] + [commit];
    RunConcat(s, [read], [commit]);
    OneStep(s, read);
    OneStep(Next(s, read), commit);
    TargetsGone(store.db, id, to);
    r := store.DeleteEvents(id, to);
  }
}
