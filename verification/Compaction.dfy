/** One entity's events and snapshots in the Postgres stores, while both are pruned: events up to a
    snapshot, snapshots below a later one.  Recovery starts from the latest snapshot and replays the
    events after it (eventstore/postgres/events_store.go, snapshotstore/postgres/snapshot_store.go). */
module Compaction {
  import opened Base
  import opened Sequences
  import opened Journal
  import P = PostgresEvents
  import W = PostgresWrites
  import N = Snapshots

  // The entity's state after a stretch of events; apply is the entity's own.
  function Fold<S>(events: seq<Event>, start: S, apply: (S, Event) -> S): S {
    if events == [] then start
    else apply(Fold(events[..|events| - 1], start, apply), events[|events| - 1])
  }

  lemma {:induction false} FoldConcat<S>(a: seq<Event>, b: seq<Event>, start: S, apply: (S, Event) -> S)
    ensures Fold(a + b, start, apply) == Fold(b, Fold(a, start, apply), apply)
  {
    if b == [] {
      assert a + b == a;
    } else {
      var n := |b| - 1;
      assert (a + b)[..|a + b| - 1] == a + b[..n];
      FoldConcat(a, b[..n], start, apply);
    }
  }

  // Both tables, every event of the entity ever written, and the highest bound its events have
  // been deleted up to (-1 for none).
  datatype World<+S> = World(table: seq<Event>, snapshots: N.Table<S>, history: seq<Event>, pruned: int)

  datatype Entity<!S> = Entity(id: string, start: S, apply: (S, Event) -> S)

  datatype Step<+S> =
    | WriteEvents(events: seq<Event>)
    | WriteSnapshot(snapshot: N.Snapshot<S>)
    | DeleteEvents(id: string, to: uint64)
    | DeleteSnapshots(id: string, to: uint64)

  ghost predicate Ascending(history: seq<Event>) {
    forall i, j :: 0 <= i < j < |history| ==> history[i].sequenceNumber < history[j].sequenceNumber
  }

  // A snapshot of the entity at or above a bound.
  ghost predicate SnapshotFrom<S>(snapshots: N.Table<S>, id: string, bound: int) {
    exists q: uint64 :: (id, q) in snapshots && bound <= q
  }

  // How the entity uses the stores; steps for other ids are free.
  ghost predicate Enabled<S(!new)>(w: World<S>, e: Entity<S>, step: Step<S>) {
    match step
    case WriteEvents(events) =>
      W.Insert(w.table, events).Some? && Ascending(w.history + Filter(events, HasId(e.id)))
    case WriteSnapshot(s) =>
      s.persistenceId == e.id ==>
        && w.history != []
        && s.sequenceNumber == w.history[|w.history| - 1].sequenceNumber
        && s.state == Some(Fold(w.history, e.start, e.apply))
    case DeleteEvents(id, to) => id == e.id ==> SnapshotFrom(w.snapshots, id, to)
    case DeleteSnapshots(id, to) =>
      id == e.id && SnapshotFrom(w.snapshots, id, 0) ==> SnapshotFrom(w.snapshots, id, to + 1)
  }

  // What the stores make of a step; a snapshot or a bound that a store skips or refuses changes
  // nothing, and events that it refuses are no step.
  function Next<S(==)>(w: World<S>, e: Entity<S>, step: Step<S>): World<S> {
    match step
    case WriteEvents(events) =>
      w.(table := w.table + events, history := w.history + Filter(events, HasId(e.id)))
    case WriteSnapshot(s) =>
      if N.Storable(s) && !N.IsEmpty(s) then w.(snapshots := N.Upsert(w.snapshots, s)) else w
    case DeleteEvents(id, to) =>
      if !FitsBigint(to) then w
      else w.(table := Filter(w.table, NotCovered(id, to)),
              pruned := if id == e.id && to > w.pruned then to else w.pruned)
    case DeleteSnapshots(id, to) =>
      if FitsBigint(to) then w.(snapshots := N.Delete(w.snapshots, id, to)) else w
  }

  function Above(id: string, bound: int): Event -> bool {
    (e: Event) => e.persistenceId == id && e.sequenceNumber > bound
  }

  // ----- The invariant -----

  ghost predicate HistoryValid<S>(w: World<S>, e: Entity<S>) {
    && Ascending(w.history) && W.AllStorable(w.history)
    && forall i :: 0 <= i < |w.history| ==> w.history[i].persistenceId == e.id
  }

  // Above the pruning bound the table holds exactly the entity's history.
  ghost predicate TableValid<S>(w: World<S>, e: Entity<S>) {
    && KeysDistinct(w.table) && W.AllStorable(w.table)
    && w.pruned >= -1
    && multiset(Filter(w.table, Above(e.id, w.pruned))) == multiset(Filter(w.history, Above(e.id, w.pruned)))
  }

  // The snapshot is the fold of the first k events of the history.
  ghost predicate FoldsPrefix<S(!new)>(w: World<S>, e: Entity<S>, s: N.Snapshot<S>, k: nat) {
    && 1 <= k <= |w.history|
    && w.history[k - 1].sequenceNumber == s.sequenceNumber
    && s.state == Some(Fold(w.history[..k], e.start, e.apply))
  }

  ghost predicate SnapshotsValid<S(!new)>(w: World<S>, e: Entity<S>) {
    && N.Keyed(w.snapshots)
    && forall key :: key in w.snapshots && key.0 == e.id ==> exists k: nat :: FoldsPrefix(w, e, w.snapshots[key], k)
  }

  ghost predicate PruningCovered<S>(w: World<S>, e: Entity<S>) {
    w.pruned == -1 || SnapshotFrom(w.snapshots, e.id, w.pruned)
  }

  ghost predicate Inv<S(!new)>(w: World<S>, e: Entity<S>) {
    HistoryValid(w, e) && TableValid(w, e) && SnapshotsValid(w, e) && PruningCovered(w, e)
  }

  // ----- Steps keep it -----

  lemma WriteKeepsHistory<S>(w: World<S>, e: Entity<S>, events: seq<Event>)
    requires HistoryValid(w, e) && W.Insert(w.table, events).Some?
    requires Ascending(w.history + Filter(events, HasId(e.id)))
    ensures HistoryValid(Next(w, e, WriteEvents(events)), e)
  {
    hide Ascending, Filter, KeysDistinct;
    var own := Filter(events, HasId(e.id));
    FilterMembers(events, HasId(e.id));
    forall i | 0 <= i < |own| ensures own[i].persistenceId == e.id && W.Storable(own[i]) {
      assert own[i] in own;
      var j :| 0 <= j < |events| && events[j] == own[i];
    }
  }

  lemma WriteKeepsTable<S>(w: World<S>, e: Entity<S>, events: seq<Event>)
    requires TableValid(w, e) && W.Insert(w.table, events).Some?
    ensures TableValid(Next(w, e, WriteEvents(events)), e)
  {
    hide Filter, KeysDistinct;
    var p := Above(e.id, w.pruned);
    FilterConcat(w.table, events, p);
    FilterConcat(w.history, Filter(events, HasId(e.id)), p);
    FilterTwice(events, HasId(e.id), p, p);
  }

  lemma WriteKeepsSnapshots<S(!new)>(w: World<S>, e: Entity<S>, events: seq<Event>)
    requires SnapshotsValid(w, e)
    ensures SnapshotsValid(Next(w, e, WriteEvents(events)), e)
  {
    hide Filter, Fold;
    var w' := Next(w, e, WriteEvents(events));
    forall key | key in w'.snapshots && key.0 == e.id ensures exists k: nat :: FoldsPrefix(w', e, w'.snapshots[key], k) {
      var k: nat :| FoldsPrefix(w, e, w.snapshots[key], k);
      assert w'.history[..k] == w.history[..k];
      assert FoldsPrefix(w', e, w'.snapshots[key], k);
    }
  }

  lemma SnapshotKeepsInv<S(!new)>(w: World<S>, e: Entity<S>, s: N.Snapshot<S>)
    requires Inv(w, e) && Enabled(w, e, WriteSnapshot(s))
    ensures Inv(Next(w, e, WriteSnapshot(s)), e)
  {
    hide Filter, Fold, KeysDistinct, Ascending;
    var w' := Next(w, e, WriteSnapshot(s));
    forall key | key in w'.snapshots && key.0 == e.id ensures exists k: nat :: FoldsPrefix(w', e, w'.snapshots[key], k) {
      if key == N.KeyOf(s) {
        assert w.history[..|w.history|] == w.history;
        assert FoldsPrefix(w', e, s, |w.history|);
      } else {
        var k: nat :| FoldsPrefix(w, e, w.snapshots[key], k);
        assert FoldsPrefix(w', e, w'.snapshots[key], k);
      }
    }
    if w.pruned != -1 {
      var q: uint64 :| (e.id, q) in w.snapshots && w.pruned <= q;
      assert (e.id, q) in w'.snapshots;
    }
  }

  lemma DeleteKeepsTable<S>(w: World<S>, e: Entity<S>, id: string, to: uint64)
    requires TableValid(w, e)
    ensures TableValid(Next(w, e, DeleteEvents(id, to)), e)
  {
    hide Filter, KeysDistinct;
    var w' := Next(w, e, DeleteEvents(id, to));
    var p, p' := Above(e.id, w.pruned), Above(e.id, w'.pruned);
    if FitsBigint(to) {
      W.FilterKeepsKeys(w.table, NotCovered(id, to));
      FilterTwice(w.table, NotCovered(id, to), p', p');
      FilterTwice(w.table, p, p', p');
      FilterTwice(w.history, p, p', p');
      FilterMultiset(Filter(w.table, p), Filter(w.history, p), p');
    }
  }

  lemma DeleteEventsKeepsInv<S(!new)>(w: World<S>, e: Entity<S>, id: string, to: uint64)
    requires Inv(w, e) && Enabled(w, e, DeleteEvents(id, to))
    ensures Inv(Next(w, e, DeleteEvents(id, to)), e)
  {
    hide Filter, Fold, TableValid, Ascending;
    var w' := Next(w, e, DeleteEvents(id, to));
    DeleteKeepsTable(w, e, id, to);
    forall key | key in w'.snapshots && key.0 == e.id ensures exists k: nat :: FoldsPrefix(w', e, w'.snapshots[key], k) {
      var k: nat :| FoldsPrefix(w, e, w.snapshots[key], k);
      assert FoldsPrefix(w', e, w'.snapshots[key], k);
    }
  }

  lemma DeleteSnapshotsKeepsInv<S(!new)>(w: World<S>, e: Entity<S>, id: string, to: uint64)
    requires Inv(w, e) && Enabled(w, e, DeleteSnapshots(id, to))
    ensures Inv(Next(w, e, DeleteSnapshots(id, to)), e)
  {
    hide Filter, Fold, KeysDistinct, Ascending;
    var w' := Next(w, e, DeleteSnapshots(id, to));
    forall key | key in w'.snapshots && key.0 == e.id ensures exists k: nat :: FoldsPrefix(w', e, w'.snapshots[key], k) {
      var k: nat :| FoldsPrefix(w, e, w.snapshots[key], k);
      assert FoldsPrefix(w', e, w'.snapshots[key], k);
    }
    if w.pruned != -1 {
      var q: uint64 :| (e.id, q) in w.snapshots && w.pruned <= q;
      if (e.id, q) !in w'.snapshots {
        assert SnapshotFrom(w.snapshots, id, 0);
        var higher: uint64 :| (id, higher) in w.snapshots && to + 1 <= higher;
        assert (e.id, higher) in w'.snapshots;
      }
    }
  }

  lemma StepKeepsInv<S(!new)>(w: World<S>, e: Entity<S>, step: Step<S>)
    requires Inv(w, e) && Enabled(w, e, step)
    ensures Inv(Next(w, e, step), e)
  {
    match step {
      case WriteEvents(events) =>
        hide Filter, Fold, TableValid, HistoryValid, SnapshotsValid;
        WriteKeepsHistory(w, e, events);
        WriteKeepsTable(w, e, events);
        WriteKeepsSnapshots(w, e, events);
      case WriteSnapshot(s) => SnapshotKeepsInv(w, e, s);
      case DeleteEvents(id, to) => DeleteEventsKeepsInv(w, e, id, to);
      case DeleteSnapshots(id, to) => DeleteSnapshotsKeepsInv(w, e, id, to);
    }
  }

  // ----- Runs -----

  function Fresh<S>(): World<S> {
    World([], map[], [], -1)
  }

  ghost predicate IsRun<S(!new)>(w: World<S>, e: Entity<S>, steps: seq<Step<S>>)
    decreases |steps|
  {
    steps != [] ==> Enabled(w, e, steps[0]) && IsRun(Next(w, e, steps[0]), e, steps[1..])
  }

  function Run<S(==)>(w: World<S>, e: Entity<S>, steps: seq<Step<S>>): World<S>
    decreases |steps|
  {
    if steps == [] then w else Run(Next(w, e, steps[0]), e, steps[1..])
  }

  // A run goes on with any step that is enabled at its end.
  lemma {:induction false} RunGoesOn<S(!new)>(w: World<S>, e: Entity<S>, steps: seq<Step<S>>, step: Step<S>)
    requires IsRun(w, e, steps) && Enabled(Run(w, e, steps), e, step)
    ensures IsRun(w, e, steps + [step]) && Run(w, e, steps + [step]) == Next(Run(w, e, steps), e, step)
    decreases |steps|
  {
    hide Enabled, Next;
    var more := steps + [step];
    if steps == [] {
      assert more[1..] == [];
    } else {
      RunGoesOn(Next(w, e, steps[0]), e, steps[1..], step);
      assert more[1..] == steps[1..] + [step];
    }
  }

  lemma {:induction false} RunKeepsInv<S(!new)>(w: World<S>, e: Entity<S>, steps: seq<Step<S>>)
    requires Inv(w, e) && IsRun(w, e, steps)
    ensures Inv(Run(w, e, steps), e)
    decreases |steps|
  {
    hide Inv, Enabled, Next;
    if steps != [] {
      StepKeepsInv(w, e, steps[0]);
      RunKeepsInv(Next(w, e, steps[0]), e, steps[1..]);
    }
  }

  // The history grows by the entity's events of each write, and by nothing else.
  lemma {:induction false} RunWrites<S(!new)>(w: World<S>, e: Entity<S>, steps: seq<Step<S>>, x: Event)
    requires IsRun(w, e, steps)
    ensures x in Run(w, e, steps).history <==>
      x in w.history || (x.persistenceId == e.id && exists i :: 0 <= i < |steps| && steps[i].WriteEvents? && x in steps[i].events)
    decreases |steps|
  {
    hide Enabled, Filter;
    if steps != [] {
      RunWrites(Next(w, e, steps[0]), e, steps[1..], x);
      if steps[0].WriteEvents? {
        FilterMembers(steps[0].events, HasId(e.id));
        assert HasId(e.id)(x) <==> x.persistenceId == e.id;
      }
      if exists i :: 0 < i < |steps| && steps[i].WriteEvents? && x in steps[i].events {
        var i :| 0 < i < |steps| && steps[i].WriteEvents? && x in steps[i].events;
        assert steps[1..][i - 1] == steps[i];
      }
      if exists i :: 0 <= i < |steps[1..]| && steps[1..][i].WriteEvents? && x in steps[1..][i].events {
        var i :| 0 <= i < |steps[1..]| && steps[1..][i].WriteEvents? && x in steps[1..][i].events;
        assert steps[i + 1] == steps[1..][i];
      }
    }
  }

  /** The history of a run is every event of the entity that the run wrote, by sequence number, each
      once. */
  lemma HistoryIsWritten<S(!new)>(e: Entity<S>, steps: seq<Step<S>>)
    requires IsRun(Fresh(), e, steps)
    ensures var h := Run(Fresh(), e, steps).history;
      && (forall x :: x in h <==>
            x.persistenceId == e.id && exists i :: 0 <= i < |steps| && steps[i].WriteEvents? && x in steps[i].events)
      && (forall i, j :: 0 <= i < j < |h| ==> h[i].sequenceNumber < h[j].sequenceNumber)
  {
    hide Run, IsRun;
    forall x {
      RunWrites(Fresh(), e, steps, x);
    }
    FreshInv(e);
    RunKeepsInv(Fresh(), e, steps);
  }

  lemma FreshInv<S(!new)>(e: Entity<S>)
    ensures Inv(Fresh(), e)
  {
  }

  // ----- Recovery -----

  // Where recovery starts: the latest snapshot's sequence number, or -1 without one.
  function BaseOf<S>(latest: Option<N.Snapshot<S>>): int {
    match latest case None => -1 case Some(s) => s.sequenceNumber
  }

  function StateOf<S>(latest: Option<N.Snapshot<S>>, start: S): S {
    if latest.Some? && latest.value.state.Some? then latest.value.state.value else start
  }

  // The history splits at the latest snapshot, and pruning has stayed below the split.
  lemma SplitAtLatest<S(!new)>(w: World<S>, e: Entity<S>, latest: Option<N.Snapshot<S>>) returns (k: nat)
    requires Inv(w, e) && Present(e.id) && N.IsLatest(latest, w.snapshots, e.id)
    ensures k <= |w.history|
    ensures w.pruned <= BaseOf(latest) < TWO_63
    ensures StateOf(latest, e.start) == Fold(w.history[..k], e.start, e.apply)
    ensures Filter(w.history, Above(e.id, BaseOf(latest))) == w.history[k..]
  {
    hide Filter, KeysDistinct;
    if latest.None? {
      k := 0;
      FilterSuffix(w.history, Above(e.id, -1), 0);
    } else {
      var key := (e.id, latest.value.sequenceNumber);
      k :| FoldsPrefix(w, e, w.snapshots[key], k);
      FilterSuffix(w.history, Above(e.id, BaseOf(latest)), k);
    }
  }

  // What a replay from just above the base finds in the table, whatever the bound of the replay.
  lemma ReplayFinds(
    table: seq<Event>, id: string, base: int, replayed: seq<Event>, from: uint64, to: uint64, limit: uint64)
    requires from == base + 1
    requires P.IsSelected(replayed, table, InRange(id, from, to), SequenceLe(), limit)
    requires forall x :: x in table && x.persistenceId == id ==> x.sequenceNumber <= to
    requires |table| <= limit
    ensures multiset(replayed) == multiset(Filter(table, Above(id, base)))
    ensures |replayed| == |Filter(table, Above(id, base))|
    ensures Sorted(replayed, SequenceLe())
  {
    hide Filter;
    var p := InRange(id, from, to);
    var full: seq<Event> :| P.IsOrdering(full, table, p, SequenceLe()) && replayed == Take(full, limit);
    FilterAgree(table, p, Above(id, base));
    FilterTwice(table, p, p, p);
    assert |full| == |multiset(full)| == |Filter(table, p)|;
    assert replayed == full;
  }

  lemma AscendingTies(history: seq<Event>, k: nat)
    requires Ascending(history) && k <= |history|
    ensures Sorted(history[k..], SequenceLe()) && TiesEqual(history[k..], SequenceLe())
  {
  }

  // The replay is the rest of the history, in order.
  lemma ReplayIsRest<S(!new)>(
    w: World<S>, e: Entity<S>, latest: Option<N.Snapshot<S>>, k: nat, replayed: seq<Event>, from: uint64, to: uint64, limit: uint64)
    requires Inv(w, e) && w.pruned <= BaseOf(latest) && from == BaseOf(latest) + 1
    requires k <= |w.history| && Filter(w.history, Above(e.id, BaseOf(latest))) == w.history[k..]
    requires P.IsSelected(replayed, w.table, InRange(e.id, from, to), SequenceLe(), limit)
    requires forall x :: x in w.table && x.persistenceId == e.id ==> x.sequenceNumber <= to
    requires |w.table| <= limit
    ensures replayed == w.history[k..]
  {
    hide Filter, KeysDistinct, SnapshotsValid, Fold;
    var p, p' := Above(e.id, w.pruned), Above(e.id, BaseOf(latest));
    ReplayFinds(w.table, e.id, BaseOf(latest), replayed, from, to, limit);
    FilterTwice(w.table, p, p', p');
    FilterTwice(w.history, p, p', p');
    FilterMultiset(Filter(w.table, p), Filter(w.history, p), p');
    AscendingTies(w.history, k);
    SortedUnique(w.history[k..], replayed, SequenceLe());
  }

  /** In every run of writes, snapshots and prunings, folding the events after the latest snapshot
      onto its state gives the fold of every event the entity ever wrote, in order. */
  lemma RecoveryPreserved<S(!new)>(
    e: Entity<S>, steps: seq<Step<S>>, latest: Option<N.Snapshot<S>>, replayed: seq<Event>, from: uint64, to: uint64, limit: uint64)
    requires Present(e.id) && IsRun(Fresh(), e, steps)
    requires N.IsLatest(latest, Run(Fresh(), e, steps).snapshots, e.id) && from == BaseOf(latest) + 1
    requires P.IsSelected(replayed, Run(Fresh(), e, steps).table, InRange(e.id, from, to), SequenceLe(), limit)
    requires forall x :: x in Run(Fresh(), e, steps).table && x.persistenceId == e.id ==> x.sequenceNumber <= to
    requires |Run(Fresh(), e, steps).table| <= limit
    ensures Fold(replayed, StateOf(latest, e.start), e.apply) == Fold(Run(Fresh(), e, steps).history, e.start, e.apply)
    ensures var h := Run(Fresh(), e, steps).history;
      && (forall x :: x in h <==>
            x.persistenceId == e.id && exists i :: 0 <= i < |steps| && steps[i].WriteEvents? && x in steps[i].events)
      && (forall i, j :: 0 <= i < j < |h| ==> h[i].sequenceNumber < h[j].sequenceNumber)
  {
    hide Inv, Run, IsRun, Fold, Filter;
    HistoryIsWritten(e, steps);
    FreshInv(e);
    RunKeepsInv(Fresh(), e, steps);
    var w := Run(Fresh(), e, steps);
    var k := SplitAtLatest(w, e, latest);
    ReplayIsRest(w, e, latest, k, replayed, from, to, limit);
    assert w.history == w.history[..k] + w.history[k..];
    FoldConcat(w.history[..k], w.history[k..], e.start, e.apply);
  }

  // ----- On the stores themselves -----

  /** An entity can always go on: its next event can be written, its state can be taken as a snapshot
      at its last event, its events can be deleted up to any snapshot, and its snapshots below a later
      one. */
  lemma UseIsPossible<S(!new)>(w: World<S>, e: Entity<S>, x: Event, s: N.Snapshot<S>, to: uint64, q: uint64)
    requires Inv(w, e)
    ensures W.Storable(x) && x.persistenceId == e.id && (forall y :: y in w.history ==> y.sequenceNumber < x.sequenceNumber) ==>
      Enabled(w, e, WriteEvents([x])) && Next(w, e, WriteEvents([x])).history == w.history + [x]
    ensures w.history != [] && s.state == Some(Fold(w.history, e.start, e.apply)) ==>
      s.sequenceNumber == w.history[|w.history| - 1].sequenceNumber ==> Enabled(w, e, WriteSnapshot(s))
    ensures (e.id, q) in w.snapshots && to <= q ==> Enabled(w, e, DeleteEvents(e.id, to))
    ensures (e.id, q) in w.snapshots && to < q ==> Enabled(w, e, DeleteSnapshots(e.id, to))
  {
    hide Filter, Fold;
    if W.Storable(x) && x.persistenceId == e.id && forall y :: y in w.history ==> y.sequenceNumber < x.sequenceNumber {
      NextEventFits(w, e, x);
    }
  }

  lemma NextEventFits<S(!new)>(w: World<S>, e: Entity<S>, x: Event)
    requires Inv(w, e) && W.Storable(x) && x.persistenceId == e.id
    requires forall y :: y in w.history ==> y.sequenceNumber < x.sequenceNumber
    ensures W.Insert(w.table, [x]).Some? && Filter([x], HasId(e.id)) == [x] && Ascending(w.history + [x])
  {
    hide Filter, Fold;
    FilterAll([x], HasId(e.id));
    PrunedBelowLast(w, e, x);
    FilterMembers(w.table, Above(e.id, w.pruned));
    FilterMembers(w.history, Above(e.id, w.pruned));
    forall i | 0 <= i < |w.table|
      ensures !(w.table[i].persistenceId == x.persistenceId && w.table[i].sequenceNumber == x.sequenceNumber)
    {
      var y := w.table[i];
      if y.persistenceId == e.id && y.sequenceNumber > w.pruned {
        assert Above(e.id, w.pruned)(y);
        assert y in multiset(Filter(w.table, Above(e.id, w.pruned)));
        assert y in Filter(w.history, Above(e.id, w.pruned));
      }
    }
  }

  lemma PrunedBelowLast<S(!new)>(w: World<S>, e: Entity<S>, x: Event)
    requires Inv(w, e) && forall y :: y in w.history ==> y.sequenceNumber < x.sequenceNumber
    ensures w.pruned < x.sequenceNumber
  {
    hide TableValid, Fold;
    if w.pruned != -1 {
      var q: uint64 :| (e.id, q) in w.snapshots && w.pruned <= q;
      var k: nat :| FoldsPrefix(w, e, w.snapshots[(e.id, q)], k);
      assert w.history[k - 1] in w.history;
    }
  }

  // One step of a run, on the two stores.
  method Perform<S(==,!new)>(
    events: P.EventsStore, snapshots: N.SnapshotStore<S>, ghost w: World<S>, ghost e: Entity<S>, step: Step<S>)
    requires events.Valid() && snapshots.Valid() && events.connected && snapshots.connected
    requires events.table == w.table && snapshots.table == w.snapshots && Enabled(w, e, step)
    modifies events, snapshots
    ensures events.Valid() && snapshots.Valid() && events.connected && snapshots.connected
    ensures events.table == Next(w, e, step).table && snapshots.table == Next(w, e, step).snapshots
  {
    var faults := W.Faults(false, {}, {}, {}, false, false);
    match step {
      case WriteEvents(batch) =>
        W.InsertExactly(events.table, batch);
        var _, _ := events.WriteEvents(batch, faults);
      case WriteSnapshot(s) =>
        var _ := snapshots.WriteSnapshot(Some(s), true);
      case DeleteEvents(id, to) =>
        var _ := events.DeleteEvents(id, to, faults);
      case DeleteSnapshots(id, to) =>
        var _ := snapshots.DeleteSnapshots(id, to, true);
    }
  }

  /** Recovery as a client runs it, after any run: the latest snapshot, then the events after it.  It
      fails only when the latest snapshot is at the last number a column holds, as there is no number
      after it to replay from. */
  method Recover<S(==,!new)>(
    events: P.EventsStore, snapshots: N.SnapshotStore<S>, e: Entity<S>, ghost steps: seq<Step<S>>)
    returns (r: Result<S>)
    requires events.Valid() && snapshots.Valid() && events.connected && snapshots.connected
    requires Present(e.id) && IsRun(Fresh(), e, steps) && |events.table| < TWO_63
    requires events.table == Run(Fresh(), e, steps).table && snapshots.table == Run(Fresh(), e, steps).snapshots
    ensures r.Ok? ==> r.value == Fold(Run(Fresh(), e, steps).history, e.start, e.apply)
    ensures r.Err? <==> (e.id, 0x7fff_ffff_ffff_ffff) in snapshots.table
  {
    hide Fold, Run, IsRun;
    var latest := snapshots.GetLatestSnapshot(e.id, true);
    var from, bound := BaseOf(latest.value) + 1, TWO_63 - 1;
    var replayed := events.ReplayEvents(e.id, from, bound, bound, true);
    if replayed.Err? {
      return Err(replayed.error);
    }
    forall x | x in events.table ensures x.sequenceNumber <= bound {
      var i :| 0 <= i < |events.table| && events.table[i] == x;
      assert W.Storable(events.table[i]);
    }
    RecoveryPreserved(e, steps, latest.value, replayed.value, from, bound, bound);
    return Ok(Fold(replayed.value, StateOf(latest.value, e.start), e.apply));
  }

  // ----- The bound is tight -----

  function Append(): (seq<Event>, Event) -> seq<Event> {
    (s: seq<Event>, e: Event) => s + [e]
  }

  // The entity that remembers every event.
  function Recorder(id: string): Entity<seq<Event>> {
    Entity(id, [], Append())
  }

  lemma {:induction false} FoldAppend(events: seq<Event>, start: seq<Event>)
    ensures Fold(events, start, Append()) == start + events
  {
    if events != [] {
      var n := |events| - 1;
      FoldAppend(events[..n], start);
      assert events == events[..n] + [events[n]];
    }
  }

  /** Deleting events up to any bound keeps recovery exact, for an entity that remembers every
      event, exactly when no event above the latest snapshot is among the deleted. */
  lemma PruningSafeExactly(
    id: string, steps: seq<Step<seq<Event>>>, latest: Option<N.Snapshot<seq<Event>>>, bound: uint64,
    replayed: seq<Event>, from: uint64, to: uint64, limit: uint64)
    requires Present(id) && IsRun(Fresh(), Recorder(id), steps)
    requires var w := Run(Fresh(), Recorder(id), steps);
      && N.IsLatest(latest, w.snapshots, id) && from == BaseOf(latest) + 1
      && P.IsSelected(replayed, Filter(w.table, NotCovered(id, bound)), InRange(id, from, to), SequenceLe(), limit)
      && (forall x :: x in w.table && x.persistenceId == id ==> x.sequenceNumber <= to)
      && |w.table| <= limit
    ensures var w := Run(Fresh(), Recorder(id), steps);
      Fold(replayed, StateOf(latest, []), Append()) == w.history <==>
      forall x :: x in w.table && x.persistenceId == id && x.sequenceNumber <= bound ==>
        x.sequenceNumber <= BaseOf(latest)
  {
    hide Inv, Run, IsRun, Fold, Filter;
    var e := Recorder(id);
    FreshInv(e);
    RunKeepsInv(Fresh(), e, steps);
    var w := Run(Fresh(), e, steps);
    var k := SplitAtLatest(w, e, latest);
    FoldAppend(w.history[..k], []);
    FoldAppend(replayed, w.history[..k]);
    assert w.history == w.history[..k] + w.history[k..];
    PrunedReplay(w, e, latest, k, bound, replayed, from, to, limit);
    assert [] + w.history[..k] == w.history[..k];
    assert (w.history[..k] + replayed)[k..] == replayed;
  }

  lemma PrunedReplay<S(!new)>(
    w: World<S>, e: Entity<S>, latest: Option<N.Snapshot<S>>, k: nat, bound: uint64,
    replayed: seq<Event>, from: uint64, to: uint64, limit: uint64)
    requires Inv(w, e) && w.pruned <= BaseOf(latest) && from == BaseOf(latest) + 1
    requires k <= |w.history| && Filter(w.history, Above(e.id, BaseOf(latest))) == w.history[k..]
    requires P.IsSelected(
      replayed, Filter(w.table, NotCovered(e.id, bound)), InRange(e.id, from, to), SequenceLe(), limit)
    requires forall x :: x in w.table && x.persistenceId == e.id ==> x.sequenceNumber <= to
    requires |w.table| <= limit
    ensures replayed == w.history[k..] <==>
      forall x :: x in w.table && Covered(e.id, bound)(x) ==> x.sequenceNumber <= BaseOf(latest)
  {
    hide Filter, KeysDistinct, SnapshotsValid, Fold;
    var left := Filter(w.table, NotCovered(e.id, bound));
    var p, p' := Above(e.id, w.pruned), Above(e.id, BaseOf(latest));
    FilterMembers(w.table, NotCovered(e.id, bound));
    ReplayFinds(left, e.id, BaseOf(latest), replayed, from, to, limit);
    FilterTwice(w.table, p, p', p');
    FilterTwice(w.history, p, p', p');
    FilterMultiset(Filter(w.table, p), Filter(w.history, p), p');
    var both := AboveUncovered(e.id, BaseOf(latest), bound);
    FilterTwice(w.table, NotCovered(e.id, bound), p', both);
    if forall x :: x in w.table && Covered(e.id, bound)(x) ==> x.sequenceNumber <= BaseOf(latest) {
      FilterAgree(w.table, both, p');
      AscendingTies(w.history, k);
      SortedUnique(w.history[k..], replayed, SequenceLe());
    } else {
      var x :| x in w.table && Covered(e.id, bound)(x) && x.sequenceNumber > BaseOf(latest);
      FilterFewer(w.table, both, p', x);
    }
  }

  function AboveUncovered(id: string, base: int, bound: uint64): Event -> bool {
    (e: Event) => e.persistenceId == id && e.sequenceNumber > base && !(e.sequenceNumber <= bound)
  }
}
