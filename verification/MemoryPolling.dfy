/** A projection polling one shard of the memory journal while events are written: each poll reads
    a page above the offset, and a page that is not empty moves the offset to the next offset the
    store returned (GetShardEvents in eventstore/memory/events_store.go).  The page is cut in index
    order and not in time, which is what can lose events here. */
module MemoryPolling {
  import opened Base
  import opened Sequences
  import opened Journal
  import opened MemoryEvents
  import opened MemoryReads

  datatype State = State(rows: seq<Row>, offset: int64, delivered: seq<Event>)

  datatype Step =
    | Write(events: seq<Event>, keys: seq<string>)
    | Poll(limit: uint64, page: seq<Event>, next: int64)

  ghost predicate Enabled(s: State, shard: uint64, step: Step) {
    match step
    case Write(events, keys) => |keys| == |events| && FreshKeys(keys, s.rows)
    case Poll(limit, page, next) => IsShardPage(page, next, s.rows, shard, s.offset, limit)
  }

  // A write with a missing id is refused.
  predicate Accepted(events: seq<Event>) {
    forall e :: e in events ==> Present(e.persistenceId)
  }

  ghost function Next(s: State, shard: uint64, step: Step): State
    requires Enabled(s, shard, step)
  {
    match step
    case Write(events, keys) =>
      if Accepted(events) then s.(rows := InsertRows(s.rows, RowsOf(events, keys))) else s
    case Poll(_, page, next) =>
      if page == [] then s else s.(offset := next, delivered := s.delivered + page)
  }

  // No event slips behind the offset, neither by a late write nor by a page cut out of time.
  // Both are conditions on the state before the step.
  ghost predicate Clean(s: State, start: int64, shard: uint64, step: Step) {
    match step
    case Write(events, _) =>
      Accepted(events) ==> forall e :: e in events && e.shard == shard && e.timestamp > start ==> e.timestamp > s.offset
    case Poll(limit, _, _) => CutInTime(Filter(EventsOf(s.rows), OnShard(shard, s.offset)), limit)
  }

  // The shard's events after the start, up to where the offset is.
  function Passed(s: State, start: int64, shard: uint64): seq<Event> {
    Filter(EventsOf(s.rows), Window(shard, start, s.offset))
  }

  ghost predicate Inv(s: State, start: int64, shard: uint64) {
    start <= s.offset && multiset(s.delivered) <= multiset(Passed(s, start, shard))
  }

  ghost predicate NothingMissed(s: State, start: int64, shard: uint64) {
    multiset(s.delivered) == multiset(Passed(s, start, shard))
  }

  // A write adds its events to whatever a condition selects.
  lemma WrittenSelected(rows: seq<Row>, events: seq<Event>, keys: seq<string>, p: Event -> bool)
    requires |keys| == |events|
    ensures multiset(Filter(EventsOf(InsertRows(rows, RowsOf(events, keys))), p)) ==
      multiset(Filter(EventsOf(rows), p)) + multiset(Filter(StoredAll(events), p))
  {
    hide Filter, InsertRows;
    var added := RowsOf(events, keys);
    var after := InsertRows(rows, added);
    InsertRowsPermutes(rows, added);
    assert multiset(after) == multiset(rows + added);
    EventsOfMultiset(after, rows + added);
    assert EventsOf(rows + added) == EventsOf(rows) + StoredAll(events);
    FilterMultiset(EventsOf(after), EventsOf(rows) + StoredAll(events), p);
    FilterConcat(EventsOf(rows), StoredAll(events), p);
  }

  lemma WriteKeepsInv(s: State, start: int64, shard: uint64, events: seq<Event>, keys: seq<string>)
    requires Inv(s, start, shard) && |keys| == |events| && FreshKeys(keys, s.rows) && Accepted(events)
    ensures var s' := Next(s, shard, Write(events, keys));
      && Inv(s', start, shard)
      && (NothingMissed(s', start, shard) <==>
            NothingMissed(s, start, shard) && Clean(s, start, shard, Write(events, keys)))
  {
    hide Filter, InsertRows, FreshKeys;
    var w := Window(shard, start, s.offset);
    WrittenSelected(s.rows, events, keys, w);
    var late := Filter(StoredAll(events), w);
    FilterMembers(StoredAll(events), w);
    if Clean(s, start, shard, Write(events, keys)) {
      forall e | e in StoredAll(events) ensures !w(e) {
        var i :| 0 <= i < |events| && StoredAll(events)[i] == e;
        assert events[i] in events;
      }
      FilterNone(StoredAll(events), w);
    } else {
      var e :| e in events && e.shard == shard && start < e.timestamp <= s.offset;
      var i :| 0 <= i < |events| && events[i] == e;
      assert StoredAll(events)[i] in late;
      assert StoredAll(events)[i] in multiset(late);
    }
    LargerBy(multiset(s.delivered), multiset(Passed(s, start, shard)), multiset(late));
  }

  lemma LargerBy(part: multiset<Event>, whole: multiset<Event>, more: multiset<Event>)
    requires part <= whole
    ensures part <= whole + more
    ensures part == whole + more <==> part == whole && more == multiset{}
  {
    if part == whole + more {
      forall e ensures more[e] == 0 {
        assert part[e] == whole[e] + more[e];
      }
      assert more == multiset{};
    }
  }

  lemma StepKeepsInv(s: State, start: int64, shard: uint64, step: Step)
    requires Inv(s, start, shard) && Enabled(s, shard, step)
    ensures var s' := Next(s, shard, step);
      && Inv(s', start, shard)
      && (NothingMissed(s', start, shard) <==> NothingMissed(s, start, shard) && Clean(s, start, shard, step))
  {
    hide Filter, InsertRows, FreshKeys, CutInTime;
    match step {
      case Write(events, keys) =>
        if Accepted(events) {
          WriteKeepsInv(s, start, shard, events, keys);
        }
      case Poll(limit, page, next) =>
        ShardPageFacts(page, next, s.rows, shard, s.offset, limit);
        ShardPageLosesNothingExactly(page, next, s.rows, shard, s.offset, limit);
        if page == [] {
          EmptyPage(next, s.rows, shard, s.offset, limit);
        } else {
          WindowJoin(EventsOf(s.rows), shard, start, s.offset, next);
          BothParts(s.delivered, Passed(s, start, shard), page, Filter(EventsOf(s.rows), Window(shard, s.offset, next)));
        }
    }
  }

  // Parts fill their wholes together exactly when each does.
  lemma BothParts(a: seq<Event>, wholeA: seq<Event>, b: seq<Event>, wholeB: seq<Event>)
    requires multiset(a) <= multiset(wholeA) && multiset(b) <= multiset(wholeB)
    ensures multiset(a + b) <= multiset(wholeA) + multiset(wholeB)
    ensures multiset(a + b) == multiset(wholeA) + multiset(wholeB) <==>
      multiset(a) == multiset(wholeA) && multiset(b) == multiset(wholeB)
  {
    assert multiset(a + b) == multiset(a) + multiset(b);
    assert multiset(wholeA + wholeB) == multiset(wholeA) + multiset(wholeB);
    SameWhenFull(a, wholeA);
    SameWhenFull(b, wholeB);
    SameWhenFull(a + b, wholeA + wholeB);
  }

  // An empty page means nothing of the shard is above the offset: even limit 0 reads one event.
  lemma EmptyPage(next: int64, rows: seq<Row>, shard: uint64, offset: int64, limit: uint64)
    requires IsShardPage([], next, rows, shard, offset, limit)
    ensures Filter(EventsOf(rows), OnShard(shard, offset)) == []
    ensures CutInTime(Filter(EventsOf(rows), OnShard(shard, offset)), limit)
  {
    hide Filter;
    ShardPageFacts([], next, rows, shard, offset, limit);
  }

  // ----- Runs -----

  ghost predicate IsRun(s: State, shard: uint64, steps: seq<Step>)
    decreases |steps|
  {
    steps != [] ==> Enabled(s, shard, steps[0]) && IsRun(Next(s, shard, steps[0]), shard, steps[1..])
  }

  ghost function Run(s: State, shard: uint64, steps: seq<Step>): State
    requires IsRun(s, shard, steps)
    decreases |steps|
  {
    if steps == [] then s else Run(Next(s, shard, steps[0]), shard, steps[1..])
  }

  ghost predicate AllClean(s: State, start: int64, shard: uint64, steps: seq<Step>)
    requires IsRun(s, shard, steps)
    decreases |steps|
  {
    steps != [] ==>
      && Clean(s, start, shard, steps[0])
      && AllClean(Next(s, shard, steps[0]), start, shard, steps[1..])
  }

  // A run goes on with any step that is enabled at its end.
  lemma {:induction false} RunGoesOn(s: State, shard: uint64, steps: seq<Step>, step: Step)
    requires IsRun(s, shard, steps) && Enabled(Run(s, shard, steps), shard, step)
    ensures IsRun(s, shard, steps + [step])
    ensures Run(s, shard, steps + [step]) == Next(Run(s, shard, steps), shard, step)
    decreases |steps|
  {
    hide Enabled, Next;
    var more := steps + [step];
    if steps == [] {
      assert more[1..] == [];
    } else {
      RunGoesOn(Next(s, shard, steps[0]), shard, steps[1..], step);
      assert more[1..] == steps[1..] + [step];
    }
  }

  lemma {:induction false} RunKeepsInv(s: State, start: int64, shard: uint64, steps: seq<Step>)
    requires Inv(s, start, shard) && IsRun(s, shard, steps)
    ensures Inv(Run(s, shard, steps), start, shard)
    ensures NothingMissed(Run(s, shard, steps), start, shard) <==>
      NothingMissed(s, start, shard) && AllClean(s, start, shard, steps)
    decreases |steps|
  {
    hide Inv, NothingMissed, Next, Clean, Enabled;
    if steps != [] {
      StepKeepsInv(s, start, shard, steps[0]);
      RunKeepsInv(Next(s, shard, steps[0]), start, shard, steps[1..]);
    }
  }

  /** In every run of writes and polls, once a poll comes back empty, the events delivered are all
      the shard's events after the start exactly when no write came in at or below the offset and
      every page was cut in time. */
  lemma PollingCompleteExactly(
    rows: seq<Row>, start: int64, shard: uint64, steps: seq<Step>, limit: uint64, next: int64)
    requires IsRun(State(rows, start, []), shard, steps)
    requires var s := Run(State(rows, start, []), shard, steps);
      IsShardPage([], next, s.rows, shard, s.offset, limit)
    ensures var s := Run(State(rows, start, []), shard, steps);
      multiset(s.delivered) == multiset(Filter(EventsOf(s.rows), OnShard(shard, start))) <==>
      AllClean(State(rows, start, []), start, shard, steps)
  {
    hide Filter, IsRun, Run, AllClean;
    var s0 := State(rows, start, []);
    FilterNone(EventsOf(rows), Window(shard, start, start));
    RunKeepsInv(s0, start, shard, steps);
    var s := Run(s0, shard, steps);
    EmptyPage(next, s.rows, shard, s.offset, limit);
    FilterMembers(EventsOf(s.rows), OnShard(shard, s.offset));
    forall e | e in EventsOf(s.rows)
      ensures OnShard(shard, start)(e) == Window(shard, start, s.offset)(e)
    {
      assert !OnShard(shard, s.offset)(e);
    }
    FilterAgree(EventsOf(s.rows), OnShard(shard, start), Window(shard, start, s.offset));
  }

  // ----- On the store itself -----

  method PerformWrite(store: EventsStore, ghost s: State, shard: uint64, events: seq<Event>, keys: seq<string>)
    requires store.Valid() && store.connected && store.db == s.rows && Enabled(s, shard, Write(events, keys))
    modifies store
    ensures store.Valid() && store.connected && store.db == Next(s, shard, Write(events, keys)).rows
  {
    var _ := store.WriteEvents(events, keys);
  }

  // A poll takes what the store returns, and the next offset that comes with it unless it is empty.
  method PerformPoll(store: EventsStore, ghost s: State, shard: uint64, limit: uint64, offset: int64)
    returns (page: seq<Event>, next: int64)
    requires store.Valid() && store.connected && store.db == s.rows && offset == s.offset
    ensures Enabled(s, shard, Poll(limit, page, next))
    ensures var s' := Next(s, shard, Poll(limit, page, next));
      s'.rows == s.rows && s'.delivered == s.delivered + page && s'.offset == if page == [] then s.offset else next
  {
    var r := store.GetShardEvents(shard, offset, limit);
    return r.value.0, r.value.1;
  }
}
