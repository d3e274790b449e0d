/** A projection polling one shard of the Postgres journal while events are appended: each poll
    reads a page above the offset, and a page that is not empty moves the offset to its last
    timestamp (GetShardEvents in eventstore/postgres/events_store.go). */
module ShardPolling {
  import opened Base
  import opened Sequences
  import opened Journal
  import opened PostgresEvents
  import opened PostgresWrites

  datatype State = State(log: seq<Event>, offset: int64, delivered: seq<Event>)

  datatype Step =
    | Append(event: Event)
    | Poll(limit: nat, page: seq<Event>)

  // A page is any answer the query may give.
  ghost predicate Enabled(s: State, shard: uint64, step: Step) {
    match step
    case Append(_) => true
    case Poll(limit, page) => IsSelected(page, s.log, OnShard(shard, s.offset), TimestampLe(), limit)
  }

  function Last(page: seq<Event>): Event
    requires page != []
  {
    page[|page| - 1]
  }

  function Next(s: State, step: Step): State {
    match step
    case Append(e) => s.(log := s.log + [e])
    case Poll(_, page) =>
      if page == [] then s else s.(offset := Last(page).timestamp, delivered := s.delivered + page)
  }

  // Among the shard's events above the offset, a cut after limit of them in timestamp order falls
  // between two events with one timestamp.
  ghost predicate SplitsTie(log: seq<Event>, shard: uint64, offset: int64, limit: nat) {
    exists e :: SplitAt(log, shard, offset, limit, e)
  }

  ghost predicate SplitAt(log: seq<Event>, shard: uint64, offset: int64, limit: nat, e: Event) {
    && e in log && OnShard(shard, offset)(e)
    && |Filter(log, Window(shard, offset, e.timestamp - 1))| < limit < |Filter(log, Window(shard, offset, e.timestamp))|
  }

  // No event slips behind the offset: a late append does, and so does the rest of a tie that a
  // poll splits.  Both are conditions on the state before the step.
  ghost predicate Clean(s: State, start: int64, shard: uint64, step: Step) {
    match step
    case Append(e) => e.shard == shard && e.timestamp > start ==> e.timestamp > s.offset
    case Poll(limit, _) => !SplitsTie(s.log, shard, s.offset, limit)
  }

  // Delivered so far, as a multiset within what the offset has passed.
  ghost predicate Inv(s: State, start: int64, shard: uint64) {
    && start <= s.offset
    && multiset(s.delivered) <= multiset(Filter(s.log, Window(shard, start, s.offset)))
  }

  ghost predicate NothingMissed(s: State, start: int64, shard: uint64) {
    |s.delivered| == |Filter(s.log, Window(shard, start, s.offset))|
  }

  // A page comes off the front of an ordering, so its last event is its latest.
  lemma PageMembers(page: seq<Event>, full: seq<Event>, log: seq<Event>, shard: uint64, offset: int64, limit: nat)
    requires IsOrdering(full, log, OnShard(shard, offset), TimestampLe()) && page == Take(full, limit)
    requires page != []
    ensures forall e :: e in page ==> Window(shard, offset, Last(page).timestamp)(e)
  {
    hide Filter;
    FilterMembers(log, OnShard(shard, offset));
    forall e | e in page ensures Window(shard, offset, Last(page).timestamp)(e) {
      assert e in full && e in multiset(full);
      assert e in Filter(log, OnShard(shard, offset));
      var i :| 0 <= i < |page| && page[i] == e;
      assert i < |page| - 1 ==> TimestampLe()(full[i], full[|page| - 1]);
    }
  }

  // A page is the window up to its last timestamp, short of the ties that did not fit.
  lemma PageInWindow(page: seq<Event>, log: seq<Event>, shard: uint64, offset: int64, limit: nat)
    requires IsSelected(page, log, OnShard(shard, offset), TimestampLe(), limit)
    requires page != []
    ensures Last(page).timestamp > offset
    ensures multiset(page) <= multiset(Filter(log, Window(shard, offset, Last(page).timestamp)))
  {
    hide Filter, Sorted;
    var p := OnShard(shard, offset);
    var full: seq<Event> :| IsOrdering(full, log, p, TimestampLe()) && page == Take(full, limit);
    PageMembers(page, full, log, shard, offset, limit);
    assert Last(page) in page;
    var w := Window(shard, offset, Last(page).timestamp);
    FilterMultiset(full, Filter(log, p), w);
    FilterTwice(log, p, w, w);
    assert full == page + full[|page|..];
    FilterConcat(page, full[|page|..], w);
    FilterAll(page, w);
  }

  // In an ordering, fewer than n events lie up to h exactly when the n-th one is later.
  lemma CountUpTo(full: seq<Event>, n: nat, h: int, w: Event -> bool)
    requires Sorted(full, TimestampLe()) && 1 <= n <= |full|
    requires forall e :: e in full ==> (w(e) <==> e.timestamp <= h)
    ensures |Filter(full, w)| < n <==> h < full[n - 1].timestamp
  {
    hide Filter;
    if h < full[n - 1].timestamp {
      var early := full[..n - 1];
      assert full == early + full[n - 1..];
      FilterConcat(early, full[n - 1..], w);
      forall e | e in full[n - 1..] ensures !w(e) {
        var i :| 0 <= i < |full[n - 1..]| && full[n - 1..][i] == e;
        assert i > 0 ==> TimestampLe()(full[n - 1], full[n - 1 + i]);
      }
      FilterNone(full[n - 1..], w);
    } else {
      assert full == full[..n] + full[n..];
      FilterConcat(full[..n], full[n..], w);
      forall e | e in full[..n] ensures w(e) {
        var i :| 0 <= i < n && full[i] == e;
        assert i < n - 1 ==> TimestampLe()(full[i], full[n - 1]);
      }
      FilterAll(full[..n], w);
    }
  }

  lemma CountInOrdering(full: seq<Event>, log: seq<Event>, shard: uint64, offset: int64, n: nat, h: int)
    requires IsOrdering(full, log, OnShard(shard, offset), TimestampLe()) && 1 <= n <= |full|
    ensures |Filter(log, Window(shard, offset, h))| < n <==> h < full[n - 1].timestamp
  {
    hide Filter, Sorted;
    var p, w := OnShard(shard, offset), Window(shard, offset, h);
    FilterMultiset(full, Filter(log, p), w);
    FilterTwice(log, p, w, w);
    FilterMembers(log, p);
    forall e | e in full ensures p(e) {
      assert e in multiset(full);
    }
    CountUpTo(full, n, h, w);
  }

  /** What the log says before a poll and what its page shows: a tie is split exactly when the
      window up to the page's last timestamp holds more events than the limit. */
  lemma SplitShowsInPage(page: seq<Event>, log: seq<Event>, shard: uint64, offset: int64, limit: nat)
    requires IsSelected(page, log, OnShard(shard, offset), TimestampLe(), limit)
    ensures SplitsTie(log, shard, offset, limit) <==>
      page != [] && |Filter(log, Window(shard, offset, Last(page).timestamp))| > limit
  {
    hide Filter, Sorted;
    var p := OnShard(shard, offset);
    var full: seq<Event> :| IsOrdering(full, log, p, TimestampLe()) && page == Take(full, limit);
    var matches := Filter(log, p);
    assert |full| == |multiset(full)| == |matches|;
    FilterMembers(log, p);
    if page != [] && |Filter(log, Window(shard, offset, Last(page).timestamp))| > limit {
      CountInOrdering(full, log, shard, offset, |page|, Last(page).timestamp - 1);
      assert Last(page) in multiset(full);
      assert SplitAt(log, shard, offset, limit, Last(page));
    }
    if SplitsTie(log, shard, offset, limit) {
      var e :| SplitAt(log, shard, offset, limit, e);
      WithinMatches(log, shard, offset, e.timestamp);
      CountInOrdering(full, log, shard, offset, limit, e.timestamp - 1);
      CountInOrdering(full, log, shard, offset, limit, e.timestamp);
    }
  }

  lemma WithinMatches(log: seq<Event>, shard: uint64, offset: int64, high: int)
    ensures |Filter(log, Window(shard, offset, high))| <= |Filter(log, OnShard(shard, offset))|
  {
    FilterTwice(log, OnShard(shard, offset), Window(shard, offset, high), Window(shard, offset, high));
  }

  lemma StepKeepsInv(s: State, start: int64, shard: uint64, step: Step)
    requires Inv(s, start, shard) && Enabled(s, shard, step)
    ensures Inv(Next(s, step), start, shard)
    ensures NothingMissed(Next(s, step), start, shard) <==>
      NothingMissed(s, start, shard) && Clean(s, start, shard, step)
  {
    hide Filter, SplitsTie;
    DeliveredFits(s, start, shard);
    match step {
      case Append(e) =>
        FilterConcat(s.log, [e], Window(shard, start, s.offset));
        FilterOne(e, Window(shard, start, s.offset));
      case Poll(limit, page) =>
        SplitShowsInPage(page, s.log, shard, s.offset, limit);
        if page != [] {
          PageInWindow(page, s.log, shard, s.offset, limit);
          WindowJoin(s.log, shard, start, s.offset, Last(page).timestamp);
          var w := Filter(s.log, Window(shard, s.offset, Last(page).timestamp));
          SameWhenFull(page, w);
          PageSize(page, s.log, shard, s.offset, limit);
        }
    }
  }

  // A page is short of the window only by what the limit cut off.
  lemma PageSize(page: seq<Event>, log: seq<Event>, shard: uint64, offset: int64, limit: nat)
    requires IsSelected(page, log, OnShard(shard, offset), TimestampLe(), limit)
    ensures |page| <= limit
    ensures forall high :: |page| < |Filter(log, Window(shard, offset, high))| ==> |page| == limit
  {
    hide Filter;
    var full: seq<Event> :| IsOrdering(full, log, OnShard(shard, offset), TimestampLe()) && page == Take(full, limit);
    var matches := Filter(log, OnShard(shard, offset));
    assert |full| == |multiset(full)| == |matches|;
    forall high ensures |Filter(log, Window(shard, offset, high))| <= |matches| {
      WithinMatches(log, shard, offset, high);
    }
  }

  lemma DeliveredFits(s: State, start: int64, shard: uint64)
    requires Inv(s, start, shard)
    ensures |s.delivered| <= |Filter(s.log, Window(shard, start, s.offset))|
  {
    SameWhenFull(s.delivered, Filter(s.log, Window(shard, start, s.offset)));
  }

  lemma FilterOne(e: Event, p: Event -> bool)
    ensures Filter([e], p) == if p(e) then [e] else []
  {
  }

  // ----- Runs -----

  ghost predicate IsRun(s: State, shard: uint64, steps: seq<Step>)
    decreases |steps|
  {
    steps != [] ==> Enabled(s, shard, steps[0]) && IsRun(Next(s, steps[0]), shard, steps[1..])
  }

  function Run(s: State, steps: seq<Step>): State
    decreases |steps|
  {
    if steps == [] then s else Run(Next(s, steps[0]), steps[1..])
  }

  ghost predicate AllClean(s: State, start: int64, shard: uint64, steps: seq<Step>)
    decreases |steps|
  {
    steps != [] ==>
      Clean(s, start, shard, steps[0]) && AllClean(Next(s, steps[0]), start, shard, steps[1..])
  }

  lemma {:induction false} RunKeepsInv(s: State, start: int64, shard: uint64, steps: seq<Step>)
    requires Inv(s, start, shard) && IsRun(s, shard, steps)
    ensures Inv(Run(s, steps), start, shard)
    ensures NothingMissed(Run(s, steps), start, shard) <==>
      NothingMissed(s, start, shard) && AllClean(s, start, shard, steps)
    decreases |steps|
  {
    if steps != [] {
      StepKeepsInv(s, start, shard, steps[0]);
      RunKeepsInv(Next(s, steps[0]), start, shard, steps[1..]);
    }
  }

  // An empty page with room for an event means nothing is above the offset.
  lemma EmptyPage(log: seq<Event>, shard: uint64, offset: int64, limit: nat)
    requires limit >= 1 && IsSelected([], log, OnShard(shard, offset), TimestampLe(), limit)
    ensures forall e :: e in log && e.shard == shard ==> e.timestamp <= offset
  {
    var full: seq<Event> :| IsOrdering(full, log, OnShard(shard, offset), TimestampLe()) && [] == Take(full, limit);
    assert full == [];
    assert |multiset(Filter(log, OnShard(shard, offset)))| == 0;
    FilterMembers(log, OnShard(shard, offset));
    forall e | e in log && e.shard == shard ensures e.timestamp <= offset {
      assert OnShard(shard, offset)(e) ==> e in Filter(log, OnShard(shard, offset));
    }
  }

  /** In every run of appends and polls, once a poll with limit at least 1 comes back empty, the
      events delivered are all the shard's events after the start exactly when no append came in
      at or below the offset and no poll's limit split a tie of the log. */
  lemma PollingCompleteExactly(log: seq<Event>, start: int64, shard: uint64, steps: seq<Step>, limit: nat)
    requires IsRun(State(log, start, []), shard, steps) && limit >= 1
    requires var s := Run(State(log, start, []), steps);
      IsSelected([], s.log, OnShard(shard, s.offset), TimestampLe(), limit)
    ensures var s := Run(State(log, start, []), steps);
      multiset(s.delivered) == multiset(Filter(s.log, OnShard(shard, start))) <==>
      AllClean(State(log, start, []), start, shard, steps)
  {
    hide Filter;
    var s0 := State(log, start, []);
    FilterNone(log, Window(shard, start, start));
    RunKeepsInv(s0, start, shard, steps);
    var s := Run(s0, steps);
    EmptyPage(s.log, shard, s.offset, limit);
    FilterAgree(s.log, OnShard(shard, start), Window(shard, start, s.offset));
    SameWhenFull(s.delivered, Filter(s.log, Window(shard, start, s.offset)));
  }

  // Two events with one timestamp and a limit of one: the second is never delivered.
  lemma SplitTieIsLost(a: Event, b: Event)
    requires a != b && a.shard == b.shard && a.timestamp == b.timestamp == 5
    ensures var s0 := State([a, b], 0, []);
      var s := Run(s0, [Poll(1, [a])]);
      && IsRun(s0, a.shard, [Poll(1, [a])])
      && IsSelected([], s.log, OnShard(a.shard, s.offset), TimestampLe(), 1)
      && s.delivered == [a]
      && b in Filter(s.log, OnShard(a.shard, 0))
  {
    hide Filter;
    var s0 := State([a, b], 0, []);
    var p := OnShard(a.shard, 0);
    FilterAll([a, b], p);
    assert IsOrdering([a, b], s0.log, p, TimestampLe());
    assert Take([a, b], 1) == [a];
    assert IsSelected([a], s0.log, p, TimestampLe(), 1);
    var later := OnShard(a.shard, 5);
    FilterNone([a, b], later);
    assert IsOrdering([], s0.log, later, TimestampLe());
    var none: seq<Event> := [];
    assert Take(none, 1) == none;
    var steps := [Poll(1, [a])];
    assert steps[1..] == [];
    assert Next(s0, steps[0]) == State([a, b], 5, [] + [a]);
    assert Run(s0, steps) == Run(Next(s0, steps[0]), []);
  }

  // ----- Strictly increasing timestamps -----

  // The shard's events carry strictly increasing timestamps in the order they were appended.
  ghost predicate Increasing(log: seq<Event>, shard: uint64) {
    forall i, j :: 0 <= i < j < |log| && log[i].shard == shard && log[j].shard == shard ==>
      log[i].timestamp < log[j].timestamp
  }

  ghost predicate InTime(s: seq<Event>) {
    forall i, j :: 0 <= i < j < |s| ==> s[i].timestamp < s[j].timestamp
  }

  lemma {:induction false} FilterIncreasing(log: seq<Event>, shard: uint64, p: Event -> bool)
    requires Increasing(log, shard)
    requires forall e :: p(e) ==> e.shard == shard
    ensures InTime(Filter(log, p))
  {
    if log != [] {
      var n := |log| - 1;
      FilterIncreasing(log[..n], shard, p);
      FilterMembers(log[..n], p);
      var kept := Filter(log[..n], p);
      forall i | 0 <= i < |kept| && p(log[n]) ensures kept[i].timestamp < log[n].timestamp {
        assert kept[i] in log[..n] && p(kept[i]);
        var k :| 0 <= k < n && log[k] == kept[i];
      }
    }
  }

  // Without ties there is only one ordering: the order of the appends.
  lemma OrderingIsHistory(full: seq<Event>, log: seq<Event>, shard: uint64, offset: int64)
    requires Increasing(log, shard) && IsOrdering(full, log, OnShard(shard, offset), TimestampLe())
    ensures full == Filter(log, OnShard(shard, offset))
  {
    hide Filter;
    var r := Filter(log, OnShard(shard, offset));
    FilterIncreasing(log, shard, OnShard(shard, offset));
    forall x, y | x in full && y in full && TimestampLe()(x, y) && TimestampLe()(y, x) ensures x == y {
      assert x in multiset(full) && y in multiset(full);
      assert x in r && y in r;
      var i :| 0 <= i < |r| && r[i] == x;
      var j :| 0 <= j < |r| && r[j] == y;
    }
    assert Sorted(r, TimestampLe());
    SortedUnique(full, r, TimestampLe());
  }

  ghost predicate Orderly(s: State, start: int64, shard: uint64) {
    && start <= s.offset && Increasing(s.log, shard)
    && s.delivered == Filter(s.log, Window(shard, start, s.offset))
    // the offset has been reached by an event of the shard, or is where it started
    && (s.offset == start || exists e :: e in s.log && e.shard == shard && e.timestamp == s.offset)
  }

  // The appends of a run keep the shard's timestamps increasing.
  ghost predicate InOrder(s: State, shard: uint64, steps: seq<Step>)
    decreases |steps|
  {
    steps != [] ==>
      && (steps[0].Append? ==> Increasing(s.log + [steps[0].event], shard))
      && InOrder(Next(s, steps[0]), shard, steps[1..])
  }

  // In an increasing log the window up to a cut is the part before it.
  lemma {:induction false} WindowSplit(log: seq<Event>, shard: uint64, low: int, mid: int, high: int)
    requires Increasing(log, shard) && low <= mid <= high
    ensures Filter(log, Window(shard, low, high)) ==
      Filter(log, Window(shard, low, mid)) + Filter(log, Window(shard, mid, high))
  {
    if log != [] {
      var n := |log| - 1;
      WindowSplit(log[..n], shard, low, mid, high);
      if Window(shard, low, mid)(log[n]) {
        forall e | e in log[..n] ensures !Window(shard, mid, high)(e) {
        }
        FilterNone(log[..n], Window(shard, mid, high));
      }
    }
  }

  lemma PageIsWindow(page: seq<Event>, log: seq<Event>, shard: uint64, offset: int64, limit: nat)
    requires Increasing(log, shard)
    requires IsSelected(page, log, OnShard(shard, offset), TimestampLe(), limit) && page != []
    ensures page == Filter(log, Window(shard, offset, Last(page).timestamp))
    ensures Last(page) in log && Last(page).shard == shard && Last(page).timestamp > offset
  {
    hide Filter;
    var p := OnShard(shard, offset);
    var full: seq<Event> :| IsOrdering(full, log, p, TimestampLe()) && page == Take(full, limit);
    OrderingIsHistory(full, log, shard, offset);
    FilterMembers(log, p);
    FilterIncreasing(log, shard, p);
    assert Last(page) == full[|page| - 1] && Last(page) in full;
    var w := Window(shard, offset, Last(page).timestamp);
    FilterTwice(log, p, w, w);
    forall i | 0 <= i < |full| ensures w(full[i]) == (i < |page|) {
      assert full[i] in full;
    }
    FilterPrefix(full, w, |page|);
  }

  lemma StepKeepsOrderly(s: State, start: int64, shard: uint64, step: Step)
    requires Orderly(s, start, shard) && Enabled(s, shard, step)
    requires step.Append? ==> Increasing(s.log + [step.event], shard)
    ensures Orderly(Next(s, step), start, shard)
  {
    hide Filter;
    match step {
      case Append(e) =>
        var w := Window(shard, start, s.offset);
        FilterConcat(s.log, [e], w);
        FilterOne(e, w);
        var log := s.log + [e];
        if s.offset != start {
          var x :| x in s.log && x.shard == shard && x.timestamp == s.offset;
          var i :| 0 <= i < |s.log| && s.log[i] == x;
          assert log[i] == x && log[|s.log|] == e;
          assert e.shard == shard ==> x.timestamp < e.timestamp;
        }
        assert forall x :: x in s.log ==> x in log;
      case Poll(limit, page) =>
        if page != [] {
          PageIsWindow(page, s.log, shard, s.offset, limit);
          WindowSplit(s.log, shard, start, s.offset, Last(page).timestamp);
        }
    }
  }

  lemma {:induction false} RunKeepsOrderly(s: State, start: int64, shard: uint64, steps: seq<Step>)
    requires Orderly(s, start, shard) && IsRun(s, shard, steps) && InOrder(s, shard, steps)
    ensures Orderly(Run(s, steps), start, shard)
    decreases |steps|
  {
    if steps != [] {
      StepKeepsOrderly(s, start, shard, steps[0]);
      RunKeepsOrderly(Next(s, steps[0]), start, shard, steps[1..]);
    }
  }

  lemma IncreasingPrefix(log: seq<Event>, longer: seq<Event>, shard: uint64)
    requires log <= longer && Increasing(longer, shard)
    ensures Increasing(log, shard)
  {
    assert forall i :: 0 <= i < |log| ==> log[i] == longer[i];
  }

  // A log that is increasing at the end was so all along, as it only grew.
  lemma {:induction false} IncreasingThroughout(s: State, shard: uint64, steps: seq<Step>)
    requires Increasing(Run(s, steps).log, shard)
    ensures Increasing(s.log, shard) && InOrder(s, shard, steps)
    ensures s.log <= Run(s, steps).log
    decreases |steps|
  {
    if steps != [] {
      IncreasingThroughout(Next(s, steps[0]), shard, steps[1..]);
      IncreasingPrefix(s.log, Next(s, steps[0]).log, shard);
    }
  }

  /** With strictly increasing timestamps per shard, the delivered events are at every moment a
      prefix of the shard's events after the start, in the order they were appended; an empty poll
      with limit at least 1 means they are all of them. */
  lemma DeliveredIsPrefix(log: seq<Event>, start: int64, shard: uint64, steps: seq<Step>)
    requires IsRun(State(log, start, []), shard, steps)
    requires var all := Run(State(log, start, []), steps).log;
      forall i, j :: 0 <= i < j < |all| && all[i].shard == shard && all[j].shard == shard ==>
        all[i].timestamp < all[j].timestamp
    ensures var s := Run(State(log, start, []), steps);
      && s.delivered <= Filter(s.log, OnShard(shard, start))
      && forall limit: nat :: limit >= 1 && IsSelected([], s.log, OnShard(shard, s.offset), TimestampLe(), limit) ==>
           s.delivered == Filter(s.log, OnShard(shard, start))
  {
    hide Filter;
    var s0 := State(log, start, []);
    IncreasingThroughout(s0, shard, steps);
    FilterNone(log, Window(shard, start, start));
    RunKeepsOrderly(s0, start, shard, steps);
    var s := Run(s0, steps);
    WindowSplit(s.log, shard, start, s.offset, TWO_63);
    FilterAgree(s.log, OnShard(shard, start), Window(shard, start, TWO_63));
    forall limit: nat | limit >= 1 && IsSelected([], s.log, OnShard(shard, s.offset), TimestampLe(), limit)
      ensures s.delivered == Filter(s.log, OnShard(shard, start))
    {
      EmptyPage(s.log, shard, s.offset, limit);
      FilterAgree(s.log, OnShard(shard, start), Window(shard, start, s.offset));
    }
  }

  // ----- On the store itself -----

  method PerformAppend(store: EventsStore, ghost s: State, e: Event) returns (r: Result<()>)
    requires store.Valid() && store.connected && store.table == s.log
    modifies store
    ensures store.Valid() && store.connected
    ensures store.table == if r.Ok? then Next(s, Append(e)).log else s.log
    ensures r.Ok? <==> Storable(e) && KeysDistinct(s.log + [e])
  {
    var batches;
    r, batches := store.WriteEvents([e], Faults(false, {}, {}, {}, false, false));
    InsertExactly(s.log, [e]);
    assert AllStorable([e]) <==> Storable([e][0]);
  }

  // A poll takes what the store returns, and the next offset that comes with it unless it is empty.
  method PerformPoll(store: EventsStore, ghost s: State, shard: uint64, limit: uint64, offset: int64)
    returns (page: seq<Event>, next: int64)
    requires store.Valid() && store.connected && store.table == s.log && offset == s.offset
    requires FitsBigint(shard) && FitsBigint(limit)
    ensures Enabled(s, shard, Poll(limit, page))
    ensures var s' := Next(s, Poll(limit, page));
      s'.log == s.log && s'.delivered == s.delivered + page && s'.offset == if page == [] then s.offset else next
  {
    var r := store.GetShardEvents(shard, offset, limit, true);
    return r.value.0, r.value.1;
  }
}
