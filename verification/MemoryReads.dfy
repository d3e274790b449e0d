/** What the remaining reads of the memory journal promise: shard pages, the shard list, and the
    latest event. */
module MemoryReads {
  import opened Base
  import opened Sequences
  import opened Journal
  import opened MemoryEvents

  /** A shard page is some of the matches, as many as limit + 1 allows; a next offset that comes
      with events is their greatest timestamp and moves forward. */
  lemma ShardPageFacts(page: seq<Event>, next: int64, rows: seq<Row>, shard: uint64, offset: int64, limit: uint64)
    requires IsShardPage(page, next, rows, shard, offset, limit)
    ensures var matches := Filter(EventsOf(rows), OnShard(shard, offset));
      && multiset(page) <= multiset(matches)
      && |page| == Min(|matches|, limit + 1)
    ensures page != [] ==> next > offset
    ensures forall e :: e in page ==> Window(shard, offset, next)(e)
  {
    hide Filter;
    var matches := Filter(EventsOf(rows), OnShard(shard, offset));
    var kept := Take(matches, limit + 1);
    assert matches == kept + matches[|kept|..];
    assert |page| == |multiset(page)| == |multiset(kept)| == |kept|;
    FilterMembers(EventsOf(rows), OnShard(shard, offset));
    forall e | e in page ensures Window(shard, offset, next)(e) {
      assert e in multiset(page);
      assert e in kept && e in matches;
      var i :| 0 <= i < |page| && page[i] == e;
      assert i < |page| - 1 ==> TimestampLe()(page[i], page[|page| - 1]);
    }
    if page != [] {
      assert page[|page| - 1] in page;
    }
  }

  // Cut after limit + 1 of them, the events are cut in time: those left out are all later.
  ghost predicate CutInTime(matches: seq<Event>, limit: uint64) {
    forall i, j :: 0 <= i <= limit < j < |matches| ==> matches[i].timestamp < matches[j].timestamp
  }

  /** Feeding the next offset back skips no event exactly when the shard's events above the old
      offset, which come in the order of their ids, are cut in time. */
  lemma ShardPageLosesNothingExactly(
    page: seq<Event>, next: int64, rows: seq<Row>, shard: uint64, offset: int64, limit: uint64)
    requires IsShardPage(page, next, rows, shard, offset, limit)
    ensures multiset(page) == multiset(Filter(EventsOf(rows), Window(shard, offset, next))) <==>
      CutInTime(Filter(EventsOf(rows), OnShard(shard, offset)), limit)
    ensures multiset(page) <= multiset(Filter(EventsOf(rows), Window(shard, offset, next)))
  {
    hide Filter, CutInTime;
    ShardPageFacts(page, next, rows, shard, offset, limit);
    var p, w := OnShard(shard, offset), Window(shard, offset, next);
    var matches := Filter(EventsOf(rows), p);
    var kept, rest := Take(matches, limit + 1), matches[Min(limit + 1, |matches|)..];
    assert matches == kept + rest;
    FilterTwice(EventsOf(rows), p, w, w);
    FilterConcat(kept, rest, w);
    forall e | e in kept ensures w(e) {
      assert e in multiset(kept) && e in page;
    }
    FilterAll(kept, w);
    FilterMembers(EventsOf(rows), p);
    RestIsLater(page, next, matches, limit, w);
    assert multiset(kept + Filter(rest, w)) == multiset(page) + multiset(Filter(rest, w));
    assert |multiset(Filter(rest, w))| == |Filter(rest, w)|;
  }

  // What the cut left out lies past the page's last timestamp exactly when the cut is in time.
  lemma RestIsLater(page: seq<Event>, next: int64, matches: seq<Event>, limit: uint64, w: Event -> bool)
    requires multiset(page) == multiset(Take(matches, limit + 1))
    requires page != [] ==> page[|page| - 1].timestamp == next
    requires forall e :: e in page ==> e.timestamp <= next
    requires forall e :: e in matches ==> (w(e) <==> e.timestamp <= next)
    ensures Filter(matches[Min(limit + 1, |matches|)..], w) == [] <==> CutInTime(matches, limit)
  {
    hide Filter;
    var kept, rest := Take(matches, limit + 1), matches[Min(limit + 1, |matches|)..];
    FilterMembers(rest, w);
    if CutInTime(matches, limit) {
      forall e | e in rest ensures !w(e) {
        LastIsEarlier(page, matches, limit, e);
      }
      FilterNone(rest, w);
    } else {
      var i, j :| 0 <= i <= limit < j < |matches| && matches[i].timestamp >= matches[j].timestamp;
      assert matches[i] == kept[i] && matches[j] == rest[j - |kept|];
      assert kept[i] in multiset(page);
      assert w(matches[j]);
    }
  }

  lemma LastIsEarlier(page: seq<Event>, matches: seq<Event>, limit: uint64, e: Event)
    requires multiset(page) == multiset(Take(matches, limit + 1)) && CutInTime(matches, limit)
    requires e in matches[Min(limit + 1, |matches|)..]
    ensures page != [] && page[|page| - 1].timestamp < e.timestamp && e in matches
  {
    var kept, rest := Take(matches, limit + 1), matches[Min(limit + 1, |matches|)..];
    LastIsKept(page, matches, limit);
    var j :| 0 <= j < |rest| && rest[j] == e;
    var i :| 0 <= i < |kept| && kept[i] == page[|page| - 1];
    assert matches[i].timestamp < matches[|kept| + j].timestamp;
  }

  lemma LastIsKept(page: seq<Event>, matches: seq<Event>, limit: uint64)
    requires multiset(page) == multiset(Take(matches, limit + 1)) && matches != []
    ensures |page| == |Take(matches, limit + 1)| && page != [] && page[|page| - 1] in Take(matches, limit + 1)
  {
    var kept := Take(matches, limit + 1);
    assert |page| == |multiset(page)| == |multiset(kept)| == |kept|;
    assert page[|page| - 1] in multiset(page);
  }

  // A history with increasing timestamps on which the memory store skips an event.
  lemma MemoryPollSkips(early: Event, late: Event)
    requires early.persistenceId == "b" && late.persistenceId == "a"
    requires early.shard == late.shard && early.timestamp == 1 && late.timestamp == 2
    ensures var rows := [Row("k1", late), Row("k2", early)];
      && Indexed(rows)
      && IsShardPage([late], 2, rows, early.shard, 0, 0)
      && early in Filter(EventsOf(rows), Window(early.shard, 0, 2))
  {
    hide Filter;
    var rows := [Row("k1", late), Row("k2", early)];
    TwoRowsIndexed(late, early);
    var all := EventsOf(rows);
    assert all == [late, early];
    var p := OnShard(early.shard, 0);
    FilterAll(all, p);
    assert Take(all, 1) == [late];
    FilterMembers(all, Window(early.shard, 0, 2));
    assert early in all;
  }

  lemma TwoRowsIndexed(late: Event, early: Event)
    requires early.persistenceId == "b" && late.persistenceId == "a"
    ensures Indexed([Row("k1", late), Row("k2", early)])
  {
  }

  // ----- Sorts -----

  function SequenceIs(n: uint64): Event -> bool {
    (e: Event) => e.sequenceNumber == n
  }

  /** A replay keeps events of one sequence number in the order the index gave them. */
  lemma ReplayIsStable(rows: seq<Row>, id: string, from: uint64, to: uint64, limit: uint64, n: uint64)
    ensures Filter(Replay(rows, id, from, to, limit), SequenceIs(n)) ==
      Filter(CutMatches(rows, InRange(id, from, to), limit), SequenceIs(n))
  {
    SortStable(CutMatches(rows, InRange(id, from, to), limit), SequenceLt(), SequenceIs(n));
  }

  function TimestampIs(n: int64): Event -> bool {
    (e: Event) => e.timestamp == n
  }

  /** The comparison of the shard read is not strict: events of one timestamp come out in the
      reverse of the order the index gave them. */
  lemma ShardSortTurnsTies(events: seq<Event>, n: int64)
    ensures Filter(Sort(events, TimestampLe()), TimestampIs(n)) == Reverse(Filter(events, TimestampIs(n)))
  {
    EventOrders();
    SortTurnsTies(events, TimestampLe(), TimestampIs(n));
  }

  /** So the shard sort does what a stable sort by timestamp would do exactly when the events of
      each timestamp read the same backwards; distinct timestamps are one such case. */
  lemma ShardSortStableExactly(events: seq<Event>)
    ensures Sort(events, TimestampLe()) == Sort(events, TimestampLt()) <==>
      forall n: int64 :: Filter(events, TimestampIs(n)) == Reverse(Filter(events, TimestampIs(n)))
  {
    hide Sort, Filter, Reverse;
    EventOrders();
    SortsAgreeExactly(events, TimestampLt(), TimestampLe());
    forall c ensures Filter(events, TiedWith(TimestampLe(), c)) == Filter(events, TimestampIs(c.timestamp)) {
      FilterAgree(events, TiedWith(TimestampLe(), c), TimestampIs(c.timestamp));
    }
    forall n: int64
      ensures exists c :: Filter(events, TimestampIs(n)) == Filter(events, TiedWith(TimestampLe(), c))
    {
      var c := Event("", 0, false, "", n, 0, "", false);
      assert Filter(events, TimestampIs(n)) == Filter(events, TiedWith(TimestampLe(), c));
    }
  }

  // ----- Shards -----

  function InShards(shards: seq<uint64>): Event -> bool {
    (e: Event) => e.shard in shards
  }

  ghost predicate IsRead(page: seq<Event>, rows: seq<Row>, shard: uint64, offset: int64, limit: uint64) {
    exists next :: IsShardPage(page, next, rows, shard, offset, limit)
  }

  ghost predicate FullPages(pages: seq<seq<Event>>, rows: seq<Row>, shards: seq<uint64>, offset: int64, limit: uint64) {
    && |pages| == |shards|
    && forall k :: 0 <= k < |shards| ==> IsRead(pages[k], rows, shards[k], offset, limit)
  }

  // With room for every row a page holds all the matches.
  lemma RoomyPage(page: seq<Event>, rows: seq<Row>, shard: uint64, offset: int64, limit: uint64)
    requires IsRead(page, rows, shard, offset, limit) && |rows| <= limit + 1
    ensures multiset(page) == multiset(Filter(EventsOf(rows), OnShard(shard, offset)))
  {
    var matches := Filter(EventsOf(rows), OnShard(shard, offset));
    assert Take(matches, limit + 1) == matches;
  }

  lemma {:induction false} PagesAddUp(
    pages: seq<seq<Event>>, rows: seq<Row>, shards: seq<uint64>, offset: int64, limit: uint64)
    requires FullPages(pages, rows, shards, offset, limit)
    requires forall i, j :: 0 <= i < j < |shards| ==> shards[i] != shards[j]
    requires forall e :: e in EventsOf(rows) ==> e.timestamp > offset
    requires |rows| <= limit + 1
    ensures multiset(Flatten(pages)) == multiset(Filter(EventsOf(rows), InShards(shards)))
  {
    hide Filter, EventsOf, IsRead;
    var all := EventsOf(rows);
    if shards == [] {
      FilterNone(all, InShards(shards));
    } else {
      var n := |shards| - 1;
      PagesAddUp(pages[..n], rows, shards[..n], offset, limit);
      RoomyPage(pages[n], rows, shards[n], offset, limit);
      AddShard(all, shards, offset);
    }
  }

  lemma AddShard(all: seq<Event>, shards: seq<uint64>, offset: int64)
    requires shards != [] && shards[|shards| - 1] !in shards[..|shards| - 1]
    requires forall e :: e in all ==> e.timestamp > offset
    ensures multiset(Filter(all, InShards(shards))) ==
      multiset(Filter(all, InShards(shards[..|shards| - 1]))) + multiset(Filter(all, OnShard(shards[|shards| - 1], offset)))
  {
  }

  /** Reading every listed shard from below all timestamps, with room for all rows, gives the
      whole journal, each row once. */
  lemma {:induction false} ShardsPartition(
    pages: seq<seq<Event>>, rows: seq<Row>, shards: seq<uint64>, offset: int64, limit: uint64)
    requires ListsShards(shards, rows) && FullPages(pages, rows, shards, offset, limit)
    requires forall e :: e in EventsOf(rows) ==> e.timestamp > offset
    requires |rows| <= limit + 1
    ensures multiset(Flatten(pages)) == multiset(EventsOf(rows))
  {
    hide Filter, Flatten;
    PagesAddUp(pages, rows, shards, offset, limit);
    forall e | e in EventsOf(rows) ensures InShards(shards)(e) {
      var i :| 0 <= i < |rows| && EventsOf(rows)[i] == e;
      assert rows[i] in rows;
    }
    FilterAll(EventsOf(rows), InShards(shards));
  }

  // ----- The latest event -----

  // The answer has the greatest sequence number of its id.
  ghost predicate AnswersLatest(rows: seq<Row>, id: string) {
    forall x :: x in rows && HasGreatestKey(x, rows, id) ==>
      forall y :: y in rows && y.event.persistenceId == id ==> y.event.sequenceNumber <= x.event.sequenceNumber
  }

  ghost predicate LatestForEveryDraw(events: seq<Event>, id: string) {
    forall keys :: |keys| == |events| && FreshKeys(keys, []) ==> AnswersLatest(InsertRows([], RowsOf(events, keys)), id)
  }

  lemma InsertedMember(events: seq<Event>, keys: seq<string>, r: Row)
    requires |keys| == |events|
    ensures r in InsertRows([], RowsOf(events, keys)) <==>
      exists i :: 0 <= i < |events| && r == Row(keys[i], Stored(events[i]))
  {
    var added := RowsOf(events, keys);
    InsertRowsPermutes([], added);
    assert r in InsertRows([], added) <==> r in multiset(InsertRows([], added));
    assert r in added <==> r in multiset(added);
  }

  function As(n: nat): string {
    seq(n, i => 'a')
  }

  // Keys that put one chosen event last.
  function KeysFavouring(n: nat, k: nat): (keys: seq<string>)
    ensures |keys| == n
  {
    seq(n, i requires 0 <= i => if i == k then "b" else As(i + 1))
  }

  lemma FavouringIsDraw(n: nat, k: nat)
    requires k < n
    ensures FreshKeys(KeysFavouring(n, k), [])
    ensures forall i :: 0 <= i < n ==> StrLe(KeysFavouring(n, k)[i], "b")
  {
  }

  /** The latest event is the one with the greatest random key.  It is the one with the greatest
      sequence number for every draw of keys exactly when the id has only one sequence number. */
  lemma LatestGuaranteedExactly(events: seq<Event>, id: string)
    ensures LatestForEveryDraw(events, id) <==>
      forall x, y :: x in events && y in events && x.persistenceId == id && y.persistenceId == id ==>
        x.sequenceNumber == y.sequenceNumber
  {
    if LatestForEveryDraw(events, id) {
      forall x, y | x in events && y in events && x.persistenceId == id && y.persistenceId == id
        ensures y.sequenceNumber <= x.sequenceNumber
      {
        var k :| 0 <= k < |events| && events[k] == x;
        LatestFavours(events, id, k, y);
      }
    } else {
      var keys :| |keys| == |events| && FreshKeys(keys, []) && !AnswersLatest(InsertRows([], RowsOf(events, keys)), id);
      DrawFails(events, id, keys);
    }
  }

  lemma LatestFavours(events: seq<Event>, id: string, k: nat, y: Event)
    requires LatestForEveryDraw(events, id) && k < |events| && y in events
    requires events[k].persistenceId == id && y.persistenceId == id
    ensures y.sequenceNumber <= events[k].sequenceNumber
  {
    hide InsertRows, StrLe, RowsOf;
    var keys := KeysFavouring(|events|, k);
    FavouringIsDraw(|events|, k);
    var rows := InsertRows([], RowsOf(events, keys));
    var top := Row(keys[k], Stored(events[k]));
    InsertedMember(events, keys, top);
    forall r | r in rows ensures StrLe(r.ordering, top.ordering) {
      InsertedMember(events, keys, r);
    }
    assert HasGreatestKey(top, rows, id);
    var i :| 0 <= i < |events| && events[i] == y;
    InsertedMember(events, keys, Row(keys[i], Stored(y)));
  }

  lemma DrawFails(events: seq<Event>, id: string, keys: seq<string>)
    requires |keys| == |events| && !AnswersLatest(InsertRows([], RowsOf(events, keys)), id)
    ensures exists x, y ::
      && x in events && y in events && x.persistenceId == id && y.persistenceId == id
      && x.sequenceNumber != y.sequenceNumber
  {
    hide InsertRows, StrLe, RowsOf;
    var rows := InsertRows([], RowsOf(events, keys));
    var x, y :| x in rows && y in rows && x.event.persistenceId == id && y.event.persistenceId == id &&
      y.event.sequenceNumber > x.event.sequenceNumber;
    InsertedMember(events, keys, x);
    InsertedMember(events, keys, y);
    var i :| 0 <= i < |events| && x == Row(keys[i], Stored(events[i]));
    var j :| 0 <= j < |events| && y == Row(keys[j], Stored(events[j]));
    assert events[i] in events && events[j] in events;
  }
}
