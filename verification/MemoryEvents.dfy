/** The in-memory event journal (eventstore/memory/events_store.go, eventstore/memory/schemas.go).

    The table is kept as the sequence of its rows in the order of the persistenceId index:
    by id, then by the random primary key. */
module MemoryEvents {
  import opened Base
  import opened Sequences
  import opened Journal

  datatype Row = Row(ordering: string, event: Event)

  function RowLe(): (Row, Row) -> bool {
    (a: Row, b: Row) =>
      StrLt(a.event.persistenceId, b.event.persistenceId)
      || (a.event.persistenceId == b.event.persistenceId && StrLe(a.ordering, b.ordering))
  }

  function RowLt(): (Row, Row) -> bool {
    (a: Row, b: Row) =>
      StrLt(a.event.persistenceId, b.event.persistenceId)
      || (a.event.persistenceId == b.event.persistenceId && StrLt(a.ordering, b.ordering))
  }

  lemma RowOrder()
    ensures TotalPreorder(RowLe()) && Compares(RowLt(), RowLe())
  {
    StrOrder();
  }

  ghost predicate OrderingsDistinct(rows: seq<Row>) {
    forall i, j :: 0 <= i < j < |rows| ==> rows[i].ordering != rows[j].ordering
  }

  ghost predicate Indexed(rows: seq<Row>) {
    && Sorted(rows, RowLe())
    && OrderingsDistinct(rows)
    && IdsPresent(rows)
  }

  function EventsOf(rows: seq<Row>): (r: seq<Event>)
    ensures |r| == |rows| && forall i :: 0 <= i < |rows| ==> r[i] == rows[i].event
  {
    seq(|rows|, i requires 0 <= i < |rows| => rows[i].event)
  }

  function OnEvent(p: Event -> bool): Row -> bool {
    (r: Row) => p(r.event)
  }

  lemma {:induction false} EventsOfFilter(rows: seq<Row>, p: Event -> bool)
    ensures EventsOf(Filter(rows, OnEvent(p))) == Filter(EventsOf(rows), p)
  {
    if rows != [] {
      var n := |rows| - 1;
      EventsOfFilter(rows[..n], p);
      assert EventsOf(rows)[..n] == EventsOf(rows[..n]);
    }
  }

  function Is(e: Event): Event -> bool {
    (x: Event) => x == e
  }

  lemma {:induction false} CountEvents(rows: seq<Row>, e: Event)
    ensures multiset(EventsOf(rows))[e] == |Filter(rows, OnEvent(Is(e)))|
  {
    if rows != [] {
      var n := |rows| - 1;
      CountEvents(rows[..n], e);
      assert EventsOf(rows) == EventsOf(rows[..n]) + [rows[n].event];
    }
  }

  lemma EventsOfMultiset(a: seq<Row>, b: seq<Row>)
    requires multiset(a) == multiset(b)
    ensures multiset(EventsOf(a)) == multiset(EventsOf(b))
  {
    forall e ensures multiset(EventsOf(a))[e] == multiset(EventsOf(b))[e] {
      CountEvents(a, e);
      CountEvents(b, e);
      FilterMultiset(a, b, OnEvent(Is(e)));
    }
  }

  // ----- Transactions over the table -----

  // The rows written for a batch of events, with the keys drawn for them.
  function RowsOf(events: seq<Event>, keys: seq<string>): (r: seq<Row>)
    requires |keys| == |events|
    ensures |r| == |events|
    ensures forall i :: 0 <= i < |events| ==> r[i] == Row(keys[i], Stored(events[i]))
  {
    seq(|events|, i requires 0 <= i < |events| => Row(keys[i], Stored(events[i])))
  }

  // uuid.NewString draws non-empty keys that are new to the table.
  ghost predicate FreshKeys(keys: seq<string>, rows: seq<Row>) {
    && (forall i, j :: 0 <= i < j < |keys| ==> keys[i] != keys[j])
    && (forall i :: 0 <= i < |keys| ==> Present(keys[i]))
    && (forall i, j :: 0 <= i < |keys| && 0 <= j < |rows| ==> keys[i] != rows[j].ordering)
  }

  function InsertRows(rows: seq<Row>, added: seq<Row>): (r: seq<Row>)
  {
    if added == [] then rows
    else InsertLeft(InsertRows(rows, added[..|added| - 1]), added[|added| - 1], RowLt())
  }

  lemma {:induction false} InsertRowsPermutes(rows: seq<Row>, added: seq<Row>)
    ensures multiset(InsertRows(rows, added)) == multiset(rows) + multiset(added)
  {
    if added != [] {
      var n := |added| - 1;
      assert added == added[..n] + [added[n]];
      InsertRowsPermutes(rows, added[..n]);
      InsertLeftPermutes(InsertRows(rows, added[..n]), added[n], RowLt());
    }
  }

  lemma InsertRowsNone(rows: seq<Row>)
    ensures InsertRows(rows, []) == rows
  {
  }

  lemma InsertRowsStep(rows: seq<Row>, added: seq<Row>, i: nat)
    requires i < |added|
    ensures InsertRows(rows, added[..i + 1]) == InsertLeft(InsertRows(rows, added[..i]), added[i], RowLt())
  {
    assert added[..i + 1][..i] == added[..i];
  }

  lemma {:induction false} InsertRowsIndexed(rows: seq<Row>, events: seq<Event>, keys: seq<string>)
    requires Indexed(rows) && |keys| == |events| && FreshKeys(keys, rows)
    requires forall e :: e in events ==> Present(e.persistenceId)
    ensures Indexed(InsertRows(rows, RowsOf(events, keys)))
  {
    var added := RowsOf(events, keys);
    if added != [] {
      var n := |added| - 1;
      assert added[..n] == RowsOf(events[..n], keys[..n]);
      InsertRowsIndexed(rows, events[..n], keys[..n]);
      var before := InsertRows(rows, added[..n]);
      RowOrder();
      InsertRowsPermutes(rows, added[..n]);
      InsertLeftSorted(before, added[n], RowLt(), RowLe());
      forall i | 0 <= i < |before| ensures before[i].ordering != added[n].ordering {
        assert before[i] in multiset(before);
        assert before[i] in rows || before[i] in added[..n];
      }
      InsertLeftDistinct(before, added[n], RowLt());
    }
  }

  ghost predicate IdsPresent(rows: seq<Row>) {
    forall i :: 0 <= i < |rows| ==> Present(rows[i].event.persistenceId)
  }

  lemma InsertLeftDistinct(s: seq<Row>, x: Row, less: (Row, Row) -> bool)
    requires OrderingsDistinct(s) && IdsPresent(s) && Present(x.event.persistenceId)
    requires forall i :: 0 <= i < |s| ==> s[i].ordering != x.ordering
    ensures OrderingsDistinct(InsertLeft(s, x, less)) && IdsPresent(InsertLeft(s, x, less))
  {
    var j := InsertLeftShape(s, x, less);
  }

  function KeyIsNot(key: string): Row -> bool {
    (r: Row) => r.ordering != key
  }

  predicate HasKey(rows: seq<Row>, key: string) {
    exists r :: r in rows && r.ordering == key
  }

  // Txn.Delete: fails when no row has the key.
  function DeleteRow(rows: seq<Row>, target: Row): Option<seq<Row>> {
    if HasKey(rows, target.ordering) then Some(Filter(rows, KeyIsNot(target.ordering))) else None
  }

  function DeleteRows(rows: seq<Row>, targets: seq<Row>): Option<seq<Row>> {
    if targets == [] then Some(rows)
    else
      match DeleteRows(rows, targets[..|targets| - 1])
      case None => None
      case Some(left) => DeleteRow(left, targets[|targets| - 1])
  }

  function KeyNotAmong(targets: seq<Row>): Row -> bool {
    (r: Row) => forall t :: t in targets ==> t.ordering != r.ordering
  }

  /** A delete transaction succeeds exactly when every target still has its row, and then takes
      out exactly the targets. */
  lemma {:induction false} DeleteRowsExact(rows: seq<Row>, targets: seq<Row>)
    requires OrderingsDistinct(targets)
    ensures DeleteRows(rows, targets).Some? <==> forall t :: t in targets ==> HasKey(rows, t.ordering)
    ensures DeleteRows(rows, targets).Some? ==>
      DeleteRows(rows, targets).value == Filter(rows, KeyNotAmong(targets))
  {
    if targets == [] {
      FilterAll(rows, KeyNotAmong(targets));
    } else {
      var n := |targets| - 1;
      var last := targets[n];
      DeleteRowsExact(rows, targets[..n]);
      assert targets == targets[..n] + [last];
      if DeleteRows(rows, targets[..n]).Some? {
        var left := Filter(rows, KeyNotAmong(targets[..n]));
        FilterMembers(rows, KeyNotAmong(targets[..n]));
        assert HasKey(rows, last.ordering) ==> HasKey(left, last.ordering) by {
          if HasKey(rows, last.ordering) {
            var r :| r in rows && r.ordering == last.ordering;
            assert KeyNotAmong(targets[..n])(r);
            assert r in left;
          }
        }
        FilterTwice(rows, KeyNotAmong(targets[..n]), KeyIsNot(last.ordering), KeyNotAmong(targets));
      }
    }
  }

  lemma {:induction false} FilterRowsDistinct(rows: seq<Row>, p: Row -> bool)
    requires OrderingsDistinct(rows)
    ensures OrderingsDistinct(Filter(rows, p))
  {
    if rows != [] {
      var n := |rows| - 1;
      FilterRowsDistinct(rows[..n], p);
      FilterMembers(rows[..n], p);
      forall r | r in Filter(rows[..n], p) ensures r.ordering != rows[n].ordering {
        assert r in rows[..n];
      }
    }
  }

  lemma {:induction false} FilterRowsIndexed(rows: seq<Row>, p: Row -> bool)
    requires Indexed(rows)
    ensures Indexed(Filter(rows, p))
  {
    FilterRowsDistinct(rows, p);
    if rows != [] {
      var n := |rows| - 1;
      FilterRowsIndexed(rows[..n], p);
      var kept := Filter(rows[..n], p);
      FilterMembers(rows[..n], p);
      forall i | 0 <= i < |kept| ensures RowLe()(kept[i], rows[n]) {
        assert kept[i] in rows[..n];
      }
    }
  }

  // ----- Query results -----

  // The rows a read keeps before sorting: the filter in index order, cut after limit + 1 rows.
  function CutMatches(rows: seq<Row>, p: Event -> bool, limit: uint64): seq<Event> {
    Take(Filter(EventsOf(rows), p), limit + 1)
  }

  function Replay(rows: seq<Row>, id: string, from: uint64, to: uint64, limit: uint64): seq<Event> {
    Sort(CutMatches(rows, InRange(id, from, to), limit), SequenceLt())
  }

  // Go converts the page size to int, so 2^63 and above turn negative and never stop the loop.
  function PageCap(pageSize: uint64): int {
    if pageSize < TWO_63 then pageSize else pageSize - TWO_64
  }

  function Cut<T>(s: seq<T>, cap: int): (r: seq<T>) {
    if cap < 0 then s else Take(s, cap)
  }

  function IdOf(r: Row): string {
    r.event.persistenceId
  }

  function Ids(rows: seq<Row>): (r: seq<string>)
    ensures |r| == |rows| && forall i :: 0 <= i < |rows| ==> r[i] == IdOf(rows[i])
  {
    seq(|rows|, i requires 0 <= i < |rows| => IdOf(rows[i]))
  }

  function AtOrAfter(token: string): string -> bool {
    (id: string) => StrLe(token, id)
  }

  function IsNot(token: string): string -> bool {
    (id: string) => id != token
  }

  function OnId(p: string -> bool): Row -> bool {
    (r: Row) => p(IdOf(r))
  }

  // One page of ids, from the ids of the rows in index order.
  function PageOf(ids: seq<string>, cap: int, token: string): seq<string> {
    Filter(Cut(Filter(ids, AtOrAfter(token)), cap), IsNot(token))
  }

  lemma {:induction false} IdsOfFilter(rows: seq<Row>, p: string -> bool)
    ensures Ids(Filter(rows, OnId(p))) == Filter(Ids(rows), p)
  {
    if rows != [] {
      var n := |rows| - 1;
      IdsOfFilter(rows[..n], p);
      assert Ids(rows)[..n] == Ids(rows[..n]);
    }
  }

  lemma {:induction false} FilterIdsSorted(ids: seq<string>, p: string -> bool)
    requires Sorted(ids, IdLe())
    ensures Sorted(Filter(ids, p), IdLe())
  {
    if ids != [] {
      var n := |ids| - 1;
      FilterIdsSorted(ids[..n], p);
      var kept := Filter(ids[..n], p);
      FilterMembers(ids[..n], p);
      forall i | 0 <= i < |kept| ensures IdLe()(kept[i], ids[n]) {
        assert kept[i] in ids[..n];
      }
    }
  }

  lemma IdsSorted(rows: seq<Row>)
    requires Indexed(rows)
    ensures Sorted(Ids(rows), IdLe())
  {
    StrOrder();
  }

  // A page is in order already, so the sort the store runs on it changes nothing.
  lemma SortedPage(ids: seq<string>, cap: int, token: string)
    requires Sorted(ids, IdLe())
    ensures Sorted(PageOf(ids, cap, token), IdLe())
    ensures Sort(PageOf(ids, cap, token), IdLe()) == PageOf(ids, cap, token)
  {
    var page := PageOf(ids, cap, token);
    FilterIdsSorted(ids, AtOrAfter(token));
    FilterIdsSorted(Cut(Filter(ids, AtOrAfter(token)), cap), IsNot(token));
    IdOrder();
    StrOrder();
    SortSorted(page, IdLe(), IdLe());
    SortPermutes(page, IdLe());
    SortedUnique(Sort(page, IdLe()), page, IdLe());
  }

  ghost predicate HasGreatestKey(x: Row, rows: seq<Row>, id: string) {
    && x.event.persistenceId == id
    && forall y :: y in rows && y.event.persistenceId == id ==> StrLe(y.ordering, x.ordering)
  }

  // At most one row of an id has it.
  lemma GreatestKeyUnique(a: Row, b: Row, rows: seq<Row>, id: string)
    requires OrderingsDistinct(rows) && a in rows && b in rows
    requires HasGreatestKey(a, rows, id) && HasGreatestKey(b, rows, id)
    ensures a == b
  {
    StrLeAntisymmetric(a.ordering, b.ordering);
  }

  function ShardIs(shard: uint64): Event -> bool {
    (e: Event) => e.shard == shard
  }

  // What the shard read promises: the cut matches in timestamp order, and the next offset.
  ghost predicate IsShardPage(
    page: seq<Event>, next: int64, rows: seq<Row>, shard: uint64, offset: int, limit: uint64) {
    && multiset(page) == multiset(CutMatches(rows, OnShard(shard, offset), limit))
    && Sorted(page, TimestampLe())
    && next == if page == [] then 0 else page[|page| - 1].timestamp
  }

  // A duplicate-free list of exactly the shards that have rows.
  ghost predicate ListsShards(shards: seq<uint64>, rows: seq<Row>) {
    && (forall i, j :: 0 <= i < j < |shards| ==> shards[i] != shards[j])
    && (forall s :: s in shards ==> exists r :: r in rows && r.event.shard == s)
    && (forall r :: r in rows ==> r.event.shard in shards)
  }

  // Token "" stands before every id.
  lemma FilterAllFrom(rows: seq<Row>, token: string)
    ensures token == "" ==> Filter(rows, OnId(AtOrAfter(token))) == rows
  {
    if token == "" {
      forall r | r in rows ensures OnId(AtOrAfter(token))(r) {
        assert StrLe("", IdOf(r));
      }
      FilterAll(rows, OnId(AtOrAfter(token)));
    }
  }

  function UpTo(to: uint64): Event -> bool {
    (e: Event) => e.sequenceNumber <= to
  }

  // The rows a delete transaction aims at, from the snapshot of its read transaction.
  function Targets(snapshot: seq<Row>, to: uint64): seq<Row> {
    Filter(snapshot, OnEvent(UpTo(to)))
  }

  function Snapshot(rows: seq<Row>, id: string): seq<Row> {
    Filter(rows, OnEvent(HasId(id)))
  }

  lemma TargetsMember(rows: seq<Row>, id: string, to: uint64, r: Row)
    ensures r in Targets(Snapshot(rows, id), to) <==> r in rows && Covered(id, to)(r.event)
  {
    FilterMembers(rows, OnEvent(HasId(id)));
    FilterMembers(Snapshot(rows, id), OnEvent(UpTo(to)));
    assert OnEvent(HasId(id))(r) <==> r.event.persistenceId == id;
  }

  // Nothing between the two transactions: the delete takes out exactly the covered rows.
  lemma TargetsGone(rows: seq<Row>, id: string, to: uint64)
    requires OrderingsDistinct(rows)
    ensures DeleteRows(rows, Targets(Snapshot(rows, id), to)) == Some(Filter(rows, OnEvent(NotCovered(id, to))))
  {
    var targets := Targets(Snapshot(rows, id), to);
    FilterRowsDistinct(rows, OnEvent(HasId(id)));
    FilterRowsDistinct(Snapshot(rows, id), OnEvent(UpTo(to)));
    DeleteRowsExact(rows, targets);
    forall t | t in targets ensures HasKey(rows, t.ordering) {
      TargetsMember(rows, id, to, t);
    }
    forall r | r in rows ensures KeyNotAmong(targets)(r) == OnEvent(NotCovered(id, to))(r) {
      TargetsMember(rows, id, to, r);
      forall t | t in targets ensures OnEvent(NotCovered(id, to))(r) ==> t.ordering != r.ordering {
        TargetsMember(rows, id, to, t);
      }
    }
    FilterAgree(rows, KeyNotAmong(targets), OnEvent(NotCovered(id, to)));
  }

  // ----- What the reads and writes mean, field by field -----

  // What a read keeps: stored events that meet its condition, as many as the limit lets through,
  // and all of them when they fit.
  lemma KeptMeans(r: seq<Event>, rows: seq<Row>, p: Event -> bool, limit: uint64)
    requires OrderingsDistinct(rows) && multiset(r) == multiset(CutMatches(rows, p, limit))
    ensures forall e :: e in r ==> p(e) && exists x :: x in rows && x.event == e
    ensures var n := |set x | x in rows && p(x.event)|;
      && |r| == (if n <= limit then n else limit + 1)
      && (n <= limit + 1 ==> forall x :: x in rows && p(x.event) ==> x.event in r)
  {
    hide Filter;
    var matches := Filter(EventsOf(rows), p);
    assert NoRepeats(rows);
    FilterIsSet(rows, OnEvent(p), set x | x in rows && p(x.event));
    EventsOfFilter(rows, p);
    FilterMembers(EventsOf(rows), p);
    assert |r| == |multiset(r)| == |CutMatches(rows, p, limit)|;
    forall e ensures e in r <==> e in CutMatches(rows, p, limit) {
      assert e in r <==> e in multiset(r);
      assert e in CutMatches(rows, p, limit) <==> e in multiset(CutMatches(rows, p, limit));
    }
    forall e | e in r ensures p(e) && exists x :: x in rows && x.event == e {
      assert e in matches && e in EventsOf(rows);
      var i :| 0 <= i < |rows| && EventsOf(rows)[i] == e;
      assert rows[i] in rows;
    }
    if |matches| <= limit + 1 {
      assert CutMatches(rows, p, limit) == matches;
      forall x | x in rows && p(x.event) ensures x.event in r {
        var i :| 0 <= i < |rows| && rows[i] == x;
        assert EventsOf(rows)[i] == x.event;
      }
    }
  }

  lemma ReplayMeans(rows: seq<Row>, id: string, from: uint64, to: uint64, limit: uint64)
    requires OrderingsDistinct(rows)
    ensures var r := Replay(rows, id, from, to, limit);
      var n := |set x | x in rows && x.event.persistenceId == id && from <= x.event.sequenceNumber <= to|;
      && (forall e :: e in r ==> e.persistenceId == id && from <= e.sequenceNumber <= to && exists x :: x in rows && x.event == e)
      && (forall i, j :: 0 <= i < j < |r| ==> r[i].sequenceNumber <= r[j].sequenceNumber)
      && |r| == (if n <= limit then n else limit + 1)
      && (n <= limit + 1 ==>
            forall x | x in rows && x.event.persistenceId == id && from <= x.event.sequenceNumber <= to :: x.event in r)
  {
    hide Sort, CutMatches, OrderingsDistinct;
    var r, p := Replay(rows, id, from, to, limit), InRange(id, from, to);
    var kept := CutMatches(rows, p, limit);
    EventOrders();
    SortPermutes(kept, SequenceLt());
    SortSorted(kept, SequenceLt(), SequenceLe());
    KeptMeans(r, rows, p, limit);
    assert (set x | x in rows && p(x.event)) ==
      set x | x in rows && x.event.persistenceId == id && from <= x.event.sequenceNumber <= to;
    forall i, j | 0 <= i < j < |r| ensures r[i].sequenceNumber <= r[j].sequenceNumber {
      assert SequenceLe()(r[i], r[j]);
    }
  }

  lemma ShardPageMeans(page: seq<Event>, next: int64, rows: seq<Row>, shard: uint64, offset: int64, limit: uint64)
    requires OrderingsDistinct(rows) && IsShardPage(page, next, rows, shard, offset, limit)
    ensures var n := |set x | x in rows && x.event.shard == shard && x.event.timestamp > offset|;
      && (forall e :: e in page ==> e.shard == shard && e.timestamp > offset && exists x :: x in rows && x.event == e)
      && (forall i, j :: 0 <= i < j < |page| ==> page[i].timestamp <= page[j].timestamp)
      && next == (if page == [] then 0 else page[|page| - 1].timestamp)
      && |page| == (if n <= limit then n else limit + 1)
      && (n <= limit + 1 ==>
            forall x :: x in rows && x.event.shard == shard && x.event.timestamp > offset ==> x.event in page)
  {
    hide CutMatches, OrderingsDistinct;
    var p := OnShard(shard, offset);
    KeptMeans(page, rows, p, limit);
    assert (set x | x in rows && p(x.event)) ==
      set x | x in rows && x.event.shard == shard && x.event.timestamp > offset;
    forall i, j | 0 <= i < j < |page| ensures page[i].timestamp <= page[j].timestamp {
      assert TimestampLe()(page[i], page[j]);
    }
  }

  lemma PageMeans(rows: seq<Row>, cap: int, token: string)
    requires Indexed(rows)
    ensures var page := PageOf(Ids(rows), cap, token);
      && (forall id :: id in page ==> StrLt(token, id) && exists x :: x in rows && x.event.persistenceId == id)
      && (forall i, j :: 0 <= i < j < |page| ==> StrLe(page[i], page[j]))
      && (cap >= 0 ==> |page| <= cap)
  {
    hide Filter, StrLe, Indexed;
    var from := Filter(Ids(rows), AtOrAfter(token));
    var cut := Cut(from, cap);
    var page := PageOf(Ids(rows), cap, token);
    FilterMembers(Ids(rows), AtOrAfter(token));
    FilterMembers(cut, IsNot(token));
    forall id | id in page ensures StrLt(token, id) && exists x :: x in rows && x.event.persistenceId == id {
      assert id in cut && IsNot(token)(id) && id in from && AtOrAfter(token)(id);
      var i :| 0 <= i < |rows| && Ids(rows)[i] == id;
      assert rows[i] in rows;
    }
    IdsSorted(rows);
    SortedPage(Ids(rows), cap, token);
    forall i, j | 0 <= i < j < |page| ensures StrLe(page[i], page[j]) {
      assert IdLe()(page[i], page[j]);
    }
  }

  // Every event of a write lies in the new table under its own key.
  lemma WrittenRows(rows: seq<Row>, events: seq<Event>, keys: seq<string>)
    requires |keys| == |events|
    ensures |InsertRows(rows, RowsOf(events, keys))| == |rows| + |events|
    ensures forall x :: x in rows ==> x in InsertRows(rows, RowsOf(events, keys))
    ensures forall i :: 0 <= i < |events| ==> Row(keys[i], Stored(events[i])) in InsertRows(rows, RowsOf(events, keys))
  {
    hide InsertRows;
    var added, after := RowsOf(events, keys), InsertRows(rows, RowsOf(events, keys));
    InsertRowsPermutes(rows, added);
    assert |after| == |multiset(after)| == |multiset(rows)| + |multiset(added)|;
    forall x | x in rows || x in added ensures x in after {
      assert x in multiset(rows) || x in multiset(added);
      assert x in multiset(after);
    }
    forall i | 0 <= i < |events| ensures Row(keys[i], Stored(events[i])) in after {
      assert added[i] in added;
    }
  }

  // ----- The store -----

  // The insert loop of one write transaction; an id that is missing aborts it.
  method InsertEvents(rows: seq<Row>, events: seq<Event>, keys: seq<string>) returns (txn: Option<seq<Row>>)
    requires |keys| == |events|
    ensures txn.Some? <==> forall e :: e in events ==> Present(e.persistenceId)
    ensures txn.Some? ==> txn.value == InsertRows(rows, RowsOf(events, keys))
  {
    hide InsertRows, InsertLeft, RowLt;
    InsertRowsNone(rows);
    var written := rows;
    ghost var added := RowsOf(events, keys);
    for i := 0 to |events|
      invariant written == InsertRows(rows, added[..i])
      invariant forall j :: 0 <= j < i ==> Present(events[j].persistenceId)
    {
      var journal := Row(keys[i], Stored(events[i]));
      if !Present(journal.event.persistenceId) {
        assert events[i] in events;
        return None;
      }
      InsertRowsStep(rows, added, i);
      written := InsertLeft(written, journal, RowLt());
    }
    assert added[..|events|] == added;
    return Some(written);
  }

  // The delete loop of one write transaction; a row that is gone aborts it.
  method DeleteMatching(rows: seq<Row>, journals: seq<Row>, toSequenceNumber: uint64)
    returns (txn: Option<seq<Row>>)
    ensures txn == DeleteRows(rows, Filter(journals, OnEvent(UpTo(toSequenceNumber))))
  {
    ghost var covered := OnEvent(UpTo(toSequenceNumber));
    var left := rows;
    for i := 0 to |journals|
      invariant DeleteRows(rows, Filter(journals[..i], covered)) == Some(left)
    {
      FilterStep(journals, i, covered);
      ghost var before := Filter(journals[..i], covered);
      assert OnEvent(UpTo(toSequenceNumber))(journals[i]) == (journals[i].event.sequenceNumber <= toSequenceNumber);
      if journals[i].event.sequenceNumber <= toSequenceNumber {
        DeleteRowsStep(rows, before, journals[i]);
        var next := DeleteRow(left, journals[i]);
        if next.None? {
          assert journals == journals[..i + 1] + journals[i + 1..];
          FilterConcat(journals[..i + 1], journals[i + 1..], covered);
          DeleteRowsStop(rows, before + [journals[i]], Filter(journals[i + 1..], covered));
          return None;
        }
        left := next.value;
        assert Filter(journals[..i + 1], covered) == before + [journals[i]];
        assert DeleteRows(rows, before + [journals[i]]) == Some(left);
      } else {
        assert Filter(journals[..i + 1], covered) == before;
      }
    }
    assert journals[..|journals|] == journals;
    return Some(left);
  }

  lemma DeleteRowsStep(rows: seq<Row>, done: seq<Row>, target: Row)
    ensures DeleteRows(rows, done + [target]) ==
      match DeleteRows(rows, done) case None => None case Some(left) => DeleteRow(left, target)
  {
  }

  lemma {:induction false} DeleteRowsStop(rows: seq<Row>, done: seq<Row>, rest: seq<Row>)
    requires DeleteRows(rows, done).None?
    ensures DeleteRows(rows, done + rest).None?
  {
    if rest == [] {
      assert done + rest == done;
    } else {
      var n := |rest| - 1;
      assert (done + rest)[..|done + rest| - 1] == done + rest[..n];
      DeleteRowsStop(rows, done, rest[..n]);
    }
  }

  // The loop that gathers the wanted events, and stops adding once it holds limit + 1.
  method CollectMatches(journals: seq<Row>, wanted: Event -> bool, limit: uint64) returns (events: seq<Event>)
    ensures events == CutMatches(journals, wanted, limit)
  {
    hide Filter;
    FilterNone([], wanted);
    events := [];
    for i := 0 to |journals|
      invariant events == Take(Filter(EventsOf(journals)[..i], wanted), limit + 1)
    {
      FilterStep(EventsOf(journals), i, wanted);
      if wanted(journals[i].event) {
        if |events| <= limit {
          events := events + [journals[i].event];
        }
      }
    }
    assert EventsOf(journals)[..|journals|] == EventsOf(journals);
  }

  // The loop over all rows that gathers those of one shard.
  method RowsOnShard(db: seq<Row>, shardNumber: uint64) returns (journals: seq<Row>)
    ensures journals == Filter(db, OnEvent(ShardIs(shardNumber)))
  {
    hide Filter;
    FilterNone([], OnEvent(ShardIs(shardNumber)));
    journals := [];
    for i := 0 to |db|
      invariant journals == Filter(db[..i], OnEvent(ShardIs(shardNumber)))
    {
      FilterStep(db, i, OnEvent(ShardIs(shardNumber)));
      if db[i].event.shard == shardNumber {
        journals := journals + [db[i]];
      }
    }
    assert db[..|db|] == db;
  }

  method FetchUpTo(it: seq<Row>, cap: int) returns (journals: seq<Row>)
    ensures journals == Cut(it, cap)
  {
    journals := [];
    for i := 0 to |it|
      invariant journals == it[..i]
      invariant cap >= 0 ==> i <= cap
    {
      if |journals| == cap {
        break;
      }
      journals := journals + [it[i]];
    }
  }

  method SkipToken(journals: seq<Row>, pageToken: string) returns (persistenceIDs: seq<string>)
    ensures persistenceIDs == Filter(Ids(journals), IsNot(pageToken))
  {
    persistenceIDs := [];
    for i := 0 to |journals|
      invariant persistenceIDs == Filter(Ids(journals)[..i], IsNot(pageToken))
    {
      FilterStep(Ids(journals), i, IsNot(pageToken));
      if IdOf(journals[i]) == pageToken {
        continue;
      }
      persistenceIDs := persistenceIDs + [IdOf(journals[i])];
    }
    assert Ids(journals)[..|journals|] == Ids(journals);
  }

  // The events of one shard that a read keeps, before they are sorted.
  method ReadShard(db: seq<Row>, shardNumber: uint64, offset: int64, limit: uint64) returns (events: seq<Event>)
    ensures events == CutMatches(db, OnShard(shardNumber, offset), limit)
  {
    hide Filter;
    var journals := RowsOnShard(db, shardNumber);
    ghost var wanted := OnShard(shardNumber, offset);
    EventsOfFilter(db, ShardIs(shardNumber));
    FilterTwice(EventsOf(db), ShardIs(shardNumber), wanted, wanted);
    if journals == [] {
      return [];
    }
    events := CollectMatches(journals, OnShard(shardNumber, offset), limit);
  }

  // Sorting them gives the page, with the last timestamp as next offset.
  lemma SortGivesPage(events: seq<Event>, rows: seq<Row>, shard: uint64, offset: int64, limit: uint64)
    requires events == CutMatches(rows, OnShard(shard, offset), limit)
    ensures events == [] ==> IsShardPage([], 0, rows, shard, offset, limit)
    ensures events != [] ==>
      var page := Sort(events, TimestampLe());
      IsShardPage(page, page[|page| - 1].timestamp, rows, shard, offset, limit)
  {
    hide Sort, CutMatches;
    EventOrders();
    SortSorted(events, TimestampLe(), TimestampLe());
    SortPermutes(events, TimestampLe());
  }

  // The read behind one page, before it is sorted.
  method ReadPage(db: seq<Row>, pageSize: uint64, pageToken: string) returns (persistenceIDs: seq<string>)
    ensures persistenceIDs == PageOf(Ids(db), PageCap(pageSize), pageToken)
  {
    hide StrLe, Filter;
    var it := if pageToken != "" then Filter(db, OnId(AtOrAfter(pageToken))) else db;
    FilterAllFrom(db, pageToken);
    IdsOfFilter(db, AtOrAfter(pageToken));
    var journals := FetchUpTo(it, PageCap(pageSize));
    assert Ids(journals) == Cut(Ids(it), PageCap(pageSize));
    persistenceIDs := SkipToken(journals, pageToken);
  }

  method SortSlice<T>(s: seq<T>, less: (T, T) -> bool) returns (r: seq<T>)
    ensures r == Sort(s, less)
  {
    var slice := new T[|s|](i requires 0 <= i < |s| => s[i]);
    assert slice[..] == s;
    SortInPlace(slice, less);
    return slice[..];
  }

  class EventsStore {
    var db: seq<Row>
    var keepRecordsAfterDisconnect: bool
    var connected: bool

    ghost predicate Valid()
      reads this
    {
      Indexed(db)
    }

    constructor ()
      ensures Valid() && !connected && !keepRecordsAfterDisconnect && db == []
    {
      db, keepRecordsAfterDisconnect, connected := [], false, false;
    }

    // A fresh database is built on every connection, whatever the keep flag says.
    method Connect()
      requires Valid()
      modifies this`db, this`connected
      ensures Valid() && connected
      ensures db == if old(connected) then old(db) else []
    {
      if connected {
        return;
      }
      db := [];
      connected := true;
    }

    method Disconnect()
      requires Valid()
      modifies this`db, this`connected
      ensures Valid() && !connected
      ensures db == if old(connected) && !keepRecordsAfterDisconnect then [] else old(db)
    {
      if !connected {
        return;
      }
      if !keepRecordsAfterDisconnect {
        db := [];
      }
      connected := false;
    }

    method WriteEvents(events: seq<Event>, keys: seq<string>) returns (r: Result<()>)
      requires Valid() && |keys| == |events| && FreshKeys(keys, db)
      modifies this`db
      ensures Valid()
      ensures !connected ==> r == Err(NotConnected)
      ensures connected ==> (r.Ok? <==> forall e :: e in events ==> e.persistenceId != "")
      ensures connected && r.Err? ==> r == Err(InsertFailed)
      ensures r.Ok? ==> db == InsertRows(old(db), RowsOf(events, keys))
      ensures r.Ok? ==> multiset(db) == multiset(old(db)) + multiset(RowsOf(events, keys))
      // every row is kept, and each event has its own row, whole but for the encryption fields
      ensures r.Ok? ==> |db| == |old(db)| + |events| && forall x :: x in old(db) ==> x in db
      ensures r.Ok? ==> forall i :: 0 <= i < |events| ==>
        Row(keys[i], Event(
          events[i].persistenceId, events[i].sequenceNumber, events[i].isDeleted, events[i].payload,
          events[i].timestamp, events[i].shard, "", false)) in db
      ensures r.Err? ==> db == old(db)
    {
      if !connected {
        return Err(NotConnected);
      }
      var txn := InsertEvents(db, events, keys);
      if txn.None? {
        return Err(InsertFailed);
      }
      InsertRowsIndexed(db, events, keys);
      InsertRowsPermutes(db, RowsOf(events, keys));
      WrittenRows(db, events, keys);
      db := txn.value;
      return Ok(());
    }

    method DeleteEvents(persistenceID: string, toSequenceNumber: uint64) returns (r: Result<()>)
      requires Valid()
      modifies this`db
      ensures Valid()
      ensures !connected ==> r == Err(NotConnected) && db == old(db)
      ensures connected ==> r.Ok?
      ensures connected ==> db == Filter(old(db), OnEvent(NotCovered(persistenceID, toSequenceNumber)))
      ensures connected ==> forall x :: x in db <==>
        x in old(db) && !(x.event.persistenceId == persistenceID && x.event.sequenceNumber <= toSequenceNumber)
    {
      if !connected {
        return Err(NotConnected);
      }
      var journals := Filter(db, OnEvent(HasId(persistenceID)));
      var txn := DeleteMatching(db, journals, toSequenceNumber);
      TargetsGone(db, persistenceID, toSequenceNumber);
      FilterMembers(db, OnEvent(NotCovered(persistenceID, toSequenceNumber)));
      assert forall x :: OnEvent(NotCovered(persistenceID, toSequenceNumber))(x) <==>
        !(x.event.persistenceId == persistenceID && x.event.sequenceNumber <= toSequenceNumber);
      FilterRowsIndexed(db, OnEvent(NotCovered(persistenceID, toSequenceNumber)));
      if txn.None? {
        return Err(DeleteFailed);
      }
      db := txn.value;
      return Ok(());
    }

    method ReplayEvents(persistenceID: string, fromSequenceNumber: uint64, toSequenceNumber: uint64, limit: uint64)
      returns (r: Result<seq<Event>>)
      requires Valid()
      ensures !connected ==> r == Err(NotConnected)
      ensures connected ==> r == Ok(Replay(db, persistenceID, fromSequenceNumber, toSequenceNumber, limit))
      // stored events of the id within both bounds, by sequence number
      ensures r.Ok? ==> forall e :: e in r.value ==>
        && e.persistenceId == persistenceID && fromSequenceNumber <= e.sequenceNumber <= toSequenceNumber
        && exists x :: x in db && x.event == e
      ensures r.Ok? ==>
        forall i, j :: 0 <= i < j < |r.value| ==> r.value[i].sequenceNumber <= r.value[j].sequenceNumber
      // as many as limit + 1 lets through, and all of them when they fit
      ensures r.Ok? ==>
        var n := |set x | x in db && x.event.persistenceId == persistenceID
                    && fromSequenceNumber <= x.event.sequenceNumber <= toSequenceNumber|;
        && |r.value| == (if n <= limit then n else limit + 1)
        && (n <= limit + 1 ==>
              forall x | x in db && x.event.persistenceId == persistenceID
                && fromSequenceNumber <= x.event.sequenceNumber <= toSequenceNumber :: x.event in r.value)
    {
      if !connected {
        return Err(NotConnected);
      }
      var journals := Filter(db, OnEvent(HasId(persistenceID)));
      ghost var wanted := InRange(persistenceID, fromSequenceNumber, toSequenceNumber);
      EventsOfFilter(db, HasId(persistenceID));
      FilterTwice(EventsOf(db), HasId(persistenceID), wanted, wanted);
      if journals == [] {
        ReplayMeans(db, persistenceID, fromSequenceNumber, toSequenceNumber, limit);
        return Ok([]);
      }
      var events := CollectMatches(journals, InRange(persistenceID, fromSequenceNumber, toSequenceNumber), limit);
      var sorted := SortSlice(events, SequenceLt());
      ReplayMeans(db, persistenceID, fromSequenceNumber, toSequenceNumber, limit);
      return Ok(sorted);
    }

    // The last row of the id in index order: the one with the greatest random key.
    method GetLatestEvent(persistenceID: string) returns (r: Result<Option<Event>>)
      requires Valid()
      ensures !connected ==> r == Err(NotConnected)
      ensures connected ==> r.Ok?
      ensures connected && r.value.None? ==> forall x :: x in db ==> x.event.persistenceId != persistenceID
      ensures connected && r.value.Some? ==>
        exists x :: x in db && x.event == r.value.value && HasGreatestKey(x, db, persistenceID)
          && x.event.persistenceId == persistenceID
          && forall y :: y in db && y.event.persistenceId == persistenceID ==> StrLe(y.ordering, x.ordering)
    {
      if !connected {
        return Err(NotConnected);
      }
      var journals := Filter(db, OnEvent(HasId(persistenceID)));
      FilterMembers(db, OnEvent(HasId(persistenceID)));
      if journals == [] {
        assert forall x :: x in db && OnEvent(HasId(persistenceID))(x) ==> x in journals;
        return Ok(None);
      }
      var last := journals[|journals| - 1];
      FilterRowsIndexed(db, OnEvent(HasId(persistenceID)));
      assert last in journals;
      StrOrder();
      forall y | y in db && y.event.persistenceId == persistenceID ensures StrLe(y.ordering, last.ordering) {
        assert OnEvent(HasId(persistenceID))(y) && y in journals;
        var k :| 0 <= k < |journals| && journals[k] == y;
        assert k < |journals| - 1 ==> RowLe()(y, last);
      }
      return Ok(Some(last.event));
    }

    method GetShardEvents(shardNumber: uint64, offset: int64, limit: uint64)
      returns (r: Result<(seq<Event>, int64)>)
      requires Valid()
      ensures !connected ==> r == Err(NotConnected)
      ensures connected ==> r.Ok? && IsShardPage(r.value.0, r.value.1, db, shardNumber, offset, limit)
      // stored events of the shard above the offset, by timestamp, with the last timestamp; as many as
      // limit + 1 lets through, and all of them when they fit
      ensures r.Ok? ==>
        var page, n := r.value.0, |set x | x in db && x.event.shard == shardNumber && x.event.timestamp > offset|;
        && (forall e :: e in page ==>
              e.shard == shardNumber && e.timestamp > offset && exists x :: x in db && x.event == e)
        && (forall i, j :: 0 <= i < j < |page| ==> page[i].timestamp <= page[j].timestamp)
        && r.value.1 == (if page == [] then 0 else page[|page| - 1].timestamp)
        && |page| == (if n <= limit then n else limit + 1)
        && (n <= limit + 1 ==>
              forall x :: x in db && x.event.shard == shardNumber && x.event.timestamp > offset ==> x.event in page)
    {
      if !connected {
        return Err(NotConnected);
      }
      hide Filter, IsShardPage, OrderingsDistinct, Sorted, IdsPresent;
      hide Sort, CutMatches;
      var events := ReadShard(db, shardNumber, offset, limit);
      SortGivesPage(events, db, shardNumber, offset, limit);
      if events == [] {
        ShardPageMeans([], 0, db, shardNumber, offset, limit);
        return Ok(([], 0));
      }
      var sorted := SortSlice(events, TimestampLe());
      ShardPageMeans(sorted, sorted[|sorted| - 1].timestamp, db, shardNumber, offset, limit);
      return Ok((sorted, sorted[|sorted| - 1].timestamp));
    }

    method ShardNumbers() returns (r: Result<seq<uint64>>)
      requires Valid()
      ensures !connected ==> r == Err(NotConnected)
      ensures connected ==> r.Ok? && ListsShards(r.value, db)
      ensures r.Ok? ==> forall i, j :: 0 <= i < j < |r.value| ==> r.value[i] != r.value[j]
      ensures r.Ok? ==> forall n :: n in r.value <==> exists x :: x in db && x.event.shard == n
    {
      if !connected {
        return Err(NotConnected);
      }
      var shards: seq<uint64> := [];
      for i := 0 to |db|
        invariant ListsShards(shards, db[..i])
      {
        assert db[..i + 1] == db[..i] + [db[i]];
        if db[i].event.shard !in shards {
          shards := shards + [db[i].event.shard];
        }
      }
      assert db[..|db|] == db;
      return Ok(shards);
    }

    method PersistenceIDs(pageSize: uint64, pageToken: string) returns (r: Result<(seq<string>, string)>)
      requires Valid()
      ensures !connected ==> r == Err(NotConnected)
      ensures connected ==> r.Ok? && r.value.0 == PageOf(Ids(db), PageCap(pageSize), pageToken)
      ensures connected ==>
        r.value.1 == if r.value.0 == [] then "" else r.value.0[|r.value.0| - 1]
      // ids of rows above the token, in order, a page size of them at most
      ensures r.Ok? ==> forall id :: id in r.value.0 ==>
        StrLt(pageToken, id) && exists x :: x in db && x.event.persistenceId == id
      ensures r.Ok? ==> forall i, j :: 0 <= i < j < |r.value.0| ==> StrLe(r.value.0[i], r.value.0[j])
      ensures r.Ok? && pageSize < TWO_63 ==> |r.value.0| <= pageSize
    {
      if !connected {
        return Err(NotConnected);
      }
      hide Sort, StrLe, PageOf;
      var persistenceIDs := ReadPage(db, pageSize, pageToken);
      PageMeans(db, PageCap(pageSize), pageToken);
      if persistenceIDs == [] {
        return Ok(([], ""));
      }
      IdsSorted(db);
      SortedPage(Ids(db), PageCap(pageSize), pageToken);
      var sorted := SortSlice(persistenceIDs, IdLe());
      return Ok((sorted, sorted[|sorted| - 1]));
    }
  }
}
