/** The memory journal and the Postgres journal side by side: the same history leaves the same
    events, and a replay gives the same answer exactly as long as the limit does not bite. */
module ReplayAgreement {
  import opened Base
  import opened Sequences
  import opened Journal
  import M = MemoryEvents
  import P = PostgresEvents
  import W = PostgresWrites

  // Both hold the same events, up to the encryption fields the memory journal drops.
  ghost predicate SameEvents(rows: seq<M.Row>, table: seq<Event>) {
    multiset(M.EventsOf(rows)) == multiset(StoredAll(table))
  }

  lemma {:induction false} FilterStored(table: seq<Event>, p: Event -> bool)
    requires forall e :: p(Stored(e)) == p(e)
    ensures Filter(StoredAll(table), p) == StoredAll(Filter(table, p))
  {
    if table != [] {
      var n := |table| - 1;
      FilterStored(table[..n], p);
      assert StoredAll(table)[..n] == StoredAll(table[..n]);
    }
  }

  lemma StoredMultiset(a: seq<Event>, b: seq<Event>)
    requires multiset(a) == multiset(b)
    ensures multiset(StoredAll(a)) == multiset(StoredAll(b))
  {
    forall e ensures multiset(StoredAll(a))[e] == multiset(StoredAll(b))[e] {
      CountStored(a, e);
      CountStored(b, e);
      FilterMultiset(a, b, StoredAs(e));
    }
  }

  function StoredAs(e: Event): Event -> bool {
    (x: Event) => Stored(x) == e
  }

  lemma StoredNone()
    ensures StoredAll([]) == []
  {
  }

  lemma StoredLast(s: seq<Event>)
    requires s != []
    ensures StoredAll(s) == StoredAll(s[..|s| - 1]) + [Stored(s[|s| - 1])]
  {
  }

  lemma {:induction false} CountStored(s: seq<Event>, e: Event)
    ensures multiset(StoredAll(s))[e] == |Filter(s, StoredAs(e))|
  {
    hide Stored, StoredAll;
    StoredNone();
    if s != [] {
      var n := |s| - 1;
      CountStored(s[..n], e);
      StoredLast(s);
      assert StoredAs(e)(s[n]) == (Stored(s[n]) == e);
    }
  }

  lemma MatchesAgree(rows: seq<M.Row>, table: seq<Event>, p: Event -> bool)
    requires SameEvents(rows, table)
    requires forall e :: p(Stored(e)) == p(e)
    ensures multiset(Filter(M.EventsOf(rows), p)) == multiset(StoredAll(Filter(table, p)))
    ensures |Filter(M.EventsOf(rows), p)| == |Filter(table, p)|
  {
    FilterMultiset(M.EventsOf(rows), StoredAll(table), p);
    FilterStored(table, p);
  }

  lemma StoredSorted(s: seq<Event>)
    requires Sorted(s, SequenceLe())
    ensures Sorted(StoredAll(s), SequenceLe())
  {
  }

  // Within one id, distinct keys are distinct sequence numbers.
  lemma OneIdOrdered(table: seq<Event>, matches: seq<Event>, id: string, from: uint64, to: uint64)
    requires KeysDistinct(table)
    requires multiset(matches) == multiset(StoredAll(Filter(table, InRange(id, from, to))))
    ensures forall x, y :: x in matches && y in matches && SequenceLe()(x, y) && SequenceLe()(y, x) ==> x == y
  {
    hide StoredAll, Stored, Filter, KeysDistinct;
    var kept := Filter(table, InRange(id, from, to));
    FilterMembers(table, InRange(id, from, to));
    forall x, y | x in matches && y in matches && SequenceLe()(x, y) && SequenceLe()(y, x) ensures x == y {
      assert x in multiset(matches) && y in multiset(matches);
      var a := SourceOf(kept, x);
      var b := SourceOf(kept, y);
      OneRowOfKey(table, a, b);
    }
  }

  lemma SourceOf(kept: seq<Event>, x: Event) returns (e: Event)
    requires x in StoredAll(kept)
    ensures e in kept && Stored(e) == x && e.sequenceNumber == x.sequenceNumber
  {
    var i :| 0 <= i < |kept| && Stored(kept[i]) == x;
    e := kept[i];
  }

  lemma OneRowOfKey(table: seq<Event>, a: Event, b: Event)
    requires KeysDistinct(table) && a in table && b in table
    ensures a.persistenceId == b.persistenceId && a.sequenceNumber == b.sequenceNumber ==> a == b
  {
  }

  lemma FittingReplaysAgree(
    rows: seq<M.Row>, table: seq<Event>, id: string, from: uint64, to: uint64, limit: uint64, full: seq<Event>)
    requires SameEvents(rows, table) && KeysDistinct(table)
    requires P.IsOrdering(full, table, InRange(id, from, to), SequenceLe())
    requires |Filter(table, InRange(id, from, to))| <= limit
    ensures M.Replay(rows, id, from, to, limit) == StoredAll(full)
  {
    hide Filter, Sort, SameEvents, KeysDistinct;
    var matches := Filter(M.EventsOf(rows), InRange(id, from, to));
    MatchesAgree(rows, table, InRange(id, from, to));
    assert Take(matches, limit + 1) == matches;
    var mem := M.Replay(rows, id, from, to, limit);
    EventOrders();
    SortPermutes(matches, SequenceLt());
    SortSorted(matches, SequenceLt(), SequenceLe());
    StoredMultiset(full, Filter(table, InRange(id, from, to)));
    StoredSorted(full);
    OneIdOrdered(table, mem, id, from, to);
    SortedUnique(mem, StoredAll(full), SequenceLe());
  }

  lemma MatchCount(table: seq<Event>, id: string, from: uint64, to: uint64)
    requires KeysDistinct(table)
    ensures |Filter(table, InRange(id, from, to))| ==
      |set e | e in table && e.persistenceId == id && from <= e.sequenceNumber <= to|
  {
    hide KeysDistinct;
    P.RowsDiffer(table);
    FilterIsSet(table, InRange(id, from, to), set e | e in table && e.persistenceId == id && from <= e.sequenceNumber <= to);
  }

  /** A replay from either store is the same list of events exactly when the matches fit the
      limit: past it the memory store returns one event more, and may cut the wrong ones. */
  lemma ReplaysAgreeExactly(
    rows: seq<M.Row>, table: seq<Event>, id: string, from: uint64, to: uint64, limit: uint64, r: seq<Event>)
    requires SameEvents(rows, table) && KeysDistinct(table)
    requires P.IsSelected(r, table, InRange(id, from, to), SequenceLe(), limit)
    ensures M.Replay(rows, id, from, to, limit) == StoredAll(r) <==> |Filter(table, InRange(id, from, to))| <= limit
    ensures var a := M.Replay(rows, id, from, to, limit);
      (&& |a| == |r|
       && forall i :: 0 <= i < |a| ==>
            && a[i].persistenceId == r[i].persistenceId && a[i].sequenceNumber == r[i].sequenceNumber
            && a[i].isDeleted == r[i].isDeleted && a[i].payload == r[i].payload
            && a[i].timestamp == r[i].timestamp && a[i].shard == r[i].shard) <==>
      |set e | e in table && e.persistenceId == id && from <= e.sequenceNumber <= to| <= limit
  {
    hide Filter, Sort, SameEvents, KeysDistinct;
    MatchCount(table, id, from, to);
    var p := InRange(id, from, to);
    var full :| P.IsOrdering(full, table, p, SequenceLe()) && r == Take(full, limit);
    MatchesAgree(rows, table, p);
    assert |full| == |multiset(full)| == |multiset(Filter(table, p))|;
    if |full| <= limit {
      FittingReplaysAgree(rows, table, id, from, to, limit, full);
      assert r == full;
    } else {
      assert |M.Replay(rows, id, from, to, limit)| == limit + 1;
      assert |StoredAll(r)| == limit;
    }
  }

  // One event and a limit of zero: Postgres returns nothing, the memory store returns the event.
  lemma LimitZeroDiffers(key: string, e: Event)
    ensures var p := InRange(e.persistenceId, e.sequenceNumber, e.sequenceNumber);
      && P.IsSelected([], [e], p, SequenceLe(), 0)
      && M.Replay([M.Row(key, Stored(e))], e.persistenceId, e.sequenceNumber, e.sequenceNumber, 0) == [Stored(e)]
  {
    hide Filter;
    var p := InRange(e.persistenceId, e.sequenceNumber, e.sequenceNumber);
    FilterAll([e], p);
    assert P.IsOrdering([e], [e], p, SequenceLe());
    var rows := [M.Row(key, Stored(e))];
    assert M.EventsOf(rows) == [Stored(e)];
    FilterAll([Stored(e)], p);
    assert Take([Stored(e)], 1) == [Stored(e)];
    assert [Stored(e)][..0] == [];
  }

  /** What a memory replay returns in general: in sequence order, some of the surviving matches
      and never more often than they survive, and limit + 1 of them when there are more. */
  lemma ReplayIsSubset(rows: seq<M.Row>, id: string, from: uint64, to: uint64, limit: uint64)
    ensures var r := M.Replay(rows, id, from, to, limit);
      var matches := Filter(M.EventsOf(rows), InRange(id, from, to));
      && Sorted(r, SequenceLe())
      && multiset(r) <= multiset(matches)
      && |r| == Min(|matches|, limit + 1)
  {
    var matches := Filter(M.EventsOf(rows), InRange(id, from, to));
    var kept := Take(matches, limit + 1);
    EventOrders();
    SortSorted(kept, SequenceLt(), SequenceLe());
    SortPermutes(kept, SequenceLt());
    assert matches == kept + matches[|kept|..];
  }

  /** Two journals that hold the same events: each row of one has its counterpart in the other, with
      the same id, sequence number, deletion mark, message, timestamp and shard. */
  lemma SameEventsMeans(rows: seq<M.Row>, table: seq<Event>)
    requires SameEvents(rows, table)
    ensures |rows| == |table|
    ensures forall e :: e in table ==> exists x ::
      && x in rows
      && x.event == Event(e.persistenceId, e.sequenceNumber, e.isDeleted, e.payload, e.timestamp, e.shard, "", false)
    ensures forall x :: x in rows ==> exists e ::
      && e in table
      && x.event == Event(e.persistenceId, e.sequenceNumber, e.isDeleted, e.payload, e.timestamp, e.shard, "", false)
  {
    var a, b := M.EventsOf(rows), StoredAll(table);
    assert |a| == |multiset(a)| == |multiset(b)| == |b|;
    forall e | e in table ensures exists x :: x in rows && x.event == Stored(e) {
      var i :| 0 <= i < |table| && table[i] == e;
      assert b[i] in multiset(b);
      assert b[i] in multiset(a);
      var j :| 0 <= j < |a| && a[j] == b[i];
      assert rows[j] in rows;
    }
    forall x | x in rows ensures exists e :: e in table && x.event == Stored(e) {
      var j :| 0 <= j < |rows| && rows[j] == x;
      assert a[j] in multiset(a);
      assert a[j] in multiset(b);
      var i :| 0 <= i < |b| && b[i] == a[j];
      assert table[i] in table;
    }
  }

  // ----- Histories -----

  datatype Op =
    | Write(events: seq<Event>, keys: seq<string>)
    | Delete(id: string, to: uint64)

  predicate MemoryAccepts(op: Op) {
    match op
    case Write(events, _) => forall e :: e in events ==> Present(e.persistenceId)
    case Delete(_, _) => true
  }

  predicate PostgresAccepts(table: seq<Event>, op: Op) {
    match op
    case Write(events, _) => W.Insert(table, events).Some?
    case Delete(_, to) => FitsBigint(to)
  }

  ghost predicate Drawable(op: Op, rows: seq<M.Row>) {
    op.Write? ==> |op.keys| == |op.events| && M.FreshKeys(op.keys, rows)
  }

  function MemoryStep(rows: seq<M.Row>, op: Op): seq<M.Row>
    requires op.Write? ==> |op.keys| == |op.events|
  {
    if !MemoryAccepts(op) then rows
    else
      match op
      case Write(events, keys) => M.InsertRows(rows, M.RowsOf(events, keys))
      case Delete(id, to) => Filter(rows, M.OnEvent(NotCovered(id, to)))
  }

  function PostgresStep(table: seq<Event>, op: Op): seq<Event> {
    if !PostgresAccepts(table, op) then table
    else
      match op
      case Write(events, _) => table + events
      case Delete(id, to) => Filter(table, NotCovered(id, to))
  }

  lemma WriteKeepsEvents(rows: seq<M.Row>, table: seq<Event>, events: seq<Event>, keys: seq<string>)
    requires SameEvents(rows, table) && |keys| == |events|
    ensures SameEvents(M.InsertRows(rows, M.RowsOf(events, keys)), table + events)
  {
    hide M.InsertRows;
    var added := M.RowsOf(events, keys);
    M.InsertRowsPermutes(rows, added);
    assert multiset(M.InsertRows(rows, added)) == multiset(rows + added);
    M.EventsOfMultiset(M.InsertRows(rows, added), rows + added);
    assert M.EventsOf(rows + added) == M.EventsOf(rows) + M.EventsOf(added);
    assert M.EventsOf(added) == StoredAll(events);
    assert StoredAll(table + events) == StoredAll(table) + StoredAll(events);
  }

  lemma DeleteKeepsEvents(rows: seq<M.Row>, table: seq<Event>, id: string, to: uint64)
    requires SameEvents(rows, table)
    ensures SameEvents(Filter(rows, M.OnEvent(NotCovered(id, to))), Filter(table, NotCovered(id, to)))
  {
    hide Filter;
    M.EventsOfFilter(rows, NotCovered(id, to));
    MatchesAgree(rows, table, NotCovered(id, to));
  }

  lemma StepKeepsEvents(rows: seq<M.Row>, table: seq<Event>, op: Op)
    requires SameEvents(rows, table) && KeysDistinct(table) && W.AllStorable(table)
    requires Drawable(op, rows) && MemoryAccepts(op) == PostgresAccepts(table, op)
    ensures SameEvents(MemoryStep(rows, op), PostgresStep(table, op))
    ensures KeysDistinct(PostgresStep(table, op)) && W.AllStorable(PostgresStep(table, op))
  {
    hide SameEvents;
    match op {
      case Write(events, keys) =>
        WriteKeepsEvents(rows, table, events, keys);
      case Delete(id, to) =>
        DeleteKeepsEvents(rows, table, id, to);
        W.FilterKeepsKeys(table, NotCovered(id, to));
    }
  }

  // A history both stores give the same verdicts on, with the keys the memory store drew for it.
  ghost predicate SharedHistory(rows: seq<M.Row>, table: seq<Event>, ops: seq<Op>)
    decreases |ops|
  {
    ops != [] ==>
      && Drawable(ops[0], rows)
      && MemoryAccepts(ops[0]) == PostgresAccepts(table, ops[0])
      && SharedHistory(MemoryStep(rows, ops[0]), PostgresStep(table, ops[0]), ops[1..])
  }

  ghost function MemoryRun(rows: seq<M.Row>, table: seq<Event>, ops: seq<Op>): seq<M.Row>
    requires SharedHistory(rows, table, ops)
    decreases |ops|
  {
    if ops == [] then rows
    else MemoryRun(MemoryStep(rows, ops[0]), PostgresStep(table, ops[0]), ops[1..])
  }

  ghost function PostgresRun(table: seq<Event>, ops: seq<Op>): seq<Event>
    decreases |ops|
  {
    if ops == [] then table else PostgresRun(PostgresStep(table, ops[0]), ops[1..])
  }

  // A history goes on with any operation on which the stores give one verdict.
  lemma {:induction false} HistoryGoesOn(rows: seq<M.Row>, table: seq<Event>, ops: seq<Op>, op: Op)
    requires SharedHistory(rows, table, ops)
    requires Drawable(op, MemoryRun(rows, table, ops))
    requires MemoryAccepts(op) == PostgresAccepts(PostgresRun(table, ops), op)
    ensures SharedHistory(rows, table, ops + [op])
    ensures MemoryRun(rows, table, ops + [op]) == MemoryStep(MemoryRun(rows, table, ops), op)
    ensures PostgresRun(table, ops + [op]) == PostgresStep(PostgresRun(table, ops), op)
    decreases |ops|
  {
    hide PostgresAccepts, MemoryAccepts, MemoryStep, PostgresStep;
    var more := ops + [op];
    if ops == [] {
      assert more[1..] == [];
    } else {
      HistoryGoesOn(MemoryStep(rows, ops[0]), PostgresStep(table, ops[0]), ops[1..], op);
      assert more[1..] == ops[1..] + [op];
    }
  }

  lemma {:induction false} RunKeepsEvents(rows: seq<M.Row>, table: seq<Event>, ops: seq<Op>)
    requires SameEvents(rows, table) && KeysDistinct(table) && W.AllStorable(table)
    requires SharedHistory(rows, table, ops)
    ensures SameEvents(MemoryRun(rows, table, ops), PostgresRun(table, ops))
    ensures KeysDistinct(PostgresRun(table, ops))
    ensures var left, kept := MemoryRun(rows, table, ops), PostgresRun(table, ops);
      && |left| == |kept|
      && (forall e :: e in kept ==> exists x ::
            && x in left
            && x.event == Event(e.persistenceId, e.sequenceNumber, e.isDeleted, e.payload, e.timestamp, e.shard, "", false))
      && (forall x :: x in left ==> exists e ::
            && e in kept
            && x.event == Event(e.persistenceId, e.sequenceNumber, e.isDeleted, e.payload, e.timestamp, e.shard, "", false))
    decreases |ops|
  {
    hide SameEvents, KeysDistinct;
    if ops == [] {
      SameEventsMeans(rows, table);
    } else {
      StepKeepsEvents(rows, table, ops[0]);
      RunKeepsEvents(MemoryStep(rows, ops[0]), PostgresStep(table, ops[0]), ops[1..]);
    }
  }

  /** After any shared history of writes and deletes, a replay from the memory store equals the
      replay from Postgres exactly when the matches fit the limit. */
  lemma {:induction false} HistoryReplaysAgree(
    ops: seq<Op>, id: string, from: uint64, to: uint64, limit: uint64, r: seq<Event>)
    requires SharedHistory([], [], ops)
    requires P.IsSelected(r, PostgresRun([], ops), InRange(id, from, to), SequenceLe(), limit)
    ensures M.Replay(MemoryRun([], [], ops), id, from, to, limit) == StoredAll(r) <==>
      |Filter(PostgresRun([], ops), InRange(id, from, to))| <= limit
    ensures var a, table := M.Replay(MemoryRun([], [], ops), id, from, to, limit), PostgresRun([], ops);
      (&& |a| == |r|
       && forall i :: 0 <= i < |a| ==>
            && a[i].persistenceId == r[i].persistenceId && a[i].sequenceNumber == r[i].sequenceNumber
            && a[i].isDeleted == r[i].isDeleted && a[i].payload == r[i].payload
            && a[i].timestamp == r[i].timestamp && a[i].shard == r[i].shard) <==>
      |set e | e in table && e.persistenceId == id && from <= e.sequenceNumber <= to| <= limit
  {
    RunKeepsEvents([], [], ops);
    ReplaysAgreeExactly(MemoryRun([], [], ops), PostgresRun([], ops), id, from, to, limit, r);
  }

  // One operation of a history, on the two stores.
  method Perform(memory: M.EventsStore, postgres: P.EventsStore, op: Op)
    returns (inMemory: Result<()>, inPostgres: Result<()>)
    requires memory.Valid() && postgres.Valid() && memory.connected && postgres.connected
    requires Drawable(op, memory.db)
    modifies memory, postgres
    ensures memory.Valid() && postgres.Valid() && memory.connected && postgres.connected
    ensures memory.db == MemoryStep(old(memory.db), op) && (inMemory.Ok? <==> MemoryAccepts(op))
    ensures postgres.table == PostgresStep(old(postgres.table), op)
    ensures inPostgres.Ok? <==> PostgresAccepts(old(postgres.table), op)
  {
    var faults := W.Faults(false, {}, {}, {}, false, false);
    match op {
      case Write(events, keys) =>
        W.InsertExactly(postgres.table, events);
        inMemory := memory.WriteEvents(events, keys);
        var batches;
        inPostgres, batches := postgres.WriteEvents(events, faults);
      case Delete(id, to) =>
        inMemory := memory.DeleteEvents(id, to);
        inPostgres := postgres.DeleteEvents(id, to, faults);
    }
  }
}
