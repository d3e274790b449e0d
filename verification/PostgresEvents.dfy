/** The Postgres event journal (eventstore/postgres/events_store.go).

    The table is the sequence of its rows in some physical order; a row is represented by the
    event it holds.  A SELECT is filter, then sort, then take, with ties in any order. */
module PostgresEvents {
  import opened Base
  import opened Sequences
  import opened Journal
  import opened PostgresWrites

  // SELECT ... WHERE p ORDER BY leq LIMIT limit.
  ghost predicate IsSelected(
    r: seq<Event>, table: seq<Event>, p: Event -> bool, leq: (Event, Event) -> bool, limit: nat) {
    exists full :: IsOrdering(full, table, p, leq) && r == Take(full, limit)
  }

  ghost predicate IsOrdering(full: seq<Event>, table: seq<Event>, p: Event -> bool, leq: (Event, Event) -> bool) {
    multiset(full) == multiset(Filter(table, p)) && Sorted(full, leq)
  }

  // Strictly ascending: sorted, and each id once.
  ghost predicate Ascending(ids: seq<string>) {
    forall i, j :: 0 <= i < j < |ids| ==> StrLt(ids[i], ids[j])
  }

  // An id of the table that a page from the token may show.
  ghost predicate Due(table: seq<Event>, token: string, id: string) {
    (exists e :: e in table && e.persistenceId == id) && (token == "" || StrLt(token, id))
  }

  // SELECT DISTINCT persistence_id ... WHERE persistence_id > token ORDER BY persistence_id LIMIT n:
  // ids that are due, each once and ascending; one is left out only when the page is full, and only
  // if it is above all that are shown.
  ghost predicate IsPage(page: seq<string>, table: seq<Event>, pageSize: nat, token: string) {
    && Ascending(page) && |page| <= pageSize
    && (forall id :: id in page ==> Due(table, token, id))
    && (forall id, shown :: Due(table, token, id) && id !in page && shown in page ==> StrLt(shown, id))
    && ((exists id :: Due(table, token, id) && id !in page) ==> |page| == pageSize)
  }

  lemma InsertNewId(ids: seq<string>, id: string)
    requires Ascending(ids) && id !in ids
    ensures Ascending(InsertLeft(ids, id, IdLt()))
    ensures forall x :: x in InsertLeft(ids, id, IdLt()) <==> x in ids || x == id
  {
    hide StrLe, InsertLeft;
    var j := SlotFor(ids, id);
    InsertLeftAt(ids, id, IdLt(), j);
    assert ids == ids[..j] + ids[j..];
  }

  // Where a new id goes: above everything before, below everything after.
  lemma {:induction false} SlotFor(ids: seq<string>, id: string) returns (j: nat)
    requires Ascending(ids) && id !in ids
    ensures j <= |ids|
    ensures forall k :: 0 <= k < j ==> StrLt(ids[k], id)
    ensures forall k :: j <= k < |ids| ==> StrLt(id, ids[k])
    ensures j == 0 || !StrLt(id, ids[j - 1])
  {
    if ids == [] {
      j := 0;
    } else {
      var n := |ids| - 1;
      StrLeTotal(id, ids[n]);
      if StrLt(id, ids[n]) {
        j := SlotFor(ids[..n], id);
      } else {
        j := n + 1;
        forall k | 0 <= k < j ensures StrLt(ids[k], id) {
          if k < n {
            StrLtTransitive(ids[k], ids[n], id);
          }
        }
      }
    }
  }

  // The database's distinct query over ids.
  method SelectIds(table: seq<Event>, pageSize: nat, token: string) returns (page: seq<string>)
    ensures IsPage(page, table, pageSize, token)
  {
    hide StrLe, InsertLeft;
    var ids: seq<string> := [];
    for i := 0 to |table|
      invariant Ascending(ids)
      invariant forall id :: id in ids <==> Due(table[..i], token, id)
    {
      var id := table[i].persistenceId;
      DueStep(table, i, token);
      if (token == "" || StrLt(token, id)) && id !in ids {
        InsertNewId(ids, id);
        ids := InsertLeft(ids, id, IdLt());
      }
    }
    assert table[..|table|] == table;
    page := Take(ids, pageSize);
    FrontIsPage(ids, table, pageSize, token);
  }

  lemma DueStep(table: seq<Event>, i: nat, token: string)
    requires i < |table|
    ensures forall id :: Due(table[..i + 1], token, id) <==>
      Due(table[..i], token, id) || (id == table[i].persistenceId && (token == "" || StrLt(token, id)))
  {
    hide StrLe;
    assert table[..i + 1] == table[..i] + [table[i]];
    forall id
      ensures Due(table[..i + 1], token, id) <==>
        Due(table[..i], token, id) || (id == table[i].persistenceId && (token == "" || StrLt(token, id)))
    {
      if Due(table[..i + 1], token, id) {
        var e :| e in table[..i + 1] && e.persistenceId == id;
        assert e in table[..i] || e == table[i];
      }
      if id == table[i].persistenceId {
        assert table[i] in table[..i + 1];
      }
      if Due(table[..i], token, id) {
        var e :| e in table[..i] && e.persistenceId == id;
        assert e in table[..i + 1];
      }
    }
  }

  // The front of the due ids is a page.
  lemma FrontIsPage(due: seq<string>, table: seq<Event>, pageSize: nat, token: string)
    requires Ascending(due) && forall id :: id in due <==> Due(table, token, id)
    ensures IsPage(Take(due, pageSize), table, pageSize, token)
  {
    hide StrLe, Due;
    var page := Take(due, pageSize);
    assert due == page + due[|page|..];
    forall id, shown | Due(table, token, id) && id !in page && shown in page ensures StrLt(shown, id) {
      var i :| 0 <= i < |due| && due[i] == id;
      var j :| 0 <= j < |page| && page[j] == shown;
      assert due[j] == shown;
    }
  }

  // The database's query engine, with one of the orders that ORDER BY allows.
  method Select(
    table: seq<Event>, p: Event -> bool, ghost leq: (Event, Event) -> bool, less: (Event, Event) -> bool, limit: nat)
    returns (r: seq<Event>)
    requires TotalPreorder(leq) && Compares(less, leq)
    ensures IsSelected(r, table, p, leq, limit)
  {
    var full := Sort(Filter(table, p), less);
    SortPermutes(Filter(table, p), less);
    SortSorted(Filter(table, p), less, leq);
    assert IsOrdering(full, table, p, leq);
    r := Take(full, limit);
  }

  lemma RowsDiffer(table: seq<Event>)
    requires KeysDistinct(table)
    ensures NoRepeats(table)
  {
  }

  // What a selection shows: rows that meet the condition, in order, as many as the limit lets
  // through, and those first that the order puts first.
  lemma SelectedMeans(r: seq<Event>, table: seq<Event>, p: Event -> bool, leq: (Event, Event) -> bool, limit: nat)
    requires KeysDistinct(table) && IsSelected(r, table, p, leq, limit)
    ensures forall e :: e in r ==> e in table && p(e)
    ensures Sorted(r, leq)
    ensures |r| == Min(|set e | e in table && p(e)|, limit)
    ensures forall e, shown :: e in table && p(e) && e !in r && shown in r ==> leq(shown, e)
    ensures |set e | e in table && p(e)| <= limit ==> forall e :: e in table && p(e) ==> e in r
  {
    hide Filter, KeysDistinct, NoRepeats;
    var full :| IsOrdering(full, table, p, leq) && r == Take(full, limit);
    RowsDiffer(table);
    FilterIsSet(table, p, set e | e in table && p(e));
    FilterMembers(table, p);
    assert |full| == |multiset(full)| == |Filter(table, p)|;
    forall e ensures e in full <==> e in table && p(e) {
      assert e in full <==> e in multiset(full);
      assert e in Filter(table, p) <==> e in multiset(Filter(table, p));
    }
    forall e, shown | e in table && p(e) && e !in r && shown in r ensures leq(shown, e) {
      var i :| 0 <= i < |full| && full[i] == e;
      var j :| 0 <= j < |r| && r[j] == shown;
      assert full[j] == shown;
    }
  }

  function SequenceGe(): (Event, Event) -> bool {
    (a: Event, b: Event) => a.sequenceNumber >= b.sequenceNumber
  }

  function SequenceGt(): (Event, Event) -> bool {
    (a: Event, b: Event) => a.sequenceNumber > b.sequenceNumber
  }

  lemma LatestIsGreatest(rows: seq<Event>, table: seq<Event>, id: string)
    requires IsSelected(rows, table, HasId(id), SequenceGe(), 1)
    ensures rows == [] <==> forall e :: e in table ==> e.persistenceId != id
    ensures rows != [] ==> rows[0] in table && rows[0].persistenceId == id
    ensures rows != [] ==>
      forall e :: e in table && e.persistenceId == id ==> e.sequenceNumber <= rows[0].sequenceNumber
  {
    var full :| IsOrdering(full, table, HasId(id), SequenceGe()) && rows == Take(full, 1);
    FilterMembers(table, HasId(id));
    forall e ensures e in full <==> e in table && e.persistenceId == id {
      assert e in full <==> e in multiset(full);
      assert e in Filter(table, HasId(id)) <==> e in multiset(Filter(table, HasId(id)));
      assert HasId(id)(e) == (e.persistenceId == id);
    }
    if rows == [] {
      assert full == [];
    } else {
      assert rows[0] == full[0] && full[0] in full;
      forall e | e in table && e.persistenceId == id ensures e.sequenceNumber <= rows[0].sequenceNumber {
        var k :| 0 <= k < |full| && full[k] == e;
        assert k > 0 ==> SequenceGe()(full[0], full[k]);
      }
    }
  }

  lemma ReplayMeans(r: seq<Event>, table: seq<Event>, id: string, from: uint64, to: uint64, limit: nat)
    requires KeysDistinct(table) && IsSelected(r, table, InRange(id, from, to), SequenceLe(), limit)
    ensures forall e :: e in r ==> e in table && e.persistenceId == id && from <= e.sequenceNumber <= to
    ensures forall i, j :: 0 <= i < j < |r| ==> r[i].sequenceNumber <= r[j].sequenceNumber
    ensures var n := |set e | e in table && e.persistenceId == id && from <= e.sequenceNumber <= to|;
      && |r| == (if n <= limit then n else limit)
      && forall e | e in table && e.persistenceId == id && from <= e.sequenceNumber <= to && e !in r ::
           n > limit && forall shown :: shown in r ==> shown.sequenceNumber <= e.sequenceNumber
  {
    hide IsSelected, KeysDistinct;
    var p := InRange(id, from, to);
    SelectedMeans(r, table, p, SequenceLe(), limit);
    assert (set e | e in table && p(e)) == set e | e in table && e.persistenceId == id && from <= e.sequenceNumber <= to;
    forall i, j | 0 <= i < j < |r| ensures r[i].sequenceNumber <= r[j].sequenceNumber {
      assert SequenceLe()(r[i], r[j]);
    }
    forall e, shown | e in table && p(e) && e !in r && shown in r ensures shown.sequenceNumber <= e.sequenceNumber {
      assert SequenceLe()(shown, e);
    }
  }

  lemma ShardPageMeans(r: seq<Event>, table: seq<Event>, shard: uint64, offset: int64, limit: nat)
    requires KeysDistinct(table) && IsSelected(r, table, OnShard(shard, offset), TimestampLe(), limit)
    ensures forall e :: e in r ==> e in table && e.shard == shard && e.timestamp > offset
    ensures forall i, j :: 0 <= i < j < |r| ==> r[i].timestamp <= r[j].timestamp
    ensures var n := |set e | e in table && e.shard == shard && e.timestamp > offset|;
      && |r| == (if n <= limit then n else limit)
      && forall e | e in table && e.shard == shard && e.timestamp > offset && e !in r ::
           n > limit && forall shown :: shown in r ==> shown.timestamp <= e.timestamp
  {
    hide IsSelected, KeysDistinct;
    var p := OnShard(shard, offset);
    SelectedMeans(r, table, p, TimestampLe(), limit);
    assert (set e | e in table && p(e)) == set e | e in table && e.shard == shard && e.timestamp > offset;
    forall i, j | 0 <= i < j < |r| ensures r[i].timestamp <= r[j].timestamp {
      assert TimestampLe()(r[i], r[j]);
    }
    forall e, shown | e in table && p(e) && e !in r && shown in r ensures shown.timestamp <= e.timestamp {
      assert TimestampLe()(shown, e);
    }
  }

  class EventsStore {
    var table: seq<Event>
    var connected: bool
    var openTransactions: nat  // begun, and neither committed nor rolled back with success
    const insertBatchSize: nat

    ghost predicate Valid()
      reads this
    {
      insertBatchSize >= 1 && KeysDistinct(table) && AllStorable(table)
    }

    constructor ()
      ensures Valid() && !connected && table == [] && openTransactions == 0 && insertBatchSize == 500
    {
      table, connected, openTransactions, insertBatchSize := [], false, 0, 500;
    }

    // Each error has its one cause, in the inputs; whatever fails, no row is visible.
    method WriteEvents(events: seq<Event>, faults: Faults)
      returns (r: Result<()>, batches: seq<seq<Event>>)
      requires Valid()
      modifies this`table, this`openTransactions
      ensures Valid()
      ensures !connected ==> r == Err(NotConnected)
      // with nothing else going wrong, a write succeeds exactly when no two rows, old or new, have the
      // same id and sequence number, and the new rows fit their columns
      ensures
        !faults.begin && faults.marshal == {} && faults.build == {} && faults.exec == {} && !faults.commit ==>
        (r.Ok? <==>
           && connected
           && |set e | e in old(table) + events :: (e.persistenceId, e.sequenceNumber)| == |old(table) + events|
           && forall e :: e in events ==>
                && |e.persistenceId| <= 255 && |e.encryptionKeyId| <= 255
                && e.sequenceNumber < 0x8000_0000_0000_0000 && e.shard < 0x8000_0000_0000_0000)
      ensures r.Ok? <==>
        connected && (events == [] || (!faults.begin && Completes(old(table), events, faults, insertBatchSize) && !faults.commit))
      ensures connected && events != [] ==> (r == Err(BeginFailed) <==> faults.begin)
      ensures connected && events != [] && !faults.begin ==>
        && (r == Err(MarshalFailed) <==> StopsWith(old(table), events, faults, insertBatchSize, MarshalFailed))
        && (r == Err(BuildFailed) <==> StopsWith(old(table), events, faults, insertBatchSize, BuildFailed))
        && (r in {Err(ExecFailed), Err(RollbackFailed)} <==>
              StopsWith(old(table), events, faults, insertBatchSize, ExecFailed))
        && (r == Err(CommitFailed) <==> Completes(old(table), events, faults, insertBatchSize) && faults.commit)
      ensures r == Err(MarshalFailed) ==> exists i :: 0 <= i < |events| && i in faults.marshal
      ensures r == Err(BuildFailed) ==> exists k :: 0 <= k < |events| && k in faults.build
      ensures r == Err(ExecFailed) ==> !faults.rollback
      ensures r == Err(RollbackFailed) ==> faults.rollback
      ensures table == if r.Ok? then old(table) + events else old(table)
      ensures r.Ok? ==> IsBatching(batches, events, insertBatchSize)
      ensures openTransactions == old(openTransactions) +
        if connected && LeavesOpen(old(table), events, faults, insertBatchSize) then 1 else 0
      ensures openTransactions == old(openTransactions) +
        if r in {Err(MarshalFailed), Err(BuildFailed), Err(RollbackFailed), Err(CommitFailed)} then 1 else 0
    {
      hide KeysDistinct, AllStorable, HitInside, StopsWith, Insert, IsBatching;
      InsertExactly(table, events);
      NoFaultInside(faults, |events|, insertBatchSize);
      batches := [];
      if !connected {
        return Err(NotConnected), [];
      }
      if events == [] {
        assert table + events == table;
        NothingToWrite(insertBatchSize);
        InsertNothing(table);
        return Ok(()), [];
      }
      if faults.begin {
        return Err(BeginFailed), [];
      }
      openTransactions := openTransactions + 1;
      var result;
      result, batches := RunBatches(table, events, faults, insertBatchSize);
      StopsForFault(table, events, faults, insertBatchSize);
      if result.Err? {
        if result.error == ExecFailed {
          if faults.rollback {
            return Err(RollbackFailed), batches;
          }
          openTransactions := openTransactions - 1;
        }
        return Err(result.error), batches;
      }
      NeverStops(table, events, faults, insertBatchSize);
      if faults.commit {
        return Err(CommitFailed), batches;
      }
      InsertedTable(table, events);
      openTransactions := openTransactions - 1;
      table := result.value;
      return Ok(()), batches;
    }

    // One statement in one transaction, built before the transaction begins.
    method DeleteEvents(persistenceID: string, toSequenceNumber: uint64, faults: Faults) returns (r: Result<()>)
      requires Valid()
      modifies this`table, this`openTransactions
      ensures Valid()
      ensures !connected ==> r == Err(NotConnected)
      ensures connected ==> (r == Err(BuildFailed) <==> 0 in faults.build)
      ensures connected && 0 !in faults.build ==> (r == Err(BeginFailed) <==> faults.begin)
      ensures connected && 0 !in faults.build && !faults.begin ==>
        var refused := 0 in faults.exec || toSequenceNumber >= 0x8000_0000_0000_0000;
        && (r == Err(ExecFailed) <==> refused && !faults.rollback)
        && (r == Err(RollbackFailed) <==> refused && faults.rollback)
        && (r == Err(CommitFailed) <==> !refused && faults.commit)
        && (r.Ok? <==> !refused && !faults.commit)
      ensures table == if r.Ok? then Filter(old(table), NotCovered(persistenceID, toSequenceNumber)) else old(table)
      ensures r.Ok? ==> forall e :: e in table <==>
        e in old(table) && !(e.persistenceId == persistenceID && e.sequenceNumber <= toSequenceNumber)
      ensures openTransactions == old(openTransactions) +
        if r in {Err(RollbackFailed), Err(CommitFailed)} then 1 else 0
    {
      if !connected {
        return Err(NotConnected);
      }
      if 0 in faults.build {
        return Err(BuildFailed);
      }
      if faults.begin {
        return Err(BeginFailed);
      }
      openTransactions := openTransactions + 1;
      if 0 in faults.exec || !FitsBigint(toSequenceNumber) {
        if faults.rollback {
          return Err(RollbackFailed);
        }
        openTransactions := openTransactions - 1;
        return Err(ExecFailed);
      }
      if faults.commit {
        return Err(CommitFailed);
      }
      FilterKeepsKeys(table, NotCovered(persistenceID, toSequenceNumber));
      FilterMembers(table, NotCovered(persistenceID, toSequenceNumber));
      assert forall e :: NotCovered(persistenceID, toSequenceNumber)(e) <==>
        !(e.persistenceId == persistenceID && e.sequenceNumber <= toSequenceNumber);
      openTransactions := openTransactions - 1;
      table := Filter(table, NotCovered(persistenceID, toSequenceNumber));
      return Ok(());
    }

    method ReplayEvents(
      persistenceID: string, fromSequenceNumber: uint64, toSequenceNumber: uint64, limit: uint64, up: bool)
      returns (r: Result<seq<Event>>)
      requires Valid()
      ensures !connected ==> r == Err(NotConnected)
      ensures r.Ok? <==>
        && connected && up && fromSequenceNumber < 0x8000_0000_0000_0000
        && toSequenceNumber < 0x8000_0000_0000_0000 && limit < 0x8000_0000_0000_0000
      ensures r.Ok? ==>
        IsSelected(r.value, table, InRange(persistenceID, fromSequenceNumber, toSequenceNumber), SequenceLe(), limit)
      // stored events of the id within both bounds, by sequence number
      ensures r.Ok? ==> forall e :: e in r.value ==>
        e in table && e.persistenceId == persistenceID && fromSequenceNumber <= e.sequenceNumber <= toSequenceNumber
      ensures r.Ok? ==>
        forall i, j :: 0 <= i < j < |r.value| ==> r.value[i].sequenceNumber <= r.value[j].sequenceNumber
      // as many as the limit lets through, the lowest ones, and all of them when they fit
      ensures r.Ok? ==>
        var n := |set e | e in table && e.persistenceId == persistenceID
                    && fromSequenceNumber <= e.sequenceNumber <= toSequenceNumber|;
        && |r.value| == (if n <= limit then n else limit)
        && forall e | e in table && e.persistenceId == persistenceID
             && fromSequenceNumber <= e.sequenceNumber <= toSequenceNumber && e !in r.value ::
             n > limit && forall shown :: shown in r.value ==> shown.sequenceNumber <= e.sequenceNumber
    {
      if !connected {
        return Err(NotConnected);
      }
      if !up || !FitsBigint(fromSequenceNumber) || !FitsBigint(toSequenceNumber) || !FitsBigint(limit) {
        return Err(QueryFailed);
      }
      EventOrders();
      var rows := Select(table, InRange(persistenceID, fromSequenceNumber, toSequenceNumber), SequenceLe(), SequenceLt(), limit);
      ReplayMeans(rows, table, persistenceID, fromSequenceNumber, toSequenceNumber, limit);
      return Ok(rows);
    }

    // No row is told apart from a row whose id is empty.
    method GetLatestEvent(persistenceID: string, up: bool) returns (r: Result<Option<Event>>)
      requires Valid()
      ensures !connected ==> r == Err(NotConnected)
      ensures r.Ok? <==> connected && up
      ensures r.Ok? ==>
        (r.value.None? <==> persistenceID == "" || forall e :: e in table ==> e.persistenceId != persistenceID)
      ensures r.Ok? && r.value.Some? ==>
        r.value.value in table && r.value.value.persistenceId == persistenceID &&
        forall e :: e in table && e.persistenceId == persistenceID ==> e.sequenceNumber <= r.value.value.sequenceNumber
    {
      if !connected {
        return Err(NotConnected);
      }
      if !up {
        return Err(QueryFailed);
      }
      var rows := Select(table, HasId(persistenceID), SequenceGe(), SequenceGt(), 1);
      LatestIsGreatest(rows, table, persistenceID);
      if rows == [] || rows[0].persistenceId == "" {
        return Ok(None);
      }
      return Ok(Some(rows[0]));
    }

    method GetShardEvents(shardNumber: uint64, offset: int64, limit: uint64, up: bool)
      returns (r: Result<(seq<Event>, int64)>)
      requires Valid()
      ensures !connected ==> r == Err(NotConnected)
      ensures r.Ok? <==>
        connected && up && shardNumber < 0x8000_0000_0000_0000 && limit < 0x8000_0000_0000_0000
      ensures r.Ok? ==> IsSelected(r.value.0, table, OnShard(shardNumber, offset), TimestampLe(), limit)
      // stored events of the shard above the offset, by timestamp
      ensures r.Ok? ==> forall e :: e in r.value.0 ==> e in table && e.shard == shardNumber && e.timestamp > offset
      ensures r.Ok? ==>
        forall i, j :: 0 <= i < j < |r.value.0| ==> r.value.0[i].timestamp <= r.value.0[j].timestamp
      // as many as the limit lets through, the earliest ones, and all of them when they fit
      ensures r.Ok? ==>
        var n := |set e | e in table && e.shard == shardNumber && e.timestamp > offset|;
        && |r.value.0| == (if n <= limit then n else limit)
        && forall e | e in table && e.shard == shardNumber && e.timestamp > offset && e !in r.value.0 ::
             n > limit && forall shown :: shown in r.value.0 ==> shown.timestamp <= e.timestamp
      ensures r.Ok? ==> r.value.1 == if r.value.0 == [] then 0 else r.value.0[|r.value.0| - 1].timestamp
    {
      if !connected {
        return Err(NotConnected);
      }
      if !up || !FitsBigint(shardNumber) || !FitsBigint(limit) {
        return Err(QueryFailed);
      }
      EventOrders();
      var rows := Select(table, OnShard(shardNumber, offset), TimestampLe(), TimestampLt(), limit);
      ShardPageMeans(rows, table, shardNumber, offset, limit);
      if rows == [] {
        return Ok(([], 0));
      }
      return Ok((rows, rows[|rows| - 1].timestamp));
    }

    method PersistenceIDs(pageSize: uint64, pageToken: string, up: bool) returns (r: Result<(seq<string>, string)>)
      requires Valid()
      ensures !connected ==> r == Err(NotConnected)
      ensures r.Ok? <==> connected && up && pageSize < 0x8000_0000_0000_0000
      ensures r.Ok? ==> IsPage(r.value.0, table, pageSize, pageToken)
      // ids of the table above the token, strictly ascending, a page size of them at most
      ensures r.Ok? ==> forall id :: id in r.value.0 ==>
        (exists e :: e in table && e.persistenceId == id) && (pageToken == "" || StrLt(pageToken, id))
      ensures r.Ok? ==> forall i, j :: 0 <= i < j < |r.value.0| ==> StrLt(r.value.0[i], r.value.0[j])
      ensures r.Ok? ==> |r.value.0| <= pageSize
      // an id above the token is left out only by a full page of lower ids
      ensures r.Ok? ==> forall e | e in table && (pageToken == "" || StrLt(pageToken, e.persistenceId))
                          && e.persistenceId !in r.value.0 ::
        |r.value.0| == pageSize && forall shown :: shown in r.value.0 ==> StrLt(shown, e.persistenceId)
      ensures r.Ok? ==> r.value.1 == if r.value.0 == [] then "" else r.value.0[|r.value.0| - 1]
    {
      if !connected {
        return Err(NotConnected);
      }
      if !up || !FitsBigint(pageSize) {
        return Err(QueryFailed);
      }
      var rows := SelectIds(table, pageSize, pageToken);
      forall e | e in table && (pageToken == "" || StrLt(pageToken, e.persistenceId)) && e.persistenceId !in rows
        ensures |rows| == pageSize && forall shown :: shown in rows ==> StrLt(shown, e.persistenceId)
      {
        assert Due(table, pageToken, e.persistenceId);
      }
      if rows == [] {
        return Ok(([], ""));
      }
      return Ok((rows, rows[|rows| - 1]));
    }
  }
}
