/** The Postgres offset store (offsetstore/postgres/offset_store.go): one row per projection and
    shard, written by upsert and reset by one update. */
module PostgresOffsets {
  import opened Base
  import opened Offsets

  class OffsetStore {
    var table: map<Key, Entry>
    var connected: bool

    constructor ()
      ensures !connected && table == map[]
    {
      table, connected := map[], false;
    }

    method WriteOffset(offset: Offset, up: bool) returns (r: Result<()>)
      modifies this`table
      ensures !connected ==> r == Err(NotConnected)
      ensures r.Ok? <==>
        && connected && up && offset != Offset("", 0, 0, 0)
        && |offset.projectionName| <= 255 && offset.shardNumber < 0x8000_0000_0000_0000
      ensures table ==
        if r.Ok? then
          old(table)[(offset.projectionName, offset.shardNumber) := Entry(offset.value, offset.timestamp)]
        else old(table)
    {
      if !connected {
        return Err(NotConnected);
      }
      if offset == Offset("", 0, 0, 0) {
        return Err(Undefined);
      }
      if !up || !FitsVarchar(offset.projectionName) || !FitsBigint(offset.shardNumber) {
        return Err(ExecFailed);
      }
      table := table[KeyOf(offset) := EntryOf(offset)];
      return Ok(());
    }

    method GetCurrentOffset(projectionName: string, shardNumber: uint64, up: bool) returns (r: Result<Option<Offset>>)
      ensures !connected ==> r == Err(NotConnected)
      ensures connected && up ==> r == PostgresLookup(table, (projectionName, shardNumber))
      ensures connected && !up ==> r == Err(QueryFailed)
      ensures connected && up ==> (r == Err(QueryFailed) <==> shardNumber >= 0x8000_0000_0000_0000)
      ensures r.Ok? ==> (r.value.None? <==> projectionName == "" || (projectionName, shardNumber) !in table)
      ensures r.Ok? && r.value.Some? ==>
        var e := table[(projectionName, shardNumber)];
        r.value.value == Offset(projectionName, shardNumber, e.value, e.timestamp)
    {
      if !connected {
        return Err(NotConnected);
      }
      if !up || !FitsBigint(shardNumber) {
        return Err(QueryFailed);
      }
      var key := (projectionName, shardNumber);
      if key !in table || projectionName == "" {
        return Ok(None);
      }
      var row := table[key];
      return Ok(Some(Offset(projectionName, shardNumber, row.value, row.timestamp)));
    }

    method ResetOffset(projectionName: string, value: int64, now: int64, up: bool) returns (r: Result<()>)
      modifies this`table
      ensures !connected ==> r == Err(NotConnected)
      ensures r.Ok? <==> connected && up
      ensures table == if r.Ok? then Reset(old(table), projectionName, value, now) else old(table)
      ensures r.Ok? ==> table.Keys == old(table).Keys && forall key :: key in table ==>
        table[key] == if key.0 == projectionName then Entry(value, now) else old(table)[key]
    {
      if !connected {
        return Err(NotConnected);
      }
      if !up {
        return Err(ExecFailed);
      }
      table := map key | key in table ::
        if key.0 == projectionName then table[key].(value := value, timestamp := now) else table[key];
      return Ok(());
    }
  }

  // One operation of a run, on the store itself.
  method Perform(store: OffsetStore, ghost ops: seq<Op>, op: Op)
    requires store.connected && store.table == PostgresRun(ops)
    modifies store
    ensures store.connected && store.table == PostgresRun(ops + [op])
  {
    assert (ops + [op])[..|ops|] == ops;
    match op {
      case Write(offset) =>
        var _ := store.WriteOffset(offset, true);
      case ResetAll(projectionName, value, now) =>
        var _ := store.ResetOffset(projectionName, value, now, true);
    }
  }
}
