/** The in-memory offset store (offsetstore/memory/offset_store.go, offsetstore/memory/schemas.go).

    A write always adds a row object and points the unique (projection, shard) index at it; the
    row the index pointed at before stays in the primary table.  A reset changes the row objects
    of a projection in place, stale ones included, and inserts them again. */
module MemoryOffsets {
  import opened Base
  import opened Offsets

  class OffsetRow {
    const ordering: string
    const projectionName: string
    const shardNumber: uint64
    var value: int64
    var timestamp: int64

    constructor (ordering: string, offset: Offset)
      ensures this.ordering == ordering
      ensures projectionName == offset.projectionName && shardNumber == offset.shardNumber
      ensures value == offset.value && timestamp == offset.timestamp
    {
      this.ordering := ordering;
      projectionName, shardNumber := offset.projectionName, offset.shardNumber;
      value, timestamp := offset.value, offset.timestamp;
    }

    function Key(): Offsets.Key {
      (projectionName, shardNumber)
    }

    function Entry(): Offsets.Entry
      reads this
    {
      Offsets.Entry(value, timestamp)
    }
  }

  class OffsetStore {
    var table: map<string, OffsetRow>       // by primary key
    var rowIndex: map<Offsets.Key, OffsetRow>  // by projection and shard, unique
    var connected: bool

    // Every row is reachable under its key, through a live row of that key.
    ghost predicate Valid()
      reads this
    {
      && (forall k :: k in table ==> table[k].ordering == k && Present(table[k].projectionName))
      && (forall k :: k in table ==> table[k].Key() in rowIndex)
      && (forall key :: key in rowIndex ==>
            && rowIndex[key].Key() == key
            && rowIndex[key].ordering in table
            && table[rowIndex[key].ordering] == rowIndex[key])
    }

    // The offsets the store stands for.
    ghost function View(): map<Offsets.Key, Offsets.Entry>
      reads this, rowIndex.Values
    {
      map key | key in rowIndex :: rowIndex[key].Entry()
    }

    constructor ()
      ensures Valid() && !connected && View() == map[]
    {
      table, rowIndex, connected := map[], map[], false;
    }

    method Connect()
      requires Valid()
      modifies this
      ensures Valid() && connected
      ensures View() == if old(connected) then old(View()) else map[]
    {
      if !connected {
        table, rowIndex := map[], map[];
        connected := true;
      }
    }

    method WriteOffset(offset: Offset, ordering: string) returns (r: Result<()>)
      requires Valid() && ordering !in table
      modifies this`table, this`rowIndex
      ensures Valid()
      ensures !connected ==> r == Err(NotConnected)
      ensures r.Ok? <==> connected && offset.projectionName != ""
      ensures View() ==
        if r.Ok? then
          old(View())[(offset.projectionName, offset.shardNumber) := Entry(offset.value, offset.timestamp)]
        else old(View())
      ensures r.Ok? ==> table.Keys == old(table.Keys) + {ordering}
    {
      if !connected {
        return Err(NotConnected);
      }
      if !Present(offset.projectionName) {
        return Err(InsertFailed);
      }
      var record := new OffsetRow(ordering, offset);
      Insert(record);
      return Ok(());
    }

    // Txn.Insert: the primary entry and the unique index entry are replaced.
    method Insert(row: OffsetRow)
      requires Valid() && Present(row.projectionName)
      requires row.ordering in table ==> table[row.ordering] == row
      modifies this`table, this`rowIndex
      ensures Valid()
      ensures table == old(table)[row.ordering := row]
      ensures rowIndex == old(rowIndex)[row.Key() := row]
    {
      table := table[row.ordering := row];
      rowIndex := rowIndex[row.Key() := row];
    }

    method GetCurrentOffset(projectionName: string, shardNumber: uint64) returns (r: Result<Option<Offset>>)
      requires Valid()
      ensures !connected ==> r == Err(NotConnected)
      ensures connected ==> r == Ok(Lookup(View(), (projectionName, shardNumber)))
      ensures r.Ok? ==> (r.value.None? <==> (projectionName, shardNumber) !in View())
      ensures r.Ok? && r.value.Some? ==>
        var e := View()[(projectionName, shardNumber)];
        r.value.value == Offset(projectionName, shardNumber, e.value, e.timestamp)
    {
      if !connected {
        return Err(NotConnected);
      }
      var key := (projectionName, shardNumber);
      if key !in rowIndex {
        return Ok(None);
      }
      var row := rowIndex[key];
      return Ok(Some(Offset(row.projectionName, row.shardNumber, row.value, row.timestamp)));
    }

    // All rows of a projection, stale ones too, in the order of the random keys.
    method RowsOf(projectionName: string) returns (rows: seq<OffsetRow>)
      requires Valid()
      ensures forall row :: row in rows <==> row in table.Values && row.projectionName == projectionName
    {
      rows := [];
      var left := table.Keys;
      while left != {}
        invariant left <= table.Keys
        invariant forall row :: row in rows <==>
          row in table.Values && row.projectionName == projectionName && row.ordering !in left
      {
        var k :| k in left;
        left := left - {k};
        if table[k].projectionName == projectionName {
          rows := rows + [table[k]];
        }
      }
    }

    // The first loop of a reset: the shared row objects change in place.
    static method Overwrite(offsetRows: seq<OffsetRow>, value: int64, now: int64)
      modifies offsetRows
      ensures forall row :: row in offsetRows ==> row.Entry() == Offsets.Entry(value, now)
    {
      for i := 0 to |offsetRows|
        invariant forall j :: 0 <= j < i ==> offsetRows[j].Entry() == Offsets.Entry(value, now)
      {
        offsetRows[i].value := value;
        offsetRows[i].timestamp := now;
      }
    }

    // The second loop: rows that are in the table already are inserted again, which can only move
    // the index from one row of a key to another.
    method Reinsert(offsetRows: seq<OffsetRow>)
      requires Valid()
      requires forall row :: row in offsetRows ==> row in table.Values
      modifies this`table, this`rowIndex
      ensures Valid() && table == old(table) && rowIndex.Keys == old(rowIndex.Keys)
      ensures forall key :: key in rowIndex ==> rowIndex[key] == old(rowIndex)[key] || rowIndex[key] in offsetRows
    {
      for i := 0 to |offsetRows|
        invariant Valid() && table == old(table) && rowIndex.Keys == old(rowIndex.Keys)
        invariant forall key :: key in rowIndex ==> rowIndex[key] == old(rowIndex)[key] || rowIndex[key] in offsetRows
      {
        assert offsetRows[i] in offsetRows;
        Insert(offsetRows[i]);
      }
    }

    // Both loops: each index entry of the projection ends on a changed row, each other entry is as
    // it was.
    method ResetRows(projectionName: string, value: int64, now: int64)
      requires Valid()
      modifies this`table, this`rowIndex, table.Values
      ensures Valid() && table == old(table) && rowIndex.Keys == old(rowIndex.Keys)
      ensures forall key :: key in rowIndex ==>
        rowIndex[key].Entry() ==
          if key.0 == projectionName then Offsets.Entry(value, now) else old(rowIndex[key].Entry())
    {
      var offsetRows := RowsOf(projectionName);
      Overwrite(offsetRows, value, now);
      Reinsert(offsetRows);
      forall key | key in rowIndex
        ensures rowIndex[key].Entry() ==
          if key.0 == projectionName then Offsets.Entry(value, now) else old(rowIndex[key].Entry())
      {
        var row := rowIndex[key];
        assert row in table.Values && row.Key() == key;
        assert row in offsetRows <==> key.0 == projectionName;
      }
    }

    method ResetOffset(projectionName: string, value: int64, now: int64) returns (r: Result<()>)
      requires Valid()
      modifies this`table, this`rowIndex, table.Values
      ensures Valid()
      ensures !connected ==> r == Err(NotConnected)
      ensures r.Ok? <==> connected
      ensures table == old(table)
      ensures View() == if r.Ok? then Reset(old(View()), projectionName, value, now) else old(View())
      ensures r.Ok? ==> View().Keys == old(View()).Keys && forall key :: key in View() ==>
        View()[key] == if key.0 == projectionName then Entry(value, now) else old(View())[key]
    {
      if !connected {
        return Err(NotConnected);
      }
      ResetRows(projectionName, value, now);
      assert View().Keys == Reset(old(View()), projectionName, value, now).Keys;
      return Ok(());
    }
  }

  // One operation of a run, on the store itself.
  method Perform(store: OffsetStore, ghost ops: seq<Op>, op: Op, ordering: string)
    requires store.Valid() && store.connected && ordering !in store.table
    requires store.View() == MemoryRun(ops)
    modifies store, store.table.Values
    ensures store.Valid() && store.connected
    ensures store.View() == MemoryRun(ops + [op])
  {
    assert (ops + [op])[..|ops|] == ops;
    match op {
      case Write(offset) =>
        var _ := store.WriteOffset(offset, ordering);
      case ResetAll(projectionName, value, now) =>
        var _ := store.ResetOffset(projectionName, value, now);
    }
  }
}
