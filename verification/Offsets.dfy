/** Projection offsets as a map, and the map operations both offset stores are held to. */
module Offsets {
  import opened Base

  type Key = (string, uint64)  // projection name and shard

  datatype Entry = Entry(value: int64, timestamp: int64)

  datatype Offset = Offset(projectionName: string, shardNumber: uint64, value: int64, timestamp: int64)

  function KeyOf(o: Offset): Key {
    (o.projectionName, o.shardNumber)
  }

  function EntryOf(o: Offset): Entry {
    Entry(o.value, o.timestamp)
  }

  function OffsetAt(key: Key, e: Entry): Offset {
    Offset(key.0, key.1, e.value, e.timestamp)
  }

  // Every shard of one projection takes the value; nothing else moves.
  function Reset(m: map<Key, Entry>, projectionName: string, value: int64, now: int64): map<Key, Entry> {
    map key | key in m :: if key.0 == projectionName then Entry(value, now) else m[key]
  }

  datatype Op =
    | Write(offset: Offset)
    | ResetAll(projectionName: string, value: int64, now: int64)

  // The memory store refuses a missing projection name.
  predicate MemoryAccepts(o: Offset) {
    Present(o.projectionName)
  }

  // The Postgres store refuses an offset whose fields are all unset, and what its columns cannot hold.
  predicate PostgresAccepts(o: Offset) {
    && o != Offset("", 0, 0, 0)
    && FitsVarchar(o.projectionName) && FitsBigint(o.shardNumber)
  }

  function MemoryRun(ops: seq<Op>): map<Key, Entry> {
    if ops == [] then map[]
    else
      var m := MemoryRun(ops[..|ops| - 1]);
      match ops[|ops| - 1]
      case Write(o) => if MemoryAccepts(o) then m[KeyOf(o) := EntryOf(o)] else m
      case ResetAll(p, v, t) => Reset(m, p, v, t)
  }

  function PostgresRun(ops: seq<Op>): map<Key, Entry> {
    if ops == [] then map[]
    else
      var m := PostgresRun(ops[..|ops| - 1]);
      match ops[|ops| - 1]
      case Write(o) => if PostgresAccepts(o) then m[KeyOf(o) := EntryOf(o)] else m
      case ResetAll(p, v, t) => Reset(m, p, v, t)
  }

  function Lookup(m: map<Key, Entry>, key: Key): Option<Offset> {
    if key in m then Some(OffsetAt(key, m[key])) else None
  }

  // A row without a projection name reads as no row.
  function PostgresLookup(m: map<Key, Entry>, key: Key): Result<Option<Offset>> {
    if !FitsBigint(key.1) then Err(QueryFailed)
    else if key in m && key.0 != "" then Ok(Some(OffsetAt(key, m[key])))
    else Ok(None)
  }

  // The last write of the key, or the last reset of its projection after a first write.
  function LastAffecting(ops: seq<Op>, key: Key): Option<Entry> {
    if ops == [] then None
    else
      var before := LastAffecting(ops[..|ops| - 1], key);
      match ops[|ops| - 1]
      case Write(o) => if MemoryAccepts(o) && KeyOf(o) == key then Some(EntryOf(o)) else before
      case ResetAll(p, v, t) => if p == key.0 && before.Some? then Some(Entry(v, t)) else before
  }

  /** After any run the current offset of a key is what the last operation affecting it said. */
  lemma {:induction false} RunIsLastAffecting(ops: seq<Op>, key: Key)
    ensures Lookup(MemoryRun(ops), key) ==
      match LastAffecting(ops, key) case None => None case Some(e) => Some(Offset(key.0, key.1, e.value, e.timestamp))
  {
    if ops != [] {
      RunIsLastAffecting(ops[..|ops| - 1], key);
    }
  }

  /** What a read of the memory store gives after one more write: what was written, if it was
      accepted and is the offset read, and otherwise what the read gave before. */
  lemma MemoryReadsWrites(ops: seq<Op>, o: Offset, key: Key)
    ensures Lookup(MemoryRun(ops + [Write(o)]), key) ==
      if o.projectionName != "" && o.projectionName == key.0 && o.shardNumber == key.1 then Some(o)
      else Lookup(MemoryRun(ops), key)
  {
    assert (ops + [Write(o)])[..|ops|] == ops;
  }

  /** And after one more reset: known offsets of the projection take the value and the time, unknown
      ones stay unknown, those of other projections stay as they are. */
  lemma MemoryReadsResets(ops: seq<Op>, p: string, v: int64, t: int64, key: Key)
    ensures Lookup(MemoryRun(ops + [ResetAll(p, v, t)]), key) ==
      match Lookup(MemoryRun(ops), key)
      case None => None
      case Some(o) => Some(if key.0 == p then Offset(p, key.1, v, t) else o)
    ensures Lookup(MemoryRun([]), key) == None
  {
    assert (ops + [ResetAll(p, v, t)])[..|ops|] == ops;
  }

  /** The same for Postgres: a write is accepted unless all its fields are unset or its name or its
      shard does not fit, a shard of 2^63 or more cannot be read, and a row without a name reads as
      none. */
  lemma PostgresReadsWrites(ops: seq<Op>, o: Offset, key: Key)
    requires key.1 < 0x8000_0000_0000_0000
    ensures PostgresLookup(PostgresRun(ops + [Write(o)]), key) ==
      if o.projectionName == key.0 && o.shardNumber == key.1 && 0 < |o.projectionName| <= 255 then Ok(Some(o))
      else PostgresLookup(PostgresRun(ops), key)
  {
    assert (ops + [Write(o)])[..|ops|] == ops;
  }

  lemma PostgresReadsResets(ops: seq<Op>, p: string, v: int64, t: int64, key: Key)
    requires key.1 < 0x8000_0000_0000_0000
    ensures PostgresLookup(PostgresRun(ops + [ResetAll(p, v, t)]), key) ==
      match PostgresLookup(PostgresRun(ops), key)
      case Ok(Some(o)) => Ok(Some(if key.0 == p then Offset(p, key.1, v, t) else o))
      case _ => Ok(None)
    ensures PostgresLookup(PostgresRun([]), key) == Ok(None)
  {
    assert (ops + [ResetAll(p, v, t)])[..|ops|] == ops;
  }

  predicate WritesKey(op: Op, key: Key) {
    op.Write? && MemoryAccepts(op.offset) && KeyOf(op.offset) == key
  }

  // A key is known exactly from its first accepted write on: a reset creates nothing.
  lemma {:induction false} KnownFromFirstWrite(ops: seq<Op>, key: Key)
    ensures key in MemoryRun(ops) <==> exists i :: 0 <= i < |ops| && WritesKey(ops[i], key)
  {
    if ops != [] {
      var n := |ops| - 1;
      KnownFromFirstWrite(ops[..n], key);
      if exists i :: 0 <= i < |ops| && WritesKey(ops[i], key) {
        var i :| 0 <= i < |ops| && WritesKey(ops[i], key);
        assert i < n ==> ops[..n][i] == ops[i];
      }
    }
  }

  // The two stores after the same run: equal on the names Postgres can hold and tell from no row.
  lemma {:induction false} RunsCorrespond(ops: seq<Op>, key: Key)
    requires FitsBigint(key.1) && Present(key.0)
    ensures key in PostgresRun(ops) ==> key in MemoryRun(ops)
    ensures FitsVarchar(key.0) ==>
      (key in PostgresRun(ops) <==> key in MemoryRun(ops))
    ensures key in PostgresRun(ops) ==> PostgresRun(ops)[key] == MemoryRun(ops)[key]
    ensures key in PostgresRun(ops) ==> FitsVarchar(key.0)
  {
    if ops != [] {
      RunsCorrespond(ops[..|ops| - 1], key);
    }
  }

  lemma {:induction false} NoEmptyName(ops: seq<Op>, key: Key)
    requires key in MemoryRun(ops)
    ensures Present(key.0)
  {
    if ops != [] {
      var n := |ops| - 1;
      if key in MemoryRun(ops[..n]) {
        NoEmptyName(ops[..n], key);
      }
    }
  }

  /** A read of one key is answered alike exactly when its shard fits a BIGINT, as Postgres fails
      otherwise, and the key was not written under a name too long for its column. */
  lemma ReadAgreesExactly(ops: seq<Op>, key: Key)
    ensures PostgresLookup(PostgresRun(ops), key) == Ok(Lookup(MemoryRun(ops), key)) <==>
      FitsBigint(key.1) && (FitsVarchar(key.0) || forall i :: 0 <= i < |ops| ==> !WritesKey(ops[i], key))
  {
    KnownFromFirstWrite(ops, key);
    if FitsBigint(key.1) {
      if Present(key.0) {
        RunsCorrespond(ops, key);
      }
      if key in MemoryRun(ops) {
        NoEmptyName(ops, key);
      }
    }
  }

  // A write only the memory store can keep: a projection name too long for its column.
  predicate Oversized(op: Op) {
    op.Write? && !FitsVarchar(op.offset.projectionName) && FitsBigint(op.offset.shardNumber)
  }

  /** Reads of shards below 2^63 are answered alike after a run exactly when no write to such a
      shard had a projection name longer than its column; empty names and unset offsets make no
      difference to reads, although the two stores answer those writes differently.  Reads of
      higher shards fail on Postgres only. */
  lemma StoresAgreeExactly(ops: seq<Op>)
    ensures (forall key: Key :: FitsBigint(key.1) ==>
               PostgresLookup(PostgresRun(ops), key) == Ok(Lookup(MemoryRun(ops), key))) <==>
      (forall i :: 0 <= i < |ops| ==> !Oversized(ops[i]))
  {
    if forall i :: 0 <= i < |ops| ==> !Oversized(ops[i]) {
      forall key: Key | FitsBigint(key.1)
        ensures PostgresLookup(PostgresRun(ops), key) == Ok(Lookup(MemoryRun(ops), key))
      {
        ReadAgreesExactly(ops, key);
      }
    } else {
      var i :| 0 <= i < |ops| && Oversized(ops[i]);
      var key := KeyOf(ops[i].offset);
      assert WritesKey(ops[i], key);
      ReadAgreesExactly(ops, key);
    }
  }
}
