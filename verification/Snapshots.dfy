/** The Postgres snapshot store (snapshotstore/postgres/snapshot_store.go): snapshots keyed by
    persistence id and sequence number, the latest one being the highest. */
module Snapshots {
  import opened Base

  datatype Snapshot<+S> = Snapshot(
    persistenceId: string,
    sequenceNumber: uint64,
    state: Option<S>,  // None: not set
    timestamp: int64,
    encryptionKeyId: string,
    isEncrypted: bool)

  type Key = (string, uint64)

  type Table<+S> = map<Key, Snapshot<S>>

  function KeyOf<S>(s: Snapshot<S>): Key {
    (s.persistenceId, s.sequenceNumber)
  }

  // A snapshot message with no field set is skipped without an error.
  predicate IsEmpty<S(==)>(s: Snapshot<S>) {
    s == Snapshot("", 0, None, 0, "", false)
  }

  predicate Storable<S>(s: Snapshot<S>) {
    FitsVarchar(s.persistenceId) && FitsVarchar(s.encryptionKeyId) && FitsBigint(s.sequenceNumber)
  }

  function Upsert<S>(t: Table<S>, s: Snapshot<S>): Table<S> {
    t[KeyOf(s) := s]
  }

  predicate Covers(id: string, to: uint64, key: Key) {
    key.0 == id && key.1 <= to
  }

  function Delete<S>(t: Table<S>, id: string, to: uint64): Table<S> {
    map key | key in t && !Covers(id, to, key) :: t[key]
  }

  // Each row lies under its own key.
  ghost predicate Keyed<S>(t: Table<S>) {
    forall key :: key in t ==> KeyOf(t[key]) == key
  }

  // SELECT ... ORDER BY sequence_number DESC LIMIT 1; a row with the empty id reads as none.
  ghost predicate IsLatest<S>(r: Option<Snapshot<S>>, t: Table<S>, id: string) {
    match r
    case None => id == "" || forall key :: key in t ==> key.0 != id
    case Some(s) =>
      && id != "" && (id, s.sequenceNumber) in t && t[(id, s.sequenceNumber)] == s
      && forall key :: key in t && key.0 == id ==> key.1 <= s.sequenceNumber
  }

  lemma LatestUnique<S>(a: Option<Snapshot<S>>, b: Option<Snapshot<S>>, t: Table<S>, id: string)
    requires IsLatest(a, t, id) && IsLatest(b, t, id)
    ensures a == b
  {
  }

  /** Deleting up to a bound leaves the latest snapshot as it was if it is above the bound, and
      otherwise leaves the id with none; the latest of every other id stays. */
  lemma DeleteAndLatest<S>(
    t: Table<S>, id: string, to: uint64, other: string, r: Option<Snapshot<S>>, q: Option<Snapshot<S>>)
    requires Keyed(t) && IsLatest(r, t, id) && IsLatest(q, t, other) && other != id
    ensures IsLatest(if r.Some? && r.value.sequenceNumber > to then r else None, Delete(t, id, to), id)
    ensures IsLatest(q, Delete(t, id, to), other)
  {
  }

  /** A snapshot just written is the latest of its id unless a higher one is there already; the
      latest of every other id stays. */
  lemma WriteAndLatest<S>(t: Table<S>, s: Snapshot<S>, r: Option<Snapshot<S>>, other: string, q: Option<Snapshot<S>>)
    requires Keyed(t) && s.persistenceId != "" && other != s.persistenceId
    requires IsLatest(r, t, s.persistenceId) && IsLatest(q, t, other)
    ensures IsLatest(
      if r.Some? && r.value.sequenceNumber > s.sequenceNumber then r else Some(s),
      t[(s.persistenceId, s.sequenceNumber) := s], s.persistenceId)
    ensures IsLatest(q, t[(s.persistenceId, s.sequenceNumber) := s], other)
  {
  }

  class SnapshotStore<S(==)> {
    var table: Table<S>
    var connected: bool  // guarded by the mutex, see Lifecycle

    ghost predicate Valid()
      reads this
    {
      Keyed(table) && forall key :: key in table ==> Storable(table[key])
    }

    constructor ()
      ensures Valid() && !connected && table == map[]
    {
      table, connected := map[], false;
    }

    method WriteSnapshot(snapshot: Option<Snapshot<S>>, up: bool) returns (r: Result<()>)
      requires Valid()
      modifies this`table
      ensures Valid()
      ensures !connected ==> r == Err(NotConnected)
      // a nil snapshot, or one with no field set, is skipped; another is stored under its key
      ensures snapshot.None? || snapshot.value == Snapshot("", 0, None, 0, "", false) ==>
        (r.Ok? <==> connected) && table == old(table)
      ensures snapshot.Some? && snapshot.value != Snapshot("", 0, None, 0, "", false) ==>
        var s := snapshot.value;
        && (r.Ok? <==>
              && connected && up && |s.persistenceId| <= 255 && |s.encryptionKeyId| <= 255
              && s.sequenceNumber < 0x8000_0000_0000_0000)
        && table == if r.Ok? then old(table)[(s.persistenceId, s.sequenceNumber) := s] else old(table)
    {
      if !connected {
        return Err(NotConnected);
      }
      if snapshot.None? || IsEmpty(snapshot.value) {
        return Ok(());
      }
      if !up || !Storable(snapshot.value) {
        return Err(ExecFailed);
      }
      table := table[KeyOf(snapshot.value) := snapshot.value];
      return Ok(());
    }

    method GetLatestSnapshot(persistenceID: string, up: bool) returns (r: Result<Option<Snapshot<S>>>)
      requires Valid()
      ensures !connected ==> r == Err(NotConnected)
      ensures r.Ok? <==> connected && up
      ensures r.Ok? ==> IsLatest(r.value, table, persistenceID)
      ensures r.Ok? ==>
        (r.value.None? <==> persistenceID == "" || forall key :: key in table ==> key.0 != persistenceID)
      ensures r.Ok? && r.value.Some? ==>
        var q := r.value.value.sequenceNumber;
        && (persistenceID, q) in table && table[(persistenceID, q)] == r.value.value
        && forall key :: key in table && key.0 == persistenceID ==> key.1 <= q
    {
      if !connected {
        return Err(NotConnected);
      }
      if !up {
        return Err(QueryFailed);
      }
      var left := table.Keys;
      var row: Option<Snapshot<S>> := None;
      while left != {}
        invariant left <= table.Keys
        invariant row.None? ==> forall key :: key in table && key !in left ==> key.0 != persistenceID
        invariant row.Some? ==>
          && (persistenceID, row.value.sequenceNumber) in table
          && table[(persistenceID, row.value.sequenceNumber)] == row.value
          && forall key :: key in table && key !in left && key.0 == persistenceID ==>
               key.1 <= row.value.sequenceNumber
      {
        var key :| key in left;
        left := left - {key};
        if key.0 == persistenceID && (row.None? || row.value.sequenceNumber < key.1) {
          row := Some(table[key]);
        }
      }
      if row.None? || row.value.persistenceId == "" {
        return Ok(None);
      }
      return Ok(row);
    }

    method DeleteSnapshots(persistenceID: string, toSequenceNumber: uint64, up: bool) returns (r: Result<()>)
      requires Valid()
      modifies this`table
      ensures Valid()
      ensures !connected ==> r == Err(NotConnected)
      ensures r.Ok? <==> connected && up && toSequenceNumber < 0x8000_0000_0000_0000
      ensures table == if r.Ok? then Delete(old(table), persistenceID, toSequenceNumber) else old(table)
      ensures r.Ok? ==> forall key ::
        && (key in table <==> key in old(table) && !(key.0 == persistenceID && key.1 <= toSequenceNumber))
        && (key in table ==> table[key] == old(table)[key])
    {
      if !connected {
        return Err(NotConnected);
      }
      if !up || !FitsBigint(toSequenceNumber) {
        return Err(ExecFailed);
      }
      table := map key | key in table && !Covers(persistenceID, toSequenceNumber, key) :: table[key];
      return Ok(());
    }
  }

  // ----- Histories -----

  datatype Op<+S> =
    | Write(snapshot: Snapshot<S>)
    | DeleteUpTo(id: string, to: uint64)

  function Run<S>(ops: seq<Op<S>>): Table<S> {
    if ops == [] then map[]
    else
      var t := Run(ops[..|ops| - 1]);
      match ops[|ops| - 1]
      case Write(s) => Upsert(t, s)
      case DeleteUpTo(id, to) => Delete(t, id, to)
  }

  predicate Touches<S>(op: Op<S>, key: Key) {
    match op
    case Write(s) => KeyOf(s) == key
    case DeleteUpTo(id, to) => Covers(id, to, key)
  }

  // A write that nothing after it has overwritten or deleted.
  ghost predicate Stands<S>(ops: seq<Op<S>>, i: nat) {
    && i < |ops| && ops[i].Write?
    && forall j :: i < j < |ops| ==> !Touches(ops[j], KeyOf(ops[i].snapshot))
  }

  lemma {:induction false} TableIsStanding<S>(ops: seq<Op<S>>, key: Key)
    ensures key in Run(ops) ==>
      exists i: nat :: Stands(ops, i) && ops[i].snapshot == Run(ops)[key] && KeyOf(ops[i].snapshot) == key
    ensures forall i: nat :: Stands(ops, i) && KeyOf(ops[i].snapshot) == key ==>
      key in Run(ops) && Run(ops)[key] == ops[i].snapshot
  {
    if ops != [] {
      var n := |ops| - 1;
      TableIsStanding(ops[..n], key);
      if Touches(ops[n], key) {
        if ops[n].Write? {
          assert Stands(ops, n);
        }
      } else {
        if key in Run(ops) {
          var i: nat :| Stands(ops[..n], i) && ops[..n][i].snapshot == Run(ops[..n])[key] && KeyOf(ops[..n][i].snapshot) == key;
          assert Stands(ops, i);
        }
        forall i: nat | Stands(ops, i) && KeyOf(ops[i].snapshot) == key
          ensures key in Run(ops) && Run(ops)[key] == ops[i].snapshot
        {
          assert i != n;
          assert Stands(ops[..n], i);
        }
      }
    }
  }

  /** After any history the latest snapshot of an id is the write, among those not overwritten or
      deleted since, with the highest sequence number; there is none exactly when none stands. */
  lemma LatestIsHighestStanding<S>(ops: seq<Op<S>>, id: string, r: Option<Snapshot<S>>)
    requires Present(id) && IsLatest(r, Run(ops), id)
    ensures r.None? <==> forall i: nat :: Stands(ops, i) ==> ops[i].snapshot.persistenceId != id
    ensures r.Some? ==> exists i: nat :: Stands(ops, i) && ops[i].snapshot == r.value && r.value.persistenceId == id
    ensures r.Some? ==> forall j: nat :: Stands(ops, j) && ops[j].snapshot.persistenceId == id ==>
      ops[j].snapshot.sequenceNumber <= r.value.sequenceNumber
  {
    forall j: nat | Stands(ops, j) && ops[j].snapshot.persistenceId == id
      ensures KeyOf(ops[j].snapshot) in Run(ops)
    {
      TableIsStanding(ops, KeyOf(ops[j].snapshot));
    }
    if r.Some? {
      TableIsStanding(ops, (id, r.value.sequenceNumber));
    }
  }

  // One operation of a history, on the store itself.
  method Perform<S(==)>(store: SnapshotStore<S>, ghost ops: seq<Op<S>>, op: Op<S>) returns (r: Result<()>)
    requires store.Valid() && store.connected && store.table == Run(ops)
    requires op.Write? ==> op.snapshot != Snapshot("", 0, None, 0, "", false)
    modifies store
    ensures store.Valid() && store.connected
    ensures store.table == Run(if r.Ok? then ops + [op] else ops)
  {
    assert (ops + [op])[..|ops|] == ops;
    match op {
      case Write(s) =>
        r := store.WriteSnapshot(Some(s), true);
      case DeleteUpTo(id, to) =>
        r := store.DeleteSnapshots(id, to, true);
    }
  }
}
