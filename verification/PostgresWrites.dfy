/** Writing to the Postgres journal: INSERT statements, their batches, and the loop that runs them
    inside one transaction (WriteEvents in eventstore/postgres/events_store.go). */
module PostgresWrites {
  import opened Base
  import opened Sequences
  import opened Journal

  // A row the columns can hold.
  predicate Storable(e: Event) {
    && FitsVarchar(e.persistenceId) && FitsVarchar(e.encryptionKeyId)
    && FitsBigint(e.sequenceNumber) && FitsBigint(e.shard)
  }

  predicate AllStorable(s: seq<Event>) {
    forall i :: 0 <= i < |s| ==> Storable(s[i])
  }

  // One INSERT statement: all of its rows, or none and an error.
  function Insert(table: seq<Event>, batch: seq<Event>): Option<seq<Event>> {
    if KeysDistinct(table + batch) && AllStorable(batch) then Some(table + batch) else None
  }

  // The primary keys in use.
  function KeySet(s: seq<Event>): set<(string, uint64)> {
    set e | e in s :: (e.persistenceId, e.sequenceNumber)
  }

  lemma KeySetStep(s: seq<Event>)
    requires s != []
    ensures var n := |s| - 1;
      var key := (s[n].persistenceId, s[n].sequenceNumber);
      && KeySet(s) == KeySet(s[..n]) + {key}
      && (key in KeySet(s[..n]) <==>
            exists i :: 0 <= i < n && s[i].persistenceId == s[n].persistenceId && s[i].sequenceNumber == s[n].sequenceNumber)
  {
    var n := |s| - 1;
    assert s == s[..n] + [s[n]];
    forall i | 0 <= i < n ensures s[i] in s[..n] {
      assert s[..n][i] == s[i];
    }
  }

  lemma {:induction false} KeysDistinctExactly(s: seq<Event>)
    ensures KeysDistinct(s) <==> |KeySet(s)| == |s|
    ensures |KeySet(s)| <= |s|
  {
    hide KeySet;
    if s == [] {
      NoKeys();
    } else {
      KeysDistinctExactly(s[..|s| - 1]);
      KeySetStep(s);
    }
  }

  lemma NoKeys()
    ensures KeySet([]) == {}
  {
  }

  /** An INSERT goes through exactly when table and batch together have as many pairs of id and
      sequence number as rows, and every new row fits its columns. */
  lemma InsertExactly(table: seq<Event>, batch: seq<Event>)
    ensures Insert(table, batch).Some? <==>
      && |set e | e in table + batch :: (e.persistenceId, e.sequenceNumber)| == |table + batch|
      && forall e :: e in batch ==>
           && |e.persistenceId| <= 255 && |e.encryptionKeyId| <= 255
           && e.sequenceNumber < 0x8000_0000_0000_0000 && e.shard < 0x8000_0000_0000_0000
    ensures Insert(table, batch).Some? ==> Insert(table, batch).value == table + batch
  {
    hide KeysDistinct;
    KeysDistinctExactly(table + batch);
    assert KeySet(table + batch) == set e | e in table + batch :: (e.persistenceId, e.sequenceNumber);
    if AllStorable(batch) {
      forall e | e in batch ensures Storable(e) {
      }
    } else {
      var i :| 0 <= i < |batch| && !Storable(batch[i]);
      assert batch[i] in batch;
    }
  }

  /** Rows of other ids never stand in the way of a batch. */
  lemma OtherIdsDoNotBlock(table: seq<Event>, batch: seq<Event>, other: seq<Event>)
    requires KeysDistinct(table + other) && Insert(table, batch).Some?
    requires forall a, b :: a in other && b in batch ==> a.persistenceId != b.persistenceId
    ensures Insert(table + other, batch).Some?
  {
    var all := table + other + batch;
    forall i, j | 0 <= i < j < |all|
      ensures !(all[i].persistenceId == all[j].persistenceId && all[i].sequenceNumber == all[j].sequenceNumber)
    {
      var n := |table| + |other|;
      if j < n {
        assert all[i] == (table + other)[i] && all[j] == (table + other)[j];
      } else {
        assert all[j] == batch[j - n] && batch[j - n] == (table + batch)[|table| + j - n];
        if i < |table| {
          assert all[i] == (table + batch)[i];
        } else if i < n {
          assert all[i] == other[i - |table|];
        } else {
          assert all[i] == (table + batch)[i - |other|];
        }
      }
    }
  }

  function InsertAll(table: seq<Event>, batches: seq<seq<Event>>): Option<seq<Event>> {
    if batches == [] then Some(table)
    else
      match InsertAll(table, batches[..|batches| - 1])
      case None => None
      case Some(tx) => Insert(tx, batches[|batches| - 1])
  }

  lemma InsertPrefix(table: seq<Event>, a: seq<Event>, b: seq<Event>)
    ensures Insert(table, a + b).Some? ==> Insert(table, a).Some?
    ensures Insert(table, a).Some? ==> Insert(table, a + b) == Insert(table + a, b)
  {
    assert table + (a + b) == (table + a) + b;
    if KeysDistinct(table + (a + b)) {
      forall i | 0 <= i < |table + a| ensures (table + a)[i] == (table + (a + b))[i] {
      }
      assert KeysDistinct(table + a);
    }
    if AllStorable(a + b) {
      forall i | 0 <= i < |a| ensures Storable(a[i]) {
        assert a[i] == (a + b)[i];
      }
      forall i | 0 <= i < |b| ensures Storable(b[i]) {
        assert b[i] == (a + b)[|a| + i];
      }
    }
  }

  /** However the rows are split, the batches of one transaction succeed together exactly when a
      single INSERT of all the rows would, and leave the same table. */
  lemma {:induction false} BatchesAreAtomic(table: seq<Event>, batches: seq<seq<Event>>)
    requires KeysDistinct(table)
    ensures InsertAll(table, batches) == Insert(table, Flatten(batches))
  {
    if batches == [] {
      assert table + [] == table;
    } else {
      var n := |batches| - 1;
      BatchesAreAtomic(table, batches[..n]);
      InsertPrefix(table, Flatten(batches[..n]), batches[n]);
    }
  }

  // The batches are full but for the last, which is not empty, and hold the events in order.
  ghost predicate IsBatching(batches: seq<seq<Event>>, events: seq<Event>, size: nat) {
    && Flatten(batches) == events
    && (forall k :: 0 <= k < |batches| ==> 1 <= |batches[k]| <= size)
    && (forall k :: 0 <= k < |batches| - 1 ==> |batches[k]| == size)
  }

  lemma {:induction false} FlattenFull<T>(batches: seq<seq<T>>, size: nat)
    requires forall k :: 0 <= k < |batches| ==> |batches[k]| == size
    ensures |Flatten(batches)| == |batches| * size
  {
    if batches != [] {
      var n := |batches| - 1;
      FlattenFull(batches[..n], size);
      assert |batches| * size == n * size + size;
    }
  }

  const COLUMNS := 9
  const MAX_PARAMETERS := 65535

  /** There are exactly ceil(n / size) batches, and a size of up to 7281 keeps every statement
      within the parameter limit. */
  lemma BatchArithmetic(batches: seq<seq<Event>>, events: seq<Event>, size: nat)
    requires size >= 1 && IsBatching(batches, events, size)
    ensures |batches| == (|events| + size - 1) / size
    ensures size <= 7281 ==> forall k :: 0 <= k < |batches| ==> COLUMNS * |batches[k]| <= MAX_PARAMETERS
  {
    if batches != [] {
      var n := |batches| - 1;
      FlattenFull(batches[..n], size);
      var last := |batches[n]|;
      assert |events| + size - 1 == size * (n + 1) + (last - 1);
      DivideExactly(|events| + size - 1, size, n + 1, last - 1);
    } else {
      DivideExactly(size - 1, size, 0, size - 1);
    }
  }

  lemma MulMonotone(d: nat, a: nat, b: nat)
    requires a <= b
    ensures d * a <= d * b
  {
  }

  lemma DivideExactly(x: nat, d: nat, q: nat, r: nat)
    requires 0 <= r < d && x == d * q + r
    ensures x / d == q
  {
    QuotientAtLeast(x, d, q);
    if x / d > q {
      MulMonotone(d, q + 1, x / d);
      assert false;
    }
  }

  lemma QuotientAtLeast(x: nat, d: nat, q: nat)
    requires d >= 1 && x >= d * q
    ensures x / d >= q
  {
    assert x == d * (x / d) + x % d;
    if x / d < q {
      MulMonotone(d, x / d + 1, q);
      assert false;
    }
  }

  lemma {:induction false} FilterKeepsKeys(table: seq<Event>, p: Event -> bool)
    requires KeysDistinct(table) && AllStorable(table)
    ensures KeysDistinct(Filter(table, p)) && AllStorable(Filter(table, p))
  {
    if table != [] {
      var n := |table| - 1;
      FilterKeepsKeys(table[..n], p);
      FilterMembers(table[..n], p);
      var kept := Filter(table[..n], p);
      forall i | 0 <= i < |kept|
        ensures !(kept[i].persistenceId == table[n].persistenceId && kept[i].sequenceNumber == table[n].sequenceNumber)
      {
        assert kept[i] in table[..n];
      }
    }
  }

  // Where a statement falls due: a full batch, or the last event.
  lemma FlushPoint(index: nat, flushed: nat, pending: nat, size: nat)
    requires size >= 1 && pending < size && index == flushed * size + pending
    ensures (index + 1) % size == 0 <==> pending == size - 1
  {
    if pending == size - 1 {
      assert index + 1 == size * (flushed + 1);
      DivideExactly(index + 1, size, flushed + 1, 0);
    } else {
      DivideExactly(index + 1, size, flushed, pending + 1);
      assert index + 1 == size * flushed + (pending + 1);
    }
  }

  // The loop of one write midway: full batches have run, and a short statement is pending.  Once
  // the events are out the last batch may be short, and nothing is pending.
  ghost predicate Underway(batches: seq<seq<Event>>, statement: seq<Event>, done: seq<Event>, size: nat, out: bool) {
    && Flatten(batches) + statement == done
    && (if out then
          && statement == []
          && (forall k :: 0 <= k < |batches| ==> 1 <= |batches[k]| <= size)
          && (forall k :: 0 <= k < |batches| - 1 ==> |batches[k]| == size)
        else
          && |done| == |batches| * size + |statement|
          && |statement| < size
          && (forall k :: 0 <= k < |batches| ==> |batches[k]| == size))
  }

  lemma UnderwayStart(table: seq<Event>, size: nat)
    requires size >= 1
    ensures Underway([], [], [], size, false) && InsertAll(table, []) == Some(table)
  {
  }

  lemma UnderwayDone(batches: seq<seq<Event>>, statement: seq<Event>, events: seq<Event>, size: nat)
    requires Underway(batches, statement, events, size, true)
    ensures IsBatching(batches, events, size)
  {
  }

  lemma UnderwayAdd(batches: seq<seq<Event>>, statement: seq<Event>, done: seq<Event>, e: Event, size: nat)
    requires size >= 1 && Underway(batches, statement, done, size, false)
    requires |done + [e]| % size != 0
    ensures Underway(batches, statement + [e], done + [e], size, false)
  {
    FlushPoint(|done|, |batches|, |statement|, size);
    assert Flatten(batches) + (statement + [e]) == done + [e];
  }

  lemma UnderwayFlush(batches: seq<seq<Event>>, statement: seq<Event>, done: seq<Event>, e: Event, size: nat, out: bool)
    requires size >= 1 && Underway(batches, statement, done, size, false)
    requires |done + [e]| % size == 0 || out
    ensures Underway(batches + [statement + [e]], [], done + [e], size, out)
    ensures Flatten(batches + [statement + [e]]) == done + [e]
  {
    hide Flatten;
    FlattenAppend(batches, statement + [e]);
    FlushSizes(batches, statement + [e], size);
    if !out {
      FullBatch(|done|, |batches|, |statement|, size);
    }
  }

  lemma FlushSizes(batches: seq<seq<Event>>, batch: seq<Event>, size: nat)
    requires forall k :: 0 <= k < |batches| ==> |batches[k]| == size
    requires 1 <= |batch| <= size
    ensures var flushed := batches + [batch];
      && (forall k :: 0 <= k < |flushed| ==> 1 <= |flushed[k]| <= size)
      && (forall k :: 0 <= k < |flushed| - 1 ==> |flushed[k]| == size)
  {
  }

  lemma FullBatch(done: nat, flushed: nat, pending: nat, size: nat)
    requires size >= 1 && pending < size && done == flushed * size + pending && (done + 1) % size == 0
    ensures pending + 1 == size && done + 1 == (flushed + 1) * size
  {
    FlushPoint(done, flushed, pending, size);
  }

  lemma FlattenAppend(batches: seq<seq<Event>>, batch: seq<Event>)
    ensures Flatten(batches + [batch]) == Flatten(batches) + batch
  {
  }

  lemma InsertAllAppend(table: seq<Event>, batches: seq<seq<Event>>, tx: seq<Event>, batch: seq<Event>)
    requires InsertAll(table, batches) == Some(tx)
    ensures InsertAll(table, batches + [batch]) == Insert(tx, batch)
  {
  }

  // What can go wrong outside the data: which calls of the driver, the statement builder or the
  // marshaller fail.  Events and statements are numbered from 0.
  datatype Faults = Faults(
    begin: bool, marshal: set<nat>, build: set<nat>, exec: set<nat>, rollback: bool, commit: bool)

  // A fault that a write of n events in batches of the given size would meet before its commit.
  predicate HitInside(faults: Faults, n: nat, size: nat)
    requires size >= 1
  {
    || (exists i :: 0 <= i < n && i in faults.marshal)
    || (exists k :: 0 <= k < (n + size - 1) / size && (k in faults.build || k in faults.exec))
  }

  // How many of the first i events have been sent when event i comes up: the full batches.
  function SentBefore(i: nat, size: nat): (r: nat)
    requires size >= 1
    ensures r <= i
  {
    i - i % size
  }

  // The write comes to event i: no event or statement before it has failed.
  ghost predicate Reaches(table: seq<Event>, events: seq<Event>, faults: Faults, size: nat, i: nat)
    requires size >= 1
  {
    && i < |events|
    && (forall j :: 0 <= j < i ==> j !in faults.marshal)
    && (forall k :: 0 <= k < i / size ==> k !in faults.build && k !in faults.exec)
    && Insert(table, events[..SentBefore(i, size)]).Some?
  }

  // What goes wrong at event i, if anything; a statement falls due at a full batch and at the end.
  function Trouble(table: seq<Event>, events: seq<Event>, faults: Faults, size: nat, i: nat): Option<Error>
    requires size >= 1
  {
    if i >= |events| then None
    else if i in faults.marshal then Some(MarshalFailed)
    else if (i + 1) % size != 0 && i != |events| - 1 then None
    else if i / size in faults.build then Some(BuildFailed)
    else if i / size in faults.exec || Insert(table, events[..i + 1]).None? then Some(ExecFailed)
    else None
  }

  // The write of these events comes to an end before its commit, with this error.
  ghost predicate StopsWith(table: seq<Event>, events: seq<Event>, faults: Faults, size: nat, error: Error)
    requires size >= 1
  {
    exists i: nat :: Reaches(table, events, faults, size, i) && Trouble(table, events, faults, size, i) == Some(error)
  }

  lemma QuotientStep(i: nat, later: nat, size: nat)
    requires size >= 1 && (i + 1) % size == 0 && i < later
    ensures i / size < later / size && SentBefore(later, size) >= i + 1
  {
    var q := i / size;
    assert i == size * q + i % size;
    FlushPoint(i, q, i % size, size);
    assert i + 1 == size * (q + 1);
    QuotientAtLeast(later, size, q + 1);
    MulMonotone(size, q + 1, later / size);
    assert later == size * (later / size) + later % size;
  }

  lemma QuotientBelow(i: nat, n: nat, size: nat)
    requires size >= 1 && i < n
    ensures i / size < (n + size - 1) / size
  {
    assert i == size * (i / size) + i % size;
    assert size * (i / size + 1) == size * (i / size) + size;
    QuotientAtLeast(n + size - 1, size, i / size + 1);
  }

  // A write that is in trouble at one event does not come to a later one.
  lemma NothingAfterTrouble(table: seq<Event>, events: seq<Event>, faults: Faults, size: nat, i: nat, later: nat)
    requires size >= 1 && i < later < |events| && Trouble(table, events, faults, size, i).Some?
    ensures !Reaches(table, events, faults, size, later)
  {
    hide Insert;
    if Reaches(table, events, faults, size, later) {
      QuotientStep(i, later, size);
      var sent := events[..SentBefore(later, size)];
      assert sent == events[..i + 1] + sent[i + 1..];
      InsertPrefix(table, events[..i + 1], sent[i + 1..]);
      assert false;
    }
  }

  /** A write stops at one event and for one reason at most. */
  lemma OneStop(table: seq<Event>, events: seq<Event>, faults: Faults, size: nat, i: nat)
    requires size >= 1 && Reaches(table, events, faults, size, i)
    requires Trouble(table, events, faults, size, i).Some?
    ensures forall error :: StopsWith(table, events, faults, size, error) <==>
      Trouble(table, events, faults, size, i) == Some(error)
  {
    hide Trouble, Reaches;
    forall error | StopsWith(table, events, faults, size, error)
      ensures Trouble(table, events, faults, size, i) == Some(error)
    {
      var j: nat :| Reaches(table, events, faults, size, j) && Trouble(table, events, faults, size, j) == Some(error);
      ReachedInRange(table, events, faults, size, i);
      ReachedInRange(table, events, faults, size, j);
      if i < j {
        NothingAfterTrouble(table, events, faults, size, i, j);
      } else if j < i {
        NothingAfterTrouble(table, events, faults, size, j, i);
      }
    }
  }

  lemma ReachedInRange(table: seq<Event>, events: seq<Event>, faults: Faults, size: nat, i: nat)
    requires size >= 1 && Reaches(table, events, faults, size, i)
    ensures i < |events|
  {
  }

  // Any trouble is a fault the whole write meets, or rows that one INSERT would refuse too.
  lemma TroubleMeansFailure(table: seq<Event>, events: seq<Event>, faults: Faults, size: nat, i: nat)
    requires size >= 1 && Trouble(table, events, faults, size, i).Some?
    ensures HitInside(faults, |events|, size) || Insert(table, events).None?
  {
    hide Insert;
    QuotientBelow(i, |events|, size);
    assert events == events[..i + 1] + events[i + 1..];
    InsertPrefix(table, events[..i + 1], events[i + 1..]);
  }

  // A write that meets no fault, with rows that one INSERT would take, does not stop short.
  lemma NeverStops(table: seq<Event>, events: seq<Event>, faults: Faults, size: nat)
    requires size >= 1 && !HitInside(faults, |events|, size) && Insert(table, events).Some?
    ensures forall error :: !StopsWith(table, events, faults, size, error)
  {
    hide Trouble, HitInside, Insert;
    forall error ensures !StopsWith(table, events, faults, size, error) {
      if StopsWith(table, events, faults, size, error) {
        var i: nat :| Reaches(table, events, faults, size, i) && Trouble(table, events, faults, size, i) == Some(error);
        TroubleMeansFailure(table, events, faults, size, i);
      }
    }
  }

  // All statements of the write run.
  ghost predicate Completes(table: seq<Event>, events: seq<Event>, faults: Faults, size: nat)
    requires size >= 1
  {
    !HitInside(faults, |events|, size) && Insert(table, events).Some?
  }

  // The transaction of the write is begun, and then neither committed nor rolled back: an event does
  // not marshal or a statement is not built, where no rollback is tried, or the rollback or the
  // commit that is tried fails.
  ghost predicate LeavesOpen(table: seq<Event>, events: seq<Event>, faults: Faults, size: nat)
    requires size >= 1
  {
    && events != [] && !faults.begin
    && (|| StopsWith(table, events, faults, size, MarshalFailed)
        || StopsWith(table, events, faults, size, BuildFailed)
        || (StopsWith(table, events, faults, size, ExecFailed) && faults.rollback)
        || (Completes(table, events, faults, size) && faults.commit))
  }

  lemma NoFaultInside(faults: Faults, n: nat, size: nat)
    requires size >= 1
    ensures faults.marshal == {} && faults.build == {} && faults.exec == {} ==> !HitInside(faults, n, size)
  {
  }

  // A write that stops at an event or at a statement stops for a fault there.
  lemma StopsForFault(table: seq<Event>, events: seq<Event>, faults: Faults, size: nat)
    requires size >= 1
    ensures StopsWith(table, events, faults, size, MarshalFailed) ==> exists i :: 0 <= i < |events| && i in faults.marshal
    ensures StopsWith(table, events, faults, size, BuildFailed) ==> exists k :: 0 <= k < |events| && k in faults.build
  {
    hide Insert, Reaches;
    if StopsWith(table, events, faults, size, BuildFailed) {
      var i: nat :| Reaches(table, events, faults, size, i) && Trouble(table, events, faults, size, i) == Some(BuildFailed);
      ReachedInRange(table, events, faults, size, i);
      QuotientLe(i, size);
    }
  }

  lemma QuotientLe(i: nat, size: nat)
    requires size >= 1
    ensures i / size <= i
  {
    assert i == size * (i / size) + i % size;
    MulMonotone(i / size, 1, size);
  }

  lemma InsertNothing(table: seq<Event>)
    requires KeysDistinct(table)
    ensures Insert(table, []).Some?
  {
    assert table + [] == table;
  }

  lemma NothingToWrite(size: nat)
    ensures IsBatching([], [], size)
  {
  }

  lemma InsertedTable(table: seq<Event>, events: seq<Event>)
    requires KeysDistinct(table) && AllStorable(table) && Insert(table, events).Some?
    ensures Insert(table, events) == Some(table + events)
    ensures KeysDistinct(table + events) && AllStorable(table + events)
  {
  }

  /** Given the first event that does not marshal, the write stops there, its transaction left open,
      exactly when every full batch before it could be built, run and inserted. */
  lemma MarshalStopsExactly(table: seq<Event>, events: seq<Event>, faults: Faults, size: nat, first: nat)
    requires size >= 1 && first < |events| && first in faults.marshal
    requires forall j :: 0 <= j < first ==> j !in faults.marshal
    ensures StopsWith(table, events, faults, size, MarshalFailed) <==>
      && (forall k :: 0 <= k < first / size ==> k !in faults.build && k !in faults.exec)
      && Insert(table, events[..SentBefore(first, size)]).Some?
  {
    hide Insert;
    assert Trouble(table, events, faults, size, first) == Some(MarshalFailed);
    if StopsWith(table, events, faults, size, MarshalFailed) {
      var i: nat :| Reaches(table, events, faults, size, i) && Trouble(table, events, faults, size, i) == Some(MarshalFailed);
      assert i == first;
    } else {
      assert !Reaches(table, events, faults, size, first);
    }
  }

  // The event at which statement k falls due.
  lemma DueAt(n: nat, size: nat, k: nat) returns (i: nat)
    requires size >= 1 && k * size < n
    ensures i == Min((k + 1) * size, n) - 1
    ensures i < n && i / size == k && SentBefore(i, size) == k * size
    ensures (i + 1) % size == 0 || i == n - 1
  {
    assert (k + 1) * size == k * size + size;
    i := Min((k + 1) * size, n) - 1;
    DivideExactly(i, size, k, i - k * size);
    assert i == size * (i / size) + i % size;
    FlushPoint(i, k, i - k * size, size);
  }

  lemma OnlyDueAt(n: nat, size: nat, i: nat)
    requires size >= 1 && i < n && ((i + 1) % size == 0 || i == n - 1)
    ensures (i / size) * size < n && i == Min((i / size + 1) * size, n) - 1
  {
    var k := i / size;
    assert i == size * k + i % size;
    assert (k + 1) * size == size * k + size;
    FlushPoint(i, k, i % size, size);
  }

  /** Given the first statement that cannot be built, the write stops there, its transaction left
      open, exactly when all events up to it marshal and every batch before it runs. */
  lemma BuildStopsExactly(table: seq<Event>, events: seq<Event>, faults: Faults, size: nat, first: nat)
    requires size >= 1 && first * size < |events| && first in faults.build
    requires forall k :: 0 <= k < first ==> k !in faults.build
    ensures StopsWith(table, events, faults, size, BuildFailed) <==>
      && (forall j :: 0 <= j < Min((first + 1) * size, |events|) ==> j !in faults.marshal)
      && (forall k :: 0 <= k < first ==> k !in faults.exec)
      && Insert(table, events[..first * size]).Some?
  {
    hide Insert;
    var i := DueAt(|events|, size, first);
    if StopsWith(table, events, faults, size, BuildFailed) {
      var j: nat :| Reaches(table, events, faults, size, j) && Trouble(table, events, faults, size, j) == Some(BuildFailed);
      OnlyDueAt(|events|, size, j);
      assert j / size == first;
      assert j == i;
    } else {
      assert !(Reaches(table, events, faults, size, i) && Trouble(table, events, faults, size, i) == Some(BuildFailed));
    }
  }

  // Statement k is refused, for its rows or for the driver.
  predicate Refused(table: seq<Event>, events: seq<Event>, faults: Faults, size: nat, k: nat) {
    k in faults.exec || Insert(table, events[..Min((k + 1) * size, |events|)]).None?
  }

  lemma TroubleAtDue(table: seq<Event>, events: seq<Event>, faults: Faults, size: nat, i: nat)
    requires size >= 1 && i < |events| && ((i + 1) % size == 0 || i == |events| - 1)
    ensures var k := i / size;
      && (Trouble(table, events, faults, size, i) == Some(ExecFailed) <==>
            i !in faults.marshal && k !in faults.build && Refused(table, events, faults, size, k))
      && (Trouble(table, events, faults, size, i).None? ==> !Refused(table, events, faults, size, k))
  {
    hide Insert;
    OnlyDueAt(|events|, size, i);
  }

  lemma NotDueNotExec(table: seq<Event>, events: seq<Event>, faults: Faults, size: nat, i: nat)
    requires size >= 1 && Trouble(table, events, faults, size, i) == Some(ExecFailed)
    ensures i < |events| && ((i + 1) % size == 0 || i == |events| - 1)
  {
  }

  lemma ExecStopIsFirst(table: seq<Event>, events: seq<Event>, faults: Faults, size: nat, first: nat, i: nat, j: nat)
    requires size >= 1 && Refused(table, events, faults, size, first)
    requires forall k :: 0 <= k < first ==> !Refused(table, events, faults, size, k)
    requires i < |events| && i == Min((first + 1) * size, |events|) - 1 && i / size == first
    requires (i + 1) % size == 0 || i == |events| - 1
    requires Reaches(table, events, faults, size, j) && Trouble(table, events, faults, size, j) == Some(ExecFailed)
    ensures j == i
  {
    hide Insert, Reaches, Trouble, Refused;
    ReachedInRange(table, events, faults, size, j);
    NotDueNotExec(table, events, faults, size, j);
    TroubleAtDue(table, events, faults, size, i);
    TroubleAtDue(table, events, faults, size, j);
    OnlyDueAt(|events|, size, j);
    if i < j {
      NothingAfterTrouble(table, events, faults, size, i, j);
      assert false;
    }
    if j < i {
      NothingBetween(j, i, size);
      assert false;
    }
  }

  lemma NothingBetween(j: nat, i: nat, size: nat)
    requires size >= 1 && j < i && (j + 1) % size == 0
    ensures j / size < i / size
  {
    QuotientStep(j, i, size);
  }

  /** Given the first statement that is refused, the write stops there exactly when all events up to
      it marshal and all statements up to it can be built. */
  lemma ExecStopsExactly(table: seq<Event>, events: seq<Event>, faults: Faults, size: nat, first: nat)
    requires size >= 1 && first * size < |events| && KeysDistinct(table)
    requires Refused(table, events, faults, size, first)
    requires forall k :: 0 <= k < first ==> !Refused(table, events, faults, size, k)
    ensures StopsWith(table, events, faults, size, ExecFailed) <==>
      && (forall j :: 0 <= j < Min((first + 1) * size, |events|) ==> j !in faults.marshal)
      && (forall k :: 0 <= k <= first ==> k !in faults.build)
  {
    hide *;
    var i := DueAt(|events|, size, first);
    SentBeforeGoesIn(table, events, faults, size, first);
    NoneRefused(table, events, faults, size, first);
    StopsAtDue(table, events, faults, size, first, i);
  }

  lemma StopsAtDue(table: seq<Event>, events: seq<Event>, faults: Faults, size: nat, first: nat, i: nat)
    requires size >= 1 && Refused(table, events, faults, size, first)
    requires forall k :: 0 <= k < first ==> !Refused(table, events, faults, size, k) && k !in faults.exec
    requires i < |events| && i == Min((first + 1) * size, |events|) - 1 && i / size == first
    requires (i + 1) % size == 0 || i == |events| - 1
    requires Insert(table, events[..SentBefore(i, size)]).Some?
    ensures StopsWith(table, events, faults, size, ExecFailed) <==>
      (forall j :: 0 <= j <= i ==> j !in faults.marshal) && (forall k :: 0 <= k <= first ==> k !in faults.build)
  {
    hide Insert, Trouble, Refused, SentBefore;
    TroubleAtDue(table, events, faults, size, i);
    if StopsWith(table, events, faults, size, ExecFailed) {
      var j: nat :| Reaches(table, events, faults, size, j) && Trouble(table, events, faults, size, j) == Some(ExecFailed);
      ExecStopIsFirst(table, events, faults, size, first, i, j);
    } else {
      assert !(Reaches(table, events, faults, size, i) && Trouble(table, events, faults, size, i) == Some(ExecFailed));
    }
  }

  lemma NoneRefused(table: seq<Event>, events: seq<Event>, faults: Faults, size: nat, first: nat)
    requires forall k :: 0 <= k < first ==> !Refused(table, events, faults, size, k)
    ensures forall k :: 0 <= k < first ==> k !in faults.exec
  {
    forall k | 0 <= k < first ensures k !in faults.exec {
      assert !Refused(table, events, faults, size, k);
    }
  }

  lemma SentBeforeGoesIn(table: seq<Event>, events: seq<Event>, faults: Faults, size: nat, first: nat)
    requires size >= 1 && first * size < |events| && KeysDistinct(table)
    requires forall k :: 0 <= k < first ==> !Refused(table, events, faults, size, k)
    ensures Insert(table, events[..first * size]).Some?
  {
    if first == 0 {
      assert table + [] == table && events[..0] == [];
    } else {
      assert !Refused(table, events, faults, size, first - 1);
    }
  }

  lemma NothingHit(faults: Faults, n: nat, size: nat)
    requires size >= 1
    requires forall i :: 0 <= i < n ==> i !in faults.marshal
    requires forall k :: 0 <= k < (n + size - 1) / size ==> k !in faults.build && k !in faults.exec
    ensures !HitInside(faults, n, size)
  {
  }

  // The loop's own count of batches is the number of the statement that is next.
  lemma UnderwayReaches(
    table: seq<Event>, events: seq<Event>, faults: Faults, size: nat, index: nat,
    batches: seq<seq<Event>>, statement: seq<Event>)
    requires size >= 1 && index < |events| && KeysDistinct(table)
    requires Underway(batches, statement, events[..index], size, false)
    requires InsertAll(table, batches).Some?
    requires forall j :: 0 <= j < index ==> j !in faults.marshal
    requires forall k :: 0 <= k < |batches| ==> k !in faults.build && k !in faults.exec
    ensures |batches| == index / size && Reaches(table, events, faults, size, index)
  {
    hide KeysDistinct, Insert, InsertAll;
    SentInFull(index, |batches|, |statement|, size);
    BatchesAreAtomic(table, batches);
    assert |events[..index]| == |Flatten(batches)| + |statement|;
    assert Flatten(batches) == events[..index][..|Flatten(batches)|] == events[..SentBefore(index, size)];
  }

  lemma SentInFull(index: nat, flushed: nat, pending: nat, size: nat)
    requires size >= 1 && pending < size && index == flushed * size + pending
    ensures flushed == index / size && SentBefore(index, size) == index - pending
  {
    DivideExactly(index, size, flushed, pending);
    assert index == size * (index / size) + index % size;
  }

  // The loop returns here: this is the one stop of the write.
  lemma StopHere(table: seq<Event>, events: seq<Event>, faults: Faults, size: nat, i: nat, error: Error)
    requires size >= 1 && Reaches(table, events, faults, size, i)
    requires Trouble(table, events, faults, size, i) == Some(error)
    ensures forall e :: StopsWith(table, events, faults, size, e) <==> e == error
    ensures HitInside(faults, |events|, size) || Insert(table, events).None?
  {
    hide Trouble, Reaches, HitInside, Insert;
    OneStop(table, events, faults, size, i);
    TroubleMeansFailure(table, events, faults, size, i);
  }

  // The loop of one write: rows gather in a statement, which runs when the batch is full or the
  // events are out.
  method RunBatches(table: seq<Event>, events: seq<Event>, faults: Faults, insertBatchSize: nat)
    returns (r: Result<seq<Event>>, batches: seq<seq<Event>>)
    requires insertBatchSize >= 1 && events != [] && KeysDistinct(table)
    ensures r.Ok? <==> !HitInside(faults, |events|, insertBatchSize) && Insert(table, events).Some?
    ensures r.Ok? ==> Insert(table, events) == Some(r.value) && IsBatching(batches, events, insertBatchSize)
    ensures r.Err? ==> r.error in {MarshalFailed, BuildFailed, ExecFailed}
    ensures forall error :: r == Err(error) <==> StopsWith(table, events, faults, insertBatchSize, error)
  {
    hide KeysDistinct, AllStorable, HitInside, Underway, Insert, InsertAll, Reaches, StopsWith;
    var tx, statement := table, [];
    batches := [];
    UnderwayStart(table, insertBatchSize);
    assert events[..0] == [];
    for index := 0 to |events|
      invariant InsertAll(table, batches) == Some(tx)
      invariant Underway(batches, statement, events[..index], insertBatchSize, index == |events|)
      invariant forall k :: 0 <= k < index ==> k !in faults.marshal
      invariant forall k :: 0 <= k < |batches| ==> k !in faults.build && k !in faults.exec
    {
      UnderwayReaches(table, events, faults, insertBatchSize, index, batches, statement);
      if index in faults.marshal {
        StopHere(table, events, faults, insertBatchSize, index, MarshalFailed);
        return Err(MarshalFailed), batches;
      }
      assert events[..index + 1] == events[..index] + [events[index]];
      if (index + 1) % insertBatchSize == 0 || index == |events| - 1 {
        UnderwayFlush(batches, statement, events[..index], events[index], insertBatchSize, index == |events| - 1);
        statement := statement + [events[index]];
        InsertAllAppend(table, batches, tx, statement);
        var flushed := batches + [statement];
        BatchesAreAtomic(table, flushed);
        if |batches| in faults.build {
          StopHere(table, events, faults, insertBatchSize, index, BuildFailed);
          return Err(BuildFailed), batches;
        }
        var result := if |batches| in faults.exec then None else Insert(tx, statement);
        if result.None? {
          StopHere(table, events, faults, insertBatchSize, index, ExecFailed);
          return Err(ExecFailed), batches;
        }
        tx := result.value;
        batches := flushed;
        statement := [];
      } else {
        UnderwayAdd(batches, statement, events[..index], events[index], insertBatchSize);
        statement := statement + [events[index]];
      }
    }
    assert events[..|events|] == events;
    UnderwayDone(batches, statement, events, insertBatchSize);
    BatchArithmetic(batches, events, insertBatchSize);
    BatchesAreAtomic(table, batches);
    NothingHit(faults, |events|, insertBatchSize);
    NeverStops(table, events, faults, insertBatchSize);
    return Ok(tx), batches;
  }
}
