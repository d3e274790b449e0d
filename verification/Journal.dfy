/** Events and the conditions and comparisons the journal queries use. */
module Journal {
  import opened Base
  import opened Sequences

  datatype Event = Event(
    persistenceId: string,
    sequenceNumber: uint64,
    isDeleted: bool,
    payload: string,  // the serialized message; marshalling is not part of this model
    timestamp: int64,
    shard: uint64,
    encryptionKeyId: string,
    isEncrypted: bool)

  function HasId(id: string): Event -> bool {
    (e: Event) => e.persistenceId == id
  }

  function InRange(id: string, from: uint64, to: uint64): Event -> bool {
    (e: Event) => e.persistenceId == id && from <= e.sequenceNumber <= to
  }

  function Covered(id: string, to: uint64): Event -> bool {
    (e: Event) => e.persistenceId == id && e.sequenceNumber <= to
  }

  function NotCovered(id: string, to: uint64): Event -> bool {
    (e: Event) => !(e.persistenceId == id && e.sequenceNumber <= to)
  }

  function OnShard(shard: uint64, offset: int): Event -> bool {
    (e: Event) => e.shard == shard && e.timestamp > offset
  }

  function SequenceLe(): (Event, Event) -> bool {
    (a: Event, b: Event) => a.sequenceNumber <= b.sequenceNumber
  }

  function SequenceLt(): (Event, Event) -> bool {
    (a: Event, b: Event) => a.sequenceNumber < b.sequenceNumber
  }

  function TimestampLe(): (Event, Event) -> bool {
    (a: Event, b: Event) => a.timestamp <= b.timestamp
  }

  function TimestampLt(): (Event, Event) -> bool {
    (a: Event, b: Event) => a.timestamp < b.timestamp
  }

  function Window(shard: uint64, low: int, high: int): Event -> bool {
    (e: Event) => e.shard == shard && low < e.timestamp <= high
  }

  function IdLe(): (string, string) -> bool {
    (a: string, b: string) => StrLe(a, b)
  }

  function IdLt(): (string, string) -> bool {
    (a: string, b: string) => StrLt(a, b)
  }

  lemma IdOrder()
    ensures TotalPreorder(IdLe()) && Compares(IdLe(), IdLe())
  {
    StrOrder();
  }

  // No two events share a (persistence id, sequence number) key.
  predicate KeysDistinct(s: seq<Event>) {
    forall i, j :: 0 <= i < j < |s| ==>
      !(s[i].persistenceId == s[j].persistenceId && s[i].sequenceNumber == s[j].sequenceNumber)
  }

  // What the memory journal keeps of an event: the encryption fields are dropped.
  function Stored(e: Event): Event {
    e.(encryptionKeyId := "", isEncrypted := false)
  }

  function StoredAll(s: seq<Event>): (r: seq<Event>)
    ensures |r| == |s| && forall i :: 0 <= i < |s| ==> r[i] == Stored(s[i])
  {
    seq(|s|, i requires 0 <= i < |s| => Stored(s[i]))
  }

  lemma EventOrders()
    ensures TotalPreorder(SequenceLe()) && TotalPreorder(TimestampLe())
    ensures Compares(SequenceLt(), SequenceLe()) && Compares(TimestampLe(), TimestampLe())
  {
  }

  // Two windows side by side.
  lemma WindowJoin(log: seq<Event>, shard: uint64, low: int, mid: int, high: int)
    requires low <= mid <= high
    ensures multiset(Filter(log, Window(shard, low, high))) ==
      multiset(Filter(log, Window(shard, low, mid))) + multiset(Filter(log, Window(shard, mid, high)))
    ensures |Filter(log, Window(shard, low, high))| ==
      |Filter(log, Window(shard, low, mid))| + |Filter(log, Window(shard, mid, high))|
  {
  }
}
