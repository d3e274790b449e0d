/** Rows of the Postgres journal and their conversion back to events (eventstore/postgres/row.go). */
module PostgresRows {
  import opened Base
  import opened Journal

  datatype Row = Row(
    persistenceID: string,
    sequenceNumber: uint64,
    isDeleted: bool,
    eventPayload: string,  // the marshalled message
    eventManifest: string,
    timestamp: int64,
    shardNumber: uint64,
    encryptionKeyID: string,
    isEncrypted: bool)

  // Every event wraps its message in this type, so it is the only manifest ever written.
  const ANY := "google.protobuf.Any"

  // The message codec: what marshalling makes of a message, and what the registry makes of bytes.
  datatype Codec = Codec(marshal: string -> string, unmarshal: (string, string) -> Option<string>)

  function ToRow(e: Event, codec: Codec): Row {
    Row(e.persistenceId, e.sequenceNumber, e.isDeleted, codec.marshal(e.payload), ANY,
        e.timestamp, e.shard, e.encryptionKeyId, e.isEncrypted)
  }

  predicate Readable(x: Row, codec: Codec) {
    codec.unmarshal(x.eventManifest, x.eventPayload).Some?
  }

  // An event that stands for the row, field by field.
  predicate Matches(e: Event, x: Row, codec: Codec) {
    && e.persistenceId == x.persistenceID && e.sequenceNumber == x.sequenceNumber
    && e.isDeleted == x.isDeleted && e.timestamp == x.timestamp && e.shard == x.shardNumber
    && e.encryptionKeyId == x.encryptionKeyID && e.isEncrypted == x.isEncrypted
    && codec.unmarshal(x.eventManifest, x.eventPayload) == Some(e.payload)
  }

  // One row that cannot be read fails the whole conversion; otherwise the order is kept.
  method ToEvents(rows: seq<Row>, codec: Codec) returns (r: Result<seq<Event>>)
    ensures r.Ok? <==> forall i :: 0 <= i < |rows| ==> Readable(rows[i], codec)
    ensures r.Err? ==> r == Err(UnmarshalFailed)
    ensures r.Ok? ==> |r.value| == |rows| && forall i :: 0 <= i < |rows| ==> Matches(r.value[i], rows[i], codec)
    ensures r.Ok? ==> forall i :: 0 <= i < |rows| ==>
      var e, x := r.value[i], rows[i];
      && e.persistenceId == x.persistenceID && e.sequenceNumber == x.sequenceNumber
      && e.isDeleted == x.isDeleted && e.timestamp == x.timestamp && e.shard == x.shardNumber
      && e.encryptionKeyId == x.encryptionKeyID && e.isEncrypted == x.isEncrypted
  {
    var events := [];
    for i := 0 to |rows|
      invariant |events| == i
      invariant forall j :: 0 <= j < i ==> Readable(rows[j], codec) && Matches(events[j], rows[j], codec)
    {
      var x := rows[i];
      var evt := codec.unmarshal(x.eventManifest, x.eventPayload);
      if evt.None? {
        assert !Readable(rows[i], codec);
        return Err(UnmarshalFailed);
      }
      events := events + [
        Event(x.persistenceID, x.sequenceNumber, x.isDeleted, evt.value, x.timestamp, x.shardNumber,
              x.encryptionKeyID, x.isEncrypted)];
    }
    return Ok(events);
  }

  /** Events read back from their own rows are the events, encryption fields included: the rows
      determine them. */
  lemma RowsDetermineEvents(events: seq<Event>, back: seq<Event>, codec: Codec)
    requires forall m :: codec.unmarshal(ANY, codec.marshal(m)) == Some(m)
    requires |back| == |events|
    requires forall i :: 0 <= i < |events| ==> Matches(back[i], ToRow(events[i], codec), codec)
    ensures back == events
  {
  }
}
