# eGo stores: a verified model

eGo keeps an entity's events, its snapshots, the offsets of projections and durable states in
pluggable stores. This project models the in-memory and Postgres event journals, both offset stores,
the Postgres snapshot store and the number fields of the DynamoDB store, and proves what the stores
promise together: what a client sees over whole runs, not only what one call returns.

| file | content |
|---|---|
| `Base.dfy`, `Sequences.dfy`, `Journal.dfy` | results, 64-bit integers, string order; filter, cut and sort; events and query conditions |
| `MemoryEvents.dfy` | the in-memory journal as a class |
| `MemoryPages.dfy`, `MemoryReads.dfy` | its page walk; its shard reads, shard list and latest event |
| `MemoryPolling.dfy` | a projection polling a shard of it |
| `ConcurrentDeletes.dfy` | writers and two-phase deletes interleaved |
| `PostgresWrites.dfy` | INSERT batches, the loop of one write and how it can stop |
| `PostgresEvents.dfy`, `PostgresRows.dfy` | the Postgres journal as a class; rows back to events |
| `PostgresPages.dfy`, `ShardPolling.dfy` | its page walk; a projection polling a shard of it |
| `ReplayAgreement.dfy` | the two journals side by side |
| `Offsets.dfy`, `MemoryOffsets.dfy`, `PostgresOffsets.dfy` | offsets as a map; the two stores over it |
| `Snapshots.dfy`, `Compaction.dfy`, `Lifecycle.dfy` | the snapshot store; recovery under pruning; its connection under threads |
| `Decimals.dfy` | DynamoDB numbers as decimal text |

The methods of the stores state what they do on the fields of the rows themselves, without the
vocabulary of the proofs. Each model of whole runs has a method, named `Perform` or after the step, that
carries one step out on the stores and ends in the state the model says; so what is proved of the runs
holds of the stores.

The main results, and where the code falls short of what one would expect of it:

- Recovery from the latest snapshot plus the events after it equals the fold of all events ever
  written, in every run of writes, snapshots and prunings (`RecoveryPreserved`, on the stores
  `Compaction.Recover`); the pruning bound cannot be raised (`PruningSafeExactly`). Recovery fails only
  for a snapshot at sequence number 2^63 - 1, which leaves no number to replay from.
- A Postgres write with nothing else going wrong succeeds exactly when no pair of id and sequence number
  occurs twice and the rows fit their columns (`InsertExactly`); ids never block each other
  (`OtherIdsDoNotBlock`).
- Polling a Postgres shard delivers every event exactly when no append arrives at or below the offset
  and no poll's limit falls inside a timestamp of the log (`ShardPolling.PollingCompleteExactly`); with
  increasing timestamps the events delivered are always a prefix (`DeliveredIsPrefix`).
  `SplitTieIsLost` is a run that loses an event.
- Polling a memory shard skips events even with increasing timestamps, because a page is cut by id
  before it is sorted by time (`MemoryPollSkips`). It delivers every event exactly when no write
  arrives at or below the offset and each cut happens to be one in time
  (`MemoryPolling.PollingCompleteExactly`).
- The memory shard sort uses a comparison that is not strict, and so reverses the events of each
  timestamp (`ShardSortTurnsTies`); it is a stable sort exactly when that reversal changes nothing
  (`ShardSortStableExactly`).
- Concurrent memory deletes account for every row (`EveryRowAccountedFor`); a delete fails exactly
  when another one took a row it aimed at (`DeleteFailsExactly`, `SecondDeleteFails`). A successful
  one leaves exactly those covered rows that were written between its two transactions and that no
  other delete took (`DeleteLeavesExactly`, `LateWriteSurvives`).
- The memory page walk shows every id exactly when every id but the greatest has fewer rows than a
  page (`MemoryPages.WalkCompleteExactly`).
- The memory journal replays like Postgres exactly when the matches fit the limit
  (`HistoryReplaysAgree`): it admits one event more than the limit, and cuts before it sorts.
- The memory journal's latest event is the one with the greatest random key, so it is only
  guaranteed to be the highest one when the id has a single sequence number
  (`LatestGuaranteedExactly`).
- The memory offset store, with its stale rows and in-place resets, is a plain map (`ResetOffset`,
  `WriteOffset` on `View`). It answers a read like the Postgres store exactly when the shard is below
  2^63 and the key was not written under a name too long for its column (`ReadAgreesExactly`).
- The Postgres write leaves its transaction neither committed nor rolled back exactly when it gets to
  an event that does not marshal or a statement that cannot be built, where the code returns without
  a rollback, or when the rollback or the commit it tries fails
  (`PostgresEvents.EventsStore.WriteEvents`, `LeavesOpen`). For a first event that does not marshal
  this means that every full batch before it went in (`MarshalStopsExactly`).
- `eventstore/memory/README.md` offers a flag to keep records between reconnects; the code builds a
  new database on every connection, so records never survive one
  (`MemoryEvents.EventsStore.Connect`).

## Assumptions

- A memdb write transaction is exclusive and all or nothing; a read transaction is a snapshot. A
  non-unique index iterates by value, then primary key. A missing string value makes an insert fail.
  Deleting an absent row fails. A second insert under an existing key of a unique secondary index
  replaces the index entry and keeps the old row in the primary table.
- `uuid.NewString` draws keys that are new. Ids hold no NUL byte.
- A SELECT is filter, then sort, then take; rows that tie may come in any order. An INSERT statement
  takes effect whole or not at all, and a transaction that does not commit leaves nothing.
- Ids compare byte by byte in both journals. A database compares text by the collation of its column;
  under another collation the page order of the Postgres journal is that one.
- What a driver does by itself to a transaction after a failed rollback or commit is not modelled:
  such a transaction counts as open.
- A BIGINT column, parameter or LIMIT of 2^63 or more, and a text longer than its VARCHAR(255), fail
  the statement.
- Marshalling a message and reading it back gives the message. Driver failures, the clock and
  random keys are parameters of the methods (`faults`, `up`, `now`, `keys`, `ordering`). Any event may
  fail to marshal and any statement may fail to be built or to run.
- `sort.SliceStable` orders a slice and, with a strict comparison, keeps ties as they were. Up to 20
  elements it is an insertion sort.
- A polling client keeps its offset when a page is empty: the store itself then answers offset 0.
- A client ends a page walk on an empty token.

## Model

| member | source | states |
|---|---|---|
| Compaction.RecoveryPreserved | eventstore/postgres/events_store.go:264-336 | over every run of event writes, snapshots, event deletes up to a snapshot and snapshot deletes below one, the latest snapshot plus the replay after it is the fold of the history, and the history is exactly the entity's events that the run wrote, by sequence number |
| Compaction.HistoryIsWritten | eventstore/postgres/events_store.go:186-261 | the history of a run is every event of the entity that its write steps hold, each once, by sequence number |
| Compaction.Recover | eventstore/postgres/events_store.go:304-336 | on the stores, after any run: reading the latest snapshot and replaying from the number after it gives the fold of the history; fails if and only if a snapshot has the last sequence number a column holds |
| Compaction.Perform | eventstore/postgres/events_store.go:186-302 | one step of a run, carried out by the two stores, leaves both tables as the model says |
| Compaction.UseIsPossible | eventstore/postgres/events_store.go:186-302 | an entity can always write its next event, take its snapshot, and prune up to a snapshot it has |
| Compaction.StepKeepsInv | snapshotstore/postgres/snapshot_store.go:120-219 | every write, snapshot and inclusive delete keeps: snapshots fold prefixes of the history, the journal is whole above the pruning bound, a snapshot covers that bound |
| Compaction.PruningSafeExactly | eventstore/postgres/events_store.go:263-302 | for an entity that remembers every event, deleting up to any bound keeps recovery exact if and only if no event above the latest snapshot is deleted |
| ShardPolling.PollingCompleteExactly | eventstore/postgres/events_store.go:375-419 | once a poll is empty, everything after the start was delivered if and only if no append was late and no poll met a log in which its limit cuts through a tie |
| ShardPolling.SplitShowsInPage | eventstore/postgres/events_store.go:386-417 | the limit cuts through a tie of the log if and only if more events than the limit lie up to the last timestamp of the page, whichever page the query gives |
| ShardPolling.DeliveredIsPrefix | eventstore/postgres/events_store.go:375-419 | with increasing timestamps per shard the delivered events are at every moment a prefix, in order, of the shard's events, and all of them after an empty poll |
| ShardPolling.SplitTieIsLost | eventstore/postgres/events_store.go:386-417 | a run in which an event with a shared timestamp is never delivered |
| ShardPolling.StepKeepsInv | eventstore/postgres/events_store.go:404-418 | each poll or append keeps the delivered events inside the window passed, and loses one exactly when the step is not clean |
| ShardPolling.PerformAppend | eventstore/postgres/events_store.go:186-261 | an append on the store grows the log by the event if the store accepts it |
| ShardPolling.PerformPoll | eventstore/postgres/events_store.go:375-419 | what the store returns is a page the model allows, with the offset the client moves to |
| ConcurrentDeletes.EveryRowAccountedFor | eventstore/memory/events_store.go:196-287 | in every interleaving a committed row is live or was taken by exactly one delete, successful, for its id, with a bound at or above its sequence number |
| ConcurrentDeletes.CommittedIsWritten | eventstore/memory/events_store.go:203-232 | the rows ever committed are exactly those of the accepted writes, field by field, the encryption fields blank |
| ConcurrentDeletes.DeletesAllOrNothing | eventstore/memory/events_store.go:268-286 | a successful delete took every covered row of its snapshot for good, a failed one took none |
| ConcurrentDeletes.DeleteFailsExactly | eventstore/memory/events_store.go:274-283 | a delete fails if and only if another delete took a row it aimed at |
| ConcurrentDeletes.SecondDeleteFails | eventstore/memory/events_store.go:247-286 | a run of two deletes of one row in which the second to commit fails |
| ConcurrentDeletes.DeleteLeavesExactly | eventstore/memory/events_store.go:247-286 | a covered row is live after a successful delete if and only if a write between its two transactions added it and no other delete took it |
| ConcurrentDeletes.LateWriteSurvives | eventstore/memory/events_store.go:247-286 | a run whose successful delete leaves a covered row |
| ConcurrentDeletes.StepKeepsInv | eventstore/memory/events_store.go:203-287 | every write, read phase and commit phase keeps live and removed rows a partition of the committed ones, each removal charged to one delete |
| ConcurrentDeletes.WriteEffect | eventstore/memory/events_store.go:203-232 | a write step adds one row per event under its key if every id is present, and nothing otherwise |
| ConcurrentDeletes.ReadEffect | eventstore/memory/events_store.go:247-266 | the read phase sees exactly the live rows of its id |
| ConcurrentDeletes.CommitEffect | eventstore/memory/events_store.go:268-286 | the commit phase succeeds if and only if every covered row it saw is still live, and then takes exactly those |
| ConcurrentDeletes.CommitCharges | eventstore/memory/events_store.go:268-286 | a commit charges to itself exactly the committed rows it takes |
| ConcurrentDeletes.PerformWrite | eventstore/memory/events_store.go:196-237 | a write on the store leaves the rows the model says |
| ConcurrentDeletes.PerformDelete | eventstore/memory/events_store.go:239-287 | a delete on the store is the two phases with nothing in between |
| MemoryPages.WalkCompleteExactly | eventstore/memory/events_store.go:124-194 | following tokens from the empty one visits every id if and only if each id but the greatest has fewer rows than the page size, sizes of 2^63 and more being uncapped |
| MemoryPages.FullPageOfOneId | eventstore/memory/events_store.go:155-183 | four rows on which pages of two never show the last id |
| MemoryPages.PageIsSlice | eventstore/memory/events_store.go:141-183 | a page is the stretch of rows right after the token's own rows, as far as the cap on rows reaches |
| MemoryPages.PageEmptyExactly | eventstore/memory/events_store.go:141-183 | a page after any token is empty if and only if the token's own rows fill it or no id is above the token |
| MemoryPages.WalkLength | eventstore/memory/events_store.go:190-191 | a walk has at most one page per id above its token |
| MemoryPages.WalkAscends | eventstore/memory/events_store.go:170-191 | ids strictly increase from page to page, so repeats stay within a page |
| MemoryEvents.SortedPage | eventstore/memory/events_store.go:185-188 | a page is in order before the store sorts it, so the non-strict sort changes nothing |
| MemoryEvents.EventsStore.PersistenceIDs | eventstore/memory/events_store.go:124-194 | ids of rows above the token, in order, at most a page size of them, with the last id as next token; they come from the first rows at or after the token |
| MemoryEvents.ReadPage | eventstore/memory/events_store.go:141-178 | the row loop and the skip loop together read exactly that page |
| MemoryEvents.EventsStore.WriteEvents | eventstore/memory/events_store.go:196-237 | succeeds if and only if no id is empty, then keeps every row and adds one per event with its id, sequence number, deletion mark, payload, timestamp and shard, the encryption fields blank; otherwise nothing changes |
| MemoryEvents.InsertEvents | eventstore/memory/events_store.go:204-232 | the insert loop aborts if and only if some id is missing |
| MemoryEvents.EventsStore.DeleteEvents | eventstore/memory/events_store.go:239-287 | undisturbed, a row stays if and only if it has another id or a sequence number above the bound; never fails |
| MemoryEvents.DeleteMatching | eventstore/memory/events_store.go:272-285 | the delete loop is the transaction over the covered rows of the snapshot, aborted at the first absent one |
| MemoryEvents.DeleteRowsExact | eventstore/memory/events_store.go:274-283 | a delete transaction goes through if and only if every target still has its row, and takes exactly those |
| MemoryEvents.TargetsGone | eventstore/memory/events_store.go:247-286 | with nothing in between, the two phases delete exactly the covered rows |
| MemoryEvents.EventsStore.ReplayEvents | eventstore/memory/events_store.go:289-351 | stored events of the id within both bounds, by sequence number; as many as limit + 1 lets through, the first in index order, and all of them when they fit |
| MemoryEvents.CollectMatches | eventstore/memory/events_store.go:322-343 | the collecting loop keeps the first limit + 1 matches |
| MemoryEvents.EventsStore.GetLatestEvent | eventstore/memory/events_store.go:353-397 | the event of the id's row with the greatest key, none if and only if the id has no row |
| MemoryEvents.GreatestKeyUnique | eventstore/memory/events_store.go:360-397 | at most one row of an id has the greatest key, so the latest event is determined |
| MemoryEvents.EventsStore.GetShardEvents | eventstore/memory/events_store.go:399-474 | stored events of the shard above the offset, by timestamp; as many as limit + 1 lets through, all of them when they fit, with the last timestamp as next offset or 0 |
| MemoryEvents.EventsStore.ShardNumbers | eventstore/memory/events_store.go:476-518 | each shard that has a row, once |
| MemoryEvents.EventsStore.Connect | eventstore/memory/events_store.go:66-86 | a new connection starts with an empty journal whatever the keep flag says |
| MemoryEvents.EventsStore.Disconnect | eventstore/memory/events_store.go:88-112 | rows go unless the flag keeps them |
| MemoryEvents.InsertRowsIndexed | eventstore/memory/schemas.go:49-120 | inserting rows with fresh keys keeps the order of the id index and the primary keys distinct |
| MemoryReads.ShardPageFacts | eventstore/memory/events_store.go:436-473 | a shard page is some of the matches, min(matches, limit + 1) of them, and a next offset is their maximum and moves forward |
| MemoryReads.ShardPageLosesNothingExactly | eventstore/memory/events_store.go:436-473 | nothing up to the next offset is skipped if and only if the first limit + 1 of the shard's events above the offset, in index order, are all earlier than the rest |
| MemoryReads.MemoryPollSkips | eventstore/memory/events_store.go:446-471 | a journal with increasing timestamps on which the next offset skips an event |
| MemoryReads.ShardsPartition | eventstore/memory/events_store.go:399-518 | reading every listed shard in full gives the whole journal, each row once |
| MemoryReads.LatestGuaranteedExactly | eventstore/memory/events_store.go:353-397 | the latest event has the highest sequence number for every draw of keys if and only if the id has one sequence number |
| MemoryReads.ReplayIsStable | eventstore/memory/events_store.go:345-348 | the strict replay sort keeps ties in index order |
| MemoryReads.ShardSortTurnsTies | eventstore/memory/events_store.go:465-468 | for any events, those of one timestamp come out of the non-strict shard sort in reverse |
| MemoryReads.ShardSortStableExactly | eventstore/memory/events_store.go:465-468 | the shard sort gives what the strict, stable sort would if and only if the events of each timestamp read the same backwards |
| MemoryPolling.PollingCompleteExactly | eventstore/memory/events_store.go:399-474 | over any run of writes and polls, once a poll is empty, everything after the start was delivered if and only if no write was late and every page was cut in time |
| MemoryPolling.StepKeepsInv | eventstore/memory/events_store.go:436-473 | each poll or write keeps the delivered events inside the window passed, and loses one exactly when the step is not clean |
| MemoryPolling.PerformWrite | eventstore/memory/events_store.go:196-237 | a write on the store leaves the rows the model says |
| MemoryPolling.PerformPoll | eventstore/memory/events_store.go:399-474 | what the store returns is a page the model allows, with the offset the client moves to |
| Sequences.SortInPlace | eventstore/memory/events_store.go:345-348 | adjacent swaps on the slice arrive at the insertion sort of its contents, which is all the library does up to 20 elements |
| Sequences.SortSorted | eventstore/memory/events_store.go:465-468 | the result is ordered for the strict and for the non-strict comparison |
| Sequences.SortPermutes | eventstore/memory/events_store.go:185-188 | the sort loses and invents nothing, whatever comparison it is given |
| Sequences.SortTurnsTies | eventstore/memory/events_store.go:465-468 | with a non-strict comparison each tie class comes out reversed |
| Sequences.SortsAgreeExactly | eventstore/memory/events_store.go:465-468 | the two comparisons of a key sort alike if and only if each tie class reads the same backwards |
| Sequences.StableSortUnique | eventstore/memory/events_store.go:345-348 | with a strict comparison any ordered result that keeps every tie class is this sort, so it stands for the library's at every length |
| Sequences.SortStable | eventstore/memory/events_store.go:345-348 | with a strict comparison each tie class keeps its order |
| Sequences.FilterIsSet | eventstore/postgres/events_store.go:304-320 | without repeats a query keeps as many rows as meet its condition |
| ReplayAgreement.HistoryReplaysAgree | eventstore/memory/events_store.go:289-351 | after any history both journals answer alike, their replays carry the same events, field by field, if and only if the matches fit the limit |
| ReplayAgreement.ReplaysAgreeExactly | eventstore/postgres/events_store.go:304-336 | the same for any two tables that hold the same events; matches are rows of the id within both bounds |
| ReplayAgreement.LimitZeroDiffers | eventstore/memory/events_store.go:331-341 | a limit on which the two replays differ |
| ReplayAgreement.RunKeepsEvents | eventstore/memory/events_store.go:196-287 | writes and deletes keep the journals holding the same events: each row has its counterpart, with the same id, sequence number, deletion mark, payload, timestamp and shard |
| ReplayAgreement.Perform | eventstore/memory/events_store.go:196-287 | one operation on both stores leaves the tables and gives the verdicts that the model says |
| ReplayAgreement.ReplayIsSubset | eventstore/memory/events_store.go:322-350 | a memory replay is in sequence order, a sub-multiset of the surviving matches, min(matches, limit + 1) long |
| PostgresWrites.BatchesAreAtomic | eventstore/postgres/events_store.go:206-252 | however rows are split into statements, the transaction succeeds if and only if one INSERT of all would, with the same table |
| PostgresWrites.BatchArithmetic | eventstore/postgres/events_store.go:59-65 | there are ceil(n / size) batches, and sizes up to 7281 keep every statement within 65535 parameters |
| PostgresWrites.InsertExactly | eventstore/postgres/resources/eventstore_postgres.sql:22-33 | an INSERT succeeds if and only if table and batch have as many pairs of id and sequence number as rows, ids and key ids are at most 255 long, and numbers and shards are below 2^63; it appends the batch |
| PostgresWrites.OtherIdsDoNotBlock | eventstore/postgres/resources/eventstore_postgres.sql:22-33 | rows of other ids never make an INSERT fail |
| PostgresWrites.RunBatches | eventstore/postgres/events_store.go:206-252 | the loop runs full batches and a last one, in order, nothing pending at the end, succeeds if and only if no fault is met and one INSERT would do, and returns each error if and only if the write comes to an event where it arises |
| PostgresWrites.OneStop | eventstore/postgres/events_store.go:206-252 | a write comes to at most one event at which something is wrong, and stops there for that one reason |
| PostgresWrites.MarshalStopsExactly | eventstore/postgres/events_store.go:208-211 | given the first event that does not marshal, the write stops there if and only if every full batch before it is built, runs and can be inserted |
| PostgresWrites.BuildStopsExactly | eventstore/postgres/events_store.go:232-237 | given the first statement that cannot be built, the write stops there if and only if every event up to it marshals and every statement before it runs |
| PostgresWrites.ExecStopsExactly | eventstore/postgres/events_store.go:238-247 | given the first statement that is refused, for its rows or by the driver, the write stops there if and only if every event up to it marshals and every statement up to it is built |
| PostgresEvents.EventsStore.WriteEvents | eventstore/postgres/events_store.go:186-261 | all rows or none become visible; without faults it succeeds if and only if no pair of id and sequence number occurs twice and the rows fit their columns; success and each error have a condition on the table, the events and the faults, and the transaction is left open if and only if the write gets to a marshal or build fault, or its rollback or commit fails |
| PostgresEvents.EventsStore.DeleteEvents | eventstore/postgres/events_store.go:263-302 | a row stays if and only if it has another id or a sequence number above the bound, or the call fails, each error with its condition; its transaction is left open only by a failed rollback or commit |
| PostgresEvents.EventsStore.ReplayEvents | eventstore/postgres/events_store.go:304-336 | stored events of the id within both bounds, by sequence number; as many as the limit lets through, the lowest ones |
| PostgresEvents.EventsStore.GetLatestEvent | eventstore/postgres/events_store.go:338-373 | the id's row with the highest sequence number; none if and only if there is none or the id is empty |
| PostgresEvents.EventsStore.GetShardEvents | eventstore/postgres/events_store.go:375-419 | stored events of the shard above the offset, by timestamp; as many as the limit lets through, the earliest ones, ties in any order, with the next offset |
| PostgresEvents.EventsStore.PersistenceIDs | eventstore/postgres/events_store.go:130-184 | a page shows ids of the table above the token, ascending, each once, at most the page size of them, leaves out only higher ids and only when full, and its last id is the next token |
| PostgresEvents.SelectIds | eventstore/postgres/events_store.go:138-160 | one pass over the rows in any order finds that page |
| PostgresEvents.EventsStore.constructor | eventstore/postgres/events_store.go:73-83 | starts unconnected with batches of 500 |
| PostgresPages.WalkCompleteExactly | eventstore/postgres/events_store.go:130-184 | following tokens from the empty one lists every distinct id once in ascending order, unless the page size is 0, or is 1 while an empty id comes first |
| PostgresPages.PageExactly | eventstore/postgres/events_store.go:138-184 | such a page is determined: it is the front of the distinct ids above the token |
| PostgresPages.DistinctIdsExact | eventstore/postgres/events_store.go:138-143 | the distinct query gives each id of the table once, ascending |
| PostgresPages.TokenAdvances | eventstore/postgres/events_store.go:145-148 | fewer ids are above each token than above the one before, so a walk ends |
| PostgresRows.ToEvents | eventstore/postgres/row.go:72-97 | keeps order and every field, and fails whole if and only if some row cannot be read |
| PostgresRows.RowsDetermineEvents | eventstore/postgres/row.go:35-97 | events read back from their own rows are the events, encryption fields included |
| MemoryOffsets.OffsetStore.WriteOffset | offsetstore/memory/offset_store.go:118-148 | a fresh row and a moved index entry amount to one map update; a missing projection name is refused |
| MemoryOffsets.OffsetStore.ResetOffset | offsetstore/memory/offset_store.go:194-246 | changing shared row objects in place and inserting them again, stale ones included, amounts to the map reset of that projection alone |
| MemoryOffsets.OffsetStore.Reinsert | offsetstore/memory/offset_store.go:229-240 | re-inserting rows can only move an index entry to another row of its key |
| MemoryOffsets.OffsetStore.Overwrite | offsetstore/memory/offset_store.go:222-227 | every row collected carries the value and time afterwards |
| MemoryOffsets.OffsetStore.GetCurrentOffset | offsetstore/memory/offset_store.go:150-192 | the value and the time last set for the projection and shard, under their own names, or none |
| MemoryOffsets.OffsetStore.Insert | offsetstore/memory/schemas.go:80-107 | an insert replaces the primary entry and the unique index entry and keeps every row's key reachable |
| MemoryOffsets.Perform | offsetstore/memory/offset_store.go:118-246 | one operation of a run on the store is one step of the map model |
| PostgresOffsets.OffsetStore.WriteOffset | offsetstore/postgres/offset_store.go:124-161 | one map update, or an error that changes nothing |
| PostgresOffsets.OffsetStore.GetCurrentOffset | offsetstore/postgres/offset_store.go:163-200 | the value and the time of the row of the projection and shard; a row without a projection name reads as none, a shard of 2^63 or more fails |
| PostgresOffsets.OffsetStore.ResetOffset | offsetstore/postgres/offset_store.go:202-232 | the map reset of one projection |
| PostgresOffsets.Perform | offsetstore/postgres/offset_store.go:124-232 | one operation of a run on the store is one step of the map model |
| Offsets.MemoryReadsWrites | offsetstore/memory/offset_store.go:118-192 | a read after a write gives the offset written if it was accepted and is the one read, and otherwise what it gave before |
| Offsets.MemoryReadsResets | offsetstore/memory/offset_store.go:150-246 | a read after a reset gives the new value and time for a known offset of the projection, none for an unknown one, and what it gave before for another projection |
| Offsets.PostgresReadsWrites | offsetstore/postgres/offset_store.go:124-200 | the same for Postgres: names of 1 to 255 characters can be written and read back |
| Offsets.PostgresReadsResets | offsetstore/postgres/offset_store.go:163-232 | the same for resets |
| Offsets.ReadAgreesExactly | offsetstore/postgres/offset_store.go:124-200 | after the same operations a read is answered alike if and only if its shard is below 2^63 and the key was never written under a name too long for its column |
| Offsets.StoresAgreeExactly | offsetstore/postgres/offset_store.go:124-232 | every read of a shard below 2^63 is answered alike if and only if no projection name written was too long for its column; higher shards are outside this statement, as Postgres fails there |
| Offsets.RunIsLastAffecting | offsetstore/memory/offset_store.go:118-246 | the current offset has the value and the time that the last write or reset affecting the key said |
| Offsets.KnownFromFirstWrite | offsetstore/memory/offset_store.go:194-246 | a key has an offset if and only if it was written: a reset creates none |
| Snapshots.LatestIsHighestStanding | snapshotstore/postgres/snapshot_store.go:120-219 | over any history the latest snapshot is the write with the highest sequence number among those not overwritten or deleted since |
| Snapshots.DeleteAndLatest | snapshotstore/postgres/snapshot_store.go:198-219 | deleting up to a bound leaves the latest snapshot or leaves none, and no other id is touched |
| Snapshots.WriteAndLatest | snapshotstore/postgres/snapshot_store.go:120-196 | a snapshot just written is the latest of its id unless a higher one is there, and no other id's latest moves |
| Snapshots.LatestUnique | snapshotstore/postgres/snapshot_store.go:172-177 | the latest snapshot is determined by the table |
| Snapshots.SnapshotStore.WriteSnapshot | snapshotstore/postgres/snapshot_store.go:120-163 | stores the snapshot under its id and sequence number if it fits its columns; nil and empty snapshots are skipped without an error |
| Snapshots.SnapshotStore.GetLatestSnapshot | snapshotstore/postgres/snapshot_store.go:165-196 | the id's highest snapshot; none for the empty id |
| Snapshots.SnapshotStore.DeleteSnapshots | snapshotstore/postgres/snapshot_store.go:198-219 | removes exactly the id's snapshots up to the bound, inclusive |
| Snapshots.Perform | snapshotstore/postgres/snapshot_store.go:120-219 | one operation of a history on the store is one step of the map model |
| Lifecycle.FreeMutexBalance | snapshotstore/postgres/snapshot_store.go:74-118 | for any number of threads, one holds the mutex at most, and while it is free opens minus closes is 1 if connected and 0 otherwise |
| Lifecycle.NeverOpenedTwice | snapshotstore/postgres/snapshot_store.go:74-118 | the database is opened only while closed and closed only while open, although Ping releases the mutex before it connects |
| Lifecycle.NeverStuck | snapshotstore/postgres/snapshot_store.go:74-118 | in every interleaving the thread that holds the mutex can go on, and while none does every thread can |
| Lifecycle.StepKeepsBalance | snapshotstore/postgres/snapshot_store.go:83-104 | every action keeps the balance of opens and closes in step with where the holder of the mutex is |
| Lifecycle.ConnectAlone | snapshotstore/postgres/snapshot_store.go:74-89 | an undisturbed Connect opens a closed database once and leaves the store connected unless the opening fails, and does nothing on a connected store |
| Lifecycle.DisconnectAlone | snapshotstore/postgres/snapshot_store.go:91-106 | an undisturbed Disconnect closes an open database once, and does nothing on a store that is not connected |
| Lifecycle.PingAlone | snapshotstore/postgres/snapshot_store.go:108-118 | an undisturbed Ping connects a store that is not connected and otherwise leaves it as it is |
| Decimals.ItemRoundTrip | durablestore/dynamodb/dynamodb.go:73-112 | decoding the attributes of an item gives the item, for every 64-bit version, shard and timestamp |
| Decimals.Database.GetItem | durablestore/dynamodb/dynamodb.go:56-83 | returns the item last upserted under the id, or none |
| Decimals.Database.UpsertItem | durablestore/dynamodb/dynamodb.go:85-102 | stores under the id one attribute per field, numbers in decimal, and leaves every other item, or changes nothing on an error |
| Decimals.UintRoundTrip | durablestore/dynamodb/dynamodb.go:104-107 | every unsigned 64-bit number reads back as itself without an error |
| Decimals.IntRoundTrip | durablestore/dynamodb/dynamodb.go:109-112 | every signed 64-bit number, the least included, reads back as itself without an error |
| Decimals.ParseUintExactly | durablestore/dynamodb/dynamodb.go:104-107 | text parses without an error if and only if it is digits whose value fits 64 bits, and to that value |
| Decimals.ParseIntExactly | durablestore/dynamodb/dynamodb.go:109-112 | with an optional sign, digits parse without an error if and only if their value fits a signed 64-bit number, and to that number |
| Decimals.ParseUintKeeps | durablestore/dynamodb/dynamodb.go:104-107 | a text that does not parse is kept as the greatest number if a front part of it is digits beyond 64 bits, and as zero otherwise |
| Decimals.ParseIntKeeps | durablestore/dynamodb/dynamodb.go:109-112 | a text that does not parse is kept as the bound on the side of its sign if its digits go too far, and as zero otherwise |
| Decimals.PrintOfParse | durablestore/dynamodb/dynamodb.go:85-107 | printing a parsed text gives it back if and only if it has no superfluous leading zero |

## Left out

- MemoryEvents.EventsStore.GetLatestEvent: promises the greatest random key and not the highest sequence number, because that is what the code returns.
- Sequences.SortInPlace: models the insertion stage, the whole of the library sort up to 20 elements; how longer slices are merged is not part of this model. Strict sorts of any length are covered by `StableSortUnique`, and page and shard reads promise nothing that depends on the order of ties.
- MemoryReads.ShardSortTurnsTies: holds for the library sort up to 20 elements; beyond that its merges decide the order of ties.
- Marshalling, the message registry and unmarshal errors inside the query methods: payloads are opaque text, and only `PostgresRows` has a codec.
- The SQL text, isolation levels, the server, connection strings, pools and configuration.
- Connection flags of the stores other than the snapshot store: plain check-then-act code, modelled only as a field the operations read.
- Data races on offset rows while a reset changes them, and reads that run during a reset: the offset model is sequential.
- `ShardNumbers` of the Postgres journal and `ToEvent` for a single row: one distinct query and one conversion that would only add easy members.
- `ToDurableState` in `durablestore/dynamodb/item.go`: it drops version and shard, so the round trip is stated on items.
- The memory, Postgres and Cassandra durable state stores: single-key upserts.
- Event deletes during shard polling: an event deleted before it is read is not delivered.
