# databend-meta in Dafny

This project models the logic of databend-meta, a replicated key-value store with expiring records,
and proves what it promises about every store, every log and every input. Code that computes values
is modelled by functions on datatypes. Code that updates fields, buffers and maps is modelled by
classes, arrays and loops that are proved against those functions.

## What is modelled

**The replicated state machine** (`Machine`, `IndexInvariant`, `Refinement`, `LogRefinement`,
`Overlooked`, `Listing`, `Operations`, `Lifetimes`, `Applier`). A log entry first deletes what has expired, then runs an upsert or a
transaction. The program keeps records and tombstones, a secondary index by `(expiry, seqno)`, a
sequence counter and a cleanup start before which the index is no longer read. `Machine` defines the
same operations on two stores: this indexed one, and a reference store that holds only the visible
records and cleans up by scanning all of them. The central theorem, `LogRefinement.LogRefines`, says
that both give the same replies, publish the same changes and show the same records for every log of
timed commands, and for untimed commands that store nothing expiring before the cleanup start. Times
may go backwards, and a node may restart anywhere. `Operations` says what every condition and operation
means for a reader of the store: the record under each key before and after, the sequence number, the
answer and the changes published. `Lifetimes` says how long a record stays visible over a whole log. The class
`Applier.Applier` does the work in place, step by step, and is proved to compute exactly these
functions.

**Transactions and their translations** (`BooleanExpressions`, `Transactions`, `UpsertCompile`,
`Timestamps`). Protocol expressions are converted to predicates and back. Call chains build flattened
expressions. The older transaction form is flattened into branches and its reply converted back. An
upsert is sent as a transaction and the reply decoded. Each translation is proved to keep the meaning,
or the exact condition under which it does is proved.

**Replication** (`Replication`, `Snapshots`). Splitting an AppendEntries request, the halving retry
loop, and the two snapshot streams, each against a receiver. The follower obeys the AppendEntries
receiver rules of section 5.3 of "In Search of an Understandable Consensus Algorithm", stated by
`Replication.ReceiveMeaning`.

**Version compatibility** (`Versions`, `FeatureSpans`). Version digits, the handshake test, and ranges
of compatible versions over arbitrary feature histories.

**Ordered keys** (`Order`, `Positional`, `Strings`, `Utf8`, `PrefixBound`, `SequentialKeys`,
`SledKeys`). Byte and string order agree with logical order, encodings can be read back, and ranges
select what they claim.

**Client endpoints** (`Endpoints`). The endpoint in use, failure reports by several threads, and the
connect loop.

## What the code does not do

Some expectations that the documentation or a reader may have are false of the code. The lemmas named
give an input that shows it or say exactly when the expectation holds.

- A command without a log time can store a record that later cleanups skip, because it expires before
  the cleanup start. The log message says every record with an expiry then counts as timed out; the
  code treats none so.
  (`LogRefinement.UntimedCommandEscapes`, `LogRefinement.EscapesCleanupIff`,
  `Overlooked.BehindStartStays`, and for whole commands and logs the condition of
  `LogRefinement.LogRefines`)
- Installing a snapshot keeps the node's own cleanup start. When log times went backwards, a record
  that expires before that start is cleaned up on the node that made the snapshot and skipped on this
  one. (`LogRefinement.TimeRevertAcrossSnapshot`, `LogRefinement.SnapshotAgreesIff`)
- An empty OR holds. Extending it by another OR makes it stop holding.
  (`BooleanExpressions.EmptyOrLosesMeaning`, `BooleanExpressions.MergeConditionsAlwaysIff`)
- For a prefix whose last character other than U+10FFFF is U+D7FF, listing, counting and deleting by
  prefix reach all later keys. (`PrefixBound.RangeTooWide`, `Listing.ListKvExactIff`)
- Deleting by prefix publishes every deletion twice. (`Listing.DeleteByPrefixExactIff`)
- An absolute expiry of at most 100,000,000 seconds is converted twice when an upsert is sent as a
  transaction. (`UpsertCompile.MisreadExample`, `UpsertCompile.UpsertViaTransactionIff`)
- A time-to-live is added to the log time in milliseconds, but a sum of at most 100,000,000,000 is then
  read as seconds, so that such a record lives a thousand times as long. (`Lifetimes.TtlRecordLives`)
- A partial send is reported as appended whatever the follower answers.
  (`Replication.ReportedButAbsent`, `Replication.PartialAcknowledgement`)
- With chunk size zero the file snapshot consists of the end chunk alone. (`Snapshots.FileTransfer`)
- Removing a feature can put a version into the peer range of another that is not in its own.
  (`FeatureSpans.RemovalBreaksSymmetry`, `FeatureSpans.SymmetryIff`)
- A sequential put under a key that is the counter's own replaces the counter.
  (`Listing.PutSequentialStep`)

## Modelling decisions

Maps of the store are finite maps. A deleted key leaves a tombstone that carries the current sequence
number and takes no new one; deleting a key that was never written leaves nothing, as the
leveled map specifies (`crates/server/raft-store/src/leveled_store/leveled_map/leveled_map_test.rs:385-430`).
Writing the expiry index takes no sequence number. Strings are sequences of Unicode scalar values in
`str` order, which `Utf8.EncodeOrder` proves to be the order of their bytes. The size of an encoded
request, the answers of the transport, short reads, cancellation and whether a connection succeeds are
arbitrary functions. Sequence numbers are unbounded; clock values, counters and versions are 64 bits
with their saturation or truncation written out. `requires` clauses stand where the source asserts,
unwraps or has no such input.

## Model

| member | source | states |
|---|---|---|
| `IndexInvariant.PrimaryShape` | crates/server/raft-store/src/state_machine_api_ext.rs:57-126 | A primary write touches one key, leaves index and cleanup start alone, raises the sequence by at most one, and a changed record carries the number just taken. |
| `IndexInvariant.IndexRepaired` | crates/server/raft-store/src/state_machine_api_ext.rs:168-193 | After any change of one record, repairing the index from the old and new record restores: the index maps `(e, s)` to `k` exactly when the live record of `k` expires at `e` with seqno `s`. |
| `IndexInvariant.UpsertKeepsIndex` | crates/server/raft-store/src/applier/mod.rs:304-331 | Every upsert keeps the index exact and live sequence numbers positive, used up and pairwise distinct. |
| `Refinement.SequenceGrowth` | crates/server/types/src/sys_data.rs:75-81 | The sequence grows by exactly one when a condition matches and a value is written, expired or not, and otherwise not at all. |
| `Refinement.VisibleAfter` | crates/server/raft-store/src/state_machine_api_ext.rs:57-126 | The visible records after an upsert are those before with the resulting record stored or removed, and `prev` is the visible record before. |
| `Refinement.UpsertRefines` | crates/server/raft-store/src/applier/mod.rs:304-331 | An upsert on records, tombstones and index means the reference upsert on the visible records, with the same previous and resulting record. |
| `Refinement.ReplayUpsert` | crates/server/raft-store/src/applier/mod.rs:671-680 | Replaying the published change of an upsert turns the old visible records into the new ones. |
| `Refinement.UpsertKeepsCleanedUp` | crates/server/raft-store/src/state_machine_api_ext.rs:99-118 | Because a record that is already expired is deleted at once, an upsert that does not store an expiry between its own time and the cleanup start leaves no live record that expires before that start. |
| `Refinement.OpTracks` | crates/server/raft-store/src/applier/mod.rs:440-464 | Each of the six transaction operations gives the same response, changes and records on the indexed and the reference store, keeps the index exact and, if its payload is safe for the cleanup start, keeps the store cleaned up. |
| `Refinement.FirstMatchAgrees` | crates/server/raft-store/src/applier/mod.rs:333-360 | Guards see only visible records, so both stores choose the same branch. |
| `Refinement.CmdTracks` | crates/server/raft-store/src/applier/mod.rs:178-225 | The same for every command. |
| `LogRefinement.WindowIsFullScan` | crates/server/raft-store/src/state_machine_api_ext.rs:200-241 | In a cleaned-up store the windowed index listing holds exactly what a scan of all live records finds expired. |
| `LogRefinement.WindowExactIff` | crates/server/raft-store/src/state_machine_api_ext.rs:200-241 | It does so for all times if and only if no live record expires before the cleanup start. |
| `LogRefinement.CleanupListing` | crates/server/raft-store/src/state_machine_api_ext.rs:200-241 | The listing contains a key exactly when its live record expires strictly before now. |
| `LogRefinement.CleanupOrder` | crates/server/raft-store/src/applier/mod.rs:625-666 | Expired records are cleaned up in `(time, seqno)` order. |
| `LogRefinement.CleanEffect` | crates/server/raft-store/src/applier/mod.rs:625-666 | A cleanup removes exactly the expired records. |
| `LogRefinement.EntryRefines` | crates/server/raft-store/src/applier/mod.rs:96-176 | A log entry refines the reference entry and keeps index and cleanup invariants, whatever its time, timed or not, if an untimed command stores nothing that expires before the cleanup start. |
| `LogRefinement.TimedIsSafe` | crates/server/raft-store/src/applier/mod.rs:96-176 | Every log of timed commands is safe, whatever its times, because each command finds its own time as the cleanup start. |
| `LogRefinement.LogRefines` | crates/server/raft-store/src/applier/mod.rs:96-176 | For every safe log, upserts and transactions, timed or not, the indexed store gives the replies, changes and records of the reference store, and the changes replay to the records. |
| `LogRefinement.IndexExactInEveryRun` | crates/server/raft-store/src/applier/mod.rs:96-176 | The index is exact and sequence numbers are distinct after every log, timed or not. |
| `LogRefinement.EmptyStoreIsGood` | crates/server/raft-store/src/sm_v003/sm_v003.rs:78-88 | A fresh store satisfies the invariants, so the theorems hold of every reachable state. |
| `LogRefinement.EscapesCleanupIff` | crates/server/raft-store/src/applier/mod.rs:700-720 | An upsert leaves a record behind the cleanup start exactly when it stores a value that expires at or after its own time and before that start. |
| `LogRefinement.UntimedCommandEscapes` | crates/server/raft-store/src/applier/mod.rs:700-720 | A timed entry followed by an untimed write of a past expiry is such a case. |
| `Overlooked.CmdSpares` | crates/server/raft-store/src/applier/mod.rs:178-225 | An upsert or transaction that cannot write a key, by name, prefix range or generated key, leaves its record as it is. |
| `Overlooked.BehindStartStays` | crates/server/raft-store/src/applier/mod.rs:625-666 | A visible record that expires before the cleanup start stays through every log whose times do not fall below that start and that does not write its key. |
| `LogRefinement.RestartsAreInvisible` | crates/server/service/tests/it/meta_node/t90_time_revert_cross_snapshot_boundary.rs:36-48 | Restarts at any points of a safe log, which forget the cleanup start, change no reply, no published change and no record, even when times go backwards. |
| `LogRefinement.SnapshotAgreesIff` | crates/server/raft-store/src/sm_v003/sm_v003.rs:168-187 | A node that installs a snapshot agrees with the snapshot's node in records, replies and published changes on all logs safe for both if and only if no record of the snapshot expires before the node's cleanup start. |
| `LogRefinement.TimeRevertAcrossSnapshot` | crates/server/raft-store/src/sm_v003/sm_v003.rs:168-187 | Two logged commands, the later one timed earlier, lead to a snapshot on which the two nodes disagree. |
| `Listing.ListKvExactIff` | crates/server/raft-store/src/state_machine_api_ext.rs:131-147 | Listing by prefix returns exactly the live keys with the prefix, unless the prefix ends before the surrogates and a live key sorts after all keys that start with it. |
| `Listing.PrefixConditionExact` | crates/server/raft-store/src/applier/mod.rs:414-421 | Stopping the count one above the operand never changes the outcome, and the count is the number of live keys with the prefix exactly when listing does not overreach. |
| `Listing.DeleteByPrefixExactIff` | crates/server/raft-store/src/applier/mod.rs:514-531 | Deleting by prefix removes what is listed, answers how many, publishes each deletion with its record twice in a row in key order, and removes exactly the records under the prefix if and only if listing does not overreach. |
| `Listing.FetchIncreaseMeaning` | crates/server/raft-store/src/applier/mod.rs:533-584 | On the reference store and on every well-indexed store, a counter update whose sequence number does not match changes nothing; otherwise the counter is raised to the floor, moved by the delta within 64 bits, and reads so afterwards through its JSON form, and no other record changes. |
| `Listing.CounterIncreased` | crates/server/raft-store/src/applier/mod.rs:586-600 | The counter of a sequential put reads one more, saturating, after it was drawn from. |
| `Listing.PutSequentialStep` | crates/server/raft-store/src/applier/mod.rs:586-619 | On the reference store and on every well-indexed store, a sequential put answers with the key of the counter it read and advances the counter, saturating; if that key is the counter's own, the counter becomes what the payload reads as, zero if it is expired or no number. |
| `Listing.SequentialPutsConsecutive` | crates/server/raft-store/src/applier/mod.rs:586-619 | On the same stores, the keys a run of sequential puts answers with are those of consecutive numbers until the counter saturates, however payloads expire, up to and including the first key that is the counter's own. |
| `Operations.ConditionMeaning` | crates/server/raft-store/src/applier/mod.rs:393-438 | On every store a sequence condition compares the sequence number found, zero without a record, on the left with the operand; a value condition compares the bytes found, by the first byte that differs or a proper prefix, and fails without a record; a prefix condition compares the number of keys listed; each under all six operators. |
| `Operations.WireConditionMeaning` | crates/server/types/src/kv_transaction/convert.rs:78-124 | A condition as sent means the comparison its number on the wire names, equality for an unknown number, and never holds without an operand. |
| `Operations.UpsertMeaning` | crates/server/raft-store/src/state_machine_api_ext.rs:57-126 | On the reference store and on every well-indexed store: an upsert whose condition fails changes nothing; otherwise a value write leaves a record with the next sequence number, the time it was proposed and its expiry, or none if that is past, a deletion leaves none, and a change of metadata keeps the bytes found; no other record changes, and exactly a change of the record is published, with the record before and after. |
| `Operations.UpsertCommandMeaning` | crates/server/types/src/cmd/cmd_context.rs:123-134 | The same for the command and its reply. The expiry is the log time plus the time-to-live, capped at 64 bits, whatever absolute expiry is also given; without a time-to-live it is the one given; without either there is none. |
| `Operations.DeletionMarks` | crates/server/raft-store/src/state_machine_api_ext.rs:57-126 | A key becomes known to the store only by a value write; a record that is removed, and a value that is expired when written, leave a mark with the sequence number reached. |
| `Operations.PutMeaning` | crates/server/raft-store/src/applier/mod.rs:475-490 | A put with a sequence number writes exactly if the record found has it, a put without one always does; it answers the record found and the record left, and changes no other. |
| `Operations.DeleteMeaning` | crates/server/raft-store/src/applier/mod.rs:492-512 | A delete with a sequence number removes exactly a record that has it, a delete without one any record found; it answers the record found and whether it removed one. |
| `Operations.FetchMeaning` | crates/server/raft-store/src/applier/mod.rs:533-584 | The record a counter update leaves holds the new count without expiry under the next sequence number, and the change is published. |
| `Operations.SequentialMeaning` | crates/server/raft-store/src/applier/mod.rs:586-619 | A sequential put leaves the advanced counter and the payload, with its expiry, under the generated key and the two next sequence numbers, answers the record found and left there, and publishes both changes in order. |
| `Operations.OperationMeaning` | crates/server/raft-store/src/applier/mod.rs:440-464 | Each of the six operations, as the dispatcher runs it, means what the rows above say; a get answers the record found and changes nothing; a delete by prefix removes the keys listed and answers how many. |
| `Operations.OperationsInOrder` | crates/server/raft-store/src/applier/mod.rs:333-360 | Operations run one after another, each on the store the ones before it left, and its answer and its changes come after theirs. |
| `Operations.TransactionMeaning` | crates/server/raft-store/src/applier/mod.rs:333-360 | A transaction runs the operations of the first branch whose guard holds and answers its place and their answers; if no guard holds it changes nothing and answers none. |
| `Operations.EntriesInOrder` | crates/server/raft-store/src/applier/mod.rs:96-176 | Log entries are applied one after another in the same way. |
| `Lifetimes.RecordLives` | crates/server/raft-store/src/applier/mod.rs:625-666 | A record that no command of a safe log writes is visible after the log, unchanged, if and only if no entry is timed after its expiry, whatever the order of times. |
| `Lifetimes.TtlRecordLives` | crates/server/types/src/cmd/cmd_context.rs:123-134 | A timed update with a time-to-live whose condition matches is still visible after every later log of timed commands that does not write its key if and only if no entry is timed after the sum of log time and time-to-live, or after a thousand times that sum if it is at most 100,000,000,000. |
| `Applier.SysData.NextSeq` | crates/server/types/src/sys_data.rs:75-81 | Raises the sequence by one and returns it. |
| `Applier.Applier.constructor` | crates/server/raft-store/src/sm_v003/sm_v003.rs:78-88 | Starts with the empty store, cleanup start zero and no changes. |
| `Applier.Applier.FetchAndSet` | crates/server/raft-store/src/leveled_store/leveled_map/leveled_map_test.rs:385-430 | Updating the record map and counter in place is the specified write, with the marked record before and after. |
| `Applier.Applier.UpsertKvPrimaryIndex` | crates/server/raft-store/src/state_machine_api_ext.rs:57-126 | The step-by-step primary write, including the write-then-delete of an expired value, is the specified one. |
| `Applier.Applier.RepairExpireIndex` | crates/server/raft-store/src/state_machine_api_ext.rs:168-193 | The in-place index update is the specified one and changes nothing else. |
| `Applier.Applier.PushChangeOf` | crates/server/raft-store/src/applier/mod.rs:671-680 | Appends a change only if the record changed. |
| `Applier.Applier.UpsertBoth` | crates/server/raft-store/src/applier/mod.rs:304-331 | Both maps, the reply and the published changes after an upsert. |
| `Applier.Applier.CleanExpiredKvs` | crates/server/raft-store/src/applier/mod.rs:625-666 | The cleanup loop, which lists, moves the cleanup start and deletes one by one, is the specified cleanup. |
| `Applier.Applier.EvalGuard` | crates/server/raft-store/src/applier/mod.rs:362-391 | The short-circuiting evaluation gives the truth of the predicate, an empty OR being true. |
| `Applier.Applier.DeletePrefix` | crates/server/raft-store/src/applier/mod.rs:514-531 | The deletion loop has the specified state, count and changes. |
| `Applier.Applier.FetchIncrease` | crates/server/raft-store/src/applier/mod.rs:533-584 | Counter update with match, floor and saturating delta as specified. |
| `Applier.Applier.Put` | crates/server/raft-store/src/applier/mod.rs:475-490 | A put operation has the specified state, response and changes. |
| `Applier.Applier.DeleteRecord` | crates/server/raft-store/src/applier/mod.rs:492-512 | A delete operation has the specified state, response and changes. |
| `Applier.Applier.PutInSequence` | crates/server/raft-store/src/applier/mod.rs:586-619 | A sequential put has the specified state, response and changes. |
| `Applier.Applier.Execute` | crates/server/raft-store/src/applier/mod.rs:440-464 | Every operation does. |
| `Applier.Applier.ApplyKvTransaction` | crates/server/raft-store/src/applier/mod.rs:333-360 | The loop over branches executes the first whose guard holds and only that one, with the specified reply and changes. |
| `Applier.Applier.Apply` | crates/server/raft-store/src/applier/mod.rs:96-176 | Applying an entry in place leaves the state, reply and changes of the specification, to which the theorems above apply. |
| `BooleanExpressions.PredicateFromMeaning` | crates/server/types/src/kv_transaction/convert.rs:53-76 | For every expression of any depth and every truth assignment, the converted predicate evaluates to what the expression means. |
| `BooleanExpressions.ExpressionRoundTrip` | crates/server/types/src/kv_transaction/convert.rs:191-229 | A predicate sent as an expression and read back means the same, although its children are regrouped. |
| `BooleanExpressions.MergeConditionsIff` | crates/common/proto/src/proto_ext/boolean_expression_ext.rs:76-91 | Merging conditions combines truth values, except for an empty OR extended by OR with conditions that all fail. |
| `BooleanExpressions.MergeConditionsAlwaysIff` | crates/common/proto/src/proto_ext/boolean_expression_ext.rs:76-91 | It does so under all truth assignments if and only if it does not extend an empty OR by OR with at least one condition. |
| `BooleanExpressions.MergeExpressionsIff` | crates/common/proto/src/proto_ext/boolean_expression_ext.rs:93-110 | The same for merging expressions. |
| `BooleanExpressions.FlatteningKeepsMeaning` | crates/common/proto/src/proto_ext/boolean_expression_ext.rs:48-110 | For every chain of `and`, `or`, `and_many` and `or_many` calls, nested to any depth, that never extends an empty OR by OR, the flattened expression means the naive tree of the calls. |
| `BooleanExpressions.EmptyOrLosesMeaning` | crates/common/proto/src/proto_ext/boolean_expression_ext.rs:48-110 | Extending the empty OR by a failing condition is true in the naive tree and false when flattened. |
| `Transactions.FlatEqualsStaged` | crates/common/proto/src/proto_ext/kv_transaction_reply_ext.rs:36-73 | First-match execution of the flattened branches with the reply converted back equals the staged operations, then, else execution: state, changes, success flag, path and responses. |
| `Transactions.OperationRoundTrip` | crates/server/types/src/kv_transaction/convert.rs:126-163 | Every operation sent as a request is read back as it was, and every request read and sent again is the same except that it always asks for the previous value; an operation without request reads the empty key. |
| `Transactions.FirstMatchOfBranches` | crates/server/types/src/kv_transaction/convert.rs:316-342 | The branch chosen in the flattened list is the first guarded operation that holds, else the conditional branch, else the else branch if there is one. |
| `Transactions.BranchIndexRoundTrip` | crates/common/proto/src/proto_ext/txn_reply_ext.rs:38-48 | The index of an operation branch is read back from its path, with or without a plus sign; a path without a number is an error, and the other two paths name none. |
| `Timestamps.FlexibleTwice` | crates/client/base/src/flexible_timestamp.rs:33-41 | Converting a timestamp twice is harmless exactly for zero and for more than 100,000,000 seconds. |
| `UpsertCompile.TransactionRuns` | crates/client/types/src/proto_ext/txn_request_upsert_ext.rs:29-77 | The compiled transaction writes exactly when the upsert's condition matches and otherwise only reads. |
| `UpsertCompile.DeleteAgrees` | crates/client/types/src/proto_ext/txn_reply_upsert_ext.rs:29-72 | A delete through a transaction gives the same state, previous and resulting record and changes as the direct delete. |
| `UpsertCompile.UpsertViaTransactionIff` | crates/client/types/src/proto_ext/txn_request_upsert_ext.rs:29-77 | For every store, condition and update or delete, running the compiled transaction and decoding its reply gives the same records, previous and resulting record and sequence number as the direct upsert if and only if not both the condition matches and an absolute expiry of at most 100,000,000 seconds is misread. |
| `UpsertCompile.MisreadExample` | crates/client/base/src/flexible_timestamp.rs:33-41 | An expiry of 2,000,000 seconds written in 2023: the direct upsert deletes the record at once, the transaction stores it. |
| `UpsertCompile.IndexedUpsertViaTransactionIff` | crates/client/types/src/proto_ext/txn_reply_upsert_ext.rs:29-72 | The same equivalence on the indexed store of every reachable state, which stays well indexed. |
| `Replication.MergeMeaning` | crates/server/service/src/network.rs:94-121 | A follower keeps a log that has all entries sent and otherwise cuts it at the first difference and continues as sent. |
| `Replication.TwoParts` | crates/server/service/src/network.rs:330-340 | For every follower the first `n` entries get the answer of the whole request, and sending the rest after them has the effect of the whole request, unless the follower lacks `prev` but holds the entry the rest is chained to. |
| `Replication.ChunksPrefix` | crates/server/service/src/network.rs:94-121 | After every prefix of single-entry chunks the follower and its answers are those of the request shortened to these entries, if and only if it is not the case that the follower lacks `prev` but holds an entry that a chunk is chained to. |
| `Replication.SplitDelivery` | crates/server/service/src/network.rs:94-121 | For all sizes, delivering the split request gives the replies, log and commit bound of the whole one if that is accepted or outvoted, and on a conflict exactly when it was not split or the follower holds none of the entries that later chunks are chained to. |
| `Replication.SplitExact` | crates/server/service/src/network.rs:94-121 | A request is split if and only if it has entries and its encoded size exceeds the limit; then every part carries one entry, in order, under the vote and commit bound of the request, and follows the entry before it; otherwise it is sent as it is. |
| `Replication.SplitUnderLogMatching` | crates/server/service/src/network.rs:94-121 | Under log matching a split request has the replies, log and commit bound of the whole one without exception. |
| `Replication.PartialAcknowledgement` | crates/server/service/src/network.rs:903-907 | The id reported after a partial send is in the follower's log exactly when the follower's vote and log let it accept the request, or it had the entry before; under log matching the latter only if it votes higher. |
| `Replication.ReportedButAbsent` | crates/server/service/src/network.rs:903-907 | A follower that answers a conflict and does not hold the entry reported as appended. |
| `Replication.PartsDeliverAll` | crates/server/service/src/network.rs:844-929 | However the entries are cut into partial sends, the follower ends, and answers last, as if they had been sent in one request, if and only if it is not the case that it lacks `prev` but holds an entry that a later part is chained to. |
| `Replication.PartsUnderLogMatching` | crates/server/service/src/network.rs:844-929 | Under log matching there is no exception. |
| `Replication.Attempt` | crates/server/service/src/network.rs:861-926 | One round of the loop: what it returns is what encoding, size limit and transport say, and it asks for half as many entries only if more than one was refused for size. |
| `Replication.AppendEntries` | crates/server/service/src/network.rs:844-929 | For every size and answer oracle the counts tried halve from the full count and are logarithmically many, exactly those that fit are sent, all but the last are refused for size, and the result is what happened to the last: the reply to the full request, the last id of a non-empty prefix that was answered, too large for at most one entry refused, or failed to encode or to arrive. |
| `Replication.AttemptsBound` | crates/server/service/src/network.rs:342-354 | Halving from `total` takes at most logarithmically many attempts. |
| `Replication.CalledMeaning` | crates/server/service/src/network.rs:844-929 | Of a call against a follower: a full reply is its answer to the whole request, a partial success names the last of a non-empty prefix, too large means at most one entry over the limit or refused on the way, failed means a request that does not encode or is lost. |
| `Replication.SendOnce` | crates/server/service/src/network.rs:844-929 | The result, the counts tried and the follower afterwards are determined by sizes, limit and channel, and the id of a partial success is in the follower's log exactly under the condition of `PartialAcknowledgement`. |
| `Replication.Replicate` | crates/server/service/src/network.rs:844-929 | Calls are repeated with what remains after each partial success, each determined by sizes, limit and channel. If the last is answered, the follower ends, and answers, as if it had been sent everything in one request; if every request encodes and arrives and single entries fit, it is answered. |
| `Snapshots.ReadSome` | crates/server/service/src/network.rs:503-520 | A short read puts a piece of the file, non-empty if anything is left, after the part of the file the buffer holds. |
| `Snapshots.FillBuffer` | crates/server/service/src/network.rs:503-520 | For every pattern of short and failing reads the buffer holds the next bytes of the file, and their number, the failure and the number of reads are those of reading one after the other until the buffer is full, the file ends or a read fails. |
| `Snapshots.FillMeaning` | crates/server/service/src/network.rs:503-520 | Such a fill gets all there is room for, fails exactly on the first read that fails, and takes at most one read per byte and one more. |
| `Snapshots.SendFile` | crates/server/service/src/network.rs:462-549 | Data chunks are non-empty and in order and all but the last are full. Outcome and number of reads are determined: a cancellation is seen before the next read, otherwise the next fill fails, finds the end of the file, or meets a closed channel, and all rounds before passed. The single end chunk follows a finished run if the channel still takes it. |
| `Snapshots.DataSentMeaning` | crates/server/service/src/network.rs:462-549 | A run finishes only with the whole file sent, unless the chunk size is zero, meets a closed channel only with something left to send, reports a failed read exactly when its last read failed, and reads at least once per chunk. |
| `Snapshots.FileTransfer` | crates/server/raft-store/src/sm_v003/receiver_v003.rs:129-226 | What was sent is received as the file and its metadata exactly when the chunk size is positive or the file empty, and without an end chunk nothing is received. |
| `Snapshots.ReceiveFileExact` | crates/server/raft-store/src/sm_v003/receiver_v003.rs:129-226 | For every sequence of chunks, cut at the first end chunk: without one the file is incomplete, with an unknown format it is refused, otherwise it is all bytes up to there with the metadata of that chunk. |
| `Snapshots.NextBatch` | crates/server/service/src/network.rs:554-661 | A batch holds the next at most 64 live records in order, fewer only at the end, and skips tombstones; it fails only at the first bad read before the batch is full. |
| `Snapshots.SendRecords` | crates/server/service/src/network.rs:554-661 | Batches have 1 to 64 records and concatenate to a prefix of the live records in order. Reading fails exactly when a bad read comes less than a batch after what was sent; a cancellation or closed channel ends the run only with something left to send and all rounds before passed; otherwise all live records were sent, and then the commit, once, if the channel still takes it. |
| `Snapshots.RecordTransfer` | crates/server/service/src/meta_service/raft_service_impl.rs:147-255 | The receiver writes exactly the live records of the snapshot and gets the commit, or reports the end of the stream without one. |
| `Snapshots.ReceiveRecordsExact` | crates/server/service/src/meta_service/raft_service_impl.rs:147-255 | For every sequence of entries, cut at the first commit: without one the snapshot is refused, otherwise it is all records up to there in order. |
| `Versions.DigitOfNumber` | crates/common/version/src/version.rs:42-53 | Every 64-bit number is the digit of the version it decodes to. |
| `Versions.DigitRoundTripIff` | crates/common/version/src/version.rs:42-53 | Decoding undoes encoding exactly for versions with minor and patch below 1000 that fit 64 bits. |
| `Versions.DigitOrder` | crates/common/version/src/version.rs:42-53 | Such versions compare as their digits do. |
| `Versions.HandshakeExactIff` | crates/client/client/src/grpc_client.rs:989-1002 | The handshake panics exactly for the number zero. A server version is encodable if and only if for every required version the handshake on its number accepts exactly what is at most that version and rejects exactly what is above it, zero aside. |
| `FeatureSpans.History.Add` | crates/common/version/src/feature_span.rs:88-113 | Records or promotes a feature, keeps all others and the well-formedness of the history. |
| `FeatureSpans.History.AddOptional` | crates/common/version/src/feature_span.rs:122-136 | Records an optional feature as never required. |
| `FeatureSpans.History.Remove` | crates/common/version/src/feature_span.rs:142-161 | Ends a feature's span after its beginning. |
| `FeatureSpans.BuildSpec` | crates/common/version/src/feature_span.rs:187-200 | Two valid histories that cover all features form a well-formed spec, to which the range theorems apply. |
| `FeatureSpans.CompatibleServerRange` | crates/common/version/src/feature_span.rs:239-256 | The loop computes the specified range. |
| `FeatureSpans.CompatibleClientRange` | crates/common/version/src/feature_span.rs:272-295 | The loop computes the specified range. |
| `FeatureSpans.ServerRangeExact` | crates/common/version/src/feature_span.rs:239-256 | For all histories a version below the sentinel is in the server range if and only if it provides every feature the client uses. |
| `FeatureSpans.ClientRangeIff` | crates/common/version/src/feature_span.rs:272-295 | For all well-formed histories a client is in the client range if and only if it uses nothing the server lacks and is not on the far side of such a feature. |
| `FeatureSpans.PeerRangeIff` | crates/common/version/src/raft_spec.rs:119-124 | A peer is in range if and only if each serves the other and it is on no far side. |
| `FeatureSpans.BalancedIsSymmetric` | crates/common/version/src/raft_spec.rs:119-124 | Over every history whose features are balanced (never required; or not removed, or given up by clients only where servers no longer provide it and, if removed from servers, used no later than provided) the peer relation is symmetric. |
| `FeatureSpans.SymmetryIff` | crates/common/version/src/raft_spec.rs:119-124 | Over every history the peer relation is symmetric for all versions, whichever of its features are looked at, if and only if every feature is balanced. |
| `FeatureSpans.OneFeatureSymmetryIff` | crates/common/version/src/raft_spec.rs:119-124 | Over a history of one feature the peer relation is symmetric for all versions if and only if the feature is balanced. |
| `FeatureSpans.UnbalancedFarSides` | crates/common/version/src/raft_spec.rs:119-124 | For every feature that is not balanced, the two versions on which peers disagree. |
| `FeatureSpans.SymmetricWithoutRemovals` | crates/common/version/src/raft_spec.rs:119-124 | Without removals server and client range are dual and the peer relation is symmetric. |
| `FeatureSpans.RemovalBreaksSymmetry` | crates/common/version/src/raft_spec.rs:119-124 | A history with one removal for which it is not. |
| `FeatureSpans.OptionalNeverShrinks` | crates/common/version/src/feature_span.rs:239-295 | Leaving out the features that are only ever optional changes neither range. |
| `Utf8.DecodeEncode` | crates/server/sled-store/src/sled_serde.rs:74-83 | Reading the bytes of a string gives the string. |
| `Utf8.EncodeDecode` | crates/server/sled-store/src/sled_serde.rs:74-83 | Bytes that can be read are the encoding of what is read. |
| `Utf8.EncodeOrder` | crates/server/sled-store/src/sled_serde.rs:74-83 | Strings compare as their bytes do. |
| `SledKeys.WriteU64` | crates/server/sled-store/src/sled_serde.rs:56-72 | Writing a number into a buffer in place puts its eight big-endian bytes and leaves the rest. |
| `SledKeys.SerializeTimeKey` | crates/server/sled-store/src/sled_serde.rs:85-93 | The buffer filled with time and seqno is the encoding of the expiry key. |
| `SledKeys.DecodeEncodeKey` | crates/server/sled-store/src/sled_serde.rs:56-104 | Every key is read back from its bytes. |
| `SledKeys.DecodeExact` | crates/server/sled-store/src/sled_serde.rs:56-104 | All bytes, well-formed or not, are read as a key of a kind if and only if they are its text, or begin with its number, its time and number, or its tag. |
| `SledKeys.EncodeKeyOrder` | crates/server/sled-store/src/sled_serde.rs:56-104 | The encodings of numbers, strings, expiry keys and tags are order isomorphisms. |
| `SledKeys.KeySpaceRoundTrip` | crates/server/sled-store/src/sled_key_space.rs:44-61 | A key is read back through its own space, and every other space reports the wrong prefix. |
| `SledKeys.OnDiskNumbers` | crates/server/raft-store/src/key_spaces.rs:64-140 | Log entries, nodes and expiry keys are stored under the prefix bytes 1, 2 and 5, every number in eight bytes with the most significant first. |
| `SledKeys.OnDiskStrings` | crates/server/raft-store/src/key_spaces.rs:78-185 | Records, sequences and data headers are stored under the prefix bytes 6, 7 and 11 as their UTF-8 bytes; state machine metadata, raft state and log metadata under 3, 4 and 13 as one byte, of which three, four and one are keys. |
| `SledKeys.DispatchFinds` | crates/server/raft-store/src/key_spaces.rs:203-217 | Dispatch on the prefix byte finds the space a key was written to, whatever the order of trial, and nothing if that space is not tried. |
| `SledKeys.EntryDispatch` | crates/server/raft-store/src/key_spaces.rs:252-270 | A raft store entry is read back from every space, a state machine entry from all but the log, its metadata and the raft state. |
| `SledKeys.RangeExact` | crates/server/sled-store/src/sled_key_space.rs:72-100 | A key of any space lies in the byte range of a user range if and only if it belongs to the range's space and the key is in the user range. |
| `PrefixBound.ScanRightBound` | crates/server/raft-store/src/utils.rs:57-78 | The backward scan that raises one character in place and truncates computes the specified bound. |
| `PrefixBound.RangeIsPrefix` | crates/server/raft-store/src/utils.rs:57-78 | For a prefix that does not end before the surrogates the range read holds exactly the strings with that prefix, bounded or not. |
| `PrefixBound.RangeTooWide` | crates/server/raft-store/src/utils.rs:57-78 | For any other prefix there is no right bound and some string without the prefix is read. |
| `PrefixBound.RangeExactIff` | crates/server/raft-store/src/utils.rs:57-78 | The range is exact for precisely the prefixes that do not end before the surrogates. |
| `SequentialKeys.GroupByFolding` | crates/common/proto/src/proto_ext/put_sequential_ext.rs:54-66 | The fold that grows a string is the specified grouping of digits. |
| `SequentialKeys.SequentialKeyOrder` | crates/common/proto/src/proto_ext/put_sequential_ext.rs:49-66 | Sequential keys under one prefix have one width, are injective, sort as their numbers for all 64-bit numbers, and give the number back. |
| `SequentialKeys.FormatForm` | crates/common/proto/src/proto_ext/put_sequential_ext.rs:49-66 | For every number the written form has twenty-seven characters, decimal digits in groups of three with underscores between the groups. |
| `SequentialKeys.JsonU64RoundTrip` | crates/server/raft-store/src/applier/mod.rs:533-584 | A counter written as JSON is read back. |
| `SequentialKeys.JsonU64Meaning` | crates/server/raft-store/src/applier/mod.rs:533-584 | A positive count is read from exactly its shortest decimal form between blanks; all else counts as zero. |
| `Endpoints.Endpoints.constructor` | crates/client/client/src/endpoints.rs:42-51 | Starts with the distinct endpoints in order and none in use. |
| `Endpoints.Endpoints.ChooseNext` | crates/client/client/src/endpoints.rs:56-70 | Moves to the next member in cyclic key order, or to the first. |
| `Endpoints.NextOfMeaning` | crates/client/client/src/endpoints.rs:56-70 | The next member is the least one above the endpoint in use, or the least of all if there is none. |
| `Endpoints.Endpoints.CurrentOrNext` | crates/client/client/src/endpoints.rs:76-82 | Keeps the endpoint in use or moves to the first. |
| `Endpoints.Endpoints.SetCurrent` | crates/client/client/src/endpoints.rs:95-118 | Refuses an endpoint that is not a member and changes nothing then; otherwise returns the previous one. |
| `Endpoints.Endpoints.ReplaceNodes` | crates/client/client/src/endpoints.rs:123-134 | Replaces the members and forgets an endpoint that is gone. |
| `Endpoints.Endpoints.SetEndpoints` | crates/client/client/src/grpc_client.rs:612-631 | Installs a fetched list only if a majority of its endpoints is not empty. |
| `Endpoints.SyncedMeaning` | crates/client/client/src/grpc_client.rs:612-631 | A fetched list is installed if and only if more than half of its entries are not empty; then its distinct entries are the members, and the endpoint in use stays exactly if it is one of them. |
| `Endpoints.Endpoints.RotateFailing` | crates/client/client/src/endpoints.rs:152-185 | Moves on only if the reported endpoint is still in use. |
| `Endpoints.ReportMoves` | crates/client/client/src/endpoints.rs:152-185 | With two or more members a report changes the endpoint in use if and only if it names that endpoint or none. |
| `Endpoints.Endpoints.GetEstablishedClient` | crates/client/client/src/grpc_client.rs:546-596 | For every outcome of the attempts, endpoints are tried in cyclic order from the one in use, none twice, and the loop fails only after every member was tried once and failed. |
| `Endpoints.RunsNeverPanic` | crates/client/client/src/endpoints.rs:56-134 | In every interleaving of connects, reports, leader changes and fetched lists from a non-empty list, no step panics, the endpoint in use stays absent or a member, and the list never becomes empty. |
| `Endpoints.ReportsRotateOnce` | crates/client/client/src/endpoints.rs:152-185 | With two or more members any number of reports about the endpoint in use, mixed with stale reports, rotates exactly once, to its successor. |

## Left out

- The async runtime, gRPC channels, TLS, authentication tokens, metrics, tracing, logging, error texts and configuration.
- openraft, rotbl, map-api, sled, and the levels, compaction and snapshots of the leveled store: only the map and log behaviour the modelled code relies on is modelled.
- JSON and protobuf encodings, except the JSON form of a counter; the encoded size of a request is an arbitrary function.
- Node and feature commands, which leave the records alone; they stand as one command without effect on them.
- Values of on-disk entries, their upgrade from older formats, and the conversion between the two entry types.
- The concrete feature tables and the changelog; the theorems hold of all histories.
- Vote and membership structure; a vote is a number that compares as votes do.
- 64-bit overflow of the sequence counter, of the operand of a prefix count and of the branch index.
- FlatteningKeepsMeaning: states one direction for whole call chains, because a later call can hide an earlier difference; the exact condition is stated for each call by `MergeConditionsIff` and `MergeExpressionsIff`.
- MergeConditions: the source extends owned vectors in place; the receiver is consumed, so the update is modelled as a new value.
- DigitOrder: states that encodable versions compare as their digits; versions that are not encodable are covered by `DigitRoundTripIff` only.
- SequentialPutsConsecutive: puts of one log entry, all with its time.
- CmdTracks: the replies of node and feature commands are not modelled.
- Apply: the last applied log id and the membership are not tracked.
- GetEstablishedClient: no other thread acts between its attempts; interleavings are covered by `RunsNeverPanic` and `ReportsRotateOnce`.
- BalancedIsSymmetric: one direction for a single fixed set of features, because other features can keep two versions from serving each other and so hide an unbalanced one; `SymmetryIff` is exact over all selections.
- EscapesCleanupIff: stated for one upsert, because a later operation of a transaction can overwrite what an earlier one stored; for transactions `LogRefines` gives a sufficient condition.
- Replicate: a request lost in transit ends it, and whether the follower saw that request is not tracked.
- `update_seq` and `incr_data_seq` of the system data, single assignments that nothing modelled here calls.
- DeletePrefix: the list of keys is taken before the first deletion, as the stream over the store's immutable view gives it.
