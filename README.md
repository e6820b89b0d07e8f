# Writer data source (in-memory), modelled in Dafny

This project models `TestWriterDataSource`, the in-memory Writer data source of the Pravega segment
store, together with its nested fragment store `AppendData`. The data source holds five pieces of
state behind one lock, and the model keeps each of them as a field of the class
`Writer.TestWriterDataSource`:

- **The sequenced operation log** (`log: seq<Operation>`). `Add` refuses an operation that already
  has a sequence number. It may first insert a metadata checkpoint, then takes the next number from
  the container metadata. A checkpoint gets its truncation marker and becomes a valid truncation
  point before it enters the log. `Acknowledge` truncates the log up to a valid truncation point,
  but only while acknowledgements are effective.
- **Two single-slot waiters** (`waitFullyAcked`, `addProcessed`). Each slot holds at most one
  pending future, named by a number; later callers share it.
- **The per-segment attribute store** (`attributeData`). A segment is absent, live, sealed
  (an unmodifiable map) or tombstoned (a `null` value in the Java map).
- **The per-segment fragment stores** (`appendData`). Each is an `AppendData` object holding a
  map from segment offset to bytes. `Read` rebuilds a byte range by chaining exactly adjacent
  fragments.
- **The open/closed lifecycle** (`closed`).

Each state-changing method is proved against a pure function of the old state. The properties
the source promises are then proved about those functions as lemmas.

- `AddEffect`: what `add` does to the log, the sequence counter, the last automatic checkpoint
  and the truncation bookkeeping.
- `AcknowledgeEffect`: what an effective `acknowledge` does.
- `Persist` and `Seal`: the attribute rules.
- `Reconstruct`: what `AppendData.read` returns.

The data source keeps one invariant, `WellSequenced`: the log strictly increases, and every
checkpoint in it is a valid truncation point with a marker.

Modules: `Common` (option/result and error kinds), `OperationLog` (the `SequencedItemList`
operations the data source relies on), `Metadata` (the part of the container metadata the data
source uses), `Attributes`, `AppendStore` (`AppendData`) and `Writer` (the data source itself).

Two points about the Java code itself:

- The last bounds check of `getAppendData` carries the message that the start offset is before
  the segment's start offset, so it is meant to refuse reads below that offset. It compares
  `startOffset` with `Math.min(sm.getStartOffset(), sm.getStorageLength())`, which is at most the
  storage length, so it can never fail once the storage-length check before it has passed. The
  start offset is therefore not enforced, and `Writer.StartOffsetNotEnforced` exhibits a request
  below it that passes. The model keeps the check as written.
- `add` calls itself to insert an automatic checkpoint, but only for an operation that is not a
  checkpoint, and the nested call is always given a checkpoint. The recursion is therefore at
  most one level deep. `Writer.TestWriterDataSource.Add` terminates with the measure "1 for an
  ordinary operation, 0 for a checkpoint".

## Model

| member | source | states |
|---|---|---|
| `Writer.TestWriterDataSource.constructor` | segmentstore/server/src/test/java/io/pravega/segmentstore/server/writer/TestWriterDataSource.java:101-116 | a new source is open, acknowledgements are effective, the last automatic checkpoint is 0, the log, stores and slots are empty, and the invariant holds |
| `Writer.TestWriterDataSource.Close` | segmentstore/server/src/test/java/io/pravega/segmentstore/server/writer/TestWriterDataSource.java:122-136 | the first close marks the source closed and takes the pending add future out of its slot to cancel it; a second close changes nothing; nothing else changes |
| `Writer.TestWriterDataSource.Add` | segmentstore/server/src/test/java/io/pravega/segmentstore/server/writer/TestWriterDataSource.java:142-172 | a closed source fails, and so does an operation that already has a number, both with no change; otherwise result and new state are exactly `AddEffect` of the old state; the add waiter is cleared on success; the invariant is kept |
| `Writer.TestWriterDataSource.SequenceAndLog` | segmentstore/server/src/test/java/io/pravega/segmentstore/server/writer/TestWriterDataSource.java:155-171 | taking the next number, recording a checkpoint's marker and valid point, and logging the operation leave exactly the state `SequenceOne` describes; a logged operation clears the add waiter |
| `Writer.AddEffect` | segmentstore/server/src/test/java/io/pravega/segmentstore/server/writer/TestWriterDataSource.java:142-172 | add fails exactly when the log refuses the next number; a failure spends that number but leaves the log and the last automatic checkpoint alone; a success returns the counter's new value, at most two above the old one, and the logged operation carries it |
| `Writer.AutomaticCheckpoint` | segmentstore/server/src/test/java/io/pravega/segmentstore/server/writer/TestWriterDataSource.java:147-156 | a checkpoint is inserted exactly when one is due; it takes the number just below the operation's, is a valid truncation point with a marker, and becomes the last automatic checkpoint; otherwise only the operation is logged |
| `Writer.AddKeepsWellSequenced` | segmentstore/server/src/test/java/io/pravega/segmentstore/server/writer/TestWriterDataSource.java:156-167 | add keeps the log strictly increasing and every logged checkpoint marked and valid; the number given exceeds every number already logged |
| `Writer.SequenceOneKeepsWellSequenced` | segmentstore/server/src/test/java/io/pravega/segmentstore/server/writer/TestWriterDataSource.java:156-167 | sequencing one operation keeps the invariant, and a logged operation's number exceeds every logged number |
| `Writer.ConsecutiveAddsIncrease` | segmentstore/server/src/test/java/io/pravega/segmentstore/server/writer/TestWriterDataSource.java:156 | numbers given by two consecutive successful adds strictly increase |
| `Writer.TestWriterDataSource.NotifyAddProcessed` | segmentstore/server/src/test/java/io/pravega/segmentstore/server/writer/TestWriterDataSource.java:522-532 | the pending add future, if any, is returned for completion and the slot is cleared; nothing else changes |
| `Writer.TestWriterDataSource.RecordAppend` | segmentstore/server/src/test/java/io/pravega/segmentstore/server/writer/TestWriterDataSource.java:177-188 | the segment's fragments gain (or replace) the fragment at the given offset, and the segment's store is created on first use; every other segment's fragments are unchanged |
| `Writer.TestWriterDataSource.ClearAppendData` | segmentstore/server/src/test/java/io/pravega/segmentstore/server/writer/TestWriterDataSource.java:193-197 | no segment has fragments afterwards |
| `Writer.TestWriterDataSource.Acknowledge` | segmentstore/server/src/test/java/io/pravega/segmentstore/server/writer/TestWriterDataSource.java:209-241 | a closed source, or a number that is not a valid truncation point, fails with no change; otherwise the state becomes `AcknowledgeEffect` of the old state if acknowledgements are effective, else stays; the drain waiter is completed and cleared exactly when it exists and the log is then empty or ends at or before the number |
| `Writer.TestWriterDataSource.TrimAcknowledged` | segmentstore/server/src/test/java/io/pravega/segmentstore/server/writer/TestWriterDataSource.java:220-224 | the log and the truncation markers become exactly `AcknowledgeEffect` of the old state, and the invariant is kept |
| `Writer.TestWriterDataSource.CompleteFullyAcked` | segmentstore/server/src/test/java/io/pravega/segmentstore/server/writer/TestWriterDataSource.java:226-239 | the drain waiter is returned and cleared exactly when it exists and the log is empty or its last number is at most the acknowledged one; otherwise nothing changes |
| `Writer.AcknowledgeEffect` | segmentstore/server/src/test/java/io/pravega/segmentstore/server/writer/TestWriterDataSource.java:220-224 | an effective acknowledgement keeps exactly the truncation markers after the number, and changes neither the counter nor the last automatic checkpoint |
| `Writer.AcknowledgeKeepsWellSequenced` | segmentstore/server/src/test/java/io/pravega/segmentstore/server/writer/TestWriterDataSource.java:220-239 | an effective acknowledgement keeps the invariant, and afterwards the log is drained up to the number exactly when it is empty |
| `Writer.AcknowledgeIdempotent` | segmentstore/server/src/test/java/io/pravega/segmentstore/server/writer/TestWriterDataSource.java:220-224 | acknowledging the same number twice has the effect of acknowledging it once |
| `OperationLog.AcceptsAboveAll` | segmentstore/server/src/test/java/io/pravega/segmentstore/server/writer/TestWriterDataSource.java:165-167 | on an increasing log, the log accepts a number exactly when it exceeds every logged number, and appending it keeps the log increasing |
| `OperationLog.Truncate` | segmentstore/server/src/test/java/io/pravega/segmentstore/server/writer/TestWriterDataSource.java:222 | truncation keeps a suffix of the log and drops only entries numbered at most the point; on an increasing log every kept entry is after the point, every entry after the point is kept, and the log stays increasing |
| `OperationLog.TruncateIdempotent` | segmentstore/server/src/test/java/io/pravega/segmentstore/server/writer/TestWriterDataSource.java:222 | truncating twice at the same point equals truncating once |
| `OperationLog.ReadRange` | segmentstore/server/src/test/java/io/pravega/segmentstore/server/writer/TestWriterDataSource.java:311 | a log read returns at most the requested count of logged entries, all numbered after the given number; it returns nothing exactly when the count is not positive or the log is drained up to that number |
| `OperationLog.ReadRangeExact` | segmentstore/server/src/test/java/io/pravega/segmentstore/server/writer/TestWriterDataSource.java:311 | on an increasing log, a read returns exactly the next min(count, available) entries in log order: it starts at the first entry numbered after the given number, every earlier entry is at or before that number, and no entry is skipped |
| `Writer.TestWriterDataSource.Read` | segmentstore/server/src/test/java/io/pravega/segmentstore/server/writer/TestWriterDataSource.java:301-320 | a closed source fails; entries after the number are returned when there are any, with no change; otherwise the caller gets the add-waiter handle of `WaitForAdd` |
| `Writer.TestWriterDataSource.WaitForAdd` | segmentstore/server/src/test/java/io/pravega/segmentstore/server/writer/TestWriterDataSource.java:495-520 | the result is already completed exactly when the log holds an entry after the given number; otherwise it is the slot's future, created only when the slot is empty and shared afterwards |
| `Writer.TestWriterDataSource.WaitFullyAcked` | segmentstore/server/src/test/java/io/pravega/segmentstore/server/writer/TestWriterDataSource.java:464-479 | the result is already completed only when no waiter exists and the log is empty; otherwise it is the slot's future, created only when the slot is empty and shared afterwards |
| `Writer.TestWriterDataSource.SetAckEffective` | segmentstore/server/src/test/java/io/pravega/segmentstore/server/writer/TestWriterDataSource.java:457-459 | only the acknowledgement switch changes |
| `Writer.TestWriterDataSource.PersistAttributes` | segmentstore/server/src/test/java/io/pravega/segmentstore/server/writer/TestWriterDataSource.java:244-280 | a closed source fails; otherwise the segment's new state or the failure is exactly `Persist` of its old state, and a failure leaves the store unchanged |
| `Writer.TestWriterDataSource.ApplyDeltas` | segmentstore/server/src/test/java/io/pravega/segmentstore/server/writer/TestWriterDataSource.java:266-273 | applying the delta entries one by one yields the merge of the deltas into the current map |
| `Attributes.Merge` | segmentstore/server/src/test/java/io/pravega/segmentstore/server/writer/TestWriterDataSource.java:266-273 | a delta of the null attribute value removes its key, any other delta sets its key to that value, and keys without a delta keep their value |
| `Attributes.MergeNothing` | segmentstore/server/src/test/java/io/pravega/segmentstore/server/writer/TestWriterDataSource.java:266-273 | an empty delta leaves the map unchanged |
| `Attributes.MergeOneMore` | segmentstore/server/src/test/java/io/pravega/segmentstore/server/writer/TestWriterDataSource.java:267-271 | applying one more delta entry to a partial merge removes or sets exactly that key |
| `Attributes.Persist` | segmentstore/server/src/test/java/io/pravega/segmentstore/server/writer/TestWriterDataSource.java:253-277 | fails as not-exists exactly for a tombstoned segment; fails as sealed exactly for a sealed segment given a non-empty delta; on success what readers see is the merge of the deltas into what they saw, the segment is not tombstoned, and it is sealed exactly when it was |
| `Attributes.Seal` | segmentstore/server/src/test/java/io/pravega/segmentstore/server/writer/TestWriterDataSource.java:286-287 | sealing leaves a sealed map holding exactly what readers saw before, so an absent or tombstoned segment becomes sealed and empty |
| `Attributes.SealedRefusesUpdates` | segmentstore/server/src/test/java/io/pravega/segmentstore/server/writer/TestWriterDataSource.java:274-277 | after a seal, an empty delta succeeds without change and any other delta fails as sealed; sealing again changes nothing |
| `Attributes.TombstoneRefusesUpdates` | segmentstore/server/src/test/java/io/pravega/segmentstore/server/writer/TestWriterDataSource.java:263-265 | after a delete every persist fails as not-exists, and a later seal leaves a sealed empty map |
| `Writer.TestWriterDataSource.SealAttributes` | segmentstore/server/src/test/java/io/pravega/segmentstore/server/writer/TestWriterDataSource.java:283-290 | the segment's state becomes `Seal` of its old state; other segments are unchanged |
| `Writer.TestWriterDataSource.DeleteAllAttributes` | segmentstore/server/src/test/java/io/pravega/segmentstore/server/writer/TestWriterDataSource.java:293-299 | the segment becomes tombstoned; other segments are unchanged |
| `Writer.TestWriterDataSource.GetPersistedAttributes` | segmentstore/server/src/test/java/io/pravega/segmentstore/server/writer/TestWriterDataSource.java:484-489 | the result is exactly what a reader of the segment sees (`Visible`): empty for an absent or tombstoned segment, the stored map of a live or sealed one |
| `Writer.CheckAppendBounds` | segmentstore/server/src/test/java/io/pravega/segmentstore/server/writer/TestWriterDataSource.java:346-354 | the checks pass exactly when the length is non-negative, the segment's metadata exists, the start is at or after the storage length, and start plus length is within the segment length; a negative length is reported first |
| `Writer.StartOffsetNotEnforced` | segmentstore/server/src/test/java/io/pravega/segmentstore/server/writer/TestWriterDataSource.java:349-354 | a request that starts below the segment's start offset but at or after its storage length passes every check |
| `Writer.TestWriterDataSource.GetAppendData` | segmentstore/server/src/test/java/io/pravega/segmentstore/server/writer/TestWriterDataSource.java:332-364 | a failed bounds check is reported whatever fragments exist; a segment without a fragment store yields no bytes; otherwise the result is what the segment's fragments reconstruct |
| `AppendStore.AppendData.constructor` | segmentstore/server/src/test/java/io/pravega/segmentstore/server/writer/TestWriterDataSource.java:550 | a new store holds no fragments |
| `AppendStore.AppendData.Append` | segmentstore/server/src/test/java/io/pravega/segmentstore/server/writer/TestWriterDataSource.java:552-554 | the fragment at the offset is set, replacing any earlier one there |
| `AppendStore.AppendData.Read` | segmentstore/server/src/test/java/io/pravega/segmentstore/server/writer/TestWriterDataSource.java:556-584 | the loop over chained fragments returns exactly `Reconstruct` of the fragments, offset and length |
| `AppendStore.MaxExists` | segmentstore/server/src/test/java/io/pravega/segmentstore/server/writer/TestWriterDataSource.java:561 | a non-empty finite set of offsets has a greatest element, so a floor entry exists whenever some key is at or below the offset |
| `AppendStore.FloorKey` | segmentstore/server/src/test/java/io/pravega/segmentstore/server/writer/TestWriterDataSource.java:561 | the floor lookup returns the greatest key at or below the offset, and nothing exactly when there is none |
| `AppendStore.ReconstructSound` | segmentstore/server/src/test/java/io/pravega/segmentstore/server/writer/TestWriterDataSource.java:556-584 | a successful read covers the start offset, has exactly the requested length (nothing for a non-positive one) and each byte is recorded at its offset by some fragment |
| `AppendStore.WalkSound` | segmentstore/server/src/test/java/io/pravega/segmentstore/server/writer/TestWriterDataSource.java:570-577 | bytes chained from a fragment position have the requested length and are each recorded at their offset |
| `AppendStore.WalkComplete` | segmentstore/server/src/test/java/io/pravega/segmentstore/server/writer/TestWriterDataSource.java:570-577 | with non-overlapping fragments, chaining from a position inside a fragment succeeds whenever every needed byte is covered by some fragment |
| `AppendStore.CoverUnique` | segmentstore/server/src/test/java/io/pravega/segmentstore/server/writer/TestWriterDataSource.java:561-562 | with non-overlapping fragments, at most one fragment covers an offset |
| `AppendStore.CoverAtBoundary` | segmentstore/server/src/test/java/io/pravega/segmentstore/server/writer/TestWriterDataSource.java:576 | with non-overlapping fragments, a covered offset exactly where a fragment ends is the start of a non-empty fragment |
| `AppendStore.ReconstructExact` | segmentstore/server/src/test/java/io/pravega/segmentstore/server/writer/TestWriterDataSource.java:556-584 | with non-overlapping fragments, a read succeeds exactly when every requested byte is resident in a chain of adjacent fragments, and then each returned byte is the recorded byte at its offset |
| `AppendStore.ReconstructOnlyResident` | segmentstore/server/src/test/java/io/pravega/segmentstore/server/writer/TestWriterDataSource.java:556-584 | with non-overlapping fragments, a successful read means every requested byte is resident, the result has the requested length, and each byte is the one stored at its offset |
| `AppendStore.ResidentReadable` | segmentstore/server/src/test/java/io/pravega/segmentstore/server/writer/TestWriterDataSource.java:556-584 | with non-overlapping fragments, a read of a resident range always succeeds |
| `AppendStore.AdjacentFragmentsJoin` | segmentstore/server/src/test/java/io/pravega/segmentstore/server/writer/TestWriterDataSource.java:556-584 | two exactly adjacent non-empty fragments read back as their concatenation, and a read starting before the first returns nothing |
| `AppendStore.EmptyFragmentStallsRead` | segmentstore/server/src/test/java/io/pravega/segmentstore/server/writer/TestWriterDataSource.java:570-577 | in the loop as written, a cursor at an empty fragment with bytes still needed never changes and its guard stays true, however many iterations run |
| `AppendStore.EmptyFragmentCounterexample` | segmentstore/server/src/test/java/io/pravega/segmentstore/server/writer/TestWriterDataSource.java:556-584 | for fragments {0: [1, 2], 2: []} and a read of 3 bytes at 0, the loop as written reaches the stuck cursor after one step and its guard still holds after any number of further steps, while the corrected read returns nothing |
| `Metadata.ContainerMetadata.NextOperationSequenceNumber` | segmentstore/server/src/test/java/io/pravega/segmentstore/server/writer/TestWriterDataSource.java:156 | the counter advances by one and its new value is returned; nothing else changes |
| `Metadata.ContainerMetadata.RecordTruncationMarker` | segmentstore/server/src/test/java/io/pravega/segmentstore/server/writer/TestWriterDataSource.java:161 | the marker for the number is set to the address; nothing else changes |
| `Metadata.ContainerMetadata.SetValidTruncationPoint` | segmentstore/server/src/test/java/io/pravega/segmentstore/server/writer/TestWriterDataSource.java:162 | the number joins the valid truncation points; nothing else changes |
| `Metadata.ContainerMetadata.RemoveTruncationMarkers` | segmentstore/server/src/test/java/io/pravega/segmentstore/server/writer/TestWriterDataSource.java:223 | exactly the markers numbered after the point survive; nothing else changes |
| `Metadata.MarkersAfterIdempotent` | segmentstore/server/src/test/java/io/pravega/segmentstore/server/writer/TestWriterDataSource.java:223 | removing markers up to the same point twice removes nothing more |
| `Metadata.ContainerMetadata.constructor` | segmentstore/server/src/test/java/io/pravega/segmentstore/server/writer/TestWriterDataSource.java:62 | a metadata starts from the given counter and segments, with no valid truncation points and no markers |

## Left out

- Futures, the executor, and asynchronous completion are not modelled. Every asynchronous body (`acknowledge`, `persistAttributes`, `sealAttributes`, `deleteAllAttributes`) takes effect when the call is made. A future is a number in a slot, and "completing" or "cancelling" it means returning that number to the caller.
- Timeouts are not modelled. This includes the `onTimeout` handler that empties the add slot when its future times out.
- Concurrency and the lock are not modelled; the model is sequential.
- `Writer.TestWriterDataSource.Read` makes one attempt only: the retry after the add waiter fires (`thenComposeAsync` back into `read`) is left to the caller, because it is a chain of futures.
- Error injectors, the `onGetAppendData`, `segmentMetadataRequested` and `completeMergeCallback` hooks, `completeMerge`, `getId`, `getClosestValidTruncationPoint`, `isValidTruncationPoint` and `getStreamSegmentMetadata` are not modelled. They are test hooks or direct calls into the metadata.
- `Writer.TestWriterDataSource.Add` returns the number and logs a numbered copy of the operation. The Java code also stores the number in the caller's operation object, and the model does not show that aliasing.
- Byte ranges are `Option<seq<byte>>`, not input streams.
- Java `long` and `int` overflow is not modelled (for example `startOffset + length` or the sequence counter). The `(int)` cast of the entry offset is not modelled either.
- A missing segment metadata in `getAppendData` would throw a `NullPointerException` after the length check. The model reports `SegmentMetadataMissing` at that point instead.
- `SequencedItemList` and `UpdateableContainerMetadata` are not part of this model. They appear only through the operations the data source calls: append if the number is above the last, truncate, read after a number, and last entry; and next number, truncation markers, valid truncation points and segment metadata lookup.
- Removing truncation markers is modelled as dropping the markers up to the point. What the metadata does to its valid truncation points at that time is not modelled; the model assumes they stay unchanged.
- `LogClient.java` (a distributed-log network client) and `ProbeOperationTests.java` (a serialization test) are not part of this model. Both are I/O or test code with no local logic.

## Findings

| source | as written | input that shows it | evidently intended | confidence | as-written member | corrected member |
|---|---|---|---|---|---|---|
| segmentstore/server/src/test/java/io/pravega/segmentstore/server/writer/TestWriterDataSource.java:570-577 | the chaining loop in `AppendData.read` reaches an empty fragment while bytes are still needed; the entry length is 0, so neither the offset nor the remaining length moves and the same fragment is fetched forever | fragments {0: [1, 2], 2: []}, read(0, 3) | an empty fragment ends the chain, and the read returns null because bytes are still missing | high (not executed) | `AppendStore.EmptyFragmentCounterexample` | `AppendStore.AppendData.Read` |
