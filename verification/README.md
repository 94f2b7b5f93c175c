# Verified model of the server poller

This project models the parts of the poller where its correctness is decided, and
proves what they guarantee. Four components:

- **The disk buffer and its drain protocol** (`src/wal.rs`, `flush_batch` and
  `ingest_loop` of `src/collector.rs`). Segment files are byte sequences keyed by the
  timestamp in their name; `total_bytes`, the current segment and its `size` field are
  kept exactly as the code keeps them. A run is any sequence of flushes, each with its
  own answers from the outside world (send, read, delete, rotate, append, evict), and
  of crashes that cut the file being written at any byte.
- **The lazy-deletion scheduler** (`src/scheduler.rs`, `scheduler_loop` and
  `process_work_item` of `src/collector.rs`, the rescheduling steps of `src/sync.rs`).
  One state machine whose steps are what a task does between two lock acquisitions or
  awaits, so a run is any interleaving of pushes, notifications, waits, pops, staleness
  checks, workers, catalog refreshes, triggers and force-pings.
- **The change detector** (`src/change_detection.rs`), as a delta encoder with resets
  and drops, together with the failure counters, intervals and catalog reconciliation
  that act on the same records.
- **The wire and text codecs** (`src/ping.rs`): VarInt, the handshake frame, and the
  Minecraft version sanitiser.

Where the code changes state step by step, a class or a method with the source's loop
is proved to compute a specification function, and the properties are proved about that
function: `WalBuffer.Buffer` for `WalModel`, `Ingest` for `IngestModel`,
`Scheduler.Inner` for steps of `SchedulerModel`, `Catalog.ServerMap` for `CatalogModel`,
`ChangeDetection` and `Polling` on `Models.ServerState`.

| files | contents |
|---|---|
| `Basics`, `Text`, `Json` | options, orderings, white space and trimming, JSON values |
| `RecordCodec`, `FaithfulCodec`, `SegmentNames` | record framing and the tolerant reader; a codec that restores every value; file names and their order |
| `WalModel`, `WalGuarantees`, `WalBuffer` | the buffer as a value; what a batch guarantees; the buffer object |
| `IngestModel`, `Delivery`, `DrainLimit`, `Ingest` | whole runs and their books; what flushes, evictions and crashes do to the files, and exactly-once delivery; which configurations never cut a drain off; `flush_batch`, `ingest_loop` and batching |
| `SchedulerModel`, `SchedulerGuarantees`, `SchedulerTiming`, `SchedulerFairness`, `Scheduler` | the state machine and its invariants; what they mean; when servers are polled and in which order; endless fair interleavings; the locked state |
| `Models`, `Players`, `ChangeDetection`, `DeltaStream`, `Observation`, `EventTrace` | server records; player lists; one poll; the stream; from a payload's JSON to an event's; the stream's shape |
| `Polling`, `CatalogModel`, `Catalog` | counters and intervals; reconciliation; the shared map |
| `VarInt`, `Handshake` | the VarInt codec; the handshake frame |
| `Versions`, `VersionRanges`, `VersionLabels`, `VersionIdempotence`, `VersionInputs`, `VersionWildcards`, `VersionTexts` | the sanitiser; its order; its labels; sanitising twice; inputs on which that changes nothing, simply and exactly; what becomes of versions as people write them |

`dafny verify dfyconfig.toml` checks everything.

## Where the code is weaker than one might expect

Each of these is a theorem here, with the exact condition.

- A drain deletes the whole segment after reading at most the batch size of its records.
  It loses records exactly when the segment holds more
  (`IngestModel.DrainLosesExactlyBeyondTheLimit`). A configuration never loses any, over
  all runs that find only segments within the batch size at open and reopen no file that
  holds anything, if and only if the batch size is at least 1 and the segment limit is
  below (batch size + 1) times the shortest record (`DrainLimit.NeverCutsOffExactlyWhen`).
  With the default 2 MiB and 200 records, that asks for records of at least 10434 bytes.
- Two rotations in the same millisecond reopen one file with its size counted from zero.
  The size field is right after a rotation exactly when no file with content is reopened
  (`WalGuarantees.SizeExactExactlyWhen`); otherwise the segment can outgrow its limit
  (`WalGuarantees.SameMillisecondOutgrowsTheLimit`). The byte count stays exact
  throughout (`IngestModel.Run`), and the budget holds whenever no file that holds
  anything is reopened, even if the clock steps back (`IngestModel.AlwaysWithinBudget`).
- "Oldest segment" means first by file name. That is the order of time for two
  timestamps exactly when the earlier one is at most the leading digits of the later one
  at its width, as it always is for equal widths (`SegmentNames.KeepsTimeExactly`). So
  9 comes after 10, but 1 comes before 10.
- A record over 16 MiB is unreadable and hides everything written behind it in its
  segment (`RecordCodec.OversizeRecordHidesTheRest`); the books count both as unreadable.
- A force-ping of an unknown server schedules at `now` under the key stored in the
  fetched entry, but stores a due time with a random spread under the key asked for. The
  server is still going to be polled if and only if the keys agree and the spread is
  zero, or something else stands for the stored due time
  (`SchedulerModel.FetchCoversExactly`); if not, it stays unpolled until something else
  reschedules it (`SchedulerGuarantees.BadFetchIsNeverPolled`). A server stored under
  another key is also lost by a trigger or a force-ping
  (`SchedulerModel.RescheduleCoversExactly`).
- The record of what was emitted is updated before the event may be dropped on a full
  queue, so a dropped change is not sent again by repeating the poll, exactly until a
  heartbeat falls due (`DeltaStream.DroppedIsNotRepeated`). Any later delivered event
  repairs everything (`DeltaStream.OneEventRestores`).
- Player names are hashed joined by newlines, so a name that holds a newline can replace
  two players unnoticed, exactly until a heartbeat falls due
  (`DeltaStream.NewlineNamesGoUnnoticed`).
- "Slowing down" speeds up when the configured cap is below the offline interval
  (`Polling.SlowdownSlows`).
- Sanitising a version twice can change it: exactly when the result is not empty and does
  not start with "1" or ends in ".x" or ".X" (`VersionIdempotence.IdempotentExactlyWhen`).
  On the input: exactly when the text of the token that ends the output ends in ".x",
  then ".X" at least once, then any number of ".x", or a second token that becomes the
  lower end does not start with "1" (`VersionWildcards.IdempotentInputs`). It never does
  when the normalised text has no capital X, and no zero directly behind a dash or a space
  (`VersionInputs.TameIsIdempotent`).
- A range prints alike whichever end is given first, unless the ends compare equal under
  labels that are not, each with a dash behind it, repetitions of one string
  (`VersionRanges.SymmetricExactlyWhen`).
- A handshake whose length is not an i32 does not read back (`Handshake.FrameReadsBackExactly`).
- `read_varint` reports "too long" only once it has read a sixth byte; five continuation
  bytes and then the end of input is reported as end of input (`VarInt.ReadOutcome`).

## Model

| member | source | states |
|---|---|---|
| `IngestModel.NothingUnaccounted` | src/collector.rs:133-167 | Conservation over every run from any directory, of payloads of any length the format can write: records found at open plus records handed to flush_batch (plus re-deliveries of undeletable segments) are, as multisets, those delivered, readable on disk, evicted, cut off by the drain limit, refused by a failed write, unreadable behind a length over the reader's limit, or torn by a crash. |
| `IngestModel.NothingUnreadable` | src/wal.rs:222-230 | Nothing is unreadable over any run that spills payloads within 16 MiB and reopens no file that holds anything. |
| `IngestModel.DrainLosesExactlyBeyondTheLimit` | src/collector.rs:141-156 | A drain that deletes its segment, having sent what it read, if anything, loses records if and only if the segment holds more than the drain limit. |
| `IngestModel.NothingCutOff` | src/collector.rs:141-156 | Over every run whose closed segments stay within the drain limit, nothing is ever cut off. |
| `DrainLimit.NeverCutsOff` | src/collector.rs:50-59 | A condition on the configuration: if the drain limit is at least 1 and the segment limit is below (drain limit + 1) times the shortest record, no run that finds only segments within the drain limit at open and reopens no file that holds anything cuts a record off, crashes and failures included. |
| `DrainLimit.OtherwiseCutsOff` | src/wal.rs:209-211 | The condition is needed, whatever max_bytes is: otherwise a failed send of drain limit + 1 records, a crash and a successful send cut one off. |
| `DrainLimit.NeverCutsOffExactlyWhen` | src/collector.rs:141-156 | So such runs never cut anything off if and only if the configuration meets the condition for the shortest record they write. |
| `DrainLimit.RecordsFit` | src/wal.rs:208-280 | A file of frames of r bytes or more yields at most its length divided by r records. |
| `IngestModel.AlwaysASuffix` | src/wal.rs:113-201 | FIFO over every run whose new segments are listed last: what was removed, followed by the segments in file-name order, is everything ever stored readably; so the disk always holds a suffix, cut at a segment boundary, through evictions, drains, crashes and reopening. The current segment, if any, is then listed last. |
| `IngestModel.DrainSendsTheOldest` | src/wal.rs:121-136 | In a state whose current segment is listed last, what a drain sends is the front of that queue: the oldest readable records, at most the drain limit of them. |
| `IngestModel.DrainSendsWhatIsNext` | src/wal.rs:121-136 | After every such run from open, a drain sends exactly the records of the history that follow those of all segments removed before. |
| `IngestModel.AlwaysWithinBudget` | src/wal.rs:72-100 | Over every run that reopens no file that holds anything, wherever else the clock goes: once anything was stored, the byte count stays within max(max_bytes, max(segment limit, largest record) + largest record), and every segment made or changed since open is within the segment limit or holds at most one record. |
| `IngestModel.StricterRun` | src/wal.rs:161-176 | Runs that list new segments last reopen no file that holds anything, and runs that reopen none of those reopen no torn one, so they meet the conditions of all run theorems. |
| `IngestModel.FreshlyOpened` | src/wal.rs:39-64 | A buffer opened on any directory meets the starting conditions of all the run theorems. |
| `IngestModel.After` | src/wal.rs:93-99 | Every flush and every crash keeps total_bytes equal to the summed length of all segment files, same-millisecond rotations included. |
| `IngestModel.Run` | src/wal.rs:39-201 | So does every run: total_bytes is exact in every reachable state. |
| `IngestModel.CrashIsFifo` | src/wal.rs:208-258 | A crash that cuts the current segment anywhere takes records only off the end of the queue. |
| `Delivery.ExactlyOnce` | src/collector.rs:133-167 | Over every run that stays within the limits and in which no file operation fails, however often sends do: what was found at open and what was handed in is what is delivered and what is on disk, each record exactly once. |
| `Delivery.FlushRemovesWhatItDrained` | src/collector.rs:141-156 | An acknowledged flush takes the oldest closed segment, with its length, out of the buffer exactly when its drain completes, and then repeats nothing; otherwise it leaves the buffer as it was. |
| `Delivery.FlushDelivers` | src/collector.rs:138-150 | It delivers its batch and what the drain sent, which counts as repeated exactly when the segment could not be deleted. |
| `Delivery.NothingRepeated` | src/wal.rs:139-146 | Over every run in which deletes succeed, nothing acknowledged is sent again. |
| `Delivery.FlushesEmptyTheBuffer` | src/collector.rs:138-156 | As many successful flushes as there are closed segments leave only the segment being written, with its length as the byte count. |
| `Delivery.CrashTouchesOnlyTheCurrent` | src/wal.rs:39-64 | A crash leaves every closed segment as it is and a prefix of the current one; it tears nothing if it cuts nothing. |
| `Delivery.EvictsNoMoreThanNeeded` | src/wal.rs:77-82 | Eviction takes nothing while the record fits in the budget, and without its last victim the record would still not have fitted. |
| `Delivery.NothingEvicted` | src/wal.rs:77-82 | Over every run whose records together fit in the budget, nothing is evicted. |
| `Delivery.StoresUntilFailure` | src/wal.rs:67-110 | A batch is stored whole when no operation fails, and up to a failing append otherwise. |
| `Delivery.WriteKeepsTheCurrent` | src/wal.rs:76-92 | A write never evicts the segment it found being written; only a failed rotation leaves none being written. |
| `Ingest.FlushBatch` | src/collector.rs:133-167 | Over the buffer object: the next state of the books is the model's flush step, and what the monitoring service acknowledged is what the books call delivered. |
| `Ingest.IngestLoop` | src/collector.rs:49-94 | From open to the closing of its channel, the loop's effect on the buffer is the run of the batches that the arrival order and deadlines make, and what it drops is the partial batch left. |
| `Ingest.CollectKeepsEverything` | src/collector.rs:73-92 | Batching neither drops, repeats nor reorders payloads; every batch is nonempty and at most the batch size; less than a batch is left. |
| `Ingest.BatchesAreFull` | src/collector.rs:77-82 | Between deadlines, every batch flushed is exactly full. |
| `Ingest.DeadlineFlushes` | src/collector.rs:86-91 | A deadline flushes what has been collected, if anything, and collecting starts again from nothing. |
| `Ingest.ReceivedIsHandedOrLeft` | src/collector.rs:49-94 | Every payload received is handed to flush_batch or is in the last partial batch. |
| `RecordCodec.ReadSegment` | src/wal.rs:203-283 | The position loop terminates on arbitrary bytes and returns the first max_items of the values a limitless reader finds. |
| `RecordCodec.CrashPrefixRecovers` | src/wal.rs:203-283 | From any byte prefix of an encoded record list the reader gets exactly the records wholly inside the prefix, in order. |
| `RecordCodec.WholeRecordsIsMaximal` | src/wal.rs:93-97 | That number of records is the largest whose encoding fits the prefix. |
| `RecordCodec.EncodingRoundTrips` | src/wal.rs:84-100 | Writing then reading returns the values written, for payloads up to 16 MiB, and leaves nothing torn. |
| `FaithfulCodec.UnaryRestores` | src/wal.rs:84-100 | What is asked of the JSON codec can be met: a codec in unary restores every value, so no encoding is a prefix of another. |
| `RecordCodec.OversizeRecordHidesTheRest` | src/wal.rs:220-230 | A payload over 16 MiB is unreadable and hides whatever follows it. |
| `RecordCodec.TruncationKeepsAPrefix` | src/wal.rs:208-258 | Cutting any bytes short, corrupt ones included, only drops values off the end. |
| `RecordCodec.AppendToFramed` | src/wal.rs:93-97 | Appending to a file with nothing torn adds exactly what the appended bytes hold. |
| `RecordCodec.BlockedStays` | src/wal.rs:222-230 | Behind an impossible length, nothing appended is ever read. |
| `RecordCodec.TornRecordStops` | src/wal.rs:232-258 | A record cut anywhere before its sentinel ends stops the reader. |
| `RecordCodec.DamagedFramesAreSkipped` | src/wal.rs:260-279 | Frames whose last byte is not a line feed, or whose payload is not JSON, add nothing, and what stands around them is read as if they were not there. |
| `RecordCodec.PrefixesSortLikeLengths` | src/wal.rs:93-94 | The length prefix is big-endian: prefixes sort byte by byte as the lengths do. |
| `SegmentNames.EarlierIsNumericOrder` | src/wal.rs:152-166 | Between timestamps of equal decimal width, file-name order is numeric order. |
| `SegmentNames.EarlierExactly` | src/wal.rs:152-166 | The listing order of any two timestamps, by numbers alone: by the shorter one and the other's leading digits at its width. |
| `SegmentNames.KeepsTimeExactly` | src/wal.rs:152-166 | The listing keeps two timestamps in the order of time if and only if the earlier is at most the later one's leading digits. |
| `SegmentNames.WidthMatters` | src/wal.rs:152-166 | So it does not always: the segment of time 10 is listed before that of time 9. |
| `SegmentNames.EarlierIsTotal` | src/wal.rs:152-159 | File-name order is a strict total order on timestamps, so "oldest" is always defined. |
| `WalModel.EvictLoopKeepsValid` | src/wal.rs:77-82 | The eviction loop terminates, touches neither the current segment nor any file's bytes, keeps the byte count exact, and unless it fails ends within budget or with only the current segment left. |
| `WalModel.RemoveKeepsValid` | src/wal.rs:178-201 | In every state with an exact count, removing a segment takes exactly its length off it: the subtraction does not saturate. |
| `WalModel.WriteItemKeepsValid` | src/wal.rs:72-100 | One turn of write_batch keeps the byte count exact whichever of its operations fail. |
| `WalGuarantees.WriteBatchConserves` | src/wal.rs:67-110 | What was readable plus what was stored readably is what is readable plus what eviction took, even when the batch fails midway. |
| `WalGuarantees.SortIsAll` | src/wal.rs:67-110 | Every record stored is either readable or hidden. |
| `WalGuarantees.AppendedRecordReads` | src/wal.rs:93-97 | A record appended to a file with nothing torn can be read if and only if it and all records before it in the file are within 16 MiB. |
| `WalGuarantees.WriteBatchIsFifo` | src/wal.rs:67-110 | The log before, followed by the records stored readably, is what eviction took followed by the log after. |
| `WalGuarantees.WriteBatchWithinBudget` | src/wal.rs:72-100 | A batch never raises the byte count above the budget or above where it started, and ends within the budget if it stored anything. |
| `WalGuarantees.EvictLoopIsFifo` | src/wal.rs:178-201 | Eviction takes whole segments from the old end of the log. |
| `WalGuarantees.SizeExactExactlyWhen` | src/wal.rs:161-176 | After a rotation the size field is the file's length if and only if no file with content was reopened. |
| `WalGuarantees.WrongSizeStays` | src/wal.rs:93-99 | Appending keeps a right size field right and a wrong one wrong. |
| `WalGuarantees.LaterIsAscending` | src/wal.rs:152-176 | Later timestamps of the same width are listed last, so they meet the FIFO condition. |
| `WalGuarantees.SameMillisecondOutgrowsTheLimit` | src/wal.rs:161-176 | Two rotations in one millisecond make a segment longer than its limit whose size field is too small, while total_bytes is right. |
| `WalBuffer.Buffer.constructor` | src/wal.rs:39-64 | open sums the listed segments to the exact byte count, with no current segment. |
| `WalBuffer.Buffer.SortedSegments` | src/wal.rs:152-159 | The listing holds every segment once, in name order. |
| `WalBuffer.Buffer.EvictOldest` | src/wal.rs:178-201 | Removes the first listed segment that is not current, says false when there is none, and changes nothing when the removal fails. |
| `WalBuffer.Buffer.RotateSegment` | src/wal.rs:161-176 | The old writer is gone even when opening the new file fails; an existing file keeps its bytes, its size counted from zero. |
| `WalBuffer.Buffer.MakeRoom` | src/wal.rs:77-82 | The inner loop computes the model's eviction loop, from within any number of turns. |
| `WalBuffer.Buffer.WriteBatch` | src/wal.rs:67-110 | The object's state after a batch is the model's, whether or not it failed, and it reports success exactly when every record was stored and synced. |
| `WalBuffer.Buffer.AppendRecord` | src/wal.rs:93-99 | The three writes of one record move file, size field and byte count together. |
| `WalBuffer.Buffer.HasPending` | src/wal.rs:113-119 | True exactly when a segment other than the current one exists. |
| `WalBuffer.Buffer.ReadOldestBatch` | src/wal.rs:123-136 | Returns the oldest closed segment with the first max_items of its readable values. |
| `WalBuffer.Buffer.DeleteSegment` | src/wal.rs:139-146 | Removes one closed segment and its bytes from the count. |
| `SchedulerModel.NoneLostKeptExactlyWhen` | src/sync.rs:262-277 | Every step of any task keeps every tracked server covered, if and only if it is not a fetch or a reschedule that fails the conditions of the next two rows. |
| `SchedulerModel.FetchCoversExactly` | src/sync.rs:399-415 | After a force-ping's fetch its server is covered if and only if it is stored under the key asked for with a zero spread, or something else stands for its due time. |
| `SchedulerModel.RescheduleCoversExactly` | src/sync.rs:395-398 | After a trigger or force-ping of a known server it is covered if and only if it stores the map's key, or something else stands for the new due time. |
| `SchedulerModel.CleanFetchesKeep` | src/sync.rs:399-415 | A condition on the fetches alone: where each stores its server under the key asked for with a zero spread, no step of any run from well-keyed states loses a server. |
| `SchedulerModel.AlwaysInv` | src/scheduler.rs:73-121 | Over every interleaving whose fetches and reschedules meet those conditions: each tracked server has a heap entry, pending push or popped entry with its current due time, or is queued or in a worker; no wake-up is lost; the heap order holds. |
| `SchedulerModel.AlwaysOrderedAndAwake` | src/scheduler.rs:73-121 | Heap order and wake-ups hold over every interleaving without any condition. |
| `SchedulerModel.WakeInvKept` | src/scheduler.rs:88-121 | Whenever next_due is about to block or blocked, a permit is set or a pusher is between push and notify, or the heap is empty (empty wait), or its minimum is what is slept on (timed wait); every step keeps this. |
| `SchedulerModel.HeapInvKept` | src/scheduler.rs:31-40 | Push numbers stay unique, and an entry that left the heap was above all it passed. |
| `SchedulerModel.AboveMeans` | src/scheduler.rs:31-40 | The reversed ordering puts earlier due times, then earlier pushes, on top of the max-heap. |
| `SchedulerTiming.SentOnlyWhenDue` | src/collector.rs:31-40 | A server is passed to the workers only when it is tracked, due, and due at the time its entry says. |
| `SchedulerTiming.StaleIsDropped` | src/collector.rs:33-38 | The entry of a server no longer tracked, or rescheduled since, is dropped. |
| `SchedulerTiming.NotPolledBeforeDue` | src/collector.rs:31-40 | Over every run, a waiting server is neither queued nor polled before it is due, unless something reschedules it. |
| `SchedulerTiming.FinishedWaits` | src/collector.rs:451-454 | After a poll, its server is not polled again until the delay chosen has passed, unless something reschedules it. |
| `SchedulerTiming.RescheduledIsDue` | src/sync.rs:395-398 | A trigger or force-ping of a tracked server has it, and no other, due at once. |
| `SchedulerTiming.FetchedIsTracked` | src/sync.rs:402-414 | A fetched server is tracked under the name asked for, with the key it was built with, and due when its spread has passed. |
| `SchedulerTiming.DroppedIsNotPolled` | src/collector.rs:358-372 | Over every run, a server that was dropped is not polled again unless it is added again, although its entries and queued work remain. |
| `SchedulerTiming.WokenOncePerPush` | src/scheduler.rs:73-84 | Over every run, each push notifies once, and the blocked task is woken no more often than it was notified. |
| `SchedulerTiming.TakenInOrder` | src/collector.rs:238-252 | Over every run, servers are taken in the order in which they were queued, each as often. |
| `SchedulerGuarantees.PopIsEarliest` | src/scheduler.rs:109-117 | The popped entry is due, and no server resting in the heap is due before it: the lazy heap refines "earliest next_due first". |
| `SchedulerGuarantees.VerifiedIsEarliest` | src/collector.rs:31-38 | Over every run, when an entry is to be checked for staleness: it is due, and every other tracked server resting in the heap has an entry there for its due time that was pushed after the pop, or is due no earlier. |
| `SchedulerGuarantees.TiesLeaveInPushOrder` | src/scheduler.rs:31-40 | Over every run, entries with equal due times leave in push order. |
| `SchedulerGuarantees.DueIsNotSleptThrough` | src/scheduler.rs:88-121 | No due entry waits behind a blocked task that nothing will unblock. |
| `SchedulerGuarantees.DueIsPoppedWithinFive` | src/scheduler.rs:88-121 | From any blocked state with a due entry, at most five steps, all of them notifications and next_due's own, pop a due entry, without time passing. |
| `SchedulerFairness.DueIsEventuallyPopped` | src/scheduler.rs:88-121 | In every endless interleaving in which the scheduler's own steps and the notifications get their turn, whenever an entry in the heap is due, wherever the scheduler is, it comes to pop a due entry, no later than that one. |
| `SchedulerGuarantees.LostStaysLost` | src/collector.rs:31-38 | Once nothing stands for a tracked server, no step but a refresh, trigger or fetch of it brings it back. |
| `SchedulerGuarantees.LostIsNeverPolled` | src/collector.rs:31-38 | So such a server is not polled, however long the system runs, until one of those happens. |
| `SchedulerGuarantees.SomeFetchLoses` | src/sync.rs:399-415 | Such fetches happen: from the start, one whose spread is a second leaves its server tracked and uncovered. |
| `SchedulerGuarantees.BadFetchIsNeverPolled` | src/sync.rs:399-415 | From the fetch on: a force-ping that leaves its server uncovered has it never polled until it is scheduled again. |
| `Scheduler.Inner.Push` | src/scheduler.rs:73-84 | The locked part of the spawned push is the model's push step. |
| `Scheduler.Inner.Peek` | src/scheduler.rs:88-107 | peek returns the one entry above all others, or nothing for an empty heap. |
| `Scheduler.Inner.PopIfDue` | src/scheduler.rs:109-117 | The re-check pops the top entry if it is due and otherwise shows that nothing is. |
| `Players.ExtractPlayers` | src/change_detection.rs:9-25 | The loop with its set of names seen computes the list of first occurrences. |
| `Players.ListsWhatOccurs` | src/change_detection.rs:9-25 | A name is in the list exactly when some item is a string that trims to it and it is not empty. |
| `Players.ListsInOrder` | src/change_detection.rs:9-25 | Names stand in the order of their first occurrences, so none is repeated. |
| `Players.JoinIsInjective` | src/change_detection.rs:28-36 | Joining with newlines is injective on nonempty lists of newline-free names. |
| `Players.HashSeparates` | src/change_detection.rs:28-36 | With a collision-free hash and newline-free names, equal player hashes mean equal lists. |
| `ChangeDetection.BuildChangePayload` | src/change_detection.rs:45-182 | On the record updated in place: the event, its JSON and every last_emitted field are those of the specification, whose JSON the `Observation` rows tie to the payload's; nothing is written when nothing is emitted. |
| `ChangeDetection.DetectChange` | src/change_detection.rs:104-139 | The comparisons, their priority and the heartbeat test pick the specification's event type. |
| `Observation.OnlineEventTellsTexts` | src/change_detection.rs:60-83 | An online poll's event carries in version, motd, country and country_code exactly the payload's text without the white space around it, or nothing where the payload holds no string. |
| `Observation.OnlineEventTellsNumbers` | src/change_detection.rs:52-59 | It carries the payload's two numbers, or null where the payload holds none of 64 bits. |
| `Observation.OnlineEventTellsPlayers` | src/change_detection.rs:9-25 | It lists a player if and only if some item of the payload's list is a string that trims to that nonempty name. |
| `Observation.OfflineEventTells` | src/change_detection.rs:90-102 | An offline poll's event says that nobody is online, repeats the metadata last emitted and lists no players; a country that the payload gives replaces the last one. |
| `Observation.OfflineEventKeeps` | src/change_detection.rs:90-102 | So its JSON keeps these fields of the JSON of the event before it. |
| `Observation.EventTypeTells` | src/change_detection.rs:113-167 | Each of the six event types, and the poll status, is told by its own text. |
| `Text.TrimExactly` | src/change_detection.rs:60-83 | Trimming takes all white space off both ends and nothing else. |
| `DeltaStream.NothingLost` | src/change_detection.rs:45-182 | After any polls, resets and drops, if the last event arrived, the consumer holds the latest normalised observation in every field (players up to their hash), although silent polls sent nothing. |
| `DeltaStream.NothingLostExactly` | src/change_detection.rs:45-182 | With newline-free names the players agree too. |
| `DeltaStream.OneEventRestores` | src/change_detection.rs:141-182 | Any one delivered event restores agreement, whatever was dropped before it. |
| `DeltaStream.EveryEventTellsAll` | src/change_detection.rs:141-167 | The JSON of any event of any run, read alone, is the whole normalised observation of its poll. |
| `DeltaStream.EventReadsBack` | src/change_detection.rs:141-167 | Reading an event's JSON gives back the observation and the event type it was rendered from. |
| `DeltaStream.EventCarriesContext` | src/change_detection.rs:141-167 | An event's JSON also carries the server id, the collection time and the plugin flags, each flag and the player list exactly when it applies. |
| `DeltaStream.SilentExactlyWhenUnchanged` | src/change_detection.rs:113-139 | A poll is silent if and only if something was emitted since the last reset, the observation differs in nothing but hash-equal players, and no heartbeat is due. |
| `DeltaStream.NewlineNamesGoUnnoticed` | src/change_detection.rs:32 | For any two names and any heartbeat, a player named like both joined by a newline replaces them without an event, exactly until a heartbeat falls due. |
| `DeltaStream.SuchPollsExist` | src/change_detection.rs:9-36 | Payloads that do so exist for any two names. |
| `DeltaStream.DroppedIsNotRepeated` | src/collector.rs:468-473 | After a dropped event, for any heartbeat, the same poll again sends nothing if and only if no heartbeat has fallen due. |
| `EventTrace.EventsAreShaped` | src/change_detection.rs:113-139 | Between resets, state_full comes first and only first; each other event's type says exactly how it differs from its predecessor; offline events freeze version, motd and maximum; each heartbeat is at least the heartbeat after the event before it. |
| `EventTrace.UpAndDownAlternate` | src/change_detection.rs:115-120 | server_up and server_down strictly alternate, starting opposite to the first state. |
| `EventTrace.EventsKeepComing` | src/change_detection.rs:125-139 | With heartbeat H and polls at most P apart, consecutive events are less than H + P apart, and after any poll the last event is less than H old. |
| `Models.ServerState.ResetEmitted` | src/models.rs:44-55 | Clears the emission record and nothing else. |
| `Models.ServerState.constructor` | src/models.rs:242-305 | A new record is due at now plus its spread, has never been polled, and has never been emitted. |
| `Polling.FinishPoll` | src/collector.rs:406-466 | The update under the lock counts the outcome and reschedules the server within a tenth, but a second or more ahead, of: the plugin interval for a comparison probe; else the online interval if it answered; else the offline interval, or the capped slowed one if all its polls failed and their number as u32 reaches the threshold. The event is the specification's, and none is sent for a failed comparison probe. |
| `Polling.SkipInternalHost` | src/collector.rs:376-385 | A plugin-managed server on an internal host is looked at again within a tenth of the plugin interval, but a minute or more ahead. |
| `Polling.CountersCount` | src/collector.rs:414-422 | Over every run of polls, the counters are the failures before the first success and since the last one, as u32, and has_succeeded says whether any succeeded. |
| `Polling.NeverAnswered` | src/collector.rs:414-422 | While a server has never answered, both counters are the number of polls, as u32. |
| `Polling.FrozenAfterSuccess` | src/collector.rs:414-449 | After a first success the initial count is frozen and no later poll is slowed. |
| `Polling.SlowedExactlyWhen` | src/collector.rs:433-447 | A poll is slowed if and only if it is not a comparison probe, it and all before it failed, and their number as u32 reaches the threshold. |
| `Polling.SlowdownSlows` | src/collector.rs:445-446 | The slowed interval is at least the offline interval if and only if the cap is. |
| `Polling.DueIsNearTheInterval` | src/collector.rs:451-453 | Every reschedule lies between max(floor, 0.9 x interval) and max(floor, 1.1 x interval) after now; the floor is 1 second, or 60 for an internal-only host. |
| `Polling.DrawsSpread` | src/collector.rs:451-452 | Above the floor, draws spread the due times over the interval in proportion, around the interval itself. |
| `Polling.RescheduleIsNear` | src/collector.rs:432-453 | Every completed poll sets next_due between now + max(1, 0.9 x interval) and now + max(1, 1.1 x interval), whichever interval was chosen. |
| `CatalogModel.RefreshTracksTheCatalog` | src/sync.rs:110-210 | After a nonempty fetch, duplicates and empty ids included, the tracked keys are exactly the nonempty ids fetched; an empty fetch changes nothing. |
| `CatalogModel.SurvivorsKeepTheirRecord` | src/sync.rs:137-184 | A surviving server's emission record is reset exactly when some entry for it differs from its endpoint; its last entry gives endpoint, stored entry and plugin flags; it is due now exactly when some entry turned it to fallback mode; its counters, keys and favicon are untouched. |
| `CatalogModel.LastEntryDecides` | src/sync.rs:162-184 | The last entry decides the stored entry, the plugin flags and whether a Bedrock probe is planned; the due time becomes now exactly when some entry puts the server into fallback mode, and stays otherwise. |
| `CatalogModel.SomeFallsBackMeans` | src/sync.rs:166-173 | That is when the first entry falls back and the server had not, or a later entry falls back behind one that does not. |
| `CatalogModel.NewcomersStartAfresh` | src/sync.rs:186-200 | A new server is tracked under its id with its last entry's endpoint, stored entry and plugin flags, never polled and never emitted, due after its first entry's spread, or now if a later entry turned it to fallback mode. |
| `CatalogModel.ProbeAfterRefresh` | src/sync.rs:174-184 | A planned Bedrock probe stays while every entry wants probes; otherwise the first entry since which all do plans it, and none is planned if the last does not. |
| `CatalogModel.SchedulesExactly` | src/sync.rs:170-200 | A refresh schedules each server it adds after its spread, each that some entry turns to fallback mode now, and nothing else. |
| `CatalogModel.AbsorbAllIsPointwise` | src/sync.rs:123-200 | Each server is updated by its own entries, in order, and by no others. |
| `CatalogModel.RefreshIsASchedulerStep` | src/sync.rs:170-198 | Whatever was fetched, and whatever keys the tracked servers store, a refresh is a step of the scheduler model, and loses no server. |
| `Catalog.ServerMap.Refresh` | src/sync.rs:103-222 | The loop over the fetched servers, on the shared map of records updated in place, computes the model's refresh and its pushes. |
| `Catalog.ServerMap.Update` | src/sync.rs:149-184 | The update of one tracked record, field by field, including the reset and the fallback reschedule. |
| `VarInt.WriteVarInt` | src/ping.rs:423-436 | The loop on a signed value with its mask appends the seven-bit groups of the unsigned 32-bit pattern. |
| `VarInt.ShiftInDisguise` | src/ping.rs:423-436 | The arithmetic shift and mask on a signed number are an unsigned shift by seven. |
| `VarInt.ReadVarInt` | src/ping.rs:438-460 | The read loop computes the specification's outcome on any input. |
| `VarInt.ReadOfWritten` | src/ping.rs:423-460 | For every i32 and whatever follows, reading what was written gives it back and consumes exactly the one to five bytes written. |
| `VarInt.WrittenGroups` | src/ping.rs:423-436 | What is written is the number's groups of seven bits, least significant first, with the eighth bit on all bytes but the last. |
| `VarInt.ReadGroups` | src/ping.rs:438-460 | What is read from any input is the sum of its groups, as 32 bits. |
| `VarInt.ReadOutcome` | src/ping.rs:438-460 | Every input: a number exactly when one of the first five bytes ends it; otherwise too long if there is a sixth byte, end of input if not. |
| `VarInt.WrittenIsShortest` | src/ping.rs:423-460 | No input that reads as a number is shorter than its written form. |
| `Handshake.BuildJavaStatusRequests` | src/ping.rs:407-421 | Builds the frame of the specification and the two-byte status request. |
| `Handshake.FrameReadsBackExactly` | src/ping.rs:407-421 | From the front of any stream, the frame reads back as packet 0, protocol, host bytes, big-endian port and next state 1, with the rest of the stream left, if and only if its length is an i32. |
| `Handshake.HostFits` | src/ping.rs:407-421 | Every host of up to 2^31 - 15 bytes fits. |
| `Versions.NormalizeVersionCandidate` | src/ping.rs:517-532 | The skip-flag loop drops each section sign with the character behind it, then joins the words. |
| `Versions.ParseMinecraftVersionToken` | src/ping.rs:561-617 | The moving-index parser finds at an index exactly the token, and its end, that the specification finds at the front of what starts there, whose parts `VersionTexts.ReadsCore` gives; every slice is in bounds. |
| `Versions.NormalizeShrinks` | src/ping.rs:484-495 | Normalising never lengthens; with the parenthetical being shorter than its holder, the sanitiser's recursion terminates on every string. |
| `Versions.WordsSplit` | src/ping.rs:531 | The words split out are nonempty and free of white space, and together are all of the text but its white space, in order. |
| `Versions.FindIsFirst` | src/ping.rs:534-540 | The search gives the first occurrence, and nothing only when there is none. |
| `Versions.FindTokenIsFirst` | src/ping.rs:542-559 | The token found is the first "1" at a boundary at which a token parses, with that token's end; nothing is found only when there is none. |
| `Versions.SpacesAroundTheDash` | src/ping.rs:501-511 | Spaces on either side of the dash do not change which second token is found. |
| `Versions.ExtractMc` | src/ping.rs:534-540 | The parenthetical is strictly shorter than the text that holds it. |
| `Versions.CompareVersionParts` | src/ping.rs:641-652 | The loop computes the zero-padded comparison. |
| `VersionRanges.CompareIsATotalPreorder` | src/ping.rs:641-652 | The comparison reverses with its arguments and is transitive. |
| `VersionRanges.EqualExactlyWhenPaddedAlike` | src/ping.rs:641-652 | Versions compare equal if and only if they agree once padded with zeros. |
| `VersionRanges.TrailingZeros` | src/ping.rs:641-652 | A trailing zero never changes a comparison. |
| `VersionRanges.LowerEndFirst` | src/ping.rs:633-639 | Every printed range has its lower end first. |
| `VersionRanges.SymmetricExactlyWhen` | src/ping.rs:633-639 | Printing is symmetric if and only if the ends compare different or their labels, each with a dash behind it, are repetitions of one string, as equal labels are. |
| `VersionRanges.CommuteExactlyWhen` | src/ping.rs:633-639 | Two strings concatenate alike both ways round if and only if they are repetitions of one string. |
| `VersionRanges.SymmetricWithoutSuffix` | src/ping.rs:633-639 | For labels without a suffix: if and only if they compare different or are equal. |
| `VersionLabels.CoreLocal` | src/ping.rs:568-588 | A token's numeric core is read the same whatever follows it, if that is nothing or a dash. |
| `VersionLabels.LabelsReparse` | src/ping.rs:561-607 | Reparsing a produced label from its start ends at its end with the same parts, for every kind of token. |
| `VersionIdempotence.SanitizeProduces` | src/ping.rs:484-515 | The sanitiser's output is empty, one reparsing label starting with "1", or a range of two reparsing labels, lower end first. |
| `VersionIdempotence.IdempotentExactlyWhen` | src/ping.rs:484-515 | Sanitising twice is sanitising once if and only if the result is empty, or starts with "1" and does not end in ".x" or ".X". |
| `VersionIdempotence.TwiceIsNotOnce` | src/ping.rs:602-606 | "1.20-pre.x.X" sanitises to "1.20-pre.x", which sanitising changes again. |
| `VersionInputs.TameIsIdempotent` | src/ping.rs:484-515 | A condition on the input: sanitising is idempotent whenever the normalised text has no capital X, and no zero directly behind a dash or a space, through any nesting of parentheticals. |
| `VersionWildcards.TrimLeavesExactly` | src/ping.rs:602-606 | A trimmed label still ends in ".x" or ".X" if and only if it ended in ".x", then ".X" at least once, then any number of ".x". |
| `VersionWildcards.IdempotentInputs` | src/ping.rs:484-515 | The condition on the input, in both directions: sanitising is idempotent if and only if there is no version or, in the innermost parenthetical with one, or else the text itself, the token that ends the output leaves no wildcard and a second token that becomes the lower end starts with "1". |
| `VersionInputs.NormalizeTwice` | src/ping.rs:517-532 | Normalising is idempotent: its result has no section sign, and single spaces for white space, none at the ends. |
| `VersionInputs.ExtractedIsPiece` | src/ping.rs:534-540 | A parenthetical's text is a piece of the text that holds it, with nothing to trim. |
| `VersionTexts.ReadsCore` | src/ping.rs:566-588 | The core "1.m", "1.m.p" or "1.m.x" is read with exactly the numbers its digits write as parts, whatever comes next, and not at all when one of them is not an i32. |
| `VersionTexts.DecimalIsNumber` | src/ping.rs:568-580 | Those numbers are read from their decimal writing, for every number. |
| `VersionTexts.ReadsSuffixed` | src/ping.rs:590-607 | A version with a suffix that starts with pre, rc, snapshot, beta or alpha, in any case, is one token to the suffix's end, with the same parts. |
| `VersionTexts.SuffixReaches` | src/ping.rs:590-596 | A dash starts a suffix exactly before one of those words, and it reaches to the first character that is no letter, digit, dot or dash. |
| `VersionTexts.VersionAlone` | src/ping.rs:484-515 | A version by itself comes back without its wildcard. |
| `VersionTexts.SuffixedAlone` | src/ping.rs:484-515 | One with a suffix comes back as it is, unless it ends in a wildcard. |
| `VersionTexts.RangesAreOrdered` | src/ping.rs:633-652 | A range of two versions is printed with the smaller numbers first, by the numbers in its text; equal ones stay as they are, and become one if written alike. |
| `VersionTexts.LowerPatchFirst` | src/ping.rs:633-652 | So "1.m.p-1.m.q" is printed "1.m.q-1.m.p" for any q less than p, in decimal. |
| `VersionTexts.WordsInFront` | src/ping.rs:542-559 | Words without a "1" in front of a version do not change what is found. |
| `VersionTexts.GluedIsNone` | src/ping.rs:626-631 | A version behind a letter, a digit or a dot is none. |
| `VersionTexts.LetterBehindIsNone` | src/ping.rs:598-600 | Nor is one with a letter right behind it. |
| `VersionTexts.WithoutOne` | src/ping.rs:542-559 | Text without a "1" sanitises to nothing, in parentheses or out of them. |
| `VersionTexts.ParentheticalWins` | src/ping.rs:490-495 | A version in "(MC: ...)", in any case, wins over everything around it. |
| `VersionTexts.SignTakesTwo` | src/ping.rs:519-529 | A section sign goes together with whatever character follows it. |
| `VersionTexts.WholeWord` | src/ping.rs:531 | Text free of white space is one word. |
| `VersionTexts.WordsAroundSpace` | src/ping.rs:531 | White space ends a word, and only white space does. |

## Left out

- gRPC, Redis, HTTP, DNS and SRV lookups, sockets, metrics and logging; a send is an answer of the outside world, a poll is an arbitrary payload and outcome.
- `serde_json` is a codec of which only "decoding the values written gives them back" is assumed, which some codec meets for all values (`FaithfulCodec.UnaryRestores`), and its `to_vec` does not fail; floating point numbers in JSON are a mantissa and an exponent; SHA-256 is a constructor, so free of collisions.
- File operations either succeed or fail without effect, except that a crash may cut the current file at any byte; a failed partial write followed by more appends, and power loss in a segment that was not synced, are not modelled. A failed final sync changes no state.
- `WalModel.Remove`: a metadata call that fails while the removal after it succeeds would count the file as empty, and total_bytes would drift; such a call is not modelled.
- `IngestModel.NothingUnaccounted`: payloads of 4 GiB or more, whose length wraps in the prefix, and rotations that reopen a file with a torn tail, since both can misframe what follows.
- Foreign `.wal` files in the buffer directory, and directory entries that cannot be read.
- Byte counts and timestamps are unbounded; the u32 length prefix, the u32 counters, i32 and i64 ranges are exact.
- Times are finite reals: NaN and rounding are not modelled; jitter and spreads are arbitrary draws in range.
- `SchedulerModel`: the binary heap is a set with its unique top; the waiting loops of next_due, scheduler_loop and the workers are steps rather than methods, since they never return; the bounded work queue and its closing are left out, and a trigger for many servers is as many reschedule steps in a row.
- `Catalog.ServerMap.Refresh`: the id, endpoint, plugin flags and spreads are read out of each server's JSON beforehand, so address parsing, port resolution and the plugin and probe predicates of src/models.rs are not part of this model; map iteration order when dropping servers does not matter and is not modelled.
- `Polling.FinishPoll`: the favicon upload and Bedrock probe between counting and rescheduling, whose awaits hold the same lock.
- `Versions.ParseMinecraftVersionToken`: strings are sequences of characters, so UTF-8 byte offsets are not modelled; the parser is split into its stages, each a method with the source's loop.
- `Ingest.IngestLoop`: the deadline is an event that may come at any time; the partial batch left at shutdown is what the code drops.
- `run_ingest_loop_no_wal`, configuration, metrics, geo lookup, the Bedrock codec, chat text, trigger parsing and discovery probes: single-branch code or small parsers that would only add easy members.
