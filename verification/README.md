# One shard of the replicated write-ahead log

A Dafny model of one shard of the server and the machinery under it: the segment files of the write-ahead log, the
in-memory index over them, the per-stream replica state, the Raft log storage, the engine that moves all four, and the
request parser in front.  `dafny verify dfyconfig.toml` checks the whole project.

The specification is small: a committed sequence of append commands (`History`) stands for a last-writer-wins map from
(stream, stream LSN) to an entry, and for one peak per stream of LSN, Raft index and epoch. The main result,
`Theorems.ReadsAreTheMap`, says that after any run of client writes, acknowledgements, applies, snapshots,
collections, lost leaderships and crashes with recovery, a shard that has applied again all it ever applied answers
every read at or above the highest acknowledgement of its stream exactly as that map does. A read from disk needs
nothing of the sequence; one answered from the cache needs that no LSN is bound to another payload before its old
record has left the cache, which is also exactly what it takes (`CacheRuns.AnswersAsMapIffFarApart`), and which the
entries of caught-up leaders meet by themselves (`LeaderRun.LeaderReadsAreTheMap`).

How the parts fit together:

- `Bytes`, `Record`, `Segment`, `Index`, `Scan`, `Log`, `Wal`, `Writer`: the log.  A directory is a map from segment id
  to bytes with a synced length; a crash leaves of each file any prefix that contains the synced part.  What the bytes
  mean, `Log.DiskLog`, is what the recovery scan finds in them.  `Wal` is the log as a value; the classes of `Writer`
  and `Segment` are the program, each method tied to its value-level meaning.
- `Streams`, `StreamRuns`, `Snapshot`: the stream table, its tail cache, and its snapshot.
- `RaftStorage`, `RaftFile`: the window of Raft entries above a snapshot, measured against a plain log, and the file.
- `History`, `Shard`, `LogInv`, `TableInv`, `ShardRun`, `CacheInv`, `Theorems`, `Guarantees`, `CacheRuns`,
  `ForgottenAck`, `Findings`, `TornTail`, `TornRun`, `FenceRun`, `SegmentRun`: the shard as a state machine, its
  invariant, and what follows for every run. Crashes in runs cut at a record boundary, also in the middle of an
  append, before or after its rotation, or of a collection; a crash at any byte that keeps the segment headers is at
  such a boundary or tears a record (`TornRun.CutIsCleanOrTorn`), and then the reopening and all that follows until
  the next restart are covered by `TornRun.TornReadsAreTheMap`.
- `Leader`: what a caught-up leader allocates and how stepping down undoes it.
- `Engine`, `EngineRun`, `LeaderRun`: the engine class, and the proofs that its methods, opening included, move a shard
  only as the runs do, and a leader only as the leader's runs do.
- `Framing`: the request frames and the loop that parses them.

Hypotheses. The checksum is an arbitrary function of the bytes it covers. Protobuf messages are arbitrary values with
a codec that inverts itself. Committed entries arrive in order and without gaps; after a restart they are delivered
again from a point that the stored snapshot covers. Records fit the 32-bit length field, no LSN is the largest 64-bit
word, and Raft indexes start at 1 (`History.WithinLimits`); counters are unbounded numbers, and where the program
would overflow a 64-bit counter the operation carries a bound. Segment headers survive crashes. So do the creation of
a segment file and its removal: created files never vanish and removed ones never come back. Bytes that survive a
crash are durable from then on (the engine opens any directory whose older segments are durable, but runs restart on
one that is durable throughout). The Raft state file, which is written and renamed without a sync
(src/raft/storage.rs:182-183), is durable once renamed, so a restart finds the Raft state last written. Timestamps are
parameters.

What the code does that its documents or a reader might not expect:

- `open` resumes at the length of the file, not where the scan stopped, so a torn tail is sound for one reopening only.
  Until the next restart reads are right (`TornRun.TornReadsAreTheMap`); but a record appended behind the tear is found
  again by the opening after if and only if there was no tear (`Findings.AcknowledgedAgainFoundIffNoTear`), and any
  crash inside the write of a record makes such a tear (`TornTail.TearLosesNext`, with a state in
  `TornTail.AcknowledgedIsLost`).
- Decoding aborts the process on exactly the buffers of `Record.PanicsExactly`, and there is one for every checksum
  function (`Record.PanicInput`).
- A consumed mark survives a restart only through the snapshot, while the segments it let go of stay gone.  A committed
  record can then be missing although the mark in force does not exclude it (`ForgottenAck.AcksAreForgotten`);
  `ForgottenAck.ReadsExactIffStillOnDisk` says exactly when reads are right.
- The tail cache answers with the oldest record it holds for an LSN, the index with the newest.  Caught-up shards answer
  as the map in all runs, restarts included, if and only if no LSN is bound to another payload before a cache full of
  its stream has gone by since (`CacheRuns.AnswersAsMapIffFarApart`; for the table alone, fed nothing but the sequence,
  `Findings.CacheAgreesIffFarApart`).  While a restarted shard still applies entries again this is not enough: recovery
  has cached later bindings by then (`CacheRuns.ReplayDisagrees`, and `CacheRuns.RebindingShows` for any rebinding of an
  LSN that comes before a cache full of its stream); with a cache larger than the sequence, reads are right throughout
  if and only if no LSN is bound twice (`CacheRuns.AnswersReplayedIffFunctional`).  When no LSN is bound twice at all, the cache agrees
  with the indexed disk in every reachable state (`Theorems.CacheAgreesWithDisk`).
- Request ids start over when a node starts, so a leader that still applies entries of an earlier one can answer the
  wrong client (`EngineRun.StrangerIsAnswered`).  It does if and only if one of its outstanding commands has the entry's
  id without being its command (`Engine.AnswerGoesAstrayIffIdsClash`).
- Between a Raft snapshot and its compaction, the term just below the window is answered with the snapshot's term, which
  is right if and only if no newer term began in between (`RaftStorage.TermBelowWindow`).
- `prompt_v2.md:37-38` asks for truncation below the lowest watermark of all streams and for cutting off laggards; the
  code instead keeps every segment that still holds an indexed record and never cuts a stream off.

## Model

| member | source | states |
|---|---|---|
| `Bytes.FromBEofBE` | src/wal/record.rs:57-78 | a number written big-endian in enough bytes is read back as itself |
| `Bytes.MostSignificantFirst` | src/wal/record.rs:57-138 | the first byte of a number is the most significant |
| `Record.EncodeInto` | src/wal/record.rs:57-78 | filling the buffer in place produces the record's encoding at the front and leaves every later byte alone |
| `Record.RoundTrip` | src/wal/record.rs:57-138 | an encoding followed by any bytes decodes to the record and its size, for any checksum function |
| `Record.DecodedIsEncoded` | src/wal/record.rs:88-138 | whatever decodes is byte for byte the encoding of what it decodes to, so no two byte strings decode to one record |
| `Record.DecodeStable` | src/wal/record.rs:88-138 | every verdict but "too small" is final whatever bytes follow |
| `Record.PrefixTooSmall` | src/wal/record.rs:88-107 | every strict prefix of a decodable record is too small, with the checksum uninterpreted |
| `Record.DecodeCut` | src/wal/record.rs:88-138 | bytes behind a decodable record never influence it |
| `Record.PanicsExactly` | src/wal/record.rs:95-125 | decoding aborts exactly on a full buffer whose length field is below the fixed fields and whose checksum matches |
| `Record.PanicInput` | src/wal/record.rs:95-125 | for every checksum function there is a 48-byte buffer on which decoding aborts |
| `Record.Layout` | src/wal/record.rs:57-78 | at which offsets an encoding holds checksum, length, stream, epoch, entry id, LSN, timestamp and payload, and what the checksum covers |
| `Record.TooSmallCanGrow` | src/wal/record.rs:89-101 | a buffer is called too small only as long as more bytes would lead to another verdict |
| `Record.MismatchNames` | src/wal/record.rs:103-110 | a mismatch names the stored and the computed checksum, which differ |
| `Segment.NewHeader` | src/wal/segment.rs:49-59 | the array filled field by field is the 64-byte header, zeros included |
| `Segment.HeaderRoundTrip` | src/wal/segment.rs:49-79 | a written header is accepted and gives shard, id and time back |
| `Segment.HeaderLayout` | src/wal/segment.rs:49-59 | at which offsets a header holds magic number, version, shard, id and time, all else zero |
| `Segment.AcceptedExactly` | src/wal/segment.rs:62-79 | a header is accepted exactly if it starts with the magic number and version 1, and what a refusal names |
| `Segment.Disk.CreateNew` | src/wal/writer.rs:280-286 | creating a segment file refuses an id that exists |
| `Segment.Disk.ListSegments` | src/wal/segment.rs:82-99 | the listing holds exactly the directory's ids, ascending, whatever order the directory yields |
| `Segment.AscendingUnique` | src/wal/segment.rs:97 | there is one ascending listing of a set of ids |
| `Index.Inserted` | src/wal/index.rs:27-32 | inserting binds one key and no other lookup changes |
| `Index.TruncatedBefore` | src/wal/index.rs:39-44 | truncation removes the keys of one stream below the mark and nothing else |
| `Index.LiveSegments` | src/wal/index.rs:58-63 | a segment is live if and only if some lookup leads into it |
| `Index.StreamLogIndex.Insert` | src/wal/index.rs:27-32 | the object's new contents are those of an insertion |
| `Index.StreamLogIndex.TruncateStreamBefore` | src/wal/index.rs:39-44 | the object's new contents are those of a truncation |
| `Scan.ScanIsImage` | src/wal/writer.rs:100-128 | the bytes scanned are exactly the encodings of the records found, and their locations tile without gap or overlap |
| `Scan.ScanFindsRecords` | src/wal/writer.rs:100-128 | records followed by a strict prefix of one more are all found, at their true offsets and sizes, and the scan stops at the tear without aborting |
| `Scan.ScanContinues` | src/wal/writer.rs:100-128 | scanning a longer file continues where the scan of the shorter one ended |
| `Scan.ScanAppend` | src/wal/writer.rs:100-128 | a record appended to a file that scans to its end adds exactly itself to the scan |
| `Scan.ScanCut` | src/wal/writer.rs:100-128 | cutting a file at any byte loses exactly the records that reach past the cut |
| `Scan.FoundAgainIffNoTear` | src/wal/writer.rs:134-141 | a record is found at the place where one was written at the end of the file if and only if the previous scan had reached the end, and it is then the one written |
| `Log.IndexOfIsLast` | src/wal/writer.rs:107-115 | an index rebuilt by inserting in write order holds every key's last-written location |
| `Log.LogWithNewest` | src/wal/writer.rs:91-130 | the newest segment contributes the end of the recovered log |
| `Log.LogOfRemaining` | src/shard/engine.rs:473-482 | removing segment files removes exactly their records from the recovered log, in order |
| `Log.LastOnlyIn` | src/shard/engine.rs:471-482 | a key keeps its last record when the segment holding that record is kept |
| `Log.LogReadsBack` | src/wal/reader.rs:59-65 | every record of the recovered log decodes from the bytes at its location |
| `Wal.AppendLog` | src/wal/writer.rs:181-222 | an append, rotating or not, adds exactly one record to the log on disk, at the location returned |
| `Wal.RotatedLog` | src/wal/writer.rs:249-268 | rotation leaves the log as it is and the files readable to their ends |
| `Wal.RotatedUsable` | src/wal/writer.rs:249-268 | rotation syncs the old segment, moves to an id that was never in the directory, and writes at its end |
| `Wal.RotatesExactly` | src/wal/writer.rs:214-219 | a segment is closed exactly when an append brings it to the limit |
| `Wal.AppendThenSyncIsDurable` | src/shard/engine.rs:412-423 | after an append and a sync every byte of every segment is durable and the record's bytes are at its location, also when the append rotated |
| `Wal.CollectedLog` | src/shard/engine.rs:471-482 | a collection keeps the current and the live segments and exactly their records |
| `Wal.ReopenedUsable` | src/wal/writer.rs:132-163 | as long as the older segments are durable, the reopened writer is at the end of the newest, which may not be |
| `Wal.CrashHitsNewestOnly` | src/wal/writer.rs:249-251 | a crash changes no segment but the newest |
| `Wal.PrefixNeverPanics` | src/wal/writer.rs:100-128 | the scan of any prefix of a segment that scans to its end stops without aborting |
| `Wal.CrashedOpens` | src/wal/writer.rs:91-130 | opening meets no fault after any crash, at whatever byte |
| `Wal.FaultExactly` | src/wal/writer.rs:91-130 | opening meets no fault exactly if every segment is too short for a header or has a good one and a scan that does not abort; else the first that is neither decides which fault |
| `Wal.NextEntryIsAbove` | src/wal/writer.rs:104-106 | the recovered entry counter is one above the highest entry id found |
| `Wal.CrashLog` | src/wal/writer.rs:91-130 | after a crash at any byte, recovery meets no fault and finds the log up to the cut, a prefix of what was written |
| `Wal.SyncedRecordsSurvive` | src/wal/writer.rs:225-230 | a record whose bytes were synced is recovered at its location after any crash |
| `Wal.SegmentTiles` | src/wal/writer.rs:201-214 | a segment is its header and the encodings of its records, tiled from byte 64 to the last byte |
| `Wal.InFlightBoundary` | src/wal/writer.rs:204-219 | a crash once an append is through, its rotation included, at a record boundary, leaves the directory without or with the record |
| `Wal.WrittenBoundary` | src/wal/writer.rs:204-254 | so does a crash once the record is written and before the next segment, if one is due, is created |
| `Wal.IndexedReads` | src/wal/reader.rs:46-66 | reading through an index that points at last-written locations returns the key's last record |
| `Wal.ReadFails` | src/wal/reader.rs:52-64 | which failure a read reports in which case |
| `Writer.CreateSegment` | src/wal/writer.rs:272-293 | the new file holds its header and nothing else, not yet durable |
| `Writer.WalWriter.AppendWithLogIndex` | src/wal/writer.rs:181-222 | the object's new state and the location returned are those of the value-level append |
| `Writer.WalWriter.Append` | src/wal/writer.rs:168-179 | the standalone append takes the next entry id, and the one after is one higher |
| `Writer.WalWriter.Sync` | src/wal/writer.rs:225-230 | exactly the current segment becomes durable |
| `Writer.WalWriter.Rotate` | src/wal/writer.rs:249-268 | the object's new state is that of the value-level rotation |
| `Writer.ReplaySegment` | src/wal/writer.rs:100-128 | the loop indexes exactly the scanned records, observes those newer than the snapshot, advances the entry counter past them, and aborts exactly when decoding does |
| `Writer.ReplaySegments` | src/wal/writer.rs:91-130 | over all segments in order index, table and counter are those of the whole recovered log, or the first fault is reported |
| `Writer.FaultsAccumulate` | src/wal/writer.rs:91-99 | the first faulty segment decides the outcome of opening |
| `Writer.Resume` | src/wal/writer.rs:132-163 | writing resumes at the end of the newest file, or in a new segment 0 |
| `Writer.Open` | src/wal/writer.rs:69-164 | opening fails exactly on the first faulty segment and changes nothing then; otherwise writer, index and table are those of the recovered log |
| `Writer.WalReader.GetOrOpenSegment` | src/wal/reader.rs:68-88 | a segment is found if and only if it is in the directory, and only then is it kept open |
| `Writer.WalReader.ReadRecord` | src/wal/reader.rs:46-66 | a read returns what the indexed location holds, with every error case |
| `Writer.WalReader.EvictSegment` | src/wal/reader.rs:91-93 | only the named handle is closed |
| `Streams.StreamStateTable.AllocateAppend` | src/shard/stream_state.rs:77-93 | a stale epoch is refused without any change but the stream's creation; otherwise the next LSN is handed out and the fence raised |
| `Streams.StreamStateTable.RollbackUncommittedAppend` | src/shard/stream_state.rs:95-102 | only the newest uncommitted allocation is undone, with the saturating comparison |
| `Streams.StreamStateTable.MarkAppended` | src/shard/stream_state.rs:104-125 | marks only rise and the newest records are cached, popping from the front |
| `Streams.StreamStateTable.MarkCommitted` | src/shard/stream_state.rs:127-131 | commit and last entry only rise |
| `Streams.StreamStateTable.AdvanceConsumed` | src/shard/stream_state.rs:133-144 | the mark only rises, records below it leave the cache's front, and the mark is returned |
| `Streams.StreamStateTable.PopBelow` | src/shard/stream_state.rs:136-142 | popping while the front is below the mark |
| `Streams.StreamStateTable.PushTail` | src/shard/stream_state.rs:117-124 | pushing and popping leaves the newest records up to the limit |
| `Streams.StreamStateTable.ObserveRecovered` | src/shard/stream_state.rs:155-177 | the object's new state after one recovered record |
| `Streams.RecoveryIsApply` | src/shard/stream_state.rs:104-177 | observing a recovered record has exactly the effect of applying its entry |
| `Streams.DropBelowKeeps` | src/shard/stream_state.rs:136-142 | an acknowledgement drops no cached record at or above the mark |
| `Streams.DropBelowExactly` | src/shard/stream_state.rs:136-142 | what is dropped is below the mark, and what is left does not start below it |
| `Streams.AckPrunes` | src/shard/stream_state.rs:133-144 | an acknowledgement raises one stream's mark to the highest sent, prunes its cache up to it, and touches nothing else |
| `StreamRuns.StepWatermarks` | src/shard/stream_state.rs:77-144 | one operation keeps commit below next, lowers no watermark, and lowers next only by an effective rollback by one |
| `StreamRuns.WatermarksOverRuns` | src/shard/stream_state.rs:77-144 | commit never passes next, and commit, consumed, epoch and last entry never decrease, over any sequence of operations |
| `StreamRuns.GrantedExactly` | src/shard/stream_state.rs:77-93 | after any run a write is granted if and only if no write or applied entry of its stream had a higher epoch; it gets the next LSN, and a refusal names the highest epoch |
| `StreamRuns.ReplicasAgree` | src/shard/stream_state.rs:77-131 | two tables fed the same entries agree on commit and last entry whatever allocations, fenced writes, rollbacks and acknowledgements were mixed in |
| `StreamRuns.OnlyAppliesMatter` | src/shard/stream_state.rs:77-131 | removing everything but the applied entries from a run changes no committed mark |
| `StreamRuns.WindowOverRuns` | src/shard/stream_state.rs:104-144 | under in-order applies the cache is a run of consecutive LSNs, within the limit, ending right below commit, whatever is acknowledged |
| `Snapshot.RoundTrip` | src/shard/stream_state.rs:211-277 | written in any iteration order, a snapshot reads back as the table with empty caches |
| `Snapshot.PrefixesRejected` | src/shard/stream_state.rs:230-242 | of all strict prefixes of a snapshot exactly the empty one is accepted, as a table without streams; less than the count is too small, the rest truncated |
| `Snapshot.Layout` | src/shard/stream_state.rs:211-224 | at which offsets a snapshot holds the number of streams and each stream's six numbers |
| `Snapshot.AllStatuses` | src/shard/stream_state.rs:197-209 | every stream is listed exactly once |
| `Snapshot.EncodeSnapshot` | src/shard/stream_state.rs:211-224 | the buffer grown field by field is the snapshot in the order of the listing |
| `Snapshot.DecodeSnapshot` | src/shard/stream_state.rs:226-277 | the cursor loop reads the table, or rejects short and truncated input |
| `RaftStorage.TermAnswers` | src/raft/storage.rs:36-51 | `term` answers as the full log on the window and at the snapshot, and errors above and far below it |
| `RaftStorage.EntriesAnswer` | src/raft/storage.rs:231-254 | `entries` returns the full log's entries up to the size limit, and errors exactly outside the window |
| `RaftStorage.AppendRefines` | src/raft/storage.rs:96-112 | an append replaces exactly the suffix from the batch's first index and stays a window of the new full log |
| `RaftStorage.InstallRefines` | src/raft/storage.rs:114-123 | an installed snapshot is a window of the leader's log |
| `RaftStorage.CreateRefines` | src/raft/storage.rs:125-141 | a snapshot succeeds exactly up to the last index and keeps the window |
| `RaftStorage.CompactRefines` | src/raft/storage.rs:143-157 | compaction keeps a window of the full log if and only if the snapshot covers what it drops |
| `RaftStorage.CompactionIsInvisible` | src/shard/engine.rs:454-459 | after snapshot and compaction the window starts right above the snapshot, also when empty, the boundary term is the true one, and later terms are unchanged |
| `RaftStorage.CompactionKeepsEntries` | src/shard/engine.rs:454-459 | after snapshot and compaction every range of entries above the snapshot is answered as before, errors included |
| `RaftStorage.TermBelowWindow` | src/raft/storage.rs:44-46 | between snapshot and compaction the term below the window is right if and only if no newer term began up to the snapshot |
| `RaftStorage.TermBelowWindowCanBeWrong` | src/raft/storage.rs:44-46 | a state in which that answer is wrong |
| `RaftStorage.StepRefines` | src/raft/storage.rs:91-157 | no call in Raft's order fails, and each moves the window as the full log moves |
| `RaftStorage.RunRefines` | src/raft/storage.rs:91-157 | over any run in that order no call fails and the storage is a window of the full log |
| `RaftStorage.BootstrapRefines` | src/raft/storage.rs:71-85 | a new node starts as a window of the one-entry log |
| `RaftStorage.AppendVerdict` | src/raft/storage.rs:96-112 | an append is refused exactly if it starts below the window, and changes the entries only |
| `RaftStorage.AppendKeepsConsecutiveIff` | src/raft/storage.rs:96-112 | nothing else is checked: the window stays consecutive exactly if the batch is and leaves no gap |
| `RaftStorage.InstallMeta` | src/raft/storage.rs:114-123 | an installed snapshot is committed as a whole, brings its configuration, keeps the vote and never lowers the term |
| `RaftStorage.CreateMeta` | src/raft/storage.rs:125-141 | a snapshot carries the configuration in force, changes nothing else, and fails as the term lookup does |
| `RaftStorage.CompactVerdict` | src/raft/storage.rs:143-157 | compaction drops entries from the front only, does nothing at or below the window, and is refused beyond the log |
| `RaftStorage.BootstrapMeta` | src/raft/storage.rs:71-85 | a new node has voted for nobody, is in the term of its one entry, which is committed, and has its peers as voters |
| `RaftFile.RoundTrip` | src/raft/storage.rs:171-209 | loading what was written gives the state back and ends at the last byte, for any number of entries |
| `RaftFile.TruncationRejected` | src/raft/storage.rs:187-209 | every strict prefix of the file is rejected |
| `RaftFile.Layout` | src/raft/storage.rs:171-181 | which message is where in the file: hard state, configuration, snapshot, number of entries |
| `RaftFile.PersistentStorage.Open` | src/raft/storage.rs:61-89 | bootstraps without a file, fails exactly on a corrupt one, and is otherwise in the state last written |
| `RaftFile.PersistentStorage.LoadState` | src/raft/storage.rs:187-209 | the cursor loop reads messages and the counted entries, or fails |
| `RaftFile.PersistentStorage.Persist` | src/raft/storage.rs:171-185 | the file becomes the encoding of the state in memory |
| `RaftFile.PersistentStorage.SetHardState` | src/raft/storage.rs:91-94 | only the hard state changes, and is on file |
| `RaftFile.PersistentStorage.Append` | src/raft/storage.rs:96-112 | the refining append, on file; on error and on an empty batch nothing changes |
| `RaftFile.PersistentStorage.ApplySnapshot` | src/raft/storage.rs:114-123 | the installed state, on file |
| `RaftFile.PersistentStorage.CreateSnapshot` | src/raft/storage.rs:125-141 | the refining snapshot, on file, or unchanged on error |
| `RaftFile.PersistentStorage.Compact` | src/raft/storage.rs:143-157 | the refining compaction, on file, or unchanged on error |
| `Framing.RoundTrip` | src/protocol/codec.rs:32-107 | a printed request followed by any bytes parses to itself and its size |
| `Framing.DecodeStable` | src/protocol/codec.rs:32-77 | a frame or an error never changes when more bytes arrive |
| `Framing.DecodedIsEncoded` | src/protocol/codec.rs:32-107 | a parsed frame is byte for byte the printing of its request |
| `Framing.Layout` | src/protocol/codec.rs:93-107 | at which offsets a frame holds magic number, version, operation code, stream, epoch, offset, length and payload |
| `Framing.RefusedExactly` | src/protocol/codec.rs:32-62 | once a whole header is there the parser waits while a frame can still come, and refuses exactly when none can |
| `Framing.ErrorNames` | src/protocol/codec.rs:37-47 | what each refusal says of the bytes |
| `Framing.ParseSplit` | src/net/acceptor.rs:154-186 | parsing in two reads is parsing at once, errors included |
| `Framing.ChunksDoNotMatter` | src/net/acceptor.rs:117-186 | however a byte stream is split into reads, requests delivered, leftover and connection state are those of the whole |
| `Framing.NothingInvented` | src/net/acceptor.rs:154-186 | the requests delivered, printed again, and the leftover are the bytes received |
| `Framing.ParsePrinted` | src/net/acceptor.rs:154-186 | printed requests parse to exactly that list with nothing left |
| `Framing.RequestsArrive` | src/net/acceptor.rs:117-186 | any list of requests, printed and split anyhow, arrives in order with an empty buffer |
| `Framing.ClosedForCause` | src/net/acceptor.rs:154-186 | however the bytes are split into reads, an open connection holding a whole header can still complete a frame, and a connection is closed exactly when what follows the requests delivered cannot be one |
| `Framing.EncodeRequest` | src/protocol/codec.rs:93-107 | the buffer grown field by field is the printed request |
| `Framing.Connection.OnRead` | src/net/acceptor.rs:140-186 | one read leaves the connection as feeding the chunk to the specification parser does |
| `History.PeakIsLeast` | src/shard/stream_state.rs:114-130 | the peaks of the committed sequence are the least marks covering it |
| `History.SequencedIsFarApart` | src/shard/stream_state.rs:82-91 | entries that take each stream's LSNs in sequence bind no LSN that was bound before |
| `LogInv.GcKeepsLast` | src/shard/engine.rs:463-484 | a collection, whole or cut short by a crash, keeps the last record of every key not below its consumed mark, whatever log the shard has |
| `LogInv.IndexAfterGc` | src/shard/engine.rs:463-484 | after a collection, whole or cut short, the index still agrees with what is left of the log |
| `LogInv.GcKeepsExactly` | src/shard/engine.rs:471-482 | the segments kept are exactly the current one and those holding an indexed record |
| `LogInv.GcIsSafe` | src/shard/engine.rs:463-484 | every index entry left reads the same record before and after |
| `ShardRun.CollectedTidy` | src/shard/engine.rs:471-482 | what a collection leaves on disk is exactly what is left of the log |
| `LogInv.IndexedReadOf` | src/wal/reader.rs:46-66 | reading through an index that fits a log whose records read back gives the key's last record of that log |
| `LogInv.ContentAfterAppend` | src/shard/engine.rs:412-425 | applying the next entry keeps the disk at least as recent as the entries applied |
| `LogInv.ContentAfterRewind` | src/shard/engine.rs:72-84 | starting again from an earlier entry forgets nothing on disk |
| `LogInv.CaughtUpContent` | src/shard/engine.rs:406-448 | once everything is applied again, each key's last record is the map's entry |
| `TableInv.AppliedGood` | src/shard/engine.rs:426-434 | applying keeps every mark within the committed sequence |
| `TableInv.RecoveredGood` | src/wal/writer.rs:116-124 | recovery adds to the snapshot's marks only what was applied, and caches only indexed records |
| `TableInv.RollbackAllGood` | src/shard/engine.rs:534-536 | rolling back lowers no mark but next, and touches neither cache nor consumed mark |
| `ShardRun.ApplyKeeps` | src/shard/engine.rs:406-448 | applying the next entry, first time or again, keeps the invariant |
| `ShardRun.SnapshotKeeps` | src/shard/engine.rs:450-461 | a snapshot whose data may be ahead of its index keeps the invariant |
| `ShardRun.CollectKeeps` | src/shard/engine.rs:463-484 | a collection that drops any of the segments it may drop keeps the invariant |
| `ShardRun.StepDownKeeps` | src/shard/engine.rs:517-545 | losing leadership keeps the invariant |
| `ShardRun.StepKeepsState` | src/shard/engine.rs:187-545 | no event but a restart needs to know the log to keep marks, cache, snapshot and Raft storage right |
| `ShardRun.RecoveredStateGood` | src/shard/engine.rs:72-84 | opening any files whose log holds committed entries only makes them right again |
| `ShardRun.RestartLog` | src/wal/writer.rs:91-130 | recovery after a crash at a record boundary, at any stage of an append, finds the log, with or without the record in flight |
| `ShardRun.RestartKeeps` | src/shard/engine.rs:57-124 | crash at any stage of an append, and recovery, keep the invariant |
| `ShardRun.StepKeepsInv` | src/shard/engine.rs:187-545 | every event keeps the invariant |
| `CacheInv.StepKeepsCache` | src/shard/stream_state.rs:104-144 | every event, restarts included, keeps each cached record no further back in its stream than the cache reaches |
| `CacheInv.NearIsContent` | src/shard/stream_state.rs:146-153 | such a cache, caught up, answers with the map's payload when rebindings are far apart |
| `Theorems.StartIsRecovered` | src/shard/engine.rs:57-124 | runs start from what opening an empty directory makes: one segment with nothing in it, an empty table, a bootstrapped Raft storage |
| `Theorems.RunKeepsInv` | src/shard/engine.rs:126-171 | the invariant holds throughout every run |
| `Theorems.ReachableGood` | src/shard/engine.rs:57-171 | the invariant holds in every state reachable from an empty directory |
| `Theorems.RescanAgrees` | src/wal/writer.rs:91-130 | in every reachable state a rescan would index every key not consumed exactly as the live index does, at its last-written location |
| `Theorems.ReadsAreCommitted` | src/shard/engine.rs:276-324 | in every reachable state whatever a read returns was committed for that stream and LSN |
| `Theorems.CaughtUpMarks` | src/shard/engine.rs:406-461 | after any crashes, collections and early snapshots, replaying restores commit and last entry to exactly the peaks of the sequence |
| `Theorems.MapIsOnDisk` | src/shard/engine.rs:406-484 | what the map holds above the acknowledgements is on disk, indexed and below commit, and what it does not hold is not |
| `Theorems.MapIsInLog` | src/shard/engine.rs:406-484 | the same for any log that fits the shard |
| `Theorems.ReadsAreTheMap` | src/shard/engine.rs:276-324 | a caught-up shard answers reads above the acknowledgements exactly as the map, after any run; if from the cache, given that rebindings are far apart |
| `Theorems.TailIsContent` | src/shard/stream_state.rs:146-153 | a cached answer carries the map's payload when no LSN is bound twice |
| `Theorems.CachedIsContent` | src/shard/stream_state.rs:146-153 | on a caught-up shard a cached answer carries the map's payload when rebindings are far apart, after any run |
| `Theorems.CaughtUpCacheAgreesWithDisk` | src/shard/stream_state.rs:104-153 | and is then what the indexed disk read gives |
| `Theorems.CacheAgreesWithDisk` | src/shard/stream_state.rs:104-153 | when no LSN is bound twice, in every reachable state a cached answer at or above the consumed mark is what the indexed disk read gives |
| `Theorems.ReplayedIsAnswered` | src/shard/engine.rs:276-324 | while entries are still being applied again, what those applied so far bound is already answered with its payload |
| `Guarantees.AppliedIsDurable` | src/shard/engine.rs:412-443 | when an apply answers, all bytes are synced, the record's are at its location, and after any crash recovery finds the log and that record |
| `Guarantees.ReplicasAgree` | src/shard/engine.rs:276-448 | two caught-up replicas of one sequence whose rebindings are far apart for both caches agree on marks and on every read, whatever each went through |
| `Guarantees.WatermarksRise` | src/shard/stream_state.rs:77-177 | between restarts no watermark of any stream falls, and commit never passes next |
| `Guarantees.NextFallsOnlyOnStepDown` | src/shard/stream_state.rs:95-102 | between restarts a stream's next LSN falls only when leadership is lost |
| `Guarantees.EpochsNeverGoBack` | src/shard/stream_state.rs:84-92 | the epochs granted on a stream never decrease between restarts |
| `Guarantees.GrantsRespectHistory` | src/shard/stream_state.rs:84-92 | a granted epoch is at least that of every entry of the stream applied so far, also of those a restart recovered by snapshot |
| `FenceRun.FenceIsHighest` | src/shard/stream_state.rs:84-114 | between restarts a stream's fence is the highest epoch that clients' writes and applied entries brought since, or what it was |
| `FenceRun.GrantedExactly` | src/shard/stream_state.rs:84-92 | in any run a client's write is granted if and only if nothing since the last restart brought its stream a higher epoch and the fence was not higher then; a refusal names the higher |
| `FenceRun.RecoveredFence` | src/wal/writer.rs:116-124 | recovery restores the fence from the snapshot and from the records newer than it |
| `FenceRun.RefusedForCause` | src/shard/stream_state.rs:84-89 | in any run, restarts included, a refusal names an epoch that an earlier write or an applied entry of the stream really had, and that is higher |
| `Guarantees.NoIdReused` | src/wal/writer.rs:84-88 | a segment id that was used and removed never names a segment again, across rotations, collections and restarts |
| `Guarantees.SegmentLayout` | src/wal/writer.rs:201-268 | in every reachable state the current segment is the newest, older ones are synced, and records tile each file |
| `SegmentRun.NamedAndFull` | src/wal/writer.rs:217-293 | in every reachable state each segment's header names its shard and its own id, and no segment was closed below the limit |
| `SegmentRun.RoomIsKept` | src/wal/writer.rs:216-219 | while a shard runs its current segment is below the limit or empty |
| `SegmentRun.StartHasRoom` | src/wal/writer.rs:272-293 | a fresh shard's one segment has room |
| `SegmentRun.NextEntryIsNew` | src/wal/writer.rs:104-106 | in every reachable state the entry counter is above every entry id on disk |
| `Guarantees.SnapshotIsInvisible` | src/shard/engine.rs:450-461 | the shard's snapshot compacts the Raft log right up to it and no later term changes |
| `Leader.HeadIsNext` | src/shard/engine.rs:197-231 | the oldest proposal of a caught-up leader is at its stream's commit mark and still pending |
| `Leader.AllocationIsGapFree` | src/shard/engine.rs:187-232 | on a caught-up leader, at every step, with snapshots and moves of its Raft log and applied index in between, each stream's pending LSNs are exactly those from commit to next, each held once |
| `Leader.StepDownUndoes` | src/shard/engine.rs:517-545 | the descending rollback returns every stream to next equal to commit and changes nothing else |
| `Engine.ShardEngine.Open` | src/shard/engine.rs:57-124 | fails exactly on an unreadable snapshot or a faulty segment; otherwise the state recovered from snapshot and log, also when the newest segment is not durable yet |
| `Engine.ShardEngine.HandleWrite` | src/shard/engine.rs:192-232 | refuses without leadership or with a stale epoch, saying why; otherwise allocates, remembers the client and proposes that command, and fails if Raft refuses it |
| `Engine.ShardEngine.HandleRead` | src/shard/engine.rs:233-324 | answers as the shard's read and changes nothing |
| `Engine.ShardEngine.HandleAck` | src/shard/engine.rs:240-251 | advances one stream's mark and answers with the new mark, leader or not |
| `Engine.ShardEngine.MaybeSnapshotRaftState` | src/shard/engine.rs:450-461 | snapshots and compacts exactly when 64 entries were applied since the last |
| `Engine.SnapshotEvery64` | src/shard/engine.rs:450-461 | a snapshot is taken exactly when at least 64 entries were applied since the last, and is then one of what was applied |
| `Engine.ShardEngine.ApplyRecord` | src/shard/engine.rs:406-444 | appends, syncs, indexes, marks, and answers the pending client if there is one |
| `Engine.ShardEngine.ApplyAppendEntry` | src/shard/engine.rs:406-448 | an apply followed by a due snapshot, the answer unaffected by the snapshot |
| `Engine.ShardEngine.HandleCommitted` | src/shard/engine.rs:350-358 | entries without a command change nothing; others are applied |
| `Engine.ShardEngine.ApplyCommitted` | src/shard/engine.rs:349-361 | a batch is handled entry by entry up to the first error, all answers in order, and only then counts as applied |
| `Engine.ShardEngine.TrimIndex` | src/shard/engine.rs:464-469 | after the loop every stream's keys below its mark are gone and no others |
| `Engine.ShardEngine.DropSegments` | src/shard/engine.rs:471-482 | exactly the segments neither current nor live are removed, none left open |
| `Engine.ShardEngine.RunGc` | src/shard/engine.rs:463-484 | the new state is that of the collection proved safe and exact |
| `Engine.ShardEngine.FailAll` | src/shard/engine.rs:534-544 | each write is rolled back and its client told, in order |
| `Engine.ShardEngine.FailPendingWritesNotLeader` | src/shard/engine.rs:517-545 | every pending write is drained once, rolled back in sorted order and answered |
| `Engine.NotLeaderTold` | src/shard/engine.rs:533-544 | each write given up is answered once, in order: not the leader, its epoch, and who leads |
| `Engine.EveryoneToldOnce` | src/shard/engine.rs:517-545 | every client with a pending write is told exactly once, and nothing more if the write is committed after all |
| `Engine.SortPending` | src/shard/engine.rs:522-531 | lists every pending write once, by stream and descending LSN, in whatever order the map yields |
| `Engine.OwnWriteIsAnswered` | src/shard/engine.rs:436-444 | on a caught-up leader the answer goes to the very write that was committed |
| `Engine.AnswerGoesAstrayIffIdsClash` | src/shard/engine.rs:436-444 | an entry is answered if and only if its id is outstanding, and to a client it does not belong to if and only if an outstanding command has its id without being its command |
| `Engine.OtherIdsAreHarmless` | src/shard/engine.rs:436-444 | without such a clash an inherited entry answers nobody and leaves the leader's writes pending |
| `Engine.InheritedEntryAnswersStranger` | src/shard/engine.rs:436-444 | with an inherited entry of the same request id, the answer goes to a client whose write is not committed |
| `EngineRun.BatchIsRun` | src/shard/engine.rs:349-359 | between any two entries of a batch the engine is in a reachable state |
| `EngineRun.BatchStaysReachable` | src/shard/engine.rs:349-361 | a batch of the next committed entries, with the applied index where the engine moves it, leaves the engine in a reachable state |
| `EngineRun.MovesBehindBatch` | src/shard/engine.rs:349-361 | the applied index moves to the batch's last entry or stays beyond it, and everything of the sequence up to it has been applied |
| `EngineRun.WriteStaysReachable` | src/shard/engine.rs:192-232 | so does a client's write |
| `EngineRun.AckStaysReachable` | src/shard/engine.rs:240-251 | so does an acknowledgement |
| `EngineRun.GcStaysReachable` | src/shard/engine.rs:463-484 | so does a collection |
| `EngineRun.StepDownStaysReachable` | src/shard/engine.rs:517-545 | so does losing leadership |
| `EngineRun.RestartStaysReachable` | src/shard/engine.rs:57-124 | after a crash at a record boundary, at any stage of an append, neither way of failing to open happens, and the engine opened is in a reachable state |
| `EngineRun.StrangerIsAnswered` | src/shard/engine.rs:107-107 | a reachable state in which applying the next committed entry answers a client whose write is to another stream and not committed |
| `EngineRun.UncommittedIsNotRead` | src/shard/engine.rs:282-292 | nothing at or above a stream's committed mark is ever answered, whatever cache, index and disk hold |
| `EngineRun.ReplyIsTrue` | src/shard/engine.rs:276-324 | a read is answered Ok if and only if there is an answer, to the connection that asked |
| `EngineRun.ReadIsTold` | src/shard/engine.rs:276-324 | on a caught-up leader the client is told not found, with the stream's epoch, if the map has nothing at the LSN, and else Ok with the entry's payload and with the entry's epoch, or the stream's if it was cached |
| `LeaderRun.StepStaysReachable` | src/shard/engine.rs:187-461 | every step of a leader, moves of its Raft log and applied index included, is a step of its shard |
| `LeaderRun.RunStaysReachable` | src/shard/engine.rs:126-171 | a leader that gets its proposals back in order stays in reachable states |
| `LeaderRun.CommitIsInSequence` | src/shard/engine.rs:406-434 | the entry that a caught-up leader commits takes the LSN right above all earlier ones of its stream |
| `LeaderRun.CommitsAreInSequence` | src/shard/engine.rs:187-232 | over its run the entries it commits carry each stream's LSNs in order, without gap or repetition |
| `LeaderRun.LeaderReadsAreTheMap` | src/shard/engine.rs:276-324 | at every step of such a run reads above the acknowledgements answer as the map, without a hypothesis on what it commits |
| `LeaderRun.FreshLeader` | src/shard/engine.rs:57-124 | a fresh shard is a start for such a run |
| `LeaderRun.WriteIsPropose` | src/shard/engine.rs:192-232 | the engine's write is the leader's proposal |
| `LeaderRun.HandledIsCommit` | src/shard/engine.rs:349-359 | what the engine does for its own committed entry continues a leader's run by a commit, and a snapshot if one is due |
| `LeaderRun.BatchIsLeaderRun` | src/shard/engine.rs:349-361 | a batch of its own proposals, with the applied index where the engine moves it, is a leader's run that ends in the engine's state with the rest of the queue |
| `Findings.AcknowledgedAgainFoundIffNoTear` | src/wal/writer.rs:127-141 | after any crash and reopening, a record is recovered next time at the place of one then synced and acknowledged if and only if the newest segment had no torn tail, and it is then the acknowledged one |
| `TornTail.TearLosesNext` | src/wal/writer.rs:127-141 | in any reachable state a crash strictly inside the write of a record leaves files that open, and the next record appended and synced is not found by the opening after |
| `TornTail.AcknowledgedIsLost` | src/wal/writer.rs:127-141 | a reachable state and a crash in which this happens |
| `TornRun.CutIsCleanOrTorn` | src/wal/writer.rs:204-254 | a crash once the record is being written, at whatever byte, headers kept, is at a record boundary or tears that record |
| `TornRun.CompleteIsCleanOrTorn` | src/wal/writer.rs:204-268 | so is one after the rotation |
| `TornRun.TornLog` | src/wal/writer.rs:91-141 | opening after a torn write succeeds and finds exactly the log before it |
| `TornRun.StepKeepsSession` | src/shard/engine.rs:187-545 | behind a tear, every event but a restart keeps the log, what was found and what was written since, readable, indexed and current |
| `TornRun.TornReadsAreTheMap` | src/wal/writer.rs:127-141 | after a torn write and reopening, through any events up to the next restart, a caught-up shard answers reads as the map, as after any other restart |
| `Findings.CacheAgreesIffFarApart` | src/shard/stream_state.rs:104-153 | the cache, of any limit, of a table that applied the sequence and nothing else agrees with the map after every prefix if and only if rebindings are far apart |
| `CacheRuns.AnswersAsMapIffFarApart` | src/shard/engine.rs:276-324 | over all runs, restarts included, every caught-up shard answers every read above the acknowledgements as the map if and only if rebindings are far apart |
| `CacheRuns.ReplayDisagrees` | src/wal/writer.rs:116-124 | a reachable state in which, while entries are applied again, the cache answers another payload than the disk and the map of those applied so far, though rebindings are far apart |
| `CacheRuns.RebindingShows` | src/wal/writer.rs:116-124 | whenever an LSN is bound to a second payload and fewer entries of its stream than the cache holds come up to the first binding, a reachable state answers a read wrongly |
| `CacheRuns.AnswersReplayedIffFunctional` | src/shard/engine.rs:276-324 | with a cache larger than the sequence, reads are right in every reachable state, while entries are applied again too, if and only if no LSN is bound to two payloads |
| `Findings.TailAnswers` | src/shard/stream_state.rs:117-153 | the cache answers with the oldest record of the LSN that was not evicted |
| `Findings.LargeCacheAgreesIffFunctional` | src/shard/stream_state.rs:104-153 | a cache that never evicts agrees if and only if no LSN is bound to two payloads |
| `Findings.NearDisagrees` | src/shard/stream_state.rs:146-153 | an LSN bound again too soon makes the cache wrong after some prefix |
| `ForgottenAck.ReadsAboveConsumed` | src/shard/engine.rs:276-324 | in a run without restarts, reads at or above the consumed mark answer exactly as the map when rebindings are far apart |
| `ForgottenAck.ReadsExactIffStillOnDisk` | src/shard/engine.rs:276-324 | with restarts, they do if and only if the key was never written or a record of it is still on disk |
| `ForgottenAck.AcksAreForgotten` | src/shard/stream_state.rs:133-144 | a reachable state whose consumed mark does not exclude a committed record that reads as missing |

## Left out

- raft-rs itself (elections, quorum, ready generation): committed entries are given, in order.
- Installing a leader's snapshot on a follower reaches the Raft storage only, as in the code (src/shard/engine.rs:336-340); the stream table and the log are not rebuilt from it, and runs contain no such event.
- The rest of `drive_ready`: hard state, entries and messages of a ready; in runs, Raft may change its hard state and entries at any time.
- Sockets, channels (including a full channel that drops a request or a response), eventfds, timers, threads and `select!`.
- I/O errors, and the process aborts they lead to; only files that are too short, faulty headers and undecodable bytes are modelled.
- Shard.Read: does not model that decoding an indexed location could abort the process; that answer is `Missing` here, and no reachable state has one.
- RaftStorage.EntriesAnswer: does not model how raft-rs turns a size limit into a count of entries, which it does outside this repository; the count is a parameter, zero included.
- Streams.StreamStateTable.MarkAppended: does not model 64-bit wrap-around of `stream_lsn + 1`; runs exclude the largest LSN instead.
- Writer.WalReader.GetOrOpenSegment: does not model the open files themselves, only which segments are open; every open one is still in the directory.
- Framing.Connection.OnRead: does not model routing to shards or the response queue; a delivered request is one handed to a shard channel, or answered that its shard is unavailable.
- `GetStatus` requests, the response and status codecs, the append-command codec, peer framing and file names: easy repeats or plain queries.
- Message codecs and the checksum function: parameters, without collision claims.
- The number of streams in a snapshot, and of Raft entries in the state file, is below 2^32; beyond that the casts would truncate the count.
- NUMA placement, the shard router, configuration, metrics, benches and clients.
- `GroupCommitBatcher` (src/shard/batch.rs): nothing uses it; every apply syncs.
