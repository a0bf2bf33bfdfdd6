/** The shard engine: the object whose methods the events of a running shard are, each tied to its value-level step. */
module Engine {
  import opened Bytes
  import opened Record
  import opened Segment
  import opened Index
  import opened Log
  import opened Streams
  import opened Wal
  import opened Writer
  import opened History
  import opened Shard
  import opened Leader
  import opened RaftFile
  import Raft = RaftStorage
  import Snapshot

  datatype Status = Ok | ErrNotFound | ErrEpochFenced | ErrNotLeader

  datatype Response = Response(conn: nat, status: Status, epoch: nat, offset: nat, payload: seq<byte>)

  /** What Raft hands over as committed: client commands among entries that carry none. */
  datatype CommittedEntry = Normal(entry: Entry) | Blank(index: u64)

  function IndexOfCommitted(c: CommittedEntry): u64 {
    match c
    case Normal(e) => e.index
    case Blank(i) => i
  }

  function ReplyTo(conn: nat, lsn: nat, r: Reply): Response {
    match r
    case Answer(epoch, at, payload) => Response(conn, Ok, epoch, at, payload)
    case Missing(epoch) => Response(conn, ErrNotFound, epoch, lsn, [])
  }

  function WithSnapshot(s: Shard, order: seq<nat>): Shard
    requires Raft.Consecutive(s.raft.entries) && forall id <- order :: id in s.table.streams
  {
    if SnapshotDue(s) then SnapshotTaken(s, order) else s
  }

  /** The answer to the client whose write an applied command was, if it is one this node accepted. */
  function PendingReply(pending: map<nat, Pending>, e: Entry): seq<Response> {
    if e.cmd.request in pending then
      var p := pending[e.cmd.request];
      [Response(p.conn, Ok, p.epoch, p.lsn, [])]
    else []
  }

  /** Handling one committed entry takes the shard from s to s'; the snapshot lists the streams in some order. */
  ghost predicate Handles(cfg: Config, s: Shard, c: CommittedEntry, clock: (u64, u64), s': Shard) {
    match c
    case Blank(_) => s' == s
    case Normal(e) =>
      && Usable(s.wal)
      && exists order :: AppliesInOrder(ApplyEntry(cfg, s, e, clock.0, clock.1), order, s')
  }

  ghost predicate AppliesInOrder(s: Shard, order: seq<nat>, s': Shard) {
    Snapshot.IsOrder(s.table, order) && Raft.Consecutive(s.raft.entries) && s' == WithSnapshot(s, order)
  }

  /** The states between the entries of a batch, from the first up to some entry. */
  ghost predicate HandlesAll(cfg: Config, states: seq<Shard>, batch: seq<CommittedEntry>, clock: seq<(u64, u64)>) {
    && 0 < |states| <= |batch| + 1 && |clock| == |batch|
    && forall i :: 0 <= i < |states| - 1 ==> Handles(cfg, states[i], batch[i], clock[i], states[i + 1])
  }

  /** What clients are sent while a batch is handled. */
  ghost function BatchReplies(states: seq<Shard>, batch: seq<CommittedEntry>): seq<Response>
    requires 0 < |states| <= |batch| + 1
    decreases |states|
  {
    if |states| == 1 then []
    else
      var i := |states| - 2;
      BatchReplies(states[..i + 1], batch)
      + (if batch[i].Normal? then PendingReply(states[i].pending, batch[i].entry) else [])
  }

  class ShardEngine {
    const cfg: Config
    const disk: Disk
    const writer: WalWriter
    const reader: WalReader
    const index: StreamLogIndex
    const streams: StreamStateTable
    const store: PersistentStorage
    var applied: nat
    var pending: map<nat, Pending>
    var requests: nat
    var leading: bool
    var leaderId: nat
    var responses: seq<Response> // sent to clients
    var proposals: seq<Command> // handed to Raft

    ghost function State(): Shard
      reads this, disk, writer, index, streams, store
    {
      Shard(Wal(disk.files, writer.cur, writer.off, writer.nextEntry, writer.nextSeg),
            index.entries, streams.State(), store.state, applied, pending, requests)
    }

    ghost predicate Valid()
      reads this, disk, writer, reader, index, streams, store
    {
      && writer.disk == disk && reader.disk == disk && writer.cfg == cfg && reader.crc == cfg.crc
      && Usable(State().wal) && reader.handles <= disk.files.Keys && store.Valid()
    }

    constructor (
        cfg: Config, disk: Disk, writer: WalWriter, reader: WalReader, index: StreamLogIndex,
        streams: StreamStateTable, store: PersistentStorage, applied: nat)
      ensures this.cfg == cfg && this.disk == disk && this.writer == writer && this.reader == reader
      ensures this.index == index && this.streams == streams && this.store == store
      ensures this.applied == applied && pending == map[] && requests == 0 && !leading
      ensures responses == [] && proposals == []
    {
      this.cfg, this.disk, this.writer, this.reader := cfg, disk, writer, reader;
      this.index, this.streams, this.store, this.applied := index, streams, store, applied;
      pending, requests, leading, leaderId, responses, proposals := map[], 0, false, 0, [], [];
    }

    /** `open`: stream table from the stored snapshot, index and newer records from the log. */
    static method Open(cfg: Config, disk: Disk, store: PersistentStorage, applied: nat, ts: u64)
      returns (engine: ShardEngine?)
      requires store.Valid() && OlderSynced(disk.files)
      modifies disk
      ensures engine == null <==>
                !Snapshot.Decoded(cfg.tailLimit, old(store.state.snap.data)).Snapshot?
                || FirstFault(cfg.crc, old(disk.files), Ids(old(disk.files).Keys)) != NoFault
      ensures engine != null ==>
                && fresh(engine) && engine.disk == disk && engine.store == store && engine.Valid()
                && Snapshot.Decoded(cfg.tailLimit, old(store.state.snap.data)).Snapshot?
                && engine.State() == Recovered(cfg, old(disk.files), store.state, applied, ts)
      ensures store.state == old(store.state)
    {
      hide FirstFault, Reopened, IndexOf, DiskLog, ObserveLog, Usable, Format;
      var snapshot := Snapshot.DecodeSnapshot(cfg.tailLimit, store.state.snap.data);
      if !snapshot.Snapshot? {
        return null;
      }
      var table := new StreamStateTable.FromSnapshot(snapshot.table.streams, snapshot.table.limit);
      ReopenedUsable(cfg, disk.files, ts);
      var fault, writer, index, streams := Writer.Open(cfg, disk, table, store.state.snap.index, ts);
      if fault != NoFault {
        return null;
      }
      var reader := new WalReader(cfg.crc, disk);
      engine := new ShardEngine(cfg, disk, writer, reader, index, streams, store, applied);
    }

    method SendResponse(r: Response)
      modifies this`responses
      ensures responses == old(responses) + [r]
    {
      responses := responses + [r];
    }

    // ---- client requests ----

    /**
     * A write.  Raft may refuse the proposal: that ends the shard's loop, with the LSN allocated and the client
     * remembered.
     */
    method HandleWrite(conn: nat, stream: u64, epoch: u64, payload: seq<byte>, refused: bool) returns (failed: bool)
      requires Valid() && requests + 1 < U64_LIMIT && Get(streams.State(), stream).next < U64_LIMIT
      modifies this, streams
      ensures Valid()
      ensures !leading ==>
                && State() == old(State()) && proposals == old(proposals)
                && responses == old(responses) + [Response(conn, ErrNotLeader, 0, leaderId, [])]
      ensures leading ==> State() == LeaderWrite(old(State()), conn, stream, epoch)
      ensures leading ==>
                match Allocate(old(streams.State()), stream, epoch).1
                case Stale(current, _) =>
                  && proposals == old(proposals)
                  && responses == old(responses) + [Response(conn, ErrEpochFenced, current, 0, [])]
                case Allocated(lsn) =>
                  && responses == old(responses)
                  && proposals == old(proposals)
                     + if refused then [] else [Command(old(requests) + 1, stream, epoch, lsn, payload)]
      ensures failed <==> leading && Allocate(old(streams.State()), stream, epoch).1.Allocated? && refused
    {
      hide Usable, Format;
      failed := false;
      if !leading {
        SendResponse(Response(conn, ErrNotLeader, 0, leaderId, []));
        return;
      }
      var r := streams.AllocateAppend(stream, epoch);
      match r
      case Stale(current, _) =>
        SendResponse(Response(conn, ErrEpochFenced, current, 0, []));
      case Allocated(lsn) =>
        requests := requests + 1;
        pending := pending[requests := Pending(conn, stream, epoch, lsn)];
        if refused {
          return true;
        }
        proposals := proposals + [Command(requests, stream, epoch, lsn, payload)];
    }

    method HandleRead(conn: nat, stream: u64, lsn: u64)
      requires Valid()
      modifies this`responses, reader
      ensures Valid() && State() == old(State())
      ensures responses == old(responses) + [
                if leading then ReplyTo(conn, lsn, Read(cfg, old(State()), stream, lsn))
                else Response(conn, ErrNotLeader, 0, leaderId, [])]
    {
      hide Usable, Format, FindTail, ReadRecordResult;
      if !leading {
        SendResponse(Response(conn, ErrNotLeader, 0, leaderId, []));
        return;
      }
      if stream in streams.streams && lsn >= streams.streams[stream].commit {
        SendResponse(Response(conn, ErrNotFound, streams.streams[stream].epoch, lsn, []));
        return;
      }
      var tail := streams.ReadFromTail(stream, lsn);
      if tail.Some? {
        SendResponse(Response(conn, Ok, streams.CurrentEpoch(stream), tail.value.lsn, tail.value.payload));
        return;
      }
      var r := reader.ReadRecord(stream, lsn, index);
      match r
      case Found(rec) => SendResponse(Response(conn, Ok, rec.epoch, rec.lsn, rec.payload));
      case _ => SendResponse(Response(conn, ErrNotFound, streams.CurrentEpoch(stream), lsn, []));
    }

    method HandleAck(conn: nat, stream: u64, lsn: u64)
      requires Valid()
      modifies this`responses, streams
      ensures Valid() && State() == old(State()).(table := Acked(old(streams.State()), stream, lsn))
      ensures responses == old(responses) + [
                Response(conn, Ok, Get(streams.State(), stream).epoch, Get(streams.State(), stream).consumed, [])]
    {
      var consumed := streams.AdvanceConsumed(stream, lsn);
      SendResponse(Response(conn, Ok, streams.CurrentEpoch(stream), consumed, []));
    }

    // ---- committed entries ----

    method MaybeSnapshotRaftState() returns (error: Option<Raft.StorageError>, ghost order: seq<nat>)
      requires Valid()
      modifies store
      ensures Valid() && Snapshot.IsOrder(streams.State(), order)
      ensures State() == WithSnapshot(old(State()), order)
    {
      hide Format, Usable, Raft.TermOf, Snapshot.SnapshotBytes, Raft.Consecutive;
      var snapIndex := store.state.snap.index;
      if applied < snapIndex + SNAPSHOT_INTERVAL {
        order := Snapshot.AllStatuses(streams);
        return None, order;
      }
      var data;
      data, order := Snapshot.EncodeSnapshot(streams);
      error := store.CreateSnapshot(applied, data);
      if error.Some? {
        return;
      }
      error := store.Compact(applied + 1);
    }

    /** What an apply does in memory once its record is durable at loc. */
    method NoteApplied(e: Entry, loc: Loc)
      modifies this`pending, this`responses, index, streams
      ensures index.entries == Inserted(old(index.entries), e.cmd.stream, e.cmd.lsn, loc)
      ensures streams.State() == AppliedTable(old(streams.State()), e)
      ensures pending == old(pending) - {e.cmd.request}
      ensures responses == old(responses) + PendingReply(old(pending), e)
    {
      hide Appended, Committed, Inserted;
      index.Insert(e.cmd.stream, e.cmd.lsn, loc);
      streams.MarkAppended(e.cmd.stream, e.cmd.epoch, e.index, e.cmd.lsn, e.cmd.payload);
      streams.MarkCommitted(e.cmd.stream, e.index, e.cmd.lsn);
      if e.cmd.request in pending {
        var p := pending[e.cmd.request];
        pending := pending - {e.cmd.request};
        SendResponse(Response(p.conn, Ok, p.epoch, p.lsn, []));
      }
      assert pending == old(pending) - {e.cmd.request};
    }

    /** The part of an apply before the snapshot check. */
    method ApplyRecord(e: Entry, ts: u64, headerTs: u64)
      requires Valid()
      modifies this`pending, this`responses, disk, writer, index, streams
      ensures Valid()
      ensures State() == ApplyEntry(cfg, old(State()), e, ts, headerTs)
      ensures responses == old(responses) + PendingReply(old(pending), e)
    {
      hide Extended, Usable, EncodedSize, AppliedTable, PendingReply, SyncCurrent, Format, Inserted;
      ghost var before := State();
      AppendUsable(cfg, before.wal, RecordOf(e, ts), headerTs);
      AppendKeepsFiles(cfg, before.wal, RecordOf(e, ts), headerTs);
      SyncKeepsFiles(AppendedWal(cfg, before.wal, e, ts, headerTs));
      var loc := writer.AppendWithLogIndex(e.cmd.stream, e.cmd.epoch, e.cmd.lsn, e.index, e.cmd.payload, ts, headerTs);
      writer.Sync();
      NoteApplied(e, loc);
    }

    method ApplyAppendEntry(e: Entry, ts: u64, headerTs: u64)
      returns (error: Option<Raft.StorageError>, ghost order: seq<nat>)
      requires Valid()
      modifies this`pending, this`responses, disk, writer, index, streams, store
      ensures Valid()
      ensures var s := ApplyEntry(cfg, old(State()), e, ts, headerTs);
              && Snapshot.IsOrder(s.table, order) && Raft.Consecutive(s.raft.entries)
              && State() == WithSnapshot(s, order)
      ensures responses == old(responses) + PendingReply(old(pending), e)
    {
      hide Format, Usable, ApplyEntry, WithSnapshot, PendingReply;
      ApplyRecord(e, ts, headerTs);
      error, order := MaybeSnapshotRaftState();
    }

    /**
     * Handles a batch of committed entries in order, skipping those without a command, up to the first error; then
     * the batch is applied.
     */
    method ApplyCommitted(batch: seq<CommittedEntry>, clock: seq<(u64, u64)>)
      returns (error: Option<Raft.StorageError>, ghost states: seq<Shard>)
      requires Valid() && |clock| == |batch|
      modifies this`pending, this`responses, this`applied, disk, writer, index, streams, store
      ensures Valid()
      ensures HandlesAll(cfg, states, batch, clock) && states[0] == old(State())
      ensures responses == old(responses) + BatchReplies(states, batch)
      ensures error.None? ==>
                && |states| == |batch| + 1
                && State() == states[|batch|].(applied :=
                     if batch == [] then applied else Max(old(applied), IndexOfCommitted(batch[|batch| - 1])))
      ensures error.Some? || batch == [] ==> State() == states[|states| - 1]
    {
      hide Usable, Format, Handles, PendingReply;
      states := [State()];
      for i := 0 to |batch|
        invariant Valid() && applied == old(applied)
        invariant |states| == i + 1 && states[0] == old(State()) && states[i] == State()
        invariant HandlesAll(cfg, states, batch, clock)
        invariant responses == old(responses) + BatchReplies(states, batch)
      {
        error := HandleCommitted(batch[i], clock[i]);
        states := states + [State()];
        assert states[..i + 1] == states[..|states| - 1];
        if error.Some? {
          return;
        }
      }
      if batch != [] {
        applied := Max(applied, IndexOfCommitted(batch[|batch| - 1]));
      }
      error := None;
    }

    method HandleCommitted(c: CommittedEntry, clock: (u64, u64)) returns (error: Option<Raft.StorageError>)
      requires Valid()
      modifies this`pending, this`responses, disk, writer, index, streams, store
      ensures Valid() && Handles(cfg, old(State()), c, clock, State())
      ensures responses == old(responses) + if c.Normal? then PendingReply(old(pending), c.entry) else []
    {
      hide Usable, Format, ApplyEntry, WithSnapshot, PendingReply;
      error := None;
      if c.Normal? {
        ghost var order;
        error, order := ApplyAppendEntry(c.entry, clock.0, clock.1);
        assert AppliesInOrder(ApplyEntry(cfg, old(State()), c.entry, clock.0, clock.1), order, State());
      }
    }

    // ---- garbage collection ----

    /** Truncates the index of every stream up to what its consumer has passed. */
    method TrimIndex()
      modifies index
      ensures index.entries == Trimmed(old(index.entries), streams.State())
    {
      ghost var ix := index.entries;
      ghost var t := streams.State();
      var statuses := Snapshot.AllStatuses(streams);
      assert statuses[..0] == [];
      for i := 0 to |statuses|
        invariant index.entries == TrimmedOnly(ix, t, statuses[..i])
      {
        var id := statuses[i];
        var consumed := streams.streams[id].consumed;
        assert statuses[..i + 1] == statuses[..i] + [id];
        TrimOne(ix, t, statuses[..i], id);
        if consumed > 0 {
          index.TruncateStreamBefore(id, consumed);
        }
      }
      assert statuses[..|statuses|] == statuses;
      TrimAll(ix, t, statuses);
    }

    /** Removes every segment file but the current one and the live ones, closing the reader's handle first. */
    method DropSegments(live: set<nat>)
      requires reader.disk == disk && reader.handles <= disk.files.Keys
      modifies reader, disk
      ensures disk.files == old(disk.files) - (old(disk.files).Keys - live - {writer.cur})
      ensures reader.handles <= disk.files.Keys
    {
      hide Dropped;
      ghost var files := disk.files;
      var current := writer.cur;
      var segments := disk.ListSegments();
      DroppedNone(live, current);
      assert segments[..0] == [] && files - {} == files;
      for i := 0 to |segments|
        invariant disk.files == files - Dropped(segments[..i], live, current)
        invariant reader.handles <= disk.files.Keys
      {
        DropStep(files, segments, i, live, current);
        if segments[i] == current {
          continue;
        }
        if segments[i] !in live {
          reader.EvictSegment(segments[i]);
          disk.Remove(segments[i]);
        }
      }
      assert segments[..|segments|] == segments;
      DroppedAll(segments, files.Keys, live, current);
    }

    method RunGc()
      requires Valid()
      modifies index, reader, disk
      ensures Valid() && State() == Gc(old(State()))
    {
      hide Format, Trimmed, Usable, LiveSegments;
      GcUsable(State());
      TrimIndex();
      var live := index.LiveSegmentIds();
      assert live + {} == live;
      DropSegments(live);
    }

    // ---- losing leadership ----

    /** Rolls back and answers the given writes, in order. */
    method FailAll(sorted: seq<Pending>)
      modifies this`responses, streams
      ensures streams.State() == RollbackAll(old(streams.State()), sorted)
      ensures responses == old(responses) + NotLeaderReplies(sorted, leaderId)
    {
      hide Rollback;
      ghost var t := streams.State();
      for i := 0 to |sorted|
        invariant streams.State() == RollbackAll(t, sorted[..i])
        invariant responses == old(responses) + NotLeaderReplies(sorted[..i], leaderId)
      {
        assert sorted[..i + 1][..i] == sorted[..i];
        streams.RollbackUncommittedAppend(sorted[i].stream, sorted[i].lsn);
        SendResponse(Response(sorted[i].conn, ErrNotLeader, sorted[i].epoch, leaderId, []));
      }
      assert sorted[..|sorted|] == sorted;
    }

    method FailPendingWritesNotLeader() returns (ghost ids: seq<nat>, ghost ps: seq<Pending>)
      requires Valid()
      modifies this`pending, this`responses, streams
      ensures Valid()
      ensures SortedDrain(old(pending), ids, ps) && State() == StepDown(old(State()), ps)
      ensures responses == old(responses) + NotLeaderReplies(ps, leaderId)
    {
      hide Format, Usable;
      if pending == map[] {
        ids, ps := [], [];
        return;
      }
      hide SortedDrain, RollbackAll, NotLeaderReplies;
      var order, sorted := SortPending(pending);
      ids, ps := order, sorted;
      pending := map[];
      FailAll(sorted);
    }
  }

  // ---- who is answered ----

  /** On a caught-up leader the answer to an applied command goes to the very write it was. */
  lemma OwnWriteIsAnswered(l: Leader, e: Entry)
    requires Inv(l) && l.queue != [] && e.cmd == l.queue[0]
    ensures e.cmd.request in l.s.pending
    ensures var p := l.s.pending[e.cmd.request];
            && p.stream == e.cmd.stream && p.lsn == e.cmd.lsn
            && PendingReply(l.s.pending, e) == [Response(p.conn, Ok, p.epoch, e.cmd.lsn, [])]
  {
    HeadIsNext(l);
  }

  // ---- what clients are told ----

  /** When leadership is lost, each of the given writes is answered once, in order: not the leader, and who is. */
  lemma {:induction false} NotLeaderTold(ps: seq<Pending>, leaderId: nat)
    ensures var r := NotLeaderReplies(ps, leaderId);
            |r| == |ps|
            && forall i :: 0 <= i < |ps| ==> r[i] == Response(ps[i].conn, ErrNotLeader, ps[i].epoch, leaderId, [])
  {
    if ps != [] {
      NotLeaderTold(ps[..|ps| - 1], leaderId);
    }
  }

  /**
   * So every client with a pending write is told exactly once that this is not the leader, and nobody is told anything
   * when such a write is committed after all.
   */
  lemma {:induction false} EveryoneToldOnce(s: Shard, ids: seq<nat>, ps: seq<Pending>, leaderId: nat, id: nat, e: Entry)
    requires SortedDrain(s.pending, ids, ps) && id in s.pending
    ensures |NotLeaderReplies(ps, leaderId)| == |ids|
    ensures exists i :: 0 <= i < |ids| && ids[i] == id && (forall j :: 0 <= j < |ids| && ids[j] == id ==> j == i)
                        && NotLeaderReplies(ps, leaderId)[i]
                           == Response(s.pending[id].conn, ErrNotLeader, s.pending[id].epoch, leaderId, [])
    ensures PendingReply(StepDown(s, ps).pending, e) == []
  {
    hide Before, RollbackAll;
    NotLeaderTold(ps, leaderId);
    assert id in ids;
    var i :| 0 <= i < |ids| && ids[i] == id;
    assert ps[i] == s.pending[id];
  }

  /** A snapshot is due exactly 64 entries after the last one, and is then one of what was applied. */
  lemma SnapshotEvery64(s: Shard, order: seq<nat>, log: seq<Raft.RaftEntry>)
    requires Raft.Refines(s.raft, log) && s.applied <= |log| && forall id <- order :: id in s.table.streams
    ensures var s' := WithSnapshot(s, order);
            if s.applied - s.raft.snap.index >= 64 then
              s'.raft.snap.index == s.applied && s'.raft.snap.data == Snapshot.SnapshotBytes(s.table, order)
            else s' == s
  {
    hide Raft.TermOf, Snapshot.SnapshotBytes;
    if SnapshotDue(s) {
      Raft.CompactionIsInvisible(s.raft, log, s.applied, Snapshot.SnapshotBytes(s.table, order), 0);
      Raft.CreateMeta(s.raft, s.applied, Snapshot.SnapshotBytes(s.table, order));
      var created := Raft.SnapshotCreated(s.raft, s.applied, Snapshot.SnapshotBytes(s.table, order)).value;
      Raft.CompactVerdict(created, s.applied + 1);
    }
  }

  /** Some outstanding command of this leader carries the entry's request id without being the entry's command. */
  predicate Clashes(queue: seq<Command>, e: Entry) {
    exists c <- queue :: c.request == e.cmd.request && c != e.cmd
  }

  /**
   * Exactly when a leader answers for an entry, and when that answer goes astray: to a client whose write is not the
   * entry's command, and, more visibly, to one whose write has another stream or LSN.
   */
  lemma {:induction false} AnswerGoesAstrayIffIdsClash(l: Leader, e: Entry)
    requires QueueOrdered(l.queue) && QueuePending(l.queue, l.s.pending, l.s.requests)
    ensures PendingReply(l.s.pending, e) == [] <==> forall c <- l.queue :: c.request != e.cmd.request
    ensures PendingReply(l.s.pending, e) != [] && e.cmd !in l.queue <==> Clashes(l.queue, e)
    ensures e.cmd.request in l.s.pending && !At(l.s.pending[e.cmd.request], e.cmd.stream, e.cmd.lsn)
       <==> exists c <- l.queue :: c.request == e.cmd.request && !(c.stream == e.cmd.stream && c.lsn == e.cmd.lsn)
  {
    if e.cmd.request in l.s.pending {
      assert IsQueued(l.queue, e.cmd.request);
      var i :| 0 <= i < |l.queue| && l.queue[i].request == e.cmd.request;
      assert CommandPending(l.queue[i], l.s.pending, l.s.requests);
      assert forall j :: 0 <= j < |l.queue| && l.queue[j].request == e.cmd.request ==> j == i;
    }
    forall c <- l.queue ensures c.request in l.s.pending {
      assert CommandPending(c, l.s.pending, l.s.requests);
    }
  }

  /** An inherited entry whose id is not outstanding answers nobody and leaves this leader's writes pending. */
  lemma {:induction false} OtherIdsAreHarmless(cfg: Config, l: Leader, e: Entry, ts: u64, headerTs: u64)
    requires QueueOrdered(l.queue) && QueuePending(l.queue, l.s.pending, l.s.requests) && Usable(l.s.wal)
    requires e.cmd !in l.queue && !Clashes(l.queue, e)
    ensures PendingReply(l.s.pending, e) == []
    ensures var s := ApplyEntry(cfg, l.s, e, ts, headerTs);
            s.pending == l.s.pending && QueuePending(l.queue, s.pending, s.requests)
  {
    hide QueueOrdered, QueuePending;
    AnswerGoesAstrayIffIdsClash(l, e);
    assert l.s.pending - {e.cmd.request} == l.s.pending;
  }

  /**
   * A new leader that still has entries of an earlier one to apply: request ids start over, so applying such an
   * entry answers Ok to whichever client was given the same id, for a write that is not committed.
   */
  lemma InheritedEntryAnswersStranger(s: Shard, conn: nat, stream: nat, epoch: nat, e: Entry)
    requires s.requests == 0 && Allocate(s.table, stream, epoch).1.Allocated?
    requires e.cmd.request == 1 && e.cmd.stream != stream && Get(s.table, stream).commit <= Get(s.table, stream).next
    ensures var s' := LeaderWrite(s, conn, stream, epoch);
            var lsn := Get(s.table, stream).next;
            && PendingReply(s'.pending, e) == [Response(conn, Ok, epoch, lsn, [])]
            && Get(AppliedTable(s'.table, e), stream).commit <= lsn
  {
  }

  function NotLeaderReplies(ps: seq<Pending>, leaderId: nat): seq<Response> {
    if ps == [] then []
    else
      var p := ps[|ps| - 1];
      NotLeaderReplies(ps[..|ps| - 1], leaderId) + [Response(p.conn, ErrNotLeader, p.epoch, leaderId, [])]
  }

  // ---- collection, stream by stream and segment by segment ----

  /** The index trimmed for some of the streams only. */
  function TrimmedOnly(ix: Entries, t: Table, ids: seq<nat>): Entries {
    map s | s in ix :: if s in ids then map l | l in ix[s] && l >= Get(t, s).consumed :: ix[s][l] else ix[s]
  }

  lemma TrimOne(ix: Entries, t: Table, ids: seq<nat>, id: nat)
    requires id !in ids
    ensures var before, after := TrimmedOnly(ix, t, ids), TrimmedOnly(ix, t, ids + [id]);
            after == if Get(t, id).consumed > 0 then TruncatedBefore(before, id, Get(t, id).consumed) else before
  {
    var before, after := TrimmedOnly(ix, t, ids), TrimmedOnly(ix, t, ids + [id]);
    var step := if Get(t, id).consumed > 0 then TruncatedBefore(before, id, Get(t, id).consumed) else before;
    assert after.Keys == step.Keys == ix.Keys;
    forall s | s in ix ensures after[s] == step[s] {
      if s == id && Get(t, id).consumed == 0 {
        assert (map l | l in ix[s] && l >= 0 :: ix[s][l]) == ix[s];
      }
    }
  }

  lemma TrimAll(ix: Entries, t: Table, ids: seq<nat>)
    requires Snapshot.IsOrder(t, ids)
    ensures TrimmedOnly(ix, t, ids) == Trimmed(ix, t)
  {
    forall s | s in ix ensures TrimmedOnly(ix, t, ids)[s] == Trimmed(ix, t)[s] {
      if s !in ids {
        assert s !in t.streams;
        assert (map l | l in ix[s] && l >= 0 :: ix[s][l]) == ix[s];
      }
    }
  }

  ghost function Dropped(segments: seq<nat>, live: set<nat>, current: nat): set<nat> {
    set id | id in segments && id != current && id !in live
  }

  lemma DroppedNone(live: set<nat>, current: nat)
    ensures Dropped([], live, current) == {}
  {
  }

  lemma DroppedAll(segments: seq<nat>, ids: set<nat>, live: set<nat>, current: nat)
    requires forall k :: k in segments <==> k in ids
    ensures Dropped(segments, live, current) == ids - live - {current}
  {
  }

  lemma DropStep(files: Files, segments: seq<nat>, i: nat, live: set<nat>, current: nat)
    requires i < |segments|
    ensures var id, left := segments[i], files - Dropped(segments[..i], live, current);
            files - Dropped(segments[..i + 1], live, current)
            == if id != current && id !in live then left - {id} else left
  {
    assert segments[..i + 1] == segments[..i] + [segments[i]];
  }

  lemma GcUsable(s: Shard)
    requires Usable(s.wal)
    ensures Usable(Gc(s).wal)
  {
    var w := Gc(s).wal;
    forall id <- w.files ensures FileUsable(w.files[id], id, w.cur) {
      assert FileUsable(s.wal.files[id], id, s.wal.cur);
    }
  }

  // ---- sorting the pending writes ----

  /** The listed requests are distinct, pending, and in the order of their writes. */
  ghost predicate SortedIds(pending: map<nat, Pending>, ids: seq<nat>) {
    && (forall i, j :: 0 <= i < j < |ids| ==> ids[i] != ids[j])
    && (forall id <- ids :: id in pending)
    && (forall i, j :: 0 <= i < j < |ids| ==>
                         ids[i] in pending && ids[j] in pending && Before(pending[ids[i]], pending[ids[j]]))
  }

  lemma BeforeChains(a: Pending, b: Pending, c: Pending)
    ensures Before(a, b) && Before(b, c) ==> Before(a, c)
  {
  }

  lemma InsertAt(ids: seq<nat>, at: nat, id: nat)
    requires at <= |ids|
    ensures var r := ids[..at] + [id] + ids[at..];
            && (forall k :: k in r <==> k in ids || k == id)
            && |r| == |ids| + 1
            && forall i :: 0 <= i < |r| ==> r[i] == (if i < at then ids[i] else if i == at then id else ids[i - 1])
  {
    assert ids == ids[..at] + ids[at..];
  }

  lemma InsertSorted(pending: map<nat, Pending>, ids: seq<nat>, at: nat, id: nat)
    requires SortedIds(pending, ids) && id in pending && id !in ids && at <= |ids|
    requires forall i :: 0 <= i < at ==> Before(pending[ids[i]], pending[id])
    requires at < |ids| ==> Before(pending[id], pending[ids[at]])
    ensures SortedIds(pending, ids[..at] + [id] + ids[at..])
    ensures forall k :: k in ids[..at] + [id] + ids[at..] <==> k in ids || k == id
  {
    hide Before;
    InsertAt(ids, at, id);
    var r := ids[..at] + [id] + ids[at..];
    forall k | at <= k < |ids| ensures Before(pending[id], pending[ids[k]]) {
      if at < k {
        BeforeChains(pending[id], pending[ids[at]], pending[ids[k]]);
      }
    }
    forall i, j | 0 <= i < j < |r|
      ensures r[i] != r[j] && r[i] in pending && r[j] in pending && Before(pending[r[i]], pending[r[j]])
    {
      var a, b := if i < at then i else i - 1, if j < at then j else j - 1;
      assert i != at && j != at ==> Before(pending[ids[a]], pending[ids[b]]);
    }
  }

  /** Drains the map in whatever order it yields, and sorts by stream and then from the highest LSN down. */
  method SortPending(pending: map<nat, Pending>) returns (ids: seq<nat>, ps: seq<Pending>)
    ensures SortedDrain(pending, ids, ps)
  {
    hide Before;
    var rest := pending.Keys;
    ids := [];
    while rest != {}
      invariant rest <= pending.Keys
      invariant SortedIds(pending, ids)
      invariant forall id :: id in ids <==> id in pending && id !in rest
      decreases rest
    {
      var id :| id in rest;
      var at := 0;
      while at < |ids| && Before(pending[ids[at]], pending[id])
        invariant at <= |ids|
        invariant forall i :: 0 <= i < at ==> Before(pending[ids[i]], pending[id])
      {
        at := at + 1;
      }
      assert at < |ids| ==> Before(pending[id], pending[ids[at]]) by {
        BeforeTotal(pending, ids, at, id);
      }
      InsertSorted(pending, ids, at, id);
      ids := ids[..at] + [id] + ids[at..];
      rest := rest - {id};
    }
    ps := seq(|ids|, i requires 0 <= i < |ids| => pending[ids[i]]);
  }

  lemma BeforeTotal(pending: map<nat, Pending>, ids: seq<nat>, at: nat, id: nat)
    requires at < |ids| ==> ids[at] in pending && id in pending && !Before(pending[ids[at]], pending[id])
    ensures at < |ids| ==> Before(pending[id], pending[ids[at]])
  {
  }

  lemma SyncKeepsFiles(w: Wal)
    requires Usable(w)
    ensures SyncCurrent(w).files.Keys == w.files.Keys && Usable(SyncCurrent(w))
  {
    SyncUsable(w);
  }
}
