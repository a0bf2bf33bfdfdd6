/** One shard as a value: its log, index, stream table, Raft storage and pending writes, and how each event moves it. */
module Shard {
  import opened Bytes
  import opened Record
  import opened Segment
  import opened Index
  import opened Log
  import opened Streams
  import opened Wal
  import opened History
  import Raft = RaftStorage
  import Snapshot

  const SNAPSHOT_INTERVAL: nat := 64

  datatype Pending = Pending(conn: nat, stream: nat, epoch: nat, lsn: nat)

  datatype Shard = Shard(
    wal: Wal, index: Entries, table: Table, raft: Raft.RaftState, applied: nat,
    pending: map<nat, Pending>, requests: nat)

  datatype Reply = Answer(epoch: nat, lsn: nat, payload: seq<byte>) | Missing(epoch: nat)

  function RecordOf(e: Entry, ts: u64): WalRecord {
    WalRecord(e.cmd.stream, e.cmd.epoch, e.index, e.cmd.lsn, ts, e.cmd.payload)
  }

  // ---- events of a running shard ----

  function AppendedWal(cfg: Config, w: Wal, e: Entry, ts: u64, headerTs: u64): (r: Wal)
    requires Usable(w)
    ensures Usable(r)
  {
    AppendUsable(cfg, w, RecordOf(e, ts), headerTs);
    Extended(cfg, w, RecordOf(e, ts), headerTs)
  }

  function AppliedTable(t: Table, e: Entry): Table {
    Applied(t, e.cmd.stream, e.cmd.epoch, e.index, e.cmd.lsn, e.cmd.payload)
  }

  /** Applying one committed entry: append, sync, index, stream state, and the client's write is no longer pending. */
  function ApplyEntry(cfg: Config, s: Shard, e: Entry, ts: u64, headerTs: u64): Shard
    requires Usable(s.wal)
  {
    s.(wal := SyncCurrent(AppendedWal(cfg, s.wal, e, ts, headerTs)),
       index := Inserted(s.index, e.cmd.stream, e.cmd.lsn, AppendLoc(s.wal, RecordOf(e, ts))),
       table := AppliedTable(s.table, e),
       pending := s.pending - {e.cmd.request})
  }

  predicate SnapshotDue(s: Shard) {
    s.applied >= s.raft.snap.index + SNAPSHOT_INTERVAL
  }

  /** The Raft storage after a snapshot of the table and, if that worked, compaction up to it. */
  function SnapshotTaken(s: Shard, order: seq<nat>): Shard
    requires Raft.Consecutive(s.raft.entries) && forall id <- order :: id in s.table.streams
  {
    match Raft.SnapshotCreated(s.raft, s.applied, Snapshot.SnapshotBytes(s.table, order))
    case Err(_) => s
    case Ok(created) =>
      match Raft.CompactedTo(created, s.applied + 1)
      case Err(_) => s.(raft := created)
      case Ok(compacted) => s.(raft := compacted)
  }

  /** The index without the entries that every stream's consumer has passed. */
  function Trimmed(ix: Entries, t: Table): (r: Entries)
    ensures forall s: nat, l: nat :: Find(r, s, l) == if l < Get(t, s).consumed then None else Find(ix, s, l)
  {
    map s | s in ix :: map l | l in ix[s] && l >= Get(t, s).consumed :: ix[s][l]
  }

  /**
   * Garbage collection that got around to all but some of the segments it may drop: the index is trimmed, and of the
   * segments that hold no indexed record those spared are still there.
   */
  function GcSparing(s: Shard, spared: set<nat>): Shard {
    var index := Trimmed(s.index, s.table);
    s.(index := index, wal := Collected(s.wal, LiveSegments(index) + spared))
  }

  /** A whole garbage collection. */
  function Gc(s: Shard): Shard {
    GcSparing(s, {})
  }

  /** A leader's write: allocates an LSN and remembers the client, unless the epoch is fenced off. */
  function LeaderWrite(s: Shard, conn: nat, stream: nat, epoch: nat): Shard {
    var (table, r) := Allocate(s.table, stream, epoch);
    match r
    case Stale(_, _) => s.(table := table)
    case Allocated(lsn) =>
      s.(table := table, requests := s.requests + 1,
         pending := s.pending[s.requests + 1 := Pending(conn, stream, epoch, lsn)])
  }

  function RollbackAll(t: Table, ps: seq<Pending>): Table {
    if ps == [] then t
    else
      var p := ps[|ps| - 1];
      Rollback(RollbackAll(t, ps[..|ps| - 1]), p.stream, p.lsn)
  }

  /** Stepping down: every pending write is answered and rolled back, in the given order. */
  function StepDown(s: Shard, ps: seq<Pending>): Shard {
    s.(table := RollbackAll(s.table, ps), pending := map[])
  }

  /** What a client's read is answered. */
  function Read(cfg: Config, s: Shard, stream: nat, lsn: nat): Reply {
    if stream in s.table.streams && lsn >= s.table.streams[stream].commit then
      Missing(s.table.streams[stream].epoch)
    else
      match FindTail(Get(s.table, stream).tail, lsn)
      case Some(x) => Answer(Get(s.table, stream).epoch, x.lsn, x.payload)
      case None =>
        match ReadRecordResult(cfg.crc, s.wal.files, s.index, stream, lsn)
        case Found(r) => Answer(r.epoch, r.lsn, r.payload)
        case _ => Missing(Get(s.table, stream).epoch)
  }

  // ---- starting and restarting ----

  /** The engine's state after opening a directory with a given Raft storage; the snapshot must be readable. */
  ghost function Recovered(cfg: Config, files: Files, raft: Raft.RaftState, applied: nat, ts: u64): Shard
    requires Snapshot.Decoded(cfg.tailLimit, raft.snap.data).Snapshot?
  {
    var t0 := Snapshot.Decoded(cfg.tailLimit, raft.snap.data).table;
    var log := DiskLog(cfg.crc, files);
    Shard(Reopened(cfg, files, ts), IndexOf(log), ObserveLog(t0, log, raft.snap.index), raft, applied, map[], 0)
  }
}
