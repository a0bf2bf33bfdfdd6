/** Durability, agreement of replicas, watermarks, fencing, and segment identity, for every run of a shard. */
module Guarantees {
  import opened Bytes
  import opened Record
  import opened Segment
  import opened Scan
  import opened Log
  import opened Streams
  import opened Wal
  import opened History
  import opened Shard
  import opened LogInv
  import opened TableInv
  import opened ShardRun
  import opened Theorems
  import Raft = RaftStorage
  import Snapshot

  // ---- durability ----

  lemma SyncedIsCrashProof(crc: Crc, files: Files, image: Files)
    requires AllSynced(files) && CrashImage(files, image)
    ensures DiskLog(crc, image) == DiskLog(crc, files)
  {
    forall id | id in image ensures image[id].data == files[id].data {
      assert SurvivesAs(files[id], image[id]);
      assert files[id].data[..|files[id].data|] == files[id].data;
    }
    SameDataSameLog(crc, image, files);
  }

  /**
   * Acknowledged means durable: when an apply answers, its record lies in synced bytes, also if the append rotated
   * to a new segment, and no crash whatsoever takes it or anything before it from what recovery will find.
   */
  lemma {:induction false} AppliedIsDurable(cfg: Config, h: History, w: World, ts: u64, headerTs: u64, image: Files)
    requires WithinLimits(h) && Reachable(cfg, h, w) && w.pos < |h| && Usable(w.s.wal)
    requires CrashImage(Delivered(cfg, h, w, ts, headerTs).s.wal.files, image)
    ensures var e := h[w.pos];
            var r := WalRecord(e.cmd.stream, e.cmd.epoch, e.index, e.cmd.lsn, ts, e.cmd.payload);
            var loc, files := AppendLoc(w.s.wal, r), Delivered(cfg, h, w, ts, headerTs).s.wal.files;
            && AllSynced(files)
            && loc.seg in files && loc.off + loc.size <= files[loc.seg].synced
            && files[loc.seg].data[loc.off..loc.off + loc.size] == Encode(cfg.crc, r)
            && DiskLog(cfg.crc, image) == DiskLog(cfg.crc, w.s.wal.files) + [Placed(loc, r)]
  {
    hide DiskLog, Reachable, Encode, CleanFiles, TableGood, TailsGood, SnapshotGood, Covers, IndexAgrees,
      ContentCurrent, LogKnown, FileUsable, Extended, CrashImage;
    ReachableGood(cfg, h, w);
    var r := RecordOf(h[w.pos], ts);
    assert EntryWithinLimits(h[w.pos]) && Fits(r);
    AppendThenSyncIsDurable(cfg, w.s.wal, r, headerTs);
    AppendLog(cfg, w.s.wal, r, headerTs);
    SyncLog(cfg.crc, AppendedWal(cfg, w.s.wal, h[w.pos], ts, headerTs));
    SyncedIsCrashProof(cfg.crc, Delivered(cfg, h, w, ts, headerTs).s.wal.files, image);
  }

  // ---- replicas ----

  /**
   * Two replicas of the same committed sequence that are caught up to the same point agree on what is committed and
   * on every read, whatever leader writes, rollbacks, snapshots, collections and crashes each went through.
   */
  lemma ReplicasAgree(
      cfgA: Config, cfgB: Config, h: History, a: World, b: World, stream: nat, lsn: nat)
    requires WithinLimits(h) && Reachable(cfgA, h, a) && Reachable(cfgB, h, b)
    requires CaughtUp(a) && CaughtUp(b) && a.high == b.high
    requires RebindsFarApart(h, a.high, cfgA.tailLimit) && RebindsFarApart(h, b.high, cfgB.tailLimit)
    ensures Get(a.s.table, stream).commit == Get(b.s.table, stream).commit
    ensures Get(a.s.table, stream).lastEntry == Get(b.s.table, stream).lastEntry
    ensures lsn >= AckedOf(a.acked, stream) && lsn >= AckedOf(b.acked, stream) ==>
              var ra, rb := Read(cfgA, a.s, stream, lsn), Read(cfgB, b.s, stream, lsn);
              && ra.Answer? == rb.Answer?
              && (ra.Answer? ==> ra.lsn == rb.lsn && ra.payload == rb.payload)
  {
    hide Reachable, RebindsFarApart, WithinLimits, Read, Content, Peak;
    CaughtUpMarks(cfgA, h, a, stream);
    CaughtUpMarks(cfgB, h, b, stream);
    if lsn >= AckedOf(a.acked, stream) && lsn >= AckedOf(b.acked, stream) {
      ReadsAreTheMap(cfgA, h, a, stream, lsn);
      ReadsAreTheMap(cfgB, h, b, stream, lsn);
    }
  }

  // ---- watermarks and epochs between restarts ----

  lemma StepGrows(cfg: Config, h: History, w: World, ev: Event)
    requires Ready(cfg, w.s) && Inv(cfg, h, w) && Enabled(cfg, h, w, ev) && !ev.Restart?
    ensures Grows(w.s.table, Step(cfg, h, w, ev).s.table)
  {
    hide LogGood, SnapshotGood, TailsGood, Covers, TableGood, AppliedBehind, GcSparing, SnapshotTaken, Usable, Extended,
      Allocate, Acked, AppliedTable, RollbackAll, StreamGrows, AckedOf;
    var t := w.s.table;
    match ev
    case ClientWrite(_, stream, epoch) => AllocateGood(t, h, w.high, w.acked, stream, epoch);
    case ClientAck(stream, lsn) => AckedGood(t, h, w.high, w.acked, stream, lsn);
    case Apply(_, _) => AppliedGrows(t, h[w.pos]);
    case LoseLeadership(drained) =>
      forall p <- drained ensures p.lsn < U64_LIMIT {
        var id :| id in w.s.pending && w.s.pending[id] == p;
      }
      RollbackAllGood(t, drained, h, w.high, w.acked);
    case TakeSnapshot(order) => SnapshotLeavesTable(w.s, order);
    case Collect(spared) => GcLeavesTable(w.s, spared);
    case _ => SameGrows(t);
  }

  lemma SameGrows(t: Table)
    ensures Grows(t, t)
  {
  }

  lemma GcLeavesTable(s: Shard, spared: set<nat>)
    ensures GcSparing(s, spared).table == s.table && Grows(s.table, s.table)
  {
  }

  lemma SnapshotLeavesTable(s: Shard, order: seq<nat>)
    requires Raft.Consecutive(s.raft.entries) && forall id <- order :: id in s.table.streams
    ensures SnapshotTaken(s, order).table == s.table && Grows(s.table, s.table)
  {
  }

  /** Without a restart, a stream's next LSN falls only when leadership is lost. */
  lemma {:induction false} NextFallsOnlyOnStepDown(cfg: Config, h: History, w: World, ev: Event, stream: nat)
    requires Ready(cfg, w.s) && Inv(cfg, h, w) && Enabled(cfg, h, w, ev) && !ev.Restart?
    requires Get(Step(cfg, h, w, ev).s.table, stream).next < Get(w.s.table, stream).next
    ensures ev.LoseLeadership?
  {
    hide LogGood, SnapshotGood, TailsGood, Covers, TableGood, AppliedBehind, GcSparing, SnapshotTaken, Usable, Extended,
      DropBelow, Newest, RollbackAll, AckedOf;
    match ev
    case TakeSnapshot(order) => SnapshotLeavesTable(w.s, order);
    case Collect(spared) => GcLeavesTable(w.s, spared);
    case _ =>
  }

  ghost predicate NoRestart(evs: seq<Event>, i: nat, j: nat)
    requires i <= j <= |evs|
  {
    forall k :: i <= k < j ==> !evs[k].Restart?
  }

  /** Between restarts no watermark ever falls, and committed never passes next. */
  lemma {:induction false} WatermarksRise(
      cfg: Config, h: History, ws: seq<World>, evs: seq<Event>, i: nat, j: nat, stream: nat)
    requires IsRun(cfg, h, ws, evs) && Inv(cfg, h, ws[0]) && i <= j <= |evs| && NoRestart(evs, i, j)
    ensures StreamGrows(Get(ws[i].s.table, stream), Get(ws[j].s.table, stream))
    ensures Get(ws[j].s.table, stream).commit <= Get(ws[j].s.table, stream).next
    decreases j - i
  {
    hide Step, Enabled, Ready, LogGood, SnapshotGood, TailsGood, Covers, AppliedBehind;
    RunKeepsInv(cfg, h, ws, evs, j);
    assert StreamBounded(Get(ws[j].s.table, stream), h, ws[j].high, stream);
    if i < j {
      WatermarksRise(cfg, h, ws, evs, i, j - 1, stream);
      RunKeepsInv(cfg, h, ws, evs, j - 1);
      assert StepsTo(cfg, h, ws[j - 1], evs[j - 1], ws[j]);
      StepGrows(cfg, h, ws[j - 1], evs[j - 1]);
      assert StreamGrows(Get(ws[j - 1].s.table, stream), Get(ws[j].s.table, stream));
    }
  }

  predicate Granted(w: World, ev: Event) {
    ev.ClientWrite? && Allocate(w.s.table, ev.stream, ev.epoch).1.Allocated?
  }

  /** The epochs a leader grants on a stream never go back while it runs. */
  lemma EpochsNeverGoBack(cfg: Config, h: History, ws: seq<World>, evs: seq<Event>, i: nat, j: nat)
    requires IsRun(cfg, h, ws, evs) && Inv(cfg, h, ws[0]) && i < j < |evs| && NoRestart(evs, i, j)
    requires Granted(ws[i], evs[i]) && Granted(ws[j], evs[j]) && evs[i].stream == evs[j].stream
    ensures evs[i].epoch <= evs[j].epoch
  {
    hide Inv, Ready, Enabled;
    assert StepsTo(cfg, h, ws[i], evs[i], ws[i + 1]);
    assert Get(ws[i + 1].s.table, evs[i].stream).epoch == evs[i].epoch;
    hide Step;
    WatermarksRise(cfg, h, ws, evs, i + 1, j, evs[i].stream);
  }

  /**
   * A granted write is at least as new as every entry of its stream applied so far, be it since the last start or
   * before it, when the snapshot covered it and it is not delivered again.
   */
  lemma GrantsRespectHistory(cfg: Config, h: History, w: World, ev: Event, i: nat)
    requires WithinLimits(h) && Reachable(cfg, h, w) && Granted(w, ev)
    requires i < w.pos && i < |h| && h[i].cmd.stream == ev.stream
    ensures h[i].cmd.epoch <= ev.epoch
  {
    hide Reachable, LogGood, SnapshotGood, TailsGood, TableGood, AppliedBehind;
    ReachableGood(cfg, h, w);
    assert CoversEntry(w.s.table, h[i]);
  }

  // ---- segments ----

  lemma CrashedIds(w: Wal, image: Files)
    requires Usable(w) && image.Keys == w.files.Keys
    ensures image != map[] && MaxOf(image.Keys) == w.cur
  {
    NewestIsCurrent(w);
    assert w.cur in image.Keys;
  }

  lemma {:induction false} StepSegments(cfg: Config, h: History, w: World, ev: Event)
    requires Ready(cfg, w.s) && Inv(cfg, h, w) && Enabled(cfg, h, w, ev)
    ensures var wal, wal' := w.s.wal, Step(cfg, h, w, ev).s.wal;
            && wal.nextSeg <= wal'.nextSeg
            && forall id <- wal'.files :: id in wal.files || id >= wal.nextSeg
  {
    hide LogGood, SnapshotGood, TailsGood, Covers, TableGood, AppliedBehind, Extended, ObserveLog, IndexOf, DiskLog,
      Snapshot.Decoded, FileUsable;
    match ev
    case Apply(ts, headerTs) =>
      AppendUsable(cfg, w.s.wal, RecordOf(h[w.pos], ts), headerTs);
    case TakeSnapshot(order) => SnapshotLeavesWal(w.s, order);
    case Restart(image, stage, ts, headerTs, _, _, _) =>
      match stage {
        case Idle => CrashedIds(w.s.wal, image);
        case RecordWritten =>
          WrittenFile(cfg, w.s.wal, RecordOf(h[w.pos], ts));
          CrashedIds(Written(cfg, w.s.wal, RecordOf(h[w.pos], ts)), image);
        case Complete =>
          AppendUsable(cfg, w.s.wal, RecordOf(h[w.pos], ts), headerTs);
          CrashedIds(AppendedWal(cfg, w.s.wal, h[w.pos], ts, headerTs), image);
      }
    case _ =>
  }

  lemma SnapshotLeavesWal(s: Shard, order: seq<nat>)
    requires Raft.Consecutive(s.raft.entries) && forall id <- order :: id in s.table.streams
    ensures SnapshotTaken(s, order).wal == s.wal
  {
  }

  /** A segment id that was used and is gone never names a segment again, across rotations, collections and restarts. */
  lemma {:induction false} NoIdReused(
      cfg: Config, h: History, ws: seq<World>, evs: seq<Event>, i: nat, j: nat, id: nat)
    requires IsRun(cfg, h, ws, evs) && Inv(cfg, h, ws[0]) && i <= j <= |evs|
    requires id < ws[i].s.wal.nextSeg && id !in ws[i].s.wal.files
    ensures id < ws[j].s.wal.nextSeg && id !in ws[j].s.wal.files
    decreases j - i
  {
    hide Step, Enabled, Ready, Inv;
    if i < j {
      NoIdReused(cfg, h, ws, evs, i, j - 1, id);
      RunKeepsInv(cfg, h, ws, evs, j - 1);
      assert StepsTo(cfg, h, ws[j - 1], evs[j - 1], ws[j]);
      StepSegments(cfg, h, ws[j - 1], evs[j - 1]);
    }
  }

  /** In every reachable state the current segment is the newest, older ones are synced, and records tile each file. */
  lemma SegmentLayout(cfg: Config, h: History, w: World, id: nat)
    requires WithinLimits(h) && Reachable(cfg, h, w) && id in w.s.wal.files
    ensures id <= w.s.wal.cur < w.s.wal.nextSeg
    ensures id != w.s.wal.cur ==> w.s.wal.files[id].synced == |w.s.wal.files[id].data|
    ensures Tiles(ScanFile(cfg.crc, id, w.s.wal.files[id]), id, SEGMENT_HEADER_SIZE, |w.s.wal.files[id].data|)
    ensures w.s.wal.cur in w.s.wal.files && w.s.wal.off == |w.s.wal.files[w.s.wal.cur].data|
  {
    hide Reachable, SnapshotGood, TailsGood, Covers, TableGood, AppliedBehind, IndexAgrees, ContentCurrent,
      CleanFile, ScanFile, Tiles;
    ReachableGood(cfg, h, w);
    assert CleanFile(cfg.crc, w.s.wal.files[id]) && FileUsable(w.s.wal.files[id], id, w.s.wal.cur);
    SegmentTiles(cfg.crc, id, w.s.wal.files[id]);
  }

  // ---- the Raft log under the shard's snapshots ----

  /** The snapshot a shard takes compacts the Raft log right up to it and is invisible to every later index. */
  lemma SnapshotIsInvisible(s: Shard, order: seq<nat>, log: seq<Raft.RaftEntry>, idx: nat)
    requires Raft.Refines(s.raft, log) && SnapshotDue(s) && s.applied <= |log|
    requires forall id <- order :: id in s.table.streams
    ensures var raft := SnapshotTaken(s, order).raft;
            && Raft.Refines(raft, log)
            && raft.snap.data == Snapshot.SnapshotBytes(s.table, order)
            && Raft.FirstIndex(raft) == raft.snap.index + 1 == s.applied + 1
            && Raft.TermOf(raft, s.applied) == Raft.Ok(Raft.PlainTerm(log, s.applied))
            && (s.applied < idx ==> Raft.TermOf(raft, idx) == Raft.TermOf(s.raft, idx))
  {
    hide Raft.Refines, Raft.TermOf, Snapshot.SnapshotBytes;
    Raft.CompactionIsInvisible(s.raft, log, s.applied, Snapshot.SnapshotBytes(s.table, order), idx);
  }
}
