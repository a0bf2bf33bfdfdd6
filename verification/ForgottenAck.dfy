/**
 * Consumed marks across restarts.  While a shard runs, its consumed marks are what it was sent, so reads at or above
 * them are exact.  A restart goes back to the marks of the stored snapshot, while the segments that later marks let
 * go of stay gone: then reads at or above the mark in force need not be.
 */
module ForgottenAck {
  import opened Bytes
  import opened Record
  import opened Segment
  import opened Index
  import opened Scan
  import opened Log
  import opened Streams
  import opened Wal
  import opened History
  import opened Shard
  import opened LogInv
  import opened TableInv
  import opened ShardRun
  import opened Theorems
  import opened Guarantees
  import Raft = RaftStorage
  import Snapshot

  // ---- without restarts ----

  ghost predicate MarksAreAcks(w: World) {
    forall id: nat :: Get(w.s.table, id).consumed == AckedOf(w.acked, id)
  }

  lemma StepMarks(cfg: Config, h: History, w: World, ev: Event)
    requires Ready(cfg, w.s) && Inv(cfg, h, w) && Enabled(cfg, h, w, ev) && !ev.Restart?
    requires MarksAreAcks(w)
    ensures MarksAreAcks(Step(cfg, h, w, ev))
  {
    hide LogGood, SnapshotGood, TailsGood, Covers, TableGood, AppliedBehind, GcSparing, SnapshotTaken, Usable,
      Extended, Allocate, Acked, AppliedTable, RollbackAll, AckedOf;
    var t := w.s.table;
    match ev
    case ClientWrite(_, stream, epoch) => AllocateGood(t, h, w.high, w.acked, stream, epoch);
    case LoseLeadership(drained) =>
      forall p <- drained ensures p.lsn < U64_LIMIT {
        var id :| id in w.s.pending && w.s.pending[id] == p;
      }
      RollbackAllGood(t, drained, h, w.high, w.acked);
    case TakeSnapshot(order) => SnapshotLeavesTable(w.s, order);
    case Collect(spared) => GcLeavesTable(w.s, spared);
    case Apply(_, _) =>
      AppliedGrows(t, h[w.pos]);
      var t' := AppliedTable(t, h[w.pos]);
      assert forall id: nat :: Get(t, id).consumed <= Get(t', id).consumed <= Get(t, id).consumed;
    case ClientAck(stream, lsn) =>
      var w' := Step(cfg, h, w, ev);
      forall id: nat ensures Get(w'.s.table, id).consumed == AckedOf(w'.acked, id) {
        assert Get(t, id).consumed == AckedOf(w.acked, id) && Get(t, stream).consumed == AckedOf(w.acked, stream);
        AckMarks(t, w.acked, stream, lsn, id);
      }
    case _ =>
  }

  lemma AckMarks(t: Table, acked: map<nat, nat>, stream: nat, lsn: nat, id: nat)
    requires Get(t, id).consumed == AckedOf(acked, id) && Get(t, stream).consumed == AckedOf(acked, stream)
    ensures Get(Acked(t, stream, lsn), id).consumed
         == AckedOf(acked[stream := Max(AckedOf(acked, stream), lsn)], id)
  {
  }

  lemma {:induction false} RunMarks(
      cfg: Config, h: History, conf: Raft.ConfState, ts: u64, ws: seq<World>, evs: seq<Event>, i: nat)
    requires WithinLimits(h) && IsRun(cfg, h, ws, evs) && ws[0] == Start(cfg, conf, ts)
    requires i <= |evs| && NoRestart(evs, 0, i)
    ensures MarksAreAcks(ws[i])
  {
    hide Inv, Step, Enabled, WithinLimits;
    if i > 0 {
      StartGood(cfg, h, conf, ts);
      RunMarks(cfg, h, conf, ts, ws, evs, i - 1);
      RunKeepsInv(cfg, h, ws, evs, i - 1);
      assert StepsTo(cfg, h, ws[i - 1], evs[i - 1], ws[i]);
      StepMarks(cfg, h, ws[i - 1], evs[i - 1]);
    }
  }

  /** In a run without restarts, reads at or above a stream's consumed mark answer exactly as the map does. */
  lemma ReadsAboveConsumed(
      cfg: Config, h: History, conf: Raft.ConfState, ts: u64, ws: seq<World>, evs: seq<Event>, stream: nat, lsn: nat)
    requires WithinLimits(h)
    requires IsRun(cfg, h, ws, evs) && ws[0] == Start(cfg, conf, ts) && NoRestart(evs, 0, |evs|)
    requires RebindsFarApart(h, ws[|evs|].high, cfg.tailLimit)
    requires CaughtUp(ws[|evs|]) && lsn >= Get(ws[|evs|].s.table, stream).consumed
    ensures var w := ws[|evs|];
            && w.high <= |h|
            && match Content(h, w.high, stream, lsn)
               case None => Read(cfg, w.s, stream, lsn).Missing?
               case Some(e) =>
                 var r := Read(cfg, w.s, stream, lsn);
                 r.Answer? && r.lsn == lsn && r.payload == e.cmd.payload
  {
    hide Start, WithinLimits, RebindsFarApart, Content, Read, StepsTo;
    RunMarks(cfg, h, conf, ts, ws, evs, |evs|);
    assert Get(ws[|evs|].s.table, stream).consumed == AckedOf(ws[|evs|].acked, stream);
    assert RunsTo(cfg, h, conf, ts, ws, evs, ws[|evs|]);
    ReadsAreTheMap(cfg, h, ws[|evs|], stream, lsn);
  }

  // ---- exactly when ----

  ghost predicate StillOnDisk(cfg: Config, w: World, stream: nat, lsn: nat) {
    exists p :: p in DiskLog(cfg.crc, w.s.wal.files) && IsAt(p, stream, lsn)
  }

  lemma DiskHasLast(cfg: Config, w: World, stream: nat, lsn: nat)
    ensures StillOnDisk(cfg, w, stream, lsn) <==> Last(DiskLog(cfg.crc, w.s.wal.files), stream, lsn).Some?
  {
    hide DiskLog;
    if p :| p in DiskLog(cfg.crc, w.s.wal.files) && IsAt(p, stream, lsn) {
      LastFindsAny(DiskLog(cfg.crc, w.s.wal.files), p);
    }
  }

  lemma WrittenIsBelowCommit(cfg: Config, h: History, w: World, stream: nat, lsn: nat)
    requires Inv(cfg, h, w) && CaughtUp(w) && Content(h, w.high, stream, lsn).Some?
    ensures lsn < Get(w.s.table, stream).commit
  {
    hide LogGood, SnapshotGood, TableGood, TailsGood;
    assert CoversEntry(w.s.table, h[LastWriter(h, w.high, stream, lsn)]);
  }

  /**
   * After any run, restarts included: a read at or above the mark in force on a caught-up shard answers as the map
   * does if and only if the key was never written or a record of it is still on disk.
   */
  lemma ReadsExactIffStillOnDisk(cfg: Config, h: History, w: World, stream: nat, lsn: nat)
    requires WithinLimits(h) && Functional(h) && Reachable(cfg, h, w) && CaughtUp(w)
    requires lsn >= Get(w.s.table, stream).consumed
    ensures w.high <= |h|
    ensures AnswersAsMap(cfg, h, w, stream, lsn)
       <==> Content(h, w.high, stream, lsn).None? || StillOnDisk(cfg, w, stream, lsn)
  {
    hide Inv, DiskLog, ReadRecordResult, Last, Reachable, Functional, Content, WithinLimits, StillOnDisk, FindTail;
    ReachableGood(cfg, h, w);
    DiskHasLast(cfg, w, stream, lsn);
    CachedIsOnDisk(cfg, h, w, stream, lsn);
    ColdRead(cfg, h, w, stream, lsn);
    if StillOnDisk(cfg, w, stream, lsn) {
      DiskCarriesMap(cfg, h, w, stream, lsn);
    }
    if Content(h, w.high, stream, lsn).Some? {
      WrittenIsBelowCommit(cfg, h, w, stream, lsn);
    }
    if FindTail(Get(w.s.table, stream).tail, lsn).Some? {
      TailIsContent(cfg, h, w, stream, lsn);
      TailLsn(w.s.table, stream, lsn);
    }
  }

  // ---- with a restart ----

  /** Segments of a single record each. */
  function SmallSegments(crc: Crc): Config {
    Config(crc, 0, 64, 8)
  }

  /** One write to stream 7, at Raft index 64. */
  function OneWrite(): History {
    [Entry(64, Command(1, 7, 1, 0, [42]))]
  }

  function RaftUpTo64(conf: Raft.ConfState): Raft.RaftState {
    Raft.Bootstrap(conf).(entries := seq(64, (i: nat) => Raft.RaftEntry(i + 1, 1, [])))
  }

  lemma StartState(cfg: Config, conf: Raft.ConfState, ts: u64)
    ensures var s := Start(cfg, conf, ts).s;
            && s.wal == Wal(map[0 := FreshSegment(cfg, 0, ts)], 0, SEGMENT_HEADER_SIZE, 0, 1)
            && DiskLog(cfg.crc, s.wal.files) == [] && s.index == map[] && s.table == Table(map[], cfg.tailLimit)
            && s.raft == Raft.Bootstrap(conf)
  {
    hide DiskLog, FreshSegment;
    StartIsBlank(cfg, conf, ts);
  }

  // ---- the steps, one by one ----

  predicate WriteSeen(t: Table, consumed: nat) {
    && t.limit == 8 && t.streams.Keys == {7}
    && Get(t, 7).id == 7 && Get(t, 7).commit == 1 && Get(t, 7).consumed == consumed
  }

  ghost predicate AloneInSegment0(crc: Crc, files: Files) {
    |DiskLog(crc, files)| == 1 && DiskLog(crc, files)[0].loc.seg == 0
  }

  /** After applying the write: it is alone on disk, in segment 0, and segment 1 is current. */
  ghost predicate Applied1(crc: Crc, w: World) {
    && w.pos == w.high == 1 && w.acked == map[]
    && w.s.wal.cur == 1 && AloneInSegment0(crc, w.s.wal.files)
    && WriteSeen(w.s.table, 0)
  }

  lemma TableAfterApply()
    ensures WriteSeen(AppliedTable(Table(map[], 8), OneWrite()[0]), 0)
  {
  }

  lemma {:induction false} DoApply(crc: Crc, conf: Raft.ConfState) returns (w: World)
    ensures var cfg := SmallSegments(crc);
            Reachable(cfg, OneWrite(), w) && Ready(cfg, w.s) && Applied1(crc, w) && w.s.raft == Raft.Bootstrap(conf)
  {
    hide Inv, Reachable, DiskLog, EncodeHeader, Encode, FreshSegment, AppliedTable, WriteSeen, Recovered,
      Snapshot.Decoded;
    var cfg, h := SmallSegments(crc), OneWrite();
    assert EntryWithinLimits(h[0]);
    var w0 := Start(cfg, conf, 0);
    StartReachable(cfg, h, conf, 0);
    StartState(cfg, conf, 0);
    ReachableGood(cfg, h, w0);
    var ev := Event.Apply(0, 0);
    assert Ready(cfg, w0.s) && Enabled(cfg, h, w0, ev);
    w := Step(cfg, h, w0, ev);
    ReachableStep(cfg, h, w0, ev);
    TableAfterApply();
    ApplyMoves(cfg, h, w0);
  }

  lemma {:induction false} ApplyMoves(cfg: Config, h: History, w: World)
    requires Inv(cfg, h, w) && Usable(w.s.wal) && w.pos < |h| && DiskLog(cfg.crc, w.s.wal.files) == []
    requires cfg.maxSegment == 64 && w.s.wal.cur == 0 && w.s.wal.nextSeg == 1 && w.s.wal.off == 64
    ensures var wal := Delivered(cfg, h, w, 0, 0).s.wal;
            && wal.cur == 1
            && AloneInSegment0(cfg.crc, wal.files)
  {
    hide DiskLog, Encode, EncodeHeader, WriteAt, SnapshotGood, TableGood, TailsGood, Covers, ContentCurrent,
      IndexAgrees;
    var r := RecordOf(h[w.pos], 0);
    assert EntryWithinLimits(h[w.pos]) && Fits(r);
    AppendLog(cfg, w.s.wal, r, 0);
    SyncLog(cfg.crc, AppendedWal(cfg, w.s.wal, h[w.pos], 0, 0));
    var p := Placed(AppendLoc(w.s.wal, r), r);
    assert p.loc.seg == 0 && DiskLog(cfg.crc, Delivered(cfg, h, w, 0, 0).s.wal.files) == [p];
  }

  /** The stored snapshot covers index 64 and holds the write's stream with nothing consumed. */
  ghost predicate Snapshotted(cfg: Config, raft: Raft.RaftState) {
    raft.snap.index == 64
    && match Snapshot.Decoded(cfg.tailLimit, raft.snap.data)
       case Snapshot(t) => WriteSeen(t, 0) && NoTails(t)
       case _ => false
  }

  lemma {:induction false} DoSnapshot(crc: Crc, conf: Raft.ConfState, w: World) returns (w': World)
    requires var cfg := SmallSegments(crc);
             Reachable(cfg, OneWrite(), w) && Ready(cfg, w.s) && Applied1(crc, w) && w.s.raft == Raft.Bootstrap(conf)
    ensures var cfg := SmallSegments(crc);
            Reachable(cfg, OneWrite(), w') && Ready(cfg, w'.s) && Applied1(crc, w') && Snapshotted(cfg, w'.s.raft)
  {
    hide Inv, Reachable, DiskLog, Usable, Snapshot.Decoded, Snapshot.SnapshotBytes, AckedOf;
    var cfg, h := SmallSegments(crc), OneWrite();
    assert EntryWithinLimits(h[0]);
    var raft := RaftUpTo64(conf);
    var toRaft, toApplied, toSnap := Event.RaftChange(raft), Event.Advance(64), Event.TakeSnapshot([7]);
    assert Enabled(cfg, h, w, toRaft);
    ReachableStep(cfg, h, w, toRaft);
    var w1 := Step(cfg, h, w, toRaft);
    assert Enabled(cfg, h, w1, toApplied);
    ReachableStep(cfg, h, w1, toApplied);
    var w2 := Step(cfg, h, w1, toApplied);
    assert Snapshot.IsOrder(w2.s.table, [7]);
    assert |{7}| == 1 && |w2.s.table.streams| == |w2.s.table.streams.Keys|;
    assert Enabled(cfg, h, w2, toSnap);
    ReachableStep(cfg, h, w2, toSnap);
    w' := Step(cfg, h, w2, toSnap);
    ReachableGood(cfg, h, w2);
    StorableNow(cfg, h, w2);
    Snapshot.RoundTrip(w2.s.table, [7], cfg.tailLimit);
    assert Raft.TermOf(raft, 64) == Raft.Ok(1);
  }

  lemma StorableNow(cfg: Config, h: History, w: World)
    requires Inv(cfg, h, w) && |w.s.table.streams| < U32_LIMIT
    ensures Snapshot.Storable(w.s.table)
  {
    hide LogGood, SnapshotGood, TailsGood, Covers, Bounded;
  }

  /** After the acknowledgement the write is consumed. */
  ghost predicate Consumed1(crc: Crc, w: World) {
    && w.pos == w.high == 1 && w.s.wal.cur == 1 && AloneInSegment0(crc, w.s.wal.files)
    && Get(w.s.table, 7).consumed == 1
  }

  lemma {:induction false} DoAck(crc: Crc, w: World) returns (w': World)
    requires var cfg := SmallSegments(crc);
             Reachable(cfg, OneWrite(), w) && Ready(cfg, w.s) && Applied1(crc, w) && Snapshotted(cfg, w.s.raft)
    ensures var cfg := SmallSegments(crc);
            Reachable(cfg, OneWrite(), w') && Ready(cfg, w'.s) && Consumed1(crc, w') && Snapshotted(cfg, w'.s.raft)
  {
    hide Inv, Reachable, DiskLog, Usable, Snapshotted, Snapshot.Decoded, AloneInSegment0, DropBelow, AckedOf;
    var cfg, h := SmallSegments(crc), OneWrite();
    OneWriteFits();
    var ev := Event.ClientAck(7, 1);
    assert Enabled(cfg, h, w, ev);
    ReachableStep(cfg, h, w, ev);
    w' := Step(cfg, h, w, ev);
  }

  lemma OneWriteFits()
    ensures WithinLimits(OneWrite())
  {
    assert EntryWithinLimits(OneWrite()[0]);
  }

  /** After a collection: segment 0 is gone and nothing is on disk. */
  lemma {:induction false} DoCollect(crc: Crc, w: World) returns (w': World)
    requires var cfg := SmallSegments(crc);
             Reachable(cfg, OneWrite(), w) && Ready(cfg, w.s) && Consumed1(crc, w) && Snapshotted(cfg, w.s.raft)
    ensures var cfg := SmallSegments(crc);
            && Reachable(cfg, OneWrite(), w') && Ready(cfg, w'.s) && Snapshotted(cfg, w'.s.raft)
            && w'.pos == w'.high == 1 && DiskLog(crc, w'.s.wal.files) == []
  {
    hide Inv, Reachable, DiskLog, Usable, Snapshotted, Snapshot.Decoded, AloneInSegment0, WithinLimits, Trimmed,
      Collected;
    var cfg, h := SmallSegments(crc), OneWrite();
    OneWriteFits();
    var ev := Event.Collect({});
    assert Enabled(cfg, h, w, ev);
    ReachableStep(cfg, h, w, ev);
    w' := Step(cfg, h, w, ev);
    ReachableGood(cfg, h, w);
    CollectsAll(cfg, h, w);
  }

  lemma {:induction false} CollectsAll(cfg: Config, h: History, w: World)
    requires Inv(cfg, h, w) && w.s.wal.cur == 1 && h == OneWrite() && w.high == 1
    requires AloneInSegment0(cfg.crc, w.s.wal.files)
    requires Get(w.s.table, 7).consumed == 1
    ensures DiskLog(cfg.crc, Gc(w.s).wal.files) == []
  {
    hide DiskLog, SnapshotGood, TableGood, TailsGood, Covers, ContentCurrent;
    var log, ix := DiskLog(cfg.crc, w.s.wal.files), Trimmed(w.s.index, w.s.table);
    var p := log[0];
    assert log == [p];
    assert KnownRecord(h, w.high, p.rec);
    assert p.rec.stream == 7 && p.rec.lsn == 0;
    forall s: nat, l: nat ensures Find(ix, s, l).None? {
      assert KeyAgrees(w.s.index, log, Get(w.s.table, s).consumed, s, l);
      assert log[..0] == [];
    }
    assert LiveSegments(ix) == {};
    assert LiveSegments(ix) + {} == {};
    CollectedLog(cfg, w.s.wal, {});
    assert [p][..0] == [];
  }

  /** After the restart the consumed mark is back at 0, and the write, committed at LSN 0, is not found. */
  lemma {:induction false} DoRestart(crc: Crc, w: World) returns (w': World)
    requires var cfg := SmallSegments(crc);
             && Reachable(cfg, OneWrite(), w) && Ready(cfg, w.s) && Snapshotted(cfg, w.s.raft)
             && w.pos == w.high == 1 && DiskLog(crc, w.s.wal.files) == []
    ensures var cfg, h := SmallSegments(crc), OneWrite();
            && Reachable(cfg, h, w') && CaughtUp(w') && w'.high == 1
            && Get(w'.s.table, 7).consumed == 0 && Read(cfg, w'.s, 7, 0).Missing?
  {
    hide Reachable, DiskLog, Snapshot.Decoded, SnapshotGood, TableGood, TailsGood, Covers, ContentCurrent, IndexAgrees,
      CleanFiles, CrashImage, AllSurvive, FileUsable, ReadAt, Reopened;
    var cfg, h := SmallSegments(crc), OneWrite();
    assert EntryWithinLimits(h[0]);
    ReachableGood(cfg, h, w);
    AllSurviveIsImage(cfg, w.s.wal);
    var ev := Event.Restart(AllSurvive(w.s.wal.files), Idle, 0, 0, 1, 64, 0);
    assert Enabled(cfg, h, w, ev);
    ReachableStep(cfg, h, w, ev);
    w' := Step(cfg, h, w, ev);
    assert w'.s.index == map[];
  }

  /**
   * A reachable state in which the map and the read disagree at an LSN that the consumed mark in force does not
   * exclude: the mark was forgotten by a restart, the collection it had allowed was not.
   */
  lemma AcksAreForgotten(crc: Crc, conf: Raft.ConfState) returns (w: World)
    ensures var cfg, h := SmallSegments(crc), OneWrite();
            && Reachable(cfg, h, w) && CaughtUp(w) && w.high == 1
            && Get(w.s.table, 7).consumed == 0 && Content(h, 1, 7, 0) == Some(h[0])
            && Read(cfg, w.s, 7, 0).Missing?
  {
    hide Reachable, Ready, Applied1, Consumed1, Snapshotted, DiskLog, Read;
    w := DoApply(crc, conf);
    w := DoSnapshot(crc, conf, w);
    w := DoAck(crc, w);
    w := DoCollect(crc, w);
    w := DoRestart(crc, w);
  }
}
