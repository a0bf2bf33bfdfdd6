/**
 * One shard over whole runs: client writes, reads and acknowledgements, applied entries, snapshots, collections,
 * leadership lost, and crashes with recovery, in any order.
 */
module ShardRun {
  import opened Bytes
  import opened Record
  import opened Segment
  import opened Index
  import opened Scan
  import opened Log
  import opened Streams
  import opened Wal
  import opened History
  import opened Shard
  import opened LogInv
  import opened TableInv
  import Raft = RaftStorage
  import Snapshot

  /**
   * A shard and what an observer remembers: how many entries it applied since its last start (pos), how many it
   * ever applied (high), and the highest acknowledgement it was ever sent for each stream.
   */
  datatype World = World(s: Shard, pos: nat, high: nat, acked: map<nat, nat>)

  /** How far the append of the next entry had come when the process or the machine went down. */
  datatype Stage = Idle | RecordWritten | Complete // written but not yet rotated; and with the new segment, if any

  datatype Event =
    | ClientWrite(conn: nat, stream: u64, epoch: u64)
    | ClientAck(stream: u64, lsn: u64)
    | Apply(ts: u64, headerTs: u64) // the next committed entry
    | Advance(applied: nat) // Raft moves its applied index, at a batch boundary
    | TakeSnapshot(order: seq<nat>)
    | RaftChange(raft: Raft.RaftState) // hard state and entries; Raft does not touch the snapshot here
    | Collect(spared: set<nat>) // all the way through if nothing is spared, else cut short by a crash
    | LoseLeadership(drained: seq<Pending>)
    | Restart(image: Files, stage: Stage, ts: u64, headerTs: u64, pos: nat, applied: nat, newTs: u64)

  // ---- what holds in every reachable state ----

  /** The log holds committed entries only, is indexed at last-written locations, and is current. */
  ghost predicate LogFits(log: seq<Placed>, h: History, w: World)
    requires w.pos <= w.high <= |h|
  {
    && LogKnown(log, h, w.high)
    && IndexAgrees(w.s.index, log, w.s.table)
    && ContentCurrent(log, h, w.pos, w.high, w.acked)
  }

  ghost predicate LogGood(cfg: Config, h: History, w: World)
    requires w.pos <= w.high <= |h|
  {
    && Tidy(cfg, w.s.wal) && SyncedOrBlank(w.s.wal.files)
    && LogFits(DiskLog(cfg.crc, w.s.wal.files), h, w)
  }

  /** The stored snapshot can be read, covers every entry up to its index, and holds nothing that was never applied. */
  ghost predicate SnapshotGood(cfg: Config, h: History, raft: Raft.RaftState, high: nat, acked: map<nat, nat>)
    requires high <= |h|
  {
    var d := Snapshot.Decoded(cfg.tailLimit, raft.snap.data);
    && d.Snapshot? && d.table.limit == cfg.tailLimit
    && TableGood(d.table, h, high, acked) && NoTails(d.table)
    && CoversIndex(d.table, h, raft.snap.index)
    && Raft.Consecutive(raft.entries)
  }

  ghost predicate PendingWords(pending: map<nat, Pending>) {
    forall id <- pending :: pending[id].lsn < U64_LIMIT
  }

  /** Every entry up to the applied index has been applied since the last start. */
  ghost predicate AppliedBehind(h: History, applied: nat, pos: nat) {
    forall i :: 0 <= i < |h| && h[i].index <= applied ==> i < pos
  }

  /** What is in memory and in the Raft storage, whatever the log looks like. */
  ghost predicate StateGood(cfg: Config, h: History, w: World)
    requires w.pos <= w.high <= |h|
  {
    && w.s.table.limit == cfg.tailLimit
    && TableGood(w.s.table, h, w.high, w.acked) && Covers(w.s.table, h, w.pos)
    && TailsGood(w.s.table, w.s.index, h, w.high)
    && SnapshotGood(cfg, h, w.s.raft, w.high, w.acked)
    && AppliedBehind(h, w.s.applied, w.pos)
    && PendingWords(w.s.pending)
  }

  ghost predicate Inv(cfg: Config, h: History, w: World) {
    && w.pos <= w.high <= |h| && WithinLimits(h)
    && LogGood(cfg, h, w) && StateGood(cfg, h, w)
  }

  // ---- steps ----

  /** When an event can happen.  Committed entries arrive in order; crashes cut at a record boundary. */
  ghost predicate Enabled(cfg: Config, h: History, w: World, ev: Event)
    requires Usable(w.s.wal)
  {
    match ev
    case ClientWrite(_, stream, _) => Get(w.s.table, stream).next + 1 < U64_LIMIT
    case ClientAck(_, _) => true
    case Apply(_, _) => w.pos < |h|
    case Advance(applied) => AppliedBehind(h, applied, w.pos)
    case TakeSnapshot(order) =>
      SnapshotDue(w.s) && Snapshot.IsOrder(w.s.table, order) && |w.s.table.streams| < U32_LIMIT
    case RaftChange(raft) => raft.snap == w.s.raft.snap && Raft.Consecutive(raft.entries)
    case Collect(_) => true
    case LoseLeadership(drained) => forall p <- drained :: p in w.s.pending.Values
    case Restart(image, stage, ts, headerTs, pos, applied, _) =>
      && (stage != Idle ==> w.pos < |h|)
      && CrashImage(FilesAtCrash(cfg, h, w, stage, ts, headerTs), image) && CleanFiles(cfg.crc, image)
      && RestartsAt(h, w, pos) && AppliedBehind(h, applied, pos)
  }

  /** What is in the files when the crash comes; the record of an append under way is not synced unless rotated. */
  ghost function FilesAtCrash(cfg: Config, h: History, w: World, stage: Stage, ts: u64, headerTs: u64): Files
    requires Usable(w.s.wal) && (stage != Idle ==> w.pos < |h|)
  {
    match stage
    case Idle => w.s.wal.files
    case RecordWritten => Written(cfg, w.s.wal, RecordOf(h[w.pos], ts)).files
    case Complete => AppendedWal(cfg, w.s.wal, h[w.pos], ts, headerTs).files
  }

  /** Raft delivers again from a point that the stored snapshot covers. */
  ghost predicate RestartsAt(h: History, w: World, pos: nat) {
    pos <= w.pos && pos <= |h| && forall i :: 0 <= i < pos ==> h[i].index <= w.s.raft.snap.index
  }

  ghost predicate Ready(cfg: Config, s: Shard) {
    Usable(s.wal) && Raft.Consecutive(s.raft.entries) && Snapshot.Decoded(cfg.tailLimit, s.raft.snap.data).Snapshot?
  }

  /** The next committed entry has been applied. */
  function Delivered(cfg: Config, h: History, w: World, ts: u64, headerTs: u64): World
    requires Usable(w.s.wal) && w.pos < |h|
  {
    World(ApplyEntry(cfg, w.s, h[w.pos], ts, headerTs), w.pos + 1, Max(w.high, w.pos + 1), w.acked)
  }

  ghost function Step(cfg: Config, h: History, w: World, ev: Event): World
    requires Ready(cfg, w.s) && Enabled(cfg, h, w, ev)
  {
    match ev
    case ClientWrite(conn, stream, epoch) => w.(s := LeaderWrite(w.s, conn, stream, epoch))
    case ClientAck(stream, lsn) =>
      w.(s := w.s.(table := Acked(w.s.table, stream, lsn)),
         acked := w.acked[stream := Max(AckedOf(w.acked, stream), lsn)])
    case Apply(ts, headerTs) => Delivered(cfg, h, w, ts, headerTs)
    case Advance(applied) => w.(s := w.s.(applied := applied))
    case TakeSnapshot(order) => w.(s := SnapshotTaken(w.s, order))
    case RaftChange(raft) => w.(s := w.s.(raft := raft))
    case Collect(spared) => w.(s := GcSparing(w.s, spared))
    case LoseLeadership(drained) => w.(s := StepDown(w.s, drained))
    case Restart(image, stage, _, _, pos, applied, newTs) =>
      World(Recovered(cfg, image, w.s.raft, applied, newTs), pos,
            if stage == Idle then w.high else Max(w.high, w.pos + 1), w.acked)
  }

  lemma InvReady(cfg: Config, h: History, w: World)
    requires Inv(cfg, h, w)
    ensures Ready(cfg, w.s)
  {
  }

  lemma SnapshotGoodGrows(
      cfg: Config, h: History, raft: Raft.RaftState, m: nat, n: nat, acked: map<nat, nat>, acked': map<nat, nat>)
    requires m <= n <= |h| && SnapshotGood(cfg, h, raft, m, acked)
    requires forall s: nat :: AckedOf(acked, s) <= AckedOf(acked', s)
    ensures SnapshotGood(cfg, h, raft, n, acked')
  {
    hide Snapshot.Decoded, Covers, CoversIndex, StreamBounded;
    var t := Snapshot.Decoded(cfg.tailLimit, raft.snap.data).table;
    BoundedGrows(t, h, m, n);
    forall id: nat ensures Get(t, id).consumed <= AckedOf(acked', id) {
      assert Get(t, id).consumed <= AckedOf(acked, id) <= AckedOf(acked', id);
    }
  }

  lemma TableGoodGrows(t: Table, h: History, m: nat, n: nat, acked: map<nat, nat>)
    requires m <= n <= |h| && TableGood(t, h, m, acked)
    ensures TableGood(t, h, n, acked)
  {
    BoundedGrows(t, h, m, n);
  }

  // ---- what steps do to memory and Raft storage ----

  lemma {:induction false} WriteKeepsState(cfg: Config, h: History, w: World, ev: Event)
    requires Ready(cfg, w.s) && w.pos <= w.high <= |h| && StateGood(cfg, h, w)
    requires ev.ClientWrite? && Enabled(cfg, h, w, ev)
    ensures StateGood(cfg, h, Step(cfg, h, w, ev))
  {
    hide SnapshotGood, TableGood, CoversEntry, StreamGrows, StreamTailsGood, Usable;
    var t, t' := w.s.table, Allocate(w.s.table, ev.stream, ev.epoch).0;
    AllocateGood(t, h, w.high, w.acked, ev.stream, ev.epoch);
    GrowsCoversAll(t, t', h, w.pos);
    TailsCarryOver(t, t', w.s.index, w.s.index, h, w.high, w.high);
  }

  lemma {:induction false} AckKeepsState(cfg: Config, h: History, w: World, ev: Event)
    requires Ready(cfg, w.s) && w.pos <= w.high <= |h| && StateGood(cfg, h, w)
    requires ev.ClientAck? && Enabled(cfg, h, w, ev)
    ensures StateGood(cfg, h, Step(cfg, h, w, ev))
  {
    hide SnapshotGood, TableGood, CoversEntry, StreamTailsGood, DropBelow, Usable;
    var t, t' := w.s.table, Acked(w.s.table, ev.stream, ev.lsn);
    var acked' := w.acked[ev.stream := Max(AckedOf(w.acked, ev.stream), ev.lsn)];
    AckedGood(t, h, w.high, w.acked, ev.stream, ev.lsn);
    GrowsCoversAll(t, t', h, w.pos);
    AckedConsumed(t, ev.stream, ev.lsn);
    TailsCarryOver(t, t', w.s.index, w.s.index, h, w.high, w.high);
    SnapshotGoodGrows(cfg, h, w.s.raft, w.high, w.high, w.acked, acked');
  }

  lemma AckedConsumed(t: Table, stream: nat, lsn: nat)
    ensures ConsumedGrows(t, Acked(t, stream, lsn))
    ensures forall id: nat :: forall x <- Get(Acked(t, stream, lsn), id).tail :: x in Get(t, id).tail
  {
  }

  lemma {:induction false} ApplyKeepsState(cfg: Config, h: History, w: World, ev: Event)
    requires Ready(cfg, w.s) && w.pos <= w.high <= |h| && StateGood(cfg, h, w) && WithinLimits(h)
    requires ev.Apply? && Enabled(cfg, h, w, ev)
    ensures StateGood(cfg, h, Step(cfg, h, w, ev))
    ensures Find(Step(cfg, h, w, ev).s.index, h[w.pos].cmd.stream, h[w.pos].cmd.lsn).Some?
  {
    hide SnapshotGood, TableGood, Usable, CoversEntry, AppendedWal, SyncCurrent, EncodedSize;
    var w' := Step(cfg, h, w, ev);
    var t, e := w.s.table, h[w.pos];
    TableGoodGrows(t, h, w.high, w'.high, w.acked);
    AppliedGood(t, h, w'.high, w.acked, w.pos);
    AppliedGrows(t, e);
    GrowsCoversAll(t, AppliedTable(t, e), h, w.pos);
    TailsCarryOver(t, t, w.s.index, w'.s.index, h, w.high, w'.high);
    TailsAfterApplied(t, w'.s.index, h, w'.high, w.pos);
    AppliedLimit(t, e);
    SnapshotGoodGrows(cfg, h, w.s.raft, w.high, w'.high, w.acked, w.acked);
  }

  lemma {:induction false} SnapshotKeepsState(cfg: Config, h: History, w: World, ev: Event)
    requires Ready(cfg, w.s) && w.pos <= w.high <= |h| && StateGood(cfg, h, w)
    requires ev.TakeSnapshot? && Enabled(cfg, h, w, ev)
    ensures StateGood(cfg, h, Step(cfg, h, w, ev))
  {
    hide TailsGood, Snapshot.Decoded, StreamBounded, CoversEntry, Snapshot.StorableStream, Raft.TermOf, Usable;
    var t, data := w.s.table, Snapshot.SnapshotBytes(w.s.table, ev.order);
    Snapshot.RoundTrip(t, ev.order, cfg.tailLimit);
    var bare := Snapshot.Bare(t, cfg.tailLimit);
    BareGood(t, h, w.high, w.acked, cfg.tailLimit);
    forall i | 0 <= i < |h| && h[i].index <= w.s.applied ensures CoversEntry(bare, h[i]) {
      GrowsCovers(t, bare, h[i]);
    }
    assert CoversIndex(bare, h, w.s.applied);
    var created := Raft.SnapshotCreated(w.s.raft, w.s.applied, data);
    if created.Ok? {
      assert SnapshotGood(cfg, h, created.value, w.high, w.acked);
      Raft.CompactedKeepsShape(created.value, w.s.applied + 1);
    }
  }

  lemma {:induction false} CollectKeepsState(cfg: Config, h: History, w: World, ev: Event)
    requires Ready(cfg, w.s) && w.pos <= w.high <= |h| && StateGood(cfg, h, w)
    requires ev.Collect? && Enabled(cfg, h, w, ev)
    ensures StateGood(cfg, h, Step(cfg, h, w, ev))
  {
    hide StreamBounded, SnapshotGood, CoversEntry, Usable;
    var s := w.s;
    TailsCarryOver(s.table, s.table, s.index, GcSparing(s, ev.spared).index, h, w.high, w.high);
  }

  lemma {:induction false} StepDownKeepsState(cfg: Config, h: History, w: World, ev: Event)
    requires Ready(cfg, w.s) && w.pos <= w.high <= |h| && StateGood(cfg, h, w)
    requires ev.LoseLeadership? && Enabled(cfg, h, w, ev)
    ensures StateGood(cfg, h, Step(cfg, h, w, ev))
  {
    hide SnapshotGood, TableGood, CoversEntry, StreamGrows, StreamTailsGood, Usable;
    var t, t' := w.s.table, RollbackAll(w.s.table, ev.drained);
    forall p <- ev.drained ensures p.lsn < U64_LIMIT {
      var id :| id in w.s.pending && w.s.pending[id] == p;
    }
    RollbackAllGood(t, ev.drained, h, w.high, w.acked);
    GrowsCoversAll(t, t', h, w.pos);
    TailsCarryOver(t, t', w.s.index, w.s.index, h, w.high, w.high);
  }

  lemma {:induction false} RaftKeepsState(cfg: Config, h: History, w: World, ev: Event)
    requires Ready(cfg, w.s) && w.pos <= w.high <= |h| && StateGood(cfg, h, w)
    requires (ev.Advance? || ev.RaftChange?) && Enabled(cfg, h, w, ev)
    ensures StateGood(cfg, h, Step(cfg, h, w, ev))
  {
    hide TableGood, TailsGood, Covers, Snapshot.Decoded, Usable, CoversIndex;
  }

  /** No step but a restart needs to know the log to keep the rest of the invariant. */
  lemma {:induction false} StepKeepsState(cfg: Config, h: History, w: World, ev: Event)
    requires Ready(cfg, w.s) && w.pos <= w.high <= |h| && StateGood(cfg, h, w) && WithinLimits(h)
    requires !ev.Restart? && Enabled(cfg, h, w, ev)
    ensures var w' := Step(cfg, h, w, ev); w'.pos <= w'.high <= |h| && StateGood(cfg, h, w')
  {
    BoundsKept(cfg, h, w, ev);
    hide *;
    match ev
    case ClientWrite(_, _, _) => WriteKeepsState(cfg, h, w, ev);
    case ClientAck(_, _) => AckKeepsState(cfg, h, w, ev);
    case Apply(_, _) => ApplyKeepsState(cfg, h, w, ev);
    case Advance(_) => RaftKeepsState(cfg, h, w, ev);
    case TakeSnapshot(_) => SnapshotKeepsState(cfg, h, w, ev);
    case RaftChange(_) => RaftKeepsState(cfg, h, w, ev);
    case Collect(_) => CollectKeepsState(cfg, h, w, ev);
    case LoseLeadership(_) => StepDownKeepsState(cfg, h, w, ev);
  }

  lemma {:induction false} BoundsKept(cfg: Config, h: History, w: World, ev: Event)
    requires Ready(cfg, w.s) && w.pos <= w.high <= |h| && !ev.Restart? && Enabled(cfg, h, w, ev)
    ensures var w' := Step(cfg, h, w, ev); w'.pos <= w'.high <= |h|
  {
    hide Usable, ApplyEntry, LeaderWrite, SnapshotTaken, GcSparing, StepDown;
  }

  // ---- what steps do to the log ----

  /** An event that leaves the log and the index alone. */
  predicate Quiet(ev: Event) {
    !ev.Apply? && !ev.Collect? && !ev.Restart?
  }

  lemma {:induction false} QuietKeepsFit(cfg: Config, h: History, w: World, log: seq<Placed>, ev: Event)
    requires Ready(cfg, w.s) && w.pos <= w.high <= |h| && StateGood(cfg, h, w)
    requires LogFits(log, h, w) && Quiet(ev) && Enabled(cfg, h, w, ev)
    ensures var w' := Step(cfg, h, w, ev);
            && w'.s.wal == w.s.wal && w'.pos == w.pos && w'.high == w.high
            && w'.pos <= w'.high <= |h| && LogFits(log, h, w')
  {
    hide SnapshotGood, TableGood, TailsGood, Covers, AppliedBehind, KeyAgrees, KeyCurrent, LogKnown, Usable, Acked,
      Allocate, RollbackAll, StreamGrows;
    var t := w.s.table;
    match ev
    case ClientWrite(_, stream, epoch) =>
      AllocateGood(t, h, w.high, w.acked, stream, epoch);
      IndexAfterAck(w.s.index, log, t, Allocate(t, stream, epoch).0);
    case ClientAck(stream, lsn) =>
      AckedGood(t, h, w.high, w.acked, stream, lsn);
      AckedConsumed(t, stream, lsn);
      IndexAfterAck(w.s.index, log, t, Acked(t, stream, lsn));
      ContentAfterAck(log, h, w.pos, w.high, w.acked, Step(cfg, h, w, ev).acked);
    case LoseLeadership(drained) =>
      forall p <- drained ensures p.lsn < U64_LIMIT {
        var id :| id in w.s.pending && w.s.pending[id] == p;
      }
      RollbackAllGood(t, drained, h, w.high, w.acked);
      IndexAfterAck(w.s.index, log, t, RollbackAll(t, drained));
    case TakeSnapshot(order) => TakenLeavesRest(w.s, order);
    case _ =>
  }

  lemma TakenLeavesRest(s: Shard, order: seq<nat>)
    requires Raft.Consecutive(s.raft.entries) && forall id <- order :: id in s.table.streams
    ensures var s' := SnapshotTaken(s, order); s'.table == s.table && s'.index == s.index && s'.wal == s.wal
  {
    hide Raft.SnapshotCreated, Raft.CompactedTo;
  }

  lemma {:induction false} ApplyKeepsFit(
      cfg: Config, h: History, w: World, log: seq<Placed>, ts: u64, headerTs: u64)
    requires Usable(w.s.wal) && w.pos <= w.high <= |h| && w.pos < |h| && LogFits(log, h, w)
    ensures var r := RecordOf(h[w.pos], ts);
            LogFits(log + [Placed(AppendLoc(w.s.wal, r), r)], h, Delivered(cfg, h, w, ts, headerTs))
  {
    hide KeyAgrees, KeyCurrent, Usable, AppendedWal, SyncCurrent, AppliedTable, AppendLoc;
    var e, r := h[w.pos], RecordOf(h[w.pos], ts);
    var p, high := Placed(AppendLoc(w.s.wal, r), r), Max(w.high, w.pos + 1);
    assert RecordIs(r, e);
    LogKnownGrows(log, h, w.high, high);
    assert KnownRecord(h, high, r);
    IndexAfterAppend(w.s.index, log, w.s.table, p);
    AppliedGrows(w.s.table, e);
    IndexAfterAck(Inserted(w.s.index, r.stream, r.lsn, p.loc), log + [p], w.s.table, AppliedTable(w.s.table, e));
    ContentAfterAppend(log, h, w.pos, w.high, w.acked, p);
  }

  /** Collecting keeps the records of the segments it keeps, and the log they are. */
  lemma {:induction false} CollectKeepsFit(h: History, w: World, log: seq<Placed>, spared: set<nat>)
    requires w.pos <= w.high <= |h| && LogFits(log, h, w)
    requires forall st: nat :: Get(w.s.table, st).consumed <= AckedOf(w.acked, st)
    requires forall p <- log :: p.loc.seg in w.s.wal.files
    ensures LogFits(OnlyIn(log, GcSparing(w.s, spared).wal.files.Keys), h, w.(s := GcSparing(w.s, spared)))
  {
    hide KeyAgrees, KeyCurrent, GcSparing;
    var keep := GcSparing(w.s, spared).wal.files.Keys;
    KnownAfterGc(log, keep, h, w.high);
    IndexAfterGc(w.s, log, spared);
    ContentAfterGc(w.s, log, spared, h, w.pos, w.high, w.acked);
    GcLeavesRest(w.s, spared);
  }

  lemma GcLeavesRest(s: Shard, spared: set<nat>)
    ensures var s' := GcSparing(s, spared); s'.table == s.table && s'.raft == s.raft && s'.pending == s.pending
  {
    hide Trimmed;
  }

  // ---- the invariant, step by step ----

  lemma {:induction false} QuietKeeps(cfg: Config, h: History, w: World, ev: Event)
    requires Ready(cfg, w.s) && Inv(cfg, h, w) && Quiet(ev) && Enabled(cfg, h, w, ev)
    ensures Inv(cfg, h, Step(cfg, h, w, ev))
  {
    hide StateGood, LogFits, Tidy, SyncedOrBlank, DiskLog, Ready, Enabled, Step;
    StepKeepsState(cfg, h, w, ev);
    QuietKeepsFit(cfg, h, w, DiskLog(cfg.crc, w.s.wal.files), ev);
  }

  lemma {:induction false} ApplyKeepsLog(cfg: Config, h: History, w: World, ts: u64, headerTs: u64)
    requires Ready(cfg, w.s) && Inv(cfg, h, w) && w.pos < |h|
    ensures LogGood(cfg, h, Delivered(cfg, h, w, ts, headerTs))
  {
    hide DiskLog, LogFits, StateGood, CleanFiles, Extended, FileUsable;
    var e, log := h[w.pos], DiskLog(cfg.crc, w.s.wal.files);
    var r := RecordOf(e, ts);
    assert EntryWithinLimits(e) && Fits(r);
    AppendLog(cfg, w.s.wal, r, headerTs);
    var w1 := AppendedWal(cfg, w.s.wal, e, ts, headerTs);
    SyncUsable(w1);
    SyncLog(cfg.crc, w1);
    AppendThenSyncIsDurable(cfg, w.s.wal, r, headerTs);
    ApplyKeepsFit(cfg, h, w, log, ts, headerTs);
  }

  lemma {:induction false} ApplyKeeps(cfg: Config, h: History, w: World, ev: Event)
    requires Ready(cfg, w.s) && Inv(cfg, h, w) && ev.Apply? && Enabled(cfg, h, w, ev)
    ensures Inv(cfg, h, Step(cfg, h, w, ev))
  {
    hide LogGood, StateGood, Usable, ApplyEntry;
    ApplyKeepsLog(cfg, h, w, ev.ts, ev.headerTs);
    StepKeepsState(cfg, h, w, ev);
  }

  /** A snapshot whose data may be ahead of its index keeps the invariant. */
  lemma {:induction false} SnapshotKeeps(cfg: Config, h: History, w: World, ev: Event)
    requires Ready(cfg, w.s) && Inv(cfg, h, w) && ev.TakeSnapshot? && Enabled(cfg, h, w, ev)
    ensures Inv(cfg, h, Step(cfg, h, w, ev))
  {
    hide Inv, Ready, Enabled, Step;
    QuietKeeps(cfg, h, w, ev);
  }

  lemma {:induction false} CollectKeeps(cfg: Config, h: History, w: World, ev: Event)
    requires Ready(cfg, w.s) && Inv(cfg, h, w) && ev.Collect? && Enabled(cfg, h, w, ev)
    ensures Inv(cfg, h, Step(cfg, h, w, ev))
  {
    hide DiskLog, LogFits, LogKnown, CleanFiles, StreamBounded, Words, SnapshotGood, TailsGood, Covers, AppliedBehind,
      FileUsable, Trimmed, Collected;
    var s, log := w.s, DiskLog(cfg.crc, w.s.wal.files);
    FitsOnDisk(cfg, h, w);
    CollectedTidy(cfg, s, ev.spared);
    CollectKeepsFit(h, w, log, ev.spared);
    StepKeepsState(cfg, h, w, ev);
  }

  lemma {:induction false} FitsOnDisk(cfg: Config, h: History, w: World)
    requires Inv(cfg, h, w)
    ensures forall p <- DiskLog(cfg.crc, w.s.wal.files) :: p.loc.seg in w.s.wal.files
  {
    hide DiskLog, StateGood, Tidy, IndexAgrees, ContentCurrent;
    var log := DiskLog(cfg.crc, w.s.wal.files);
    LogKnownFits(log, h, w.high);
    forall p <- log ensures p.loc.seg in w.s.wal.files {
      LogReadsBack(cfg.crc, w.s.wal.files, p);
    }
  }

  lemma CollectedTidy(cfg: Config, s: Shard, spared: set<nat>)
    requires Tidy(cfg, s.wal) && SyncedOrBlank(s.wal.files)
    ensures var w' := GcSparing(s, spared).wal;
            && Tidy(cfg, w') && SyncedOrBlank(w'.files)
            && DiskLog(cfg.crc, w'.files) == OnlyIn(DiskLog(cfg.crc, s.wal.files), w'.files.Keys)
  {
    hide DiskLog, CleanFiles, FileUsable, Trimmed;
    var live := LiveSegments(Trimmed(s.index, s.table)) + spared;
    CollectedLog(cfg, s.wal, live);
    var w' := GcSparing(s, spared).wal;
    assert w'.files.Keys == s.wal.files.Keys - (s.wal.files.Keys - live - {s.wal.cur});
  }

  lemma {:induction false} StepDownKeeps(cfg: Config, h: History, w: World, ev: Event)
    requires Ready(cfg, w.s) && Inv(cfg, h, w) && ev.LoseLeadership? && Enabled(cfg, h, w, ev)
    ensures Inv(cfg, h, Step(cfg, h, w, ev))
  {
    hide Inv, Ready, Enabled, Step;
    QuietKeeps(cfg, h, w, ev);
  }

  // ---- restarting ----

  /** The log is the one before the crash, or that and the record of the next entry. */
  ghost predicate SameOrOneMore(log: seq<Placed>, found: seq<Placed>, h: History, w: World, stage: Stage, ts: u64) {
    found == log
    || (stage != Idle && w.pos < |h|
        && found == log + [Placed(AppendLoc(w.s.wal, RecordOf(h[w.pos], ts)), RecordOf(h[w.pos], ts))])
  }

  /** What recovery finds on disk after a crash at a record boundary. */
  lemma {:induction false} RestartLog(cfg: Config, h: History, w: World, ev: Event)
    requires Ready(cfg, w.s) && Inv(cfg, h, w) && ev.Restart? && Enabled(cfg, h, w, ev)
    ensures SameOrOneMore(DiskLog(cfg.crc, w.s.wal.files), DiskLog(cfg.crc, ev.image), h, w, ev.stage, ev.ts)
    ensures AllSynced(ev.image) && ev.image != map[]
  {
    hide DiskLog, CleanFiles, CleanFile, Extended, Written, SnapshotGood, TableGood, SurvivesAs, SameData, FileUsable;
    assert ev.stage != Idle ==> EntryWithinLimits(h[w.pos]);
    match ev.stage
    case Idle =>
      IdleBoundary(cfg.crc, w.s.wal.files, ev.image);
      CrashHitsNewestOnly(w.s.wal, ev.image);
      SameDataSameLog(cfg.crc, ev.image, w.s.wal.files);
    case RecordWritten => WrittenRestartLog(cfg, w.s.wal, h[w.pos], ev.ts, ev.image);
    case Complete => CompleteRestartLog(cfg, w.s.wal, h[w.pos], ev.ts, ev.headerTs, ev.image);
  }

  lemma {:induction false} WrittenRestartLog(cfg: Config, wal: Wal, e: Entry, ts: u64, image: Files)
    requires Tidy(cfg, wal) && SyncedOrBlank(wal.files) && EntryWithinLimits(e)
    requires CrashImage(Written(cfg, wal, RecordOf(e, ts)).files, image) && CleanFiles(cfg.crc, image)
    ensures DiskLog(cfg.crc, image) == DiskLog(cfg.crc, wal.files)
            || DiskLog(cfg.crc, image)
               == DiskLog(cfg.crc, wal.files) + [Placed(AppendLoc(wal, RecordOf(e, ts)), RecordOf(e, ts))]
    ensures AllSynced(image) && image != map[]
  {
    hide DiskLog, CleanFiles, CleanFile, Written, SurvivesAs, SameData, FileUsable;
    var r := RecordOf(e, ts);
    WrittenFile(cfg, wal, r);
    WrittenLog(cfg, wal, r);
    WrittenBoundary(cfg, wal, r, image);
    CrashHitsNewestOnly(Written(cfg, wal, r), image);
    if SameData(image, wal.files) {
      SameDataSameLog(cfg.crc, image, wal.files);
    } else {
      SameDataSameLog(cfg.crc, image, Written(cfg, wal, r).files);
    }
  }

  lemma {:induction false} CompleteRestartLog(cfg: Config, wal: Wal, e: Entry, ts: u64, headerTs: u64, image: Files)
    requires Tidy(cfg, wal) && SyncedOrBlank(wal.files) && EntryWithinLimits(e)
    requires CrashImage(AppendedWal(cfg, wal, e, ts, headerTs).files, image) && CleanFiles(cfg.crc, image)
    ensures DiskLog(cfg.crc, image) == DiskLog(cfg.crc, wal.files)
            || DiskLog(cfg.crc, image)
               == DiskLog(cfg.crc, wal.files) + [Placed(AppendLoc(wal, RecordOf(e, ts)), RecordOf(e, ts))]
    ensures AllSynced(image) && image != map[]
  {
    hide DiskLog, CleanFiles, CleanFile, Extended, SurvivesAs, SameData, FileUsable;
    var r, after := RecordOf(e, ts), AppendedWal(cfg, wal, e, ts, headerTs);
    AppendLog(cfg, wal, r, headerTs);
    InFlightBoundary(cfg, wal, r, headerTs, image);
    CrashHitsNewestOnly(after, image);
    if SameData(image, wal.files) {
      SameDataSameLog(cfg.crc, image, wal.files);
    } else {
      SameDataSameLog(cfg.crc, image, after.files);
    }
  }

  lemma {:induction false} RestartKeepsLog(cfg: Config, h: History, w: World, ev: Event)
    requires Ready(cfg, w.s) && Inv(cfg, h, w) && ev.Restart? && Enabled(cfg, h, w, ev)
    ensures var w' := Step(cfg, h, w, ev); w'.pos <= w'.high <= |h| && LogGood(cfg, h, w')
  {
    hide DiskLog, CleanFiles, KeyCurrent, SnapshotGood, TableGood, Usable, ObserveLog, IndexOf, Snapshot.Decoded,
      CrashImage, FilesAtCrash, KeyAgrees, TailsGood, Covers, AppliedBehind, PendingWords;
    assert w.pos <= w.high <= |h| && LogGood(cfg, h, w);
    var log, found := DiskLog(cfg.crc, w.s.wal.files), DiskLog(cfg.crc, ev.image);
    var w' := Step(cfg, h, w, ev);
    RestartLog(cfg, h, w, ev);
    AllSyncedOlder(ev.image);
    ReopenedUsable(cfg, ev.image, ev.newTs);
    assert w'.s.wal.files == ev.image;
    LogKnownGrows(log, h, w.high, w'.high);
    IndexAfterRescan(found, w'.s.table);
    if found == log {
      ContentGrows(log, h, w.pos, w.high, w'.high, w.acked);
      ContentAfterRewind(found, h, w.pos, w'.high, w.acked, w'.pos);
    } else {
      var r := RecordOf(h[w.pos], ev.ts);
      assert RecordIs(r, h[w.pos]);
      assert KnownRecord(h, w'.high, r);
      ContentAfterAppend(log, h, w.pos, w.high, w.acked, Placed(AppendLoc(w.s.wal, r), r));
      ContentAfterRewind(found, h, w.pos + 1, w'.high, w.acked, w'.pos);
    }
  }

  lemma ContentGrows(log: seq<Placed>, h: History, pos: nat, high: nat, high': nat, acked: map<nat, nat>)
    requires pos <= high <= high' <= |h| && ContentCurrent(log, h, pos, high, acked)
    ensures ContentCurrent(log, h, pos, high', acked)
  {
    forall s: nat, l: nat | l >= AckedOf(acked, s) ensures KeyCurrent(log, h, pos, high', s, l) {
      assert KeyCurrent(log, h, pos, high, s, l);
      if Last(log, s, l).Some? {
        RecentGrows(Last(log, s, l).value.rec, h, LastWriter(h, pos, s, l), high, LastWriter(h, pos, s, l), high');
      }
    }
  }

  /** What opening makes of any files whose log holds committed entries only. */
  lemma {:induction false} RecoveredStateGood(
      cfg: Config, h: History, w: World, image: Files, pos: nat, high: nat, applied: nat, newTs: u64)
    requires Ready(cfg, w.s) && w.pos <= w.high <= high <= |h| && StateGood(cfg, h, w) && WithinLimits(h)
    requires image != map[] && LogKnown(DiskLog(cfg.crc, image), h, high)
    requires RestartsAt(h, w, pos) && AppliedBehind(h, applied, pos)
    ensures pos <= high && StateGood(cfg, h, World(Recovered(cfg, image, w.s.raft, applied, newTs), pos, high, w.acked))
  {
    hide DiskLog, TableGood, Usable, ObserveLog, IndexOf, Snapshot.Decoded, Covers, CoversEntry, StreamTailsGood,
      StreamGrows, Reopened;
    SnapshotGoodGrows(cfg, h, w.s.raft, w.high, high, w.acked, w.acked);
    var t0 := Snapshot.Decoded(cfg.tailLimit, w.s.raft.snap.data).table;
    var found := DiskLog(cfg.crc, image);
    forall p <- found ensures Find(IndexOf(found), p.rec.stream, p.rec.lsn).Some? {
      IndexOfIsLast(found, p.rec.stream, p.rec.lsn);
      LastFindsAny(found, p);
    }
    RecoveredGood(t0, found, w.s.raft.snap.index, h, high, w.acked, IndexOf(found));
    RecoveredCovers(t0, ObserveLog(t0, found, w.s.raft.snap.index), h, w.s.raft.snap.index, pos);
  }

  lemma {:induction false} RestartKeeps(cfg: Config, h: History, w: World, ev: Event)
    requires Ready(cfg, w.s) && Inv(cfg, h, w) && ev.Restart? && Enabled(cfg, h, w, ev)
    ensures Inv(cfg, h, Step(cfg, h, w, ev))
  {
    hide DiskLog, CleanFiles, StateGood, Usable, Recovered, LogKnown, FilesAtCrash, RestartsAt, AppliedBehind, Tidy,
      SyncedOrBlank, IndexAgrees, ContentCurrent;
    var w' := Step(cfg, h, w, ev);
    RestartKeepsLog(cfg, h, w, ev);
    RestartLog(cfg, h, w, ev);
    assert w'.s.wal.files == ev.image by { RecoveredFiles(cfg, ev.image, w.s.raft, ev.applied, ev.newTs); }
    RecoveredStateGood(cfg, h, w, ev.image, ev.pos, w'.high, ev.applied, ev.newTs);
  }

  lemma RecoveredFiles(cfg: Config, image: Files, raft: Raft.RaftState, applied: nat, newTs: u64)
    requires image != map[] && Snapshot.Decoded(cfg.tailLimit, raft.snap.data).Snapshot?
    ensures Recovered(cfg, image, raft, applied, newTs).wal.files == image
  {
    hide DiskLog, ObserveLog, IndexOf, Snapshot.Decoded, NextEntry;
  }

  /** Recovery covers the entries that will not be delivered again. */
  lemma RecoveredCovers(t0: Table, t: Table, h: History, index: nat, pos: nat)
    requires pos <= |h| && CoversIndex(t0, h, index) && Grows(t0, t)
    requires forall i :: 0 <= i < pos ==> h[i].index <= index
    ensures Covers(t, h, pos)
  {
    forall i | 0 <= i < pos ensures CoversEntry(t, h[i]) {
      GrowsCovers(t0, t, h[i]);
    }
  }

  // ---- every step, every run ----

  lemma {:induction false} StepKeepsInv(cfg: Config, h: History, w: World, ev: Event)
    requires Ready(cfg, w.s) && Inv(cfg, h, w) && Enabled(cfg, h, w, ev)
    ensures Inv(cfg, h, Step(cfg, h, w, ev))
  {
    hide Inv, Ready, Enabled, Step;
    match ev
    case Apply(_, _) => ApplyKeeps(cfg, h, w, ev);
    case Collect(_) => CollectKeeps(cfg, h, w, ev);
    case Restart(_, _, _, _, _, _, _) => RestartKeeps(cfg, h, w, ev);
    case _ => QuietKeeps(cfg, h, w, ev);
  }
}
