/** The main results about one shard, for every run from a fresh start. */
module Theorems {
  import opened Bytes
  import opened Segment
  import opened Index
  import opened Scan
  import opened Log
  import opened Streams
  import opened Wal
  import opened History
  import opened Shard
  import opened LogInv
  import opened TableInv
  import opened ShardRun
  import opened CacheInv
  import Raft = RaftStorage

  // ---- runs ----

  /** A node that starts on an empty directory: one segment, nothing in it. */
  function Start(cfg: Config, conf: Raft.ConfState, ts: u64): World {
    var wal := Wal(map[0 := FreshSegment(cfg, 0, ts)], 0, SEGMENT_HEADER_SIZE, 0, 1);
    World(Shard(wal, map[], Table(map[], cfg.tailLimit), Raft.Bootstrap(conf), 0, map[], 0), 0, 0, map[])
  }

  /** That is what opening an empty directory recovers. */
  lemma StartIsRecovered(cfg: Config, conf: Raft.ConfState, ts: u64)
    ensures Start(cfg, conf, ts).s == Recovered(cfg, map[], Raft.Bootstrap(conf), 0, ts)
  {
    hide FreshSegment, ScanFile;
    var blank: Files := map[];
    assert Ids(blank.Keys) == [];
    assert DiskLog(cfg.crc, blank) == [];
  }

  ghost predicate StepsTo(cfg: Config, h: History, w: World, ev: Event, w': World) {
    Ready(cfg, w.s) && Enabled(cfg, h, w, ev) && w' == Step(cfg, h, w, ev)
  }

  ghost predicate IsRun(cfg: Config, h: History, ws: seq<World>, evs: seq<Event>) {
    |ws| == |evs| + 1 && forall i :: 0 <= i < |evs| ==> StepsTo(cfg, h, ws[i], evs[i], ws[i + 1])
  }

  /** There is nothing in its log. */
  lemma StartIsBlank(cfg: Config, conf: Raft.ConfState, ts: u64)
    ensures DiskLog(cfg.crc, Start(cfg, conf, ts).s.wal.files) == []
  {
    hide ScanFile, EncodeHeader;
    var blank: Files := map[];
    assert Ids(blank.Keys) == [];
    assert DiskLog(cfg.crc, blank) == [];
    FreshSegmentClean(cfg, 0, ts);
    LogWithNewest(cfg.crc, blank, 0, FreshSegment(cfg, 0, ts));
    assert blank[0 := FreshSegment(cfg, 0, ts)] == map[0 := FreshSegment(cfg, 0, ts)];
  }

  lemma StartGood(cfg: Config, h: History, conf: Raft.ConfState, ts: u64)
    requires WithinLimits(h)
    ensures Inv(cfg, h, Start(cfg, conf, ts))
  {
    hide Start, LogGood, StateGood;
    StartLogGood(cfg, h, conf, ts);
    StartStateGood(cfg, h, conf, ts);
  }

  lemma StartLogGood(cfg: Config, h: History, conf: Raft.ConfState, ts: u64)
    ensures var w := Start(cfg, conf, ts); w.pos == w.high == 0 && LogGood(cfg, h, w)
  {
    hide CleanFile, EncodeHeader, DiskLog, LogFits;
    var w := Start(cfg, conf, ts);
    FreshSegmentClean(cfg, 0, ts);
    StartIsBlank(cfg, conf, ts);
    NothingFits(h, w);
  }

  lemma NothingFits(h: History, w: World)
    requires w.pos == w.high == 0 && w.s.index == map[]
    ensures LogFits([], h, w)
  {
  }

  lemma StartStateGood(cfg: Config, h: History, conf: Raft.ConfState, ts: u64)
    requires WithinLimits(h)
    ensures var w := Start(cfg, conf, ts); w.pos == w.high == 0 && StateGood(cfg, h, w)
  {
    hide FreshSegment;
    forall i | 0 <= i < |h| ensures h[i].index >= 1 {
      assert EntryWithinLimits(h[i]);
    }
  }

  /** The invariant holds in every state of every run. */
  lemma {:induction false} RunKeepsInv(cfg: Config, h: History, ws: seq<World>, evs: seq<Event>, i: nat)
    requires IsRun(cfg, h, ws, evs) && Inv(cfg, h, ws[0]) && i <= |evs|
    ensures Inv(cfg, h, ws[i]) && Ready(cfg, ws[i].s)
  {
    hide Inv, Step, Enabled;
    if i > 0 {
      RunKeepsInv(cfg, h, ws, evs, i - 1);
      assert StepsTo(cfg, h, ws[i - 1], evs[i - 1], ws[i]);
      StepKeepsInv(cfg, h, ws[i - 1], evs[i - 1]);
    }
    InvReady(cfg, h, ws[i]);
  }

  ghost predicate RunsTo(
      cfg: Config, h: History, conf: Raft.ConfState, ts: u64, ws: seq<World>, evs: seq<Event>, w: World)
  {
    IsRun(cfg, h, ws, evs) && ws[0] == Start(cfg, conf, ts) && w == ws[|evs|]
  }

  ghost predicate Reachable(cfg: Config, h: History, w: World) {
    exists conf: Raft.ConfState, ts: u64, ws: seq<World>, evs: seq<Event> :: RunsTo(cfg, h, conf, ts, ws, evs, w)
  }

  lemma ReachableGood(cfg: Config, h: History, w: World)
    requires WithinLimits(h) && Reachable(cfg, h, w)
    ensures Inv(cfg, h, w) && w.pos <= w.high <= |h|
  {
    hide Start, LogGood, TableGood, SnapshotGood, TailsGood, Covers;
    var conf: Raft.ConfState, ts: u64, ws: seq<World>, evs: seq<Event> :| RunsTo(cfg, h, conf, ts, ws, evs, w);
    StartGood(cfg, h, conf, ts);
    RunKeepsInv(cfg, h, ws, evs, |evs|);
  }

  lemma StartReachable(cfg: Config, h: History, conf: Raft.ConfState, ts: u64)
    requires WithinLimits(h)
    ensures Reachable(cfg, h, Start(cfg, conf, ts)) && Ready(cfg, Start(cfg, conf, ts).s)
  {
    hide Start, Inv, Ready;
    var w := Start(cfg, conf, ts);
    StartGood(cfg, h, conf, ts);
    InvReady(cfg, h, w);
    var ws: seq<World>, evs: seq<Event> := [w], [];
    assert RunsTo(cfg, h, conf, ts, ws, evs, w);
  }

  lemma {:induction false} ReachableStep(cfg: Config, h: History, w: World, ev: Event)
    requires WithinLimits(h) && Reachable(cfg, h, w) && Ready(cfg, w.s) && Enabled(cfg, h, w, ev)
    ensures var w' := Step(cfg, h, w, ev); Reachable(cfg, h, w') && Inv(cfg, h, w') && Ready(cfg, w'.s)
  {
    hide Step, Enabled, Inv, Ready, Start;
    var w' := Step(cfg, h, w, ev);
    ReachableGood(cfg, h, w);
    StepKeepsInv(cfg, h, w, ev);
    InvReady(cfg, h, w');
    var conf: Raft.ConfState, ts: u64, ws: seq<World>, evs: seq<Event> :| RunsTo(cfg, h, conf, ts, ws, evs, w);
    var ws', evs' := ws + [w'], evs + [ev];
    assert StepsTo(cfg, h, w, ev, w');
    forall i | 0 <= i < |evs'| ensures StepsTo(cfg, h, ws'[i], evs'[i], ws'[i + 1]) {
      if i < |evs| {
        assert StepsTo(cfg, h, ws[i], evs[i], ws[i + 1]);
      }
    }
    assert RunsTo(cfg, h, conf, ts, ws', evs', w');
  }

  // ---- the cache ----

  lemma {:induction false} RunKeepsCache(
      cfg: Config, h: History, conf: Raft.ConfState, ts: u64, ws: seq<World>, evs: seq<Event>, i: nat)
    requires WithinLimits(h) && IsRun(cfg, h, ws, evs) && ws[0] == Start(cfg, conf, ts) && i <= |evs|
    ensures ws[i].pos <= ws[i].high <= |h| && CacheNear(ws[i].s.table, h, ws[i].pos, ws[i].high)
  {
    hide Inv, Step, Enabled, WithinLimits, CacheNear, Start;
    StartGood(cfg, h, conf, ts);
    if i == 0 {
      StartCacheNear(cfg, h, conf, ts);
    } else {
      RunKeepsCache(cfg, h, conf, ts, ws, evs, i - 1);
      RunKeepsInv(cfg, h, ws, evs, i - 1);
      assert StepsTo(cfg, h, ws[i - 1], evs[i - 1], ws[i]);
      StepKeepsCache(cfg, h, ws[i - 1], evs[i - 1]);
    }
  }

  lemma StartCacheNear(cfg: Config, h: History, conf: Raft.ConfState, ts: u64)
    ensures var w := Start(cfg, conf, ts); w.pos == w.high == 0 && CacheNear(w.s.table, h, 0, 0)
  {
    hide FreshSegment;
  }

  lemma ReachableCache(cfg: Config, h: History, w: World)
    requires WithinLimits(h) && Reachable(cfg, h, w)
    ensures w.pos <= w.high <= |h| && CacheNear(w.s.table, h, w.pos, w.high)
  {
    hide Start, CacheNear, WithinLimits, IsRun;
    var conf: Raft.ConfState, ts: u64, ws: seq<World>, evs: seq<Event> :| RunsTo(cfg, h, conf, ts, ws, evs, w);
    RunLength(cfg, h, ws, evs);
    RunKeepsCache(cfg, h, conf, ts, ws, evs, |evs|);
  }

  lemma RunLength(cfg: Config, h: History, ws: seq<World>, evs: seq<Event>)
    requires IsRun(cfg, h, ws, evs)
    ensures |ws| == |evs| + 1
  {
  }

  /** If rebindings are far apart, a cached answer of a caught-up shard carries what the map holds, after any run. */
  lemma {:induction false} CachedIsContent(cfg: Config, h: History, w: World, stream: nat, lsn: nat)
    requires WithinLimits(h) && Reachable(cfg, h, w) && CaughtUp(w)
    requires RebindsFarApart(h, w.high, cfg.tailLimit) && FindTail(Get(w.s.table, stream).tail, lsn).Some?
    ensures w.high <= |h|
    ensures var c := Content(h, w.high, stream, lsn);
            c.Some? && c.value.cmd.payload == FindTail(Get(w.s.table, stream).tail, lsn).value.payload
  {
    hide Reachable, LogGood, TableGood, SnapshotGood, TailsGood, Covers, CacheNear, RebindsFarApart, FindTail, Content;
    ReachableGood(cfg, h, w);
    ReachableCache(cfg, h, w);
    NearIsContent(w.s.table, h, w.high, stream, lsn);
  }

  lemma TailLsn(t: Table, stream: nat, lsn: nat)
    requires FindTail(Get(t, stream).tail, lsn).Some?
    ensures FindTail(Get(t, stream).tail, lsn).value.lsn == lsn
  {
  }

  // ---- the index ----

  /**
   * Collection commutes with recovery: in every reachable state a rescan of the disk would index every key its
   * consumer has not passed exactly as the live index does, namely at its last-written location.
   */
  lemma {:induction false} RescanAgrees(cfg: Config, h: History, w: World, stream: nat, lsn: nat)
    requires WithinLimits(h) && Reachable(cfg, h, w) && lsn >= Get(w.s.table, stream).consumed
    ensures var log := DiskLog(cfg.crc, w.s.wal.files);
            && Find(w.s.index, stream, lsn) == LastLoc(log, stream, lsn)
            && Find(IndexOf(log), stream, lsn) == Find(w.s.index, stream, lsn)
  {
    hide DiskLog;
    ReachableGood(cfg, h, w);
    var log := DiskLog(cfg.crc, w.s.wal.files);
    assert KeyAgrees(w.s.index, log, Get(w.s.table, stream).consumed, stream, lsn);
    IndexOfIsLast(log, stream, lsn);
  }

  // ---- what reads return ----

  /** An indexed key that is read through the index gives the last record on disk. */
  lemma ColdRead(cfg: Config, h: History, w: World, stream: nat, lsn: nat)
    requires Inv(cfg, h, w)
    ensures var log := DiskLog(cfg.crc, w.s.wal.files);
            var r := ReadRecordResult(cfg.crc, w.s.wal.files, w.s.index, stream, lsn);
            if Find(w.s.index, stream, lsn).Some? then
              Last(log, stream, lsn).Some? && r == ReadResult.Found(Last(log, stream, lsn).value.rec)
            else r == ReadResult.NotFound
  {
    hide DiskLog, KeyCurrent, TableGood, TailsGood, SnapshotGood;
    var log := DiskLog(cfg.crc, w.s.wal.files);
    LogKnownFits(log, h, w.high);
    assert KeyAgrees(w.s.index, log, Get(w.s.table, stream).consumed, stream, lsn);
    if Find(w.s.index, stream, lsn).Some? {
      IndexedReads(cfg.crc, w.s.wal.files, w.s.index, stream, lsn);
    }
  }

  ghost predicate Committed(h: History, stream: nat, lsn: nat, payload: seq<byte>) {
    exists i :: 0 <= i < |h| && Writes(h[i], stream, lsn) && h[i].cmd.payload == payload
  }

  lemma TailIsCommitted(cfg: Config, h: History, w: World, stream: nat, lsn: nat)
    requires Inv(cfg, h, w) && FindTail(Get(w.s.table, stream).tail, lsn).Some?
    ensures Committed(h, stream, lsn, FindTail(Get(w.s.table, stream).tail, lsn).value.payload)
  {
    hide LogGood, SnapshotGood, TableGood, Covers;
    var s := Get(w.s.table, stream);
    var x := FindTail(s.tail, lsn).value;
    assert StreamTailsGood(s, stream, w.s.index, h, w.high);
    assert TailGood(x, s, stream, w.s.index, h, w.high);
    var i :| 0 <= i < w.high && Writes(h[i], stream, x.lsn) && h[i].cmd.payload == x.payload;
    assert 0 <= i < |h| && Writes(h[i], stream, lsn) && h[i].cmd.payload == x.payload;
  }

  lemma LastIsCommitted(cfg: Config, h: History, w: World, stream: nat, lsn: nat)
    requires Inv(cfg, h, w) && Last(DiskLog(cfg.crc, w.s.wal.files), stream, lsn).Some?
    ensures Committed(h, stream, lsn, Last(DiskLog(cfg.crc, w.s.wal.files), stream, lsn).value.rec.payload)
  {
    hide DiskLog, SnapshotGood, TableGood, Covers, TailsGood, IndexAgrees, ContentCurrent, Tidy, SyncedOrBlank;
    var r := Last(DiskLog(cfg.crc, w.s.wal.files), stream, lsn).value.rec;
    assert KnownRecord(h, w.high, r);
    var i :| 0 <= i < w.high && RecordIs(r, h[i]);
    assert 0 <= i < |h| && Writes(h[i], stream, lsn) && h[i].cmd.payload == r.payload;
  }

  /** In every state, whatever a read returns was committed for that stream and LSN. */
  lemma ReadsAreCommitted(cfg: Config, h: History, w: World, stream: nat, lsn: nat)
    requires WithinLimits(h) && Reachable(cfg, h, w)
    ensures var r := Read(cfg, w.s, stream, lsn);
            r.Answer? ==> r.lsn == lsn && Committed(h, stream, lsn, r.payload)
  {
    hide Inv, DiskLog, ReadRecordResult, Last, Committed, Reachable;
    ReachableGood(cfg, h, w);
    if FindTail(Get(w.s.table, stream).tail, lsn).Some? {
      TailIsCommitted(cfg, h, w, stream, lsn);
    } else {
      ColdRead(cfg, h, w, stream, lsn);
      if Find(w.s.index, stream, lsn).Some? {
        LastIsCommitted(cfg, h, w, stream, lsn);
      }
    }
  }

  /** A shard that has applied again everything it ever applied. */
  predicate CaughtUp(w: World) {
    w.pos == w.high
  }

  /** Replay is idempotent: after any crashes and collections, being caught up restores the very same watermarks. */
  lemma {:induction false} CaughtUpMarks(cfg: Config, h: History, w: World, stream: nat)
    requires WithinLimits(h) && Reachable(cfg, h, w) && CaughtUp(w)
    ensures w.high <= |h|
    ensures Get(w.s.table, stream).commit == Peak(h, w.high, stream, ByLsn)
    ensures Get(w.s.table, stream).lastEntry == Peak(h, w.high, stream, ByIndex)
    ensures Get(w.s.table, stream).epoch >= Peak(h, w.high, stream, ByEpoch)
  {
    ReachableGood(cfg, h, w);
    CoveredMarks(w.s.table, h, w.high, stream);
    assert StreamBounded(Get(w.s.table, stream), h, w.high, stream);
  }

  lemma CoveredMarks(t: Table, h: History, n: nat, stream: nat)
    requires n <= |h| && Covers(t, h, n)
    ensures Peak(h, n, stream, ByLsn) <= Get(t, stream).commit
    ensures Peak(h, n, stream, ByIndex) <= Get(t, stream).lastEntry
    ensures Peak(h, n, stream, ByEpoch) <= Get(t, stream).epoch
  {
    assert forall i :: 0 <= i < n ==> CoversEntry(t, h[i]);
    PeakIsLeast(h, n, stream, ByLsn, Get(t, stream).commit);
    PeakIsLeast(h, n, stream, ByIndex, Get(t, stream).lastEntry);
    PeakIsLeast(h, n, stream, ByEpoch, Get(t, stream).epoch);
  }

  /** What the map holds at or above the highest acknowledgement is on disk, indexed, and below the committed mark. */
  lemma MapIsOnDisk(cfg: Config, h: History, w: World, stream: nat, lsn: nat)
    requires Inv(cfg, h, w) && CaughtUp(w) && lsn >= AckedOf(w.acked, stream)
    ensures var c, last := Content(h, w.high, stream, lsn), Last(DiskLog(cfg.crc, w.s.wal.files), stream, lsn);
            && (c.None? ==> last.None? && Find(w.s.index, stream, lsn).None?)
            && (c.Some? ==> last.Some? && RecordIs(last.value.rec, c.value) && Find(w.s.index, stream, lsn).Some?
                            && lsn < Get(w.s.table, stream).commit)
  {
    hide DiskLog, StateGood, Tidy, SyncedOrBlank, LogFits, Last;
    MapIsInLog(cfg, h, w, DiskLog(cfg.crc, w.s.wal.files), stream, lsn);
  }

  /** The same of any log that fits the shard. */
  lemma {:induction false} MapIsInLog(cfg: Config, h: History, w: World, log: seq<Placed>, stream: nat, lsn: nat)
    requires w.pos <= w.high <= |h| && StateGood(cfg, h, w) && LogFits(log, h, w)
    requires CaughtUp(w) && lsn >= AckedOf(w.acked, stream)
    ensures var c, last := Content(h, w.high, stream, lsn), Last(log, stream, lsn);
            && (c.None? ==> last.None? && Find(w.s.index, stream, lsn).None?)
            && (c.Some? ==> last.Some? && RecordIs(last.value.rec, c.value) && Find(w.s.index, stream, lsn).Some?
                            && lsn < Get(w.s.table, stream).commit)
  {
    hide SnapshotGood, TailsGood, LogKnown, Last, StreamBounded, Words;
    var s := Get(w.s.table, stream);
    assert s.consumed <= AckedOf(w.acked, stream);
    assert KeyCurrent(log, h, w.high, w.high, stream, lsn);
    assert KeyAgrees(w.s.index, log, s.consumed, stream, lsn);
    CaughtUpContent(log, h, w.high, stream, lsn);
    var i := LastWriter(h, w.high, stream, lsn);
    assert i >= 0 ==> CoversEntry(w.s.table, h[i]);
  }

  /**
   * The main result: after any run of applies, acknowledgements, snapshots, collections and crashes, a caught-up
   * shard answers a read of any LSN never acknowledged away exactly as the map of the committed sequence does.
   * Reads that miss the cache need no hypothesis on the sequence; those that hit it need that no LSN is bound to
   * another payload before its old record has left the cache.
   */
  lemma {:induction false} ReadsAreTheMap(cfg: Config, h: History, w: World, stream: nat, lsn: nat)
    requires WithinLimits(h) && Reachable(cfg, h, w) && CaughtUp(w)
    requires RebindsFarApart(h, w.high, cfg.tailLimit) || FindTail(Get(w.s.table, stream).tail, lsn).None?
    requires lsn >= AckedOf(w.acked, stream)
    ensures w.high <= |h|
    ensures match Content(h, w.high, stream, lsn)
            case None => Read(cfg, w.s, stream, lsn).Missing?
            case Some(e) =>
              var r := Read(cfg, w.s, stream, lsn);
              r.Answer? && r.lsn == lsn && r.payload == e.cmd.payload
  {
    hide Inv, DiskLog, ReadRecordResult, Last, Reachable, RebindsFarApart, Content, AckedOf, FindTail, WithinLimits;
    ReachableGood(cfg, h, w);
    MapIsOnDisk(cfg, h, w, stream, lsn);
    ColdRead(cfg, h, w, stream, lsn);
    if FindTail(Get(w.s.table, stream).tail, lsn).Some? {
      CachedIsContent(cfg, h, w, stream, lsn);
      TailLsn(w.s.table, stream, lsn);
    }
  }

  /** A cached record carries the payload of the map's entry. */
  lemma TailIsContent(cfg: Config, h: History, w: World, stream: nat, lsn: nat)
    requires Inv(cfg, h, w) && FindTail(Get(w.s.table, stream).tail, lsn).Some?
    requires Functional(h)
    ensures var c := Content(h, w.high, stream, lsn);
            c.Some? && c.value.cmd.payload == FindTail(Get(w.s.table, stream).tail, lsn).value.payload
  {
    hide LogGood, SnapshotGood, TableGood;
    var s := Get(w.s.table, stream);
    var x := FindTail(s.tail, lsn).value;
    assert StreamTailsGood(s, stream, w.s.index, h, w.high);
    assert TailGood(x, s, stream, w.s.index, h, w.high);
    var i :| 0 <= i < w.high && Writes(h[i], stream, x.lsn) && h[i].cmd.payload == x.payload;
    NoneLater(h, w.high, stream, lsn, i);
    var j := LastWriter(h, w.high, stream, lsn);
    assert Writes(h[j], h[i].cmd.stream, h[i].cmd.lsn);
  }

  /** A record on disk carries the payload the map binds its key to. */
  lemma DiskCarriesMap(cfg: Config, h: History, w: World, stream: nat, lsn: nat)
    requires Inv(cfg, h, w) && Functional(h) && Last(DiskLog(cfg.crc, w.s.wal.files), stream, lsn).Some?
    ensures var c := Content(h, w.high, stream, lsn);
            c.Some? && c.value.cmd.payload == Last(DiskLog(cfg.crc, w.s.wal.files), stream, lsn).value.rec.payload
  {
    hide DiskLog, SnapshotGood, TableGood, Covers, TailsGood, IndexAgrees, ContentCurrent, Tidy, SyncedOrBlank;
    var r := Last(DiskLog(cfg.crc, w.s.wal.files), stream, lsn).value.rec;
    assert KnownRecord(h, w.high, r);
    var i :| 0 <= i < w.high && RecordIs(r, h[i]);
    NoneLater(h, w.high, stream, lsn, i);
    var j := LastWriter(h, w.high, stream, lsn);
    assert Writes(h[j], h[i].cmd.stream, h[i].cmd.lsn);
  }

  lemma CachedIsOnDisk(cfg: Config, h: History, w: World, stream: nat, lsn: nat)
    requires Inv(cfg, h, w) && lsn >= Get(w.s.table, stream).consumed
    ensures Find(w.s.index, stream, lsn).Some? <==> Last(DiskLog(cfg.crc, w.s.wal.files), stream, lsn).Some?
    ensures FindTail(Get(w.s.table, stream).tail, lsn).Some? ==> Find(w.s.index, stream, lsn).Some?
  {
    hide DiskLog, SnapshotGood, TableGood, Covers, ContentCurrent, Tidy, SyncedOrBlank, LogKnown, Last;
    var s := Get(w.s.table, stream);
    assert KeyAgrees(w.s.index, DiskLog(cfg.crc, w.s.wal.files), s.consumed, stream, lsn);
    if FindTail(s.tail, lsn).Some? {
      assert StreamTailsGood(s, stream, w.s.index, h, w.high);
      assert TailGood(FindTail(s.tail, lsn).value, s, stream, w.s.index, h, w.high);
    }
  }

  /**
   * The cache agrees with the log: in every reachable state, caught up or not, whatever the cache answers above the
   * consumed mark is what reading the indexed location on disk answers.
   */
  lemma {:induction false} CacheAgreesWithDisk(cfg: Config, h: History, w: World, stream: nat, lsn: nat)
    requires WithinLimits(h) && Functional(h) && Reachable(cfg, h, w)
    requires lsn >= Get(w.s.table, stream).consumed && FindTail(Get(w.s.table, stream).tail, lsn).Some?
    ensures var x := FindTail(Get(w.s.table, stream).tail, lsn).value;
            var r := ReadRecordResult(cfg.crc, w.s.wal.files, w.s.index, stream, lsn);
            r.Found? && r.rec.stream == stream && r.rec.lsn == x.lsn == lsn && r.rec.payload == x.payload
  {
    hide Inv, DiskLog, ReadRecordResult, Reachable, Functional, Content, WithinLimits, FindTail;
    ReachableGood(cfg, h, w);
    CachedIsOnDisk(cfg, h, w, stream, lsn);
    ColdRead(cfg, h, w, stream, lsn);
    DiskCarriesMap(cfg, h, w, stream, lsn);
    TailIsContent(cfg, h, w, stream, lsn);
    TailLsn(w.s.table, stream, lsn);
  }

  /** So it does on a caught-up shard whenever rebindings are far apart. */
  lemma {:induction false} CaughtUpCacheAgreesWithDisk(cfg: Config, h: History, w: World, stream: nat, lsn: nat)
    requires WithinLimits(h) && Reachable(cfg, h, w) && CaughtUp(w) && RebindsFarApart(h, w.high, cfg.tailLimit)
    requires lsn >= AckedOf(w.acked, stream) && FindTail(Get(w.s.table, stream).tail, lsn).Some?
    ensures var x := FindTail(Get(w.s.table, stream).tail, lsn).value;
            var r := ReadRecordResult(cfg.crc, w.s.wal.files, w.s.index, stream, lsn);
            r.Found? && r.rec.stream == stream && r.rec.lsn == x.lsn == lsn && r.rec.payload == x.payload
  {
    hide Inv, DiskLog, ReadRecordResult, Reachable, RebindsFarApart, WithinLimits, FindTail, LastWriter;
    ReachableGood(cfg, h, w);
    MapIsOnDisk(cfg, h, w, stream, lsn);
    ColdRead(cfg, h, w, stream, lsn);
    CachedIsContent(cfg, h, w, stream, lsn);
    TailLsn(w.s.table, stream, lsn);
  }

  predicate AnswersAsMap(cfg: Config, h: History, w: World, stream: nat, lsn: nat)
    requires w.high <= |h|
  {
    var r := Read(cfg, w.s, stream, lsn);
    match Content(h, w.high, stream, lsn)
    case None => r.Missing?
    case Some(e) => r.Answer? && r.lsn == lsn && r.payload == e.cmd.payload
  }

  /** While entries are still being applied again, what those applied so far bound is already answered. */
  lemma {:induction false} ReplayedIsAnswered(cfg: Config, h: History, w: World, stream: nat, lsn: nat)
    requires WithinLimits(h) && Functional(h) && Reachable(cfg, h, w) && lsn >= AckedOf(w.acked, stream)
    ensures w.pos <= |h|
    ensures match Content(h, w.pos, stream, lsn)
            case None => true
            case Some(e) =>
              var r := Read(cfg, w.s, stream, lsn);
              r.Answer? && r.lsn == lsn && r.payload == e.cmd.payload
  {
    hide Inv, DiskLog, ReadRecordResult, Last, Reachable, Functional, WithinLimits, FindTail, LastWriter;
    ReachableGood(cfg, h, w);
    if Content(h, w.pos, stream, lsn).Some? {
      ReplayedIsOnDisk(cfg, h, w, stream, lsn);
      ColdRead(cfg, h, w, stream, lsn);
      DiskCarriesMap(cfg, h, w, stream, lsn);
      SamePayload(h, w.pos, w.high, stream, lsn);
      if FindTail(Get(w.s.table, stream).tail, lsn).Some? {
        TailIsContent(cfg, h, w, stream, lsn);
        TailLsn(w.s.table, stream, lsn);
      }
    }
  }

  lemma {:induction false} ReplayedIsOnDisk(cfg: Config, h: History, w: World, stream: nat, lsn: nat)
    requires Inv(cfg, h, w) && lsn >= AckedOf(w.acked, stream) && LastWriter(h, w.pos, stream, lsn) >= 0
    ensures Last(DiskLog(cfg.crc, w.s.wal.files), stream, lsn).Some?
    ensures Find(w.s.index, stream, lsn).Some? && lsn < Get(w.s.table, stream).commit
  {
    hide DiskLog, SnapshotGood, TailsGood, Tidy, SyncedOrBlank, LogKnown, Last, StreamBounded, Words;
    var log, s := DiskLog(cfg.crc, w.s.wal.files), Get(w.s.table, stream);
    assert s.consumed <= AckedOf(w.acked, stream);
    assert KeyCurrent(log, h, w.pos, w.high, stream, lsn);
    assert KeyAgrees(w.s.index, log, s.consumed, stream, lsn);
    assert CoversEntry(w.s.table, h[LastWriter(h, w.pos, stream, lsn)]);
  }

  lemma SamePayload(h: History, m: nat, n: nat, stream: nat, lsn: nat)
    requires m <= n <= |h| && Functional(h) && Content(h, m, stream, lsn).Some? && Content(h, n, stream, lsn).Some?
    ensures Content(h, m, stream, lsn).value.cmd.payload == Content(h, n, stream, lsn).value.cmd.payload
  {
    LastWriterGrows(h, m, n, stream, lsn);
    var i, j := LastWriter(h, m, stream, lsn), LastWriter(h, n, stream, lsn);
    assert Writes(h[j], h[i].cmd.stream, h[i].cmd.lsn);
  }
}
