/** What the segment files of a shard look like over its runs: named, full before they are closed, numbered upwards. */
module SegmentRun {
  import opened Bytes
  import opened Record
  import opened Segment
  import opened Scan
  import opened Log
  import opened Wal
  import opened History
  import opened Shard
  import opened LogInv
  import opened ShardRun
  import opened Theorems
  import opened Guarantees
  import Raft = RaftStorage

  /** The file starts with a header that names the shard and the segment. */
  ghost predicate Named(cfg: Config, id: nat, data: seq<byte>) {
    && |data| >= 64
    && (id < U64_LIMIT ==> exists ts: u64 :: DecodeHeader(data[..64]) == Header(cfg.shard, id, ts))
  }

  /** Every segment is named, and every one that was closed had reached the limit. */
  ghost predicate SegmentsGood(cfg: Config, w: Wal) {
    forall id <- w.files :: Named(cfg, id, w.files[id].data) && (id != w.cur ==> |w.files[id].data| >= cfg.maxSegment)
  }

  lemma FreshIsNamed(cfg: Config, id: nat, ts: u64)
    ensures Named(cfg, id, FreshSegment(cfg, id, ts).data)
    ensures id < U64_LIMIT ==> DecodeHeader(FreshSegment(cfg, id, ts).data[..64]) == Header(cfg.shard, id, ts)
  {
    hide EncodeHeader, DecodeHeader;
    var d := FreshSegment(cfg, id, ts).data;
    assert d[..64] == d;
    HeaderRoundTrip(cfg.shard, id, ts);
  }

  lemma NamedByFront(cfg: Config, id: nat, a: seq<byte>, b: seq<byte>)
    requires Named(cfg, id, a) && |b| >= 64 && b[..64] == a[..64]
    ensures Named(cfg, id, b)
  {
    hide DecodeHeader;
  }

  lemma AppendKeepsSegments(cfg: Config, w: Wal, r: WalRecord, ts: u64)
    requires Usable(w) && SegmentsGood(cfg, w)
    ensures Usable(Extended(cfg, w, r, ts))
    ensures SegmentsGood(cfg, Extended(cfg, w, r, ts)) && SegmentsGood(cfg, SyncCurrent(Extended(cfg, w, r, ts)))
  {
    hide Encode, EncodeHeader, Named, FileUsable;
    WrittenFile(cfg, w, r);
    AppendUsable(cfg, w, r, ts);
    RotatesExactly(cfg, w, r, ts);
    var w', f := Extended(cfg, w, r, ts), w.files[w.cur];
    assert Named(cfg, w.cur, f.data);
    GrownIsNamed(cfg, w.cur, f.data, Encode(cfg.crc, r));
    FreshIsNamed(cfg, w.nextSeg, ts);
    assert forall id <- w'.files :: id != w.cur && id != w.nextSeg ==> id in w.files && w'.files[id] == w.files[id];
  }

  lemma GrownIsNamed(cfg: Config, id: nat, data: seq<byte>, more: seq<byte>)
    requires Named(cfg, id, data)
    ensures Named(cfg, id, data + more)
  {
    NamedByFront(cfg, id, data, data + more);
  }

  lemma WriteKeepsSegments(cfg: Config, w: Wal, r: WalRecord)
    requires Usable(w) && SegmentsGood(cfg, w)
    ensures Usable(Written(cfg, w, r)) && SegmentsGood(cfg, Written(cfg, w, r))
  {
    hide Encode, Named, FileUsable;
    WrittenFile(cfg, w, r);
    assert Named(cfg, w.cur, w.files[w.cur].data);
    GrownIsNamed(cfg, w.cur, w.files[w.cur].data, Encode(cfg.crc, r));
  }

  /** Reopening after a crash that keeps the headers finds them as they were. */
  lemma CrashKeepsSegments(cfg: Config, w: Wal, image: Files, ts: u64)
    requires Usable(w) && SegmentsGood(cfg, w) && CrashImage(w.files, image)
    requires CleanFiles(cfg.crc, image)
    ensures SegmentsGood(cfg, Reopened(cfg, image, ts))
  {
    hide Named, NextEntry, DiskLog, ScanEnd, HeaderAccepted, FileUsable;
    CrashHitsNewestOnly(w, image);
    CrashedIds(w, image);
    var w' := Reopened(cfg, image, ts);
    forall id <- w'.files
      ensures Named(cfg, id, w'.files[id].data) && (id != w'.cur ==> |w'.files[id].data| >= cfg.maxSegment)
    {
      assert SurvivesAs(w.files[id], image[id]) && CleanFile(cfg.crc, image[id]) && Named(cfg, id, w.files[id].data);
      NamedByFront(cfg, id, w.files[id].data, image[id].data);
    }
  }

  lemma {:induction false} StepKeepsSegments(cfg: Config, h: History, w: World, ev: Event)
    requires Ready(cfg, w.s) && Inv(cfg, h, w) && Enabled(cfg, h, w, ev) && SegmentsGood(cfg, w.s.wal)
    ensures SegmentsGood(cfg, Step(cfg, h, w, ev).s.wal)
  {
    hide LogGood, StateGood, SegmentsGood, Extended, Written, SyncCurrent, CrashImage, CleanFiles, Usable;
    match ev
    case Apply(ts, headerTs) => AppendKeepsSegments(cfg, w.s.wal, RecordOf(h[w.pos], ts), headerTs);
    case Collect(spared) => CollectKeepsSegments(cfg, w.s, spared);
    case TakeSnapshot(order) => TakenLeavesRest(w.s, order);
    case Restart(image, stage, ts, headerTs, _, _, newTs) =>
      match stage {
        case Idle => CrashKeepsSegments(cfg, w.s.wal, image, newTs);
        case RecordWritten =>
          WriteKeepsSegments(cfg, w.s.wal, RecordOf(h[w.pos], ts));
          CrashKeepsSegments(cfg, Written(cfg, w.s.wal, RecordOf(h[w.pos], ts)), image, newTs);
        case Complete =>
          AppendKeepsSegments(cfg, w.s.wal, RecordOf(h[w.pos], ts), headerTs);
          CrashKeepsSegments(cfg, AppendedWal(cfg, w.s.wal, h[w.pos], ts, headerTs), image, newTs);
      }
    case _ =>
  }

  lemma CollectKeepsSegments(cfg: Config, s: Shard, spared: set<nat>)
    requires SegmentsGood(cfg, s.wal)
    ensures SegmentsGood(cfg, GcSparing(s, spared).wal)
  {
    hide Named, Trimmed;
  }

  lemma {:induction false} RunKeepsSegments(
      cfg: Config, h: History, conf: Raft.ConfState, ts: u64, ws: seq<World>, evs: seq<Event>, i: nat)
    requires WithinLimits(h) && IsRun(cfg, h, ws, evs) && ws[0] == Start(cfg, conf, ts) && i <= |evs|
    ensures SegmentsGood(cfg, ws[i].s.wal)
  {
    hide Inv, Step, Enabled, Ready, WithinLimits, SegmentsGood, Start;
    if i == 0 {
      StartSegments(cfg, conf, ts);
    } else {
      RunKeepsSegments(cfg, h, conf, ts, ws, evs, i - 1);
      StartGood(cfg, h, conf, ts);
      RunKeepsInv(cfg, h, ws, evs, i - 1);
      assert StepsTo(cfg, h, ws[i - 1], evs[i - 1], ws[i]);
      StepKeepsSegments(cfg, h, ws[i - 1], evs[i - 1]);
    }
  }

  lemma StartSegments(cfg: Config, conf: Raft.ConfState, ts: u64)
    ensures SegmentsGood(cfg, Start(cfg, conf, ts).s.wal)
  {
    hide Named, FreshSegment;
    FreshIsNamed(cfg, 0, ts);
  }

  /**
   * In every reachable state each segment starts with a header that names its shard and its own id, and no segment was
   * closed before it had reached the limit.
   */
  lemma {:induction false} NamedAndFull(cfg: Config, h: History, w: World, id: nat)
    requires WithinLimits(h) && Reachable(cfg, h, w) && id in w.s.wal.files
    ensures Named(cfg, id, w.s.wal.files[id].data)
    ensures id != w.s.wal.cur ==> |w.s.wal.files[id].data| >= cfg.maxSegment
  {
    hide WithinLimits, IsRun, Start, Named;
    var conf: Raft.ConfState, ts: u64, ws: seq<World>, evs: seq<Event> :| RunsTo(cfg, h, conf, ts, ws, evs, w);
    RunKeepsSegments(cfg, h, conf, ts, ws, evs, |evs|);
  }

  /** The current segment is below the limit, or holds nothing yet. */
  predicate HasRoom(cfg: Config, w: Wal) {
    w.off < cfg.maxSegment || w.off == 64
  }

  /** And it is closed as soon as it has: as long as a shard runs, the current segment has room. */
  lemma {:induction false} RoomIsKept(cfg: Config, h: History, ws: seq<World>, evs: seq<Event>, i: nat, j: nat)
    requires IsRun(cfg, h, ws, evs) && i <= j <= |evs| && NoRestart(evs, i, j) && HasRoom(cfg, ws[i].s.wal)
    ensures HasRoom(cfg, ws[j].s.wal)
    decreases j - i
  {
    hide Step, Enabled, Ready, HasRoom;
    if i < j {
      RoomIsKept(cfg, h, ws, evs, i, j - 1);
      assert StepsTo(cfg, h, ws[j - 1], evs[j - 1], ws[j]);
      StepKeepsRoom(cfg, h, ws[j - 1], evs[j - 1]);
    }
  }

  lemma {:induction false} StepKeepsRoom(cfg: Config, h: History, w: World, ev: Event)
    requires Ready(cfg, w.s) && Enabled(cfg, h, w, ev) && !ev.Restart? && HasRoom(cfg, w.s.wal)
    ensures HasRoom(cfg, Step(cfg, h, w, ev).s.wal)
  {
    hide Extended, Usable, Trimmed;
    match ev
    case Apply(ts, headerTs) => RotatesExactly(cfg, w.s.wal, RecordOf(h[w.pos], ts), headerTs);
    case TakeSnapshot(order) => TakenLeavesRest(w.s, order);
    case _ =>
  }

  /** A fresh shard has room. */
  lemma StartHasRoom(cfg: Config, conf: Raft.ConfState, ts: u64)
    ensures HasRoom(cfg, Start(cfg, conf, ts).s.wal)
  {
  }

  // ---- entry ids ----

  ghost predicate CounterAbove(cfg: Config, w: Wal) {
    forall p <- DiskLog(cfg.crc, w.files) :: p.rec.entry < w.nextEntry
  }

  lemma {:induction false} StepKeepsCounter(cfg: Config, h: History, w: World, ev: Event)
    requires Ready(cfg, w.s) && Inv(cfg, h, w) && Enabled(cfg, h, w, ev) && CounterAbove(cfg, w.s.wal)
    ensures CounterAbove(cfg, Step(cfg, h, w, ev).s.wal)
  {
    hide DiskLog, StateGood, LogFits, Usable, CleanFiles, FilesAtCrash, CrashImage;
    match ev
    case Apply(ts, headerTs) => ApplyKeepsCounter(cfg, h, w, ts, headerTs);
    case Collect(spared) =>
      CollectedTidy(cfg, w.s, spared);
      var keep := GcSparing(w.s, spared).wal.files.Keys;
      forall p <- OnlyIn(DiskLog(cfg.crc, w.s.wal.files), keep) ensures p.rec.entry < w.s.wal.nextEntry {
        OnlyInMember(DiskLog(cfg.crc, w.s.wal.files), keep, p);
      }
    case TakeSnapshot(order) => TakenLeavesRest(w.s, order);
    case Restart(image, _, _, _, _, _, _) =>
      RestartLog(cfg, h, w, ev);
      NextEntryIsAbove(DiskLog(cfg.crc, image));
    case _ =>
  }

  lemma {:induction false} ApplyKeepsCounter(cfg: Config, h: History, w: World, ts: u64, headerTs: u64)
    requires Ready(cfg, w.s) && Inv(cfg, h, w) && w.pos < |h| && CounterAbove(cfg, w.s.wal)
    ensures CounterAbove(cfg, Delivered(cfg, h, w, ts, headerTs).s.wal)
  {
    hide DiskLog, StateGood, LogFits, CleanFiles, Encode, WriteAt, EncodeHeader, FileUsable;
    var r := RecordOf(h[w.pos], ts);
    assert EntryWithinLimits(h[w.pos]) && Fits(r);
    AppendLog(cfg, w.s.wal, r, headerTs);
    SyncLog(cfg.crc, AppendedWal(cfg, w.s.wal, h[w.pos], ts, headerTs));
    WrittenFile(cfg, w.s.wal, r);
  }

  lemma {:induction false} RunKeepsCounter(
      cfg: Config, h: History, conf: Raft.ConfState, ts: u64, ws: seq<World>, evs: seq<Event>, i: nat)
    requires WithinLimits(h) && IsRun(cfg, h, ws, evs) && ws[0] == Start(cfg, conf, ts) && i <= |evs|
    ensures CounterAbove(cfg, ws[i].s.wal)
  {
    hide Inv, Step, Enabled, Ready, WithinLimits, CounterAbove, Start;
    if i == 0 {
      StartCounter(cfg, conf, ts);
    } else {
      RunKeepsCounter(cfg, h, conf, ts, ws, evs, i - 1);
      StartGood(cfg, h, conf, ts);
      RunKeepsInv(cfg, h, ws, evs, i - 1);
      assert StepsTo(cfg, h, ws[i - 1], evs[i - 1], ws[i]);
      StepKeepsCounter(cfg, h, ws[i - 1], evs[i - 1]);
    }
  }

  lemma StartCounter(cfg: Config, conf: Raft.ConfState, ts: u64)
    ensures CounterAbove(cfg, Start(cfg, conf, ts).s.wal)
  {
    hide DiskLog, FreshSegment;
    StartIsBlank(cfg, conf, ts);
  }

  /** In every reachable state the entry counter is above every entry id on disk. */
  lemma {:induction false} NextEntryIsNew(cfg: Config, h: History, w: World)
    requires WithinLimits(h) && Reachable(cfg, h, w)
    ensures forall p <- DiskLog(cfg.crc, w.s.wal.files) :: p.rec.entry < w.s.wal.nextEntry
  {
    hide WithinLimits, IsRun, Start, DiskLog;
    var conf: Raft.ConfState, ts: u64, ws: seq<World>, evs: seq<Event> :| RunsTo(cfg, h, conf, ts, ws, evs, w);
    RunKeepsCounter(cfg, h, conf, ts, ws, evs, |evs|);
  }
}
