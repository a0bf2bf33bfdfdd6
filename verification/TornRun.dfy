/**
 * A torn tail is sound for the first reopening.  After it the newest segment no longer scans to its end, so its bytes
 * do not say what the shard holds; a log kept beside them does: what recovery found, and what was written since.
 */
module TornRun {
  import opened Bytes
  import opened Record
  import opened Segment
  import opened Index
  import opened Scan
  import opened Log
  import opened Streams
  import opened Wal
  import opened History
  import opened Shard
  import opened LogInv
  import opened TableInv
  import opened ShardRun
  import opened CacheInv
  import opened Theorems
  import opened Guarantees
  import Snapshot

  // ---- logs beside the bytes ----

  ghost predicate Readable(crc: Crc, files: Files, p: Placed) {
    Fits(p.rec) && p.loc.size == EncodedSize(p.rec) && ReadsBack(crc, files, p)
  }

  /** Every record of the log can be read back at its place. */
  ghost predicate LogReadable(crc: Crc, files: Files, log: seq<Placed>) {
    forall p <- log :: Readable(crc, files, p)
  }

  lemma ScannedIsReadable(crc: Crc, files: Files)
    requires forall p <- DiskLog(crc, files) :: Fits(p.rec)
    ensures LogReadable(crc, files, DiskLog(crc, files))
  {
    hide DiskLog, ReadsBack;
    forall p <- DiskLog(crc, files) ensures Readable(crc, files, p) {
      LogReadsBack(crc, files, p);
    }
  }

  /** Files that only grew still give back what they held. */
  lemma GrownStillReadable(crc: Crc, files: Files, files': Files, log: seq<Placed>)
    requires LogReadable(crc, files, log)
    requires forall id <- files :: id in files' && files[id].data <= files'[id].data
    ensures LogReadable(crc, files', log)
  {
    hide Decode;
    forall p <- log ensures Readable(crc, files', p) {
      assert Readable(crc, files, p);
      var a, b := files[p.loc.seg].data, files'[p.loc.seg].data;
      assert a[p.loc.off..p.loc.off + p.loc.size] == b[p.loc.off..p.loc.off + p.loc.size];
    }
  }

  /** An append leaves everything readable, and the new record at its place. */
  lemma AppendKeepsReadable(cfg: Config, w: Wal, r: WalRecord, ts: u64, log: seq<Placed>)
    requires Usable(w) && Fits(r) && LogReadable(cfg.crc, w.files, log)
    ensures Usable(Extended(cfg, w, r, ts)) && Usable(SyncCurrent(Extended(cfg, w, r, ts)))
    ensures LogReadable(cfg.crc, SyncCurrent(Extended(cfg, w, r, ts)).files, log + [Placed(AppendLoc(w, r), r)])
  {
    hide Encode, Decode, Extended, SyncCurrent, Readable;
    AppendGrows(cfg, w, r, ts);
    SyncUsable(Extended(cfg, w, r, ts));
    var files' := SyncCurrent(Extended(cfg, w, r, ts)).files;
    GrownStillReadable(cfg.crc, w.files, files', log);
    NewIsReadable(cfg.crc, files', w.cur, w.files[w.cur].data, r);
  }

  lemma NewIsReadable(crc: Crc, files: Files, seg: nat, data: seq<byte>, r: WalRecord)
    requires Fits(r) && seg in files && files[seg].data == data + Encode(crc, r)
    ensures Readable(crc, files, Placed(Loc(seg, |data|, EncodedSize(r)), r))
  {
    hide Encode, Decode;
    RoundTrip(crc, r, []);
    assert Encode(crc, r) + [] == Encode(crc, r);
    assert files[seg].data[|data|..|data| + EncodedSize(r)] == Encode(crc, r);
  }

  lemma CollectKeepsReadable(cfg: Config, s: Shard, spared: set<nat>, log: seq<Placed>)
    requires Usable(s.wal) && LogReadable(cfg.crc, s.wal.files, log)
    ensures var w' := GcSparing(s, spared).wal;
            Usable(w') && LogReadable(cfg.crc, w'.files, OnlyIn(log, w'.files.Keys))
  {
    hide Decode, OnlyIn, Trimmed, FileUsable;
    var w' := GcSparing(s, spared).wal;
    forall id <- w'.files ensures FileUsable(w'.files[id], id, w'.cur) {
      assert FileUsable(s.wal.files[id], id, s.wal.cur);
    }
    forall p <- OnlyIn(log, w'.files.Keys) ensures Readable(cfg.crc, w'.files, p) {
      OnlyInMember(log, w'.files.Keys, p);
      assert Readable(cfg.crc, s.wal.files, p);
    }
  }

  // ---- sessions ----

  /** A running shard whose log is kept beside its bytes. */
  ghost predicate Session(cfg: Config, h: History, w: World, log: seq<Placed>) {
    && w.pos <= w.high <= |h| && WithinLimits(h)
    && Usable(w.s.wal) && LogReadable(cfg.crc, w.s.wal.files, log)
    && LogFits(log, h, w) && StateGood(cfg, h, w)
    && CacheNear(w.s.table, h, w.pos, w.high)
  }

  lemma SessionReady(cfg: Config, h: History, w: World, log: seq<Placed>)
    requires Session(cfg, h, w, log)
    ensures Ready(cfg, w.s) && w.pos <= w.high <= |h|
  {
    hide LogReadable, LogFits, CacheNear, TableGood, TailsGood, Covers;
  }

  /** The log after an event. */
  function LogAfter(h: History, w: World, log: seq<Placed>, ev: Event): seq<Placed>
    requires ev.Apply? ==> w.pos < |h|
  {
    match ev
    case Apply(ts, _) => log + [Placed(AppendLoc(w.s.wal, RecordOf(h[w.pos], ts)), RecordOf(h[w.pos], ts))]
    case Collect(spared) => OnlyIn(log, GcSparing(w.s, spared).wal.files.Keys)
    case _ => log
  }

  /** Every event but a restart keeps a session. */
  lemma {:induction false} StepKeepsSession(cfg: Config, h: History, w: World, log: seq<Placed>, ev: Event)
    requires Ready(cfg, w.s) && Session(cfg, h, w, log) && !ev.Restart? && Enabled(cfg, h, w, ev)
    ensures ev.Apply? ==> w.pos < |h|
    ensures Session(cfg, h, Step(cfg, h, w, ev), LogAfter(h, w, log, ev))
  {
    hide LogReadable, LogFits, StateGood, CacheNear, Usable, Step;
    StepKeepsState(cfg, h, w, ev);
    MoveKeepsCache(cfg, h, w, ev);
    if ev.Apply? {
      ApplySession(cfg, h, w, log, ev);
    } else if ev.Collect? {
      CollectSession(cfg, h, w, log, ev);
    } else {
      QuietKeepsFit(cfg, h, w, log, ev);
    }
  }

  lemma {:induction false} ApplySession(cfg: Config, h: History, w: World, log: seq<Placed>, ev: Event)
    requires Ready(cfg, w.s) && Session(cfg, h, w, log) && ev.Apply? && Enabled(cfg, h, w, ev)
    ensures var w', log' := Step(cfg, h, w, ev), LogAfter(h, w, log, ev);
            && w'.pos <= w'.high <= |h| && Usable(w'.s.wal)
            && LogReadable(cfg.crc, w'.s.wal.files, log') && LogFits(log', h, w')
  {
    hide LogReadable, LogFits, StateGood, CacheNear, Usable, Extended, SyncCurrent, AppendLoc, AppliedTable;
    assert EntryWithinLimits(h[w.pos]) && Fits(RecordOf(h[w.pos], ev.ts));
    AppendKeepsReadable(cfg, w.s.wal, RecordOf(h[w.pos], ev.ts), ev.headerTs, log);
    ApplyKeepsFit(cfg, h, w, log, ev.ts, ev.headerTs);
  }

  lemma {:induction false} CollectSession(cfg: Config, h: History, w: World, log: seq<Placed>, ev: Event)
    requires Ready(cfg, w.s) && Session(cfg, h, w, log) && ev.Collect? && Enabled(cfg, h, w, ev)
    ensures var w', log' := Step(cfg, h, w, ev), LogAfter(h, w, log, ev);
            && w'.pos <= w'.high <= |h| && Usable(w'.s.wal)
            && LogReadable(cfg.crc, w'.s.wal.files, log') && LogFits(log', h, w')
  {
    hide LogFits, CacheNear, Usable, GcSparing, Bounded, Words, Covers, TailsGood, SnapshotGood, Decode;
    CollectKeepsReadable(cfg, w.s, ev.spared, log);
    forall p <- log ensures p.loc.seg in w.s.wal.files {
      assert Readable(cfg.crc, w.s.wal.files, p);
    }
    CollectKeepsFit(h, w, log, ev.spared);
  }

  /** A read in a session of a shard that is caught up is answered as the map does. */
  lemma {:induction false} SessionReads(cfg: Config, h: History, w: World, log: seq<Placed>, stream: nat, lsn: nat)
    requires Session(cfg, h, w, log) && CaughtUp(w) && lsn >= AckedOf(w.acked, stream) && w.high <= |h|
    requires RebindsFarApart(h, w.high, cfg.tailLimit) || FindTail(Get(w.s.table, stream).tail, lsn).None?
    ensures AnswersAsMap(cfg, h, w, stream, lsn)
  {
    hide LogReadable, LogFits, TableGood, TailsGood, SnapshotGood, Covers, CacheNear, RebindsFarApart, FindTail,
      Content, ReadRecordResult, Usable, Last, AckedOf;
    MapIsInLog(cfg, h, w, log, stream, lsn);
    SessionColdRead(cfg, h, w, log, stream, lsn);
    if FindTail(Get(w.s.table, stream).tail, lsn).Some? {
      NearIsContent(w.s.table, h, w.high, stream, lsn);
      TailLsn(w.s.table, stream, lsn);
    }
  }

  lemma SessionColdRead(cfg: Config, h: History, w: World, log: seq<Placed>, stream: nat, lsn: nat)
    requires Session(cfg, h, w, log)
    ensures var r := ReadRecordResult(cfg.crc, w.s.wal.files, w.s.index, stream, lsn);
            if Find(w.s.index, stream, lsn).Some? then
              Last(log, stream, lsn).Some? && r == ReadResult.Found(Last(log, stream, lsn).value.rec)
            else r == ReadResult.NotFound
  {
    hide StateGood, CacheNear, Usable, LogKnown, ContentCurrent, ReadRecordResult, Last, ReadsBack;
    assert KeyAgrees(w.s.index, log, Get(w.s.table, stream).consumed, stream, lsn);
    forall p <- log ensures ReadsBack(cfg.crc, w.s.wal.files, p) {
      assert Readable(cfg.crc, w.s.wal.files, p);
    }
    IndexedReadOf(cfg.crc, w.s.wal.files, w.s.index, log, Get(w.s.table, stream).consumed, stream, lsn);
  }

  // ---- the crash ----

  ghost predicate HeadersKept(files: Files) {
    forall id {:trigger files[id].data} | id in files :: |files[id].data| >= SEGMENT_HEADER_SIZE
  }

  /** The crash came inside the write of the record: some of its bytes, but not all, end the newest file. */
  ghost predicate TornImage(cfg: Config, w: Wal, r: WalRecord, image: Files)
    requires Usable(w)
  {
    && CrashImage(Written(cfg, w, r).files, image) && HeadersKept(image) && w.cur in image
    && w.off < |image[w.cur].data| < w.off + EncodedSize(r)
  }

  /**
   * A crash during an append that keeps the segment headers, at whatever byte, is at a record boundary or tears the
   * record.
   */
  lemma CutIsCleanOrTorn(cfg: Config, w: Wal, r: WalRecord, image: Files)
    requires Tidy(cfg, w) && SyncedOrBlank(w.files) && Fits(r)
    requires CrashImage(Written(cfg, w, r).files, image) && HeadersKept(image)
    ensures CleanFiles(cfg.crc, image) || TornImage(cfg, w, r, image)
  {
    hide Encode, DiskLog, CleanFile;
    WrittenFile(cfg, w, r);
    WrittenLog(cfg, w, r);
    var base, f := Written(cfg, w, r), w.files[w.cur];
    assert SurvivesAs(base.files[w.cur], image[w.cur]) && FileUsable(f, w.cur, w.cur);
    if !TornImage(cfg, w, r, image) {
      forall id <- image ensures CleanFile(cfg.crc, image[id]) {
        assert SurvivesAs(base.files[id], image[id]) && CleanFile(cfg.crc, base.files[id]);
        assert CleanFile(cfg.crc, w.files[id]) && FileUsable(w.files[id], id, w.cur);
        assert base.files[id].data[..|base.files[id].data|] == base.files[id].data;
        if id == w.cur && |image[id].data| == w.off {
          assert (f.data + Encode(cfg.crc, r))[..w.off] == f.data;
          SameDataClean(cfg.crc, f, image[id]);
        } else {
          SameDataClean(cfg.crc, base.files[id], image[id]);
        }
      }
    }
  }

  /** After the append is through, and any new segment created, the headers kept, it is at a record boundary or torn. */
  lemma CompleteIsCleanOrTorn(cfg: Config, w: Wal, r: WalRecord, ts: u64, image: Files)
    requires Tidy(cfg, w) && SyncedOrBlank(w.files) && Fits(r)
    requires CrashImage(Extended(cfg, w, r, ts).files, image) && HeadersKept(image)
    ensures CleanFiles(cfg.crc, image) || TornImage(cfg, w, r, image)
  {
    hide Encode, EncodeHeader, DiskLog, CleanFile, Rotated;
    WrittenFile(cfg, w, r);
    var base := Extended(cfg, w, r, ts);
    if Written(cfg, w, r).off < cfg.maxSegment {
      CutIsCleanOrTorn(cfg, w, r, image);
    } else {
      AppendLog(cfg, w, r, ts);
      RotatedIsKept(cfg, Written(cfg, w, r), ts, image);
    }
  }

  lemma RotatedIsKept(cfg: Config, w: Wal, ts: u64, image: Files)
    requires Usable(w) && Tidy(cfg, Rotated(cfg, w, ts))
    requires CrashImage(Rotated(cfg, w, ts).files, image) && HeadersKept(image)
    ensures CleanFiles(cfg.crc, image)
  {
    hide EncodeHeader, CleanFile;
    var base := Rotated(cfg, w, ts);
    forall id <- image ensures CleanFile(cfg.crc, image[id]) {
      assert SurvivesAs(base.files[id], image[id]) && CleanFile(cfg.crc, base.files[id]);
      assert FileUsable(base.files[id], id, base.cur);
      assert |image[id].data| >= SEGMENT_HEADER_SIZE;
      assert base.files[id].data[..|base.files[id].data|] == base.files[id].data;
      SameDataClean(cfg.crc, base.files[id], image[id]);
    }
  }

  /** Scanning past a torn record finds what was there before it. */
  lemma TornScan(crc: Crc, id: nat, f: File, r: WalRecord, torn: nat)
    requires CleanFile(crc, f) && Fits(r) && torn < EncodedSize(r)
    ensures ScanFile(crc, id, File(f.data + Encode(crc, r)[..torn], 0)) == ScanFile(crc, id, f)
  {
    hide Encode, Decode, ScanFrom, ScanEnd, DecodeHeader;
    var t := Encode(crc, r)[..torn];
    var data := f.data + t;
    ScanContinues(crc, id, f.data, SEGMENT_HEADER_SIZE, t);
    ScanTurn(crc, id, data, |f.data|);
    assert data[|f.data|..] == t;
    RoundTrip(crc, r, []);
    assert Encode(crc, r) + [] == Encode(crc, r);
    PrefixTooSmall(crc, Encode(crc, r), torn);
  }

  /** Recovery after a torn write succeeds and finds exactly the log before the write. */
  lemma {:induction false} TornLog(cfg: Config, w: Wal, r: WalRecord, image: Files)
    requires Tidy(cfg, w) && SyncedOrBlank(w.files) && Fits(r) && TornImage(cfg, w, r, image)
    ensures DiskLog(cfg.crc, image) == DiskLog(cfg.crc, w.files)
    ensures FirstFault(cfg.crc, image, Ids(image.Keys)) == NoFault
    ensures AllSynced(image) && image != map[]
  {
    hide Encode, DiskLog, CleanFile, LogOf, ScanFile, FirstFault, Ids;
    WrittenFile(cfg, w, r);
    WrittenLog(cfg, w, r);
    var base, f := Written(cfg, w, r), w.files[w.cur];
    CrashedOpens(cfg, base, image);
    CrashHitsNewestOnly(base, image);
    NewestIsCurrent(w);
    assert CleanFile(cfg.crc, f) && SurvivesAs(base.files[w.cur], image[w.cur]);
    var torn := |image[w.cur].data| - w.off;
    assert image[w.cur].data == f.data + Encode(cfg.crc, r)[..torn];
    TornScan(cfg.crc, w.cur, f, r, torn);
    ScanOnlyData(cfg.crc, w.cur, image[w.cur], File(image[w.cur].data, 0));
    LogSplitNewest(cfg.crc, w.files, w.cur);
    LogSplitNewest(cfg.crc, image, w.cur);
    assert image - {w.cur} == w.files - {w.cur};
  }

  lemma ScanOnlyData(crc: Crc, id: nat, f: File, g: File)
    requires f.data == g.data
    ensures ScanFile(crc, id, f) == ScanFile(crc, id, g)
  {
  }

  // ---- runs after the crash ----

  /** A crash inside the write of the next entry's record, and from where Raft delivers again. */
  datatype Cut = Cut(image: Files, ts: u64, pos: nat, applied: nat, newTs: u64)

  ghost predicate Tears(cfg: Config, h: History, v: World, c: Cut) {
    && v.pos < |h| && Usable(v.s.wal) && TornImage(cfg, v.s.wal, RecordOf(h[v.pos], c.ts), c.image)
    && RestartsAt(h, v, c.pos) && AppliedBehind(h, c.applied, c.pos)
  }

  ghost function Torn(cfg: Config, v: World, c: Cut): World
    requires Ready(cfg, v.s)
  {
    World(Recovered(cfg, c.image, v.s.raft, c.applied, c.newTs), c.pos, v.high, v.acked)
  }

  /** What the opening after such a crash finds. */
  lemma {:induction false} TornFound(cfg: Config, h: History, v: World, c: Cut)
    requires Inv(cfg, h, v) && Tears(cfg, h, v, c)
    ensures v.pos <= v.high <= |h| && AllSynced(c.image) && c.image != map[]
    ensures FirstFault(cfg.crc, c.image, Ids(c.image.Keys)) == NoFault
    ensures var found := DiskLog(cfg.crc, c.image);
            && LogFits(found, h, v) && LogKnown(found, h, v.high) && LogReadable(cfg.crc, c.image, found)
  {
    hide DiskLog, StateGood, FirstFault, RestartsAt, AppliedBehind, TornImage, Tidy, SyncedOrBlank, LogFits,
      LogReadable, Usable, LogKnown, AllSynced;
    EntryFits(h, v.pos, c.ts);
    TornLog(cfg, v.s.wal, RecordOf(h[v.pos], c.ts), c.image);
    FitsKnown(DiskLog(cfg.crc, v.s.wal.files), h, v);
    ScannedIsReadable(cfg.crc, c.image);
  }

  lemma {:induction false} TornStart(cfg: Config, h: History, v: World, c: Cut)
    requires WithinLimits(h) && Reachable(cfg, h, v) && Ready(cfg, v.s) && Tears(cfg, h, v, c)
    ensures FirstFault(cfg.crc, c.image, Ids(c.image.Keys)) == NoFault
    ensures Session(cfg, h, Torn(cfg, v, c), DiskLog(cfg.crc, c.image))
  {
    hide Reachable, DiskLog, LogGood, StateGood, CacheNear, FirstFault, Recovered, AppliedBehind, TornImage, LogFits,
      LogReadable, LogKnown, AllSynced, Usable, Ready;
    ReachableGood(cfg, h, v);
    TornFound(cfg, h, v, c);
    TornStartState(cfg, h, v, c);
    TornStartFits(cfg, h, v, c);
  }

  lemma {:induction false} TornStartState(cfg: Config, h: History, v: World, c: Cut)
    requires WithinLimits(h) && Reachable(cfg, h, v) && Ready(cfg, v.s) && Tears(cfg, h, v, c)
    requires Inv(cfg, h, v) && LogKnown(DiskLog(cfg.crc, c.image), h, v.high) && c.image != map[]
    ensures var w := Torn(cfg, v, c);
            && w.pos <= w.high <= |h| && StateGood(cfg, h, w) && CacheNear(w.s.table, h, w.pos, w.high)
            && w.s.wal.files == c.image
  {
    hide Reachable, DiskLog, LogGood, StateGood, CacheNear, Recovered, RestartsAt, AppliedBehind, TornImage, LogKnown,
      Usable;
    ReachableCache(cfg, h, v);
    RecoveredStateGood(cfg, h, v, c.image, c.pos, v.high, c.applied, c.newTs);
    RecoveredCacheNear(cfg, h, v, c.image, c.pos, v.high, c.applied, c.newTs);
    RecoveredFiles(cfg, c.image, v.s.raft, c.applied, c.newTs);
  }

  lemma EntryFits(h: History, i: nat, ts: u64)
    requires WithinLimits(h) && i < |h|
    ensures Fits(RecordOf(h[i], ts))
  {
    assert EntryWithinLimits(h[i]);
  }

  lemma FitsKnown(log: seq<Placed>, h: History, w: World)
    requires w.pos <= w.high <= |h| && WithinLimits(h) && LogFits(log, h, w)
    ensures LogKnown(log, h, w.high) && forall p <- log :: Fits(p.rec)
  {
    hide IndexAgrees, ContentCurrent;
    LogKnownFits(log, h, w.high);
  }

  lemma {:induction false} TornStartFits(cfg: Config, h: History, v: World, c: Cut)
    requires Ready(cfg, v.s) && v.pos <= v.high <= |h| && c.pos <= v.pos
    requires AllSynced(c.image) && c.image != map[]
    requires LogFits(DiskLog(cfg.crc, c.image), h, v)
    ensures var w := Torn(cfg, v, c); w.pos <= w.high && LogFits(DiskLog(cfg.crc, c.image), h, w) && Usable(w.s.wal)
  {
    hide DiskLog, ObserveLog, IndexOf, Snapshot.Decoded, KeyAgrees, KeyCurrent, Usable, AllSynced, OlderSynced;
    var w, found := Torn(cfg, v, c), DiskLog(cfg.crc, c.image);
    AllSyncedOlder(c.image);
    ReopenedUsable(cfg, c.image, c.newTs);
    IndexAfterRescan(found, w.s.table);
    ContentAfterRewind(found, h, v.pos, v.high, v.acked, c.pos);
  }

  /** A run from there, up to any state before the next restart. */
  lemma {:induction false} TornRunIsSession(
      cfg: Config, h: History, v: World, c: Cut, ws: seq<World>, evs: seq<Event>, i: nat)
    returns (log: seq<Placed>)
    requires WithinLimits(h) && Reachable(cfg, h, v) && Ready(cfg, v.s) && Tears(cfg, h, v, c)
    requires IsRun(cfg, h, ws, evs) && ws[0] == Torn(cfg, v, c) && NoRestart(evs, 0, |evs|) && i <= |evs|
    ensures Session(cfg, h, ws[i], log)
  {
    hide Session, Reachable, WithinLimits, Tears, Torn, Step, Enabled;
    if i == 0 {
      TornStart(cfg, h, v, c);
      log := DiskLog(cfg.crc, c.image);
    } else {
      var before := TornRunIsSession(cfg, h, v, c, ws, evs, i - 1);
      assert StepsTo(cfg, h, ws[i - 1], evs[i - 1], ws[i]);
      StepKeepsSession(cfg, h, ws[i - 1], before, evs[i - 1]);
      log := LogAfter(h, ws[i - 1], before, evs[i - 1]);
    }
  }

  /**
   * The first reopening after a torn write is sound: whatever writes, acknowledgements, applies, snapshots and
   * collections follow, a shard that has caught up again answers as the map does, until the next restart.
   */
  lemma {:induction false} TornReadsAreTheMap(
      cfg: Config, h: History, v: World, c: Cut, ws: seq<World>, evs: seq<Event>, i: nat, stream: nat, lsn: nat)
    requires WithinLimits(h) && Reachable(cfg, h, v) && Ready(cfg, v.s) && Tears(cfg, h, v, c)
    requires IsRun(cfg, h, ws, evs) && ws[0] == Torn(cfg, v, c) && NoRestart(evs, 0, |evs|) && i <= |evs|
    requires CaughtUp(ws[i]) && lsn >= AckedOf(ws[i].acked, stream)
    requires RebindsFarApart(h, ws[i].high, cfg.tailLimit) || FindTail(Get(ws[i].s.table, stream).tail, lsn).None?
    ensures ws[i].high <= |h| && AnswersAsMap(cfg, h, ws[i], stream, lsn)
  {
    hide Session, Reachable, WithinLimits, Tears, Torn, StepsTo, RebindsFarApart, FindTail, AckedOf, Content, Read;
    var log := TornRunIsSession(cfg, h, v, c, ws, evs, i);
    SessionReady(cfg, h, ws[i], log);
    SessionReads(cfg, h, ws[i], log, stream, lsn);
  }
}
