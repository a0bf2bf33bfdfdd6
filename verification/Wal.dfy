/** The write-ahead log of one shard as a value: appending, rotating, syncing, collecting, crashing, reopening. */
module Wal {
  import opened Bytes
  import opened Record
  import opened Segment
  import opened Index
  import opened Scan
  import opened Log
  import opened Streams

  datatype Config = Config(crc: Crc, shard: u16, maxSegment: nat, tailLimit: nat)

  datatype Wal = Wal(files: Files, cur: nat, off: nat, nextEntry: nat, nextSeg: nat)

  /** What the writer relies on: it writes at the end of the newest segment, and all older ones are synced. */
  ghost predicate Usable(w: Wal) {
    && w.cur in w.files
    && w.nextSeg == w.cur + 1
    && w.off == |w.files[w.cur].data|
    && forall id <- w.files :: FileUsable(w.files[id], id, w.cur)
  }

  ghost predicate FileUsable(f: File, id: nat, cur: nat) {
    id <= cur && f.synced <= |f.data| && (id != cur ==> f.synced == |f.data|)
  }

  /** A segment with an intact header that the recovery scan reads to its last byte. */
  predicate CleanFile(crc: Crc, f: File) {
    && |f.data| >= SEGMENT_HEADER_SIZE
    && HeaderAccepted(f.data)
    && ScanEnd(crc, f.data, SEGMENT_HEADER_SIZE) == |f.data|
  }

  ghost predicate CleanFiles(crc: Crc, files: Files) {
    forall id {:trigger CleanFile(crc, files[id])} | id in files :: CleanFile(crc, files[id])
  }

  ghost predicate Tidy(cfg: Config, w: Wal) {
    Usable(w) && CleanFiles(cfg.crc, w.files)
  }

  // ---- writing ----

  function AppendLoc(w: Wal, r: WalRecord): Loc {
    Loc(w.cur, w.off, EncodedSize(r) % U32_LIMIT)
  }

  function Written(cfg: Config, w: Wal, r: WalRecord): Wal
    requires Usable(w)
  {
    w.(files := w.files[w.cur := WriteAt(w.files[w.cur], w.off, Encode(cfg.crc, r))],
       off := w.off + EncodedSize(r),
       nextEntry := Max(w.nextEntry, r.entry + 1))
  }

  function SyncCurrent(w: Wal): Wal
    requires Usable(w)
  {
    w.(files := w.files[w.cur := Synced(w.files[w.cur])])
  }

  function FreshSegment(cfg: Config, id: nat, ts: u64): File {
    File(EncodeHeader(cfg.shard, id, ts), 0)
  }

  function Rotated(cfg: Config, w: Wal, ts: u64): Wal
    requires Usable(w)
  {
    Wal(SyncCurrent(w).files[w.nextSeg := FreshSegment(cfg, w.nextSeg, ts)],
        w.nextSeg, SEGMENT_HEADER_SIZE, w.nextEntry, w.nextSeg + 1)
  }

  lemma WrittenFile(cfg: Config, w: Wal, r: WalRecord)
    requires Usable(w)
    ensures Written(cfg, w, r).files[w.cur] == File(w.files[w.cur].data + Encode(cfg.crc, r), w.files[w.cur].synced)
    ensures Usable(Written(cfg, w, r))
  {
    var f := w.files[w.cur];
    assert f.data[..w.off] == f.data && WriteAt(f, w.off, Encode(cfg.crc, r)).data == f.data + Encode(cfg.crc, r);
    var w' := Written(cfg, w, r);
    forall id <- w'.files ensures FileUsable(w'.files[id], id, w'.cur) {
      assert FileUsable(w.files[id], id, w.cur);
    }
  }

  function Extended(cfg: Config, w: Wal, r: WalRecord, ts: u64): Wal
    requires Usable(w)
  {
    WrittenFile(cfg, w, r);
    var w1 := Written(cfg, w, r);
    if w1.off >= cfg.maxSegment then Rotated(cfg, w1, ts) else w1
  }

  lemma SyncUsable(w: Wal)
    requires Usable(w)
    ensures Usable(SyncCurrent(w))
  {
    var w' := SyncCurrent(w);
    forall id <- w'.files ensures FileUsable(w'.files[id], id, w'.cur) {
      assert FileUsable(w.files[id], id, w.cur);
    }
  }

  lemma RotatedUsable(cfg: Config, w: Wal, ts: u64)
    requires Usable(w)
    ensures Usable(Rotated(cfg, w, ts)) && w.nextSeg !in w.files
  {
    var w' := Rotated(cfg, w, ts);
    forall id <- w'.files ensures FileUsable(w'.files[id], id, w'.cur) {
      if id in w.files {
        assert FileUsable(w.files[id], id, w.cur);
      }
    }
    assert w.nextSeg in w.files ==> FileUsable(w.files[w.nextSeg], w.nextSeg, w.cur);
  }

  lemma AppendUsable(cfg: Config, w: Wal, r: WalRecord, ts: u64)
    requires Usable(w)
    ensures Usable(Extended(cfg, w, r, ts))
    ensures w.nextSeg <= Extended(cfg, w, r, ts).nextSeg
    ensures forall id <- Extended(cfg, w, r, ts).files :: id in w.files || id >= w.nextSeg
  {
    WrittenFile(cfg, w, r);
    var w1 := Written(cfg, w, r);
    if w1.off >= cfg.maxSegment {
      RotatedUsable(cfg, w1, ts);
    }
  }

  lemma AppendKeepsFiles(cfg: Config, w: Wal, r: WalRecord, ts: u64)
    requires Usable(w)
    ensures w.files.Keys <= Extended(cfg, w, r, ts).files.Keys && w.cur in w.files
  {
  }

  lemma SameDataClean(crc: Crc, f: File, g: File)
    requires CleanFile(crc, f) && f.data == g.data
    ensures CleanFile(crc, g)
  {
  }

  lemma SyncLog(crc: Crc, w: Wal)
    requires Usable(w)
    ensures DiskLog(crc, SyncCurrent(w).files) == DiskLog(crc, w.files)
    ensures CleanFiles(crc, w.files) ==> CleanFiles(crc, SyncCurrent(w).files)
  {
    hide CleanFile;
    var files := SyncCurrent(w).files;
    assert files.Keys == w.files.Keys;
    if CleanFiles(crc, w.files) {
      forall id | id in files ensures CleanFile(crc, files[id]) {
        assert CleanFile(crc, w.files[id]);
        SameDataClean(crc, w.files[id], files[id]);
      }
    }
    LogOfFrame(crc, w.files, files, Ids(w.files.Keys));
  }

  lemma NewestIsCurrent(w: Wal)
    requires Usable(w)
    ensures forall k <- w.files :: k <= w.cur
  {
    forall k <- w.files ensures k <= w.cur {
      assert FileUsable(w.files[k], k, w.cur);
    }
  }

  lemma GrownFile(crc: Crc, id: nat, f: File, r: WalRecord)
    requires CleanFile(crc, f) && Fits(r)
    ensures var f' := File(f.data + Encode(crc, r), f.synced);
            && CleanFile(crc, f')
            && ScanFile(crc, id, f') == ScanFile(crc, id, f) + [Placed(Loc(id, |f.data|, EncodedSize(r)), r)]
  {
    hide Encode, Decode, ScanFrom, ScanEnd, DecodeHeader;
    assert (f.data + Encode(crc, r))[..SEGMENT_HEADER_SIZE] == f.data[..SEGMENT_HEADER_SIZE];
    ScanAppend(crc, id, f.data, SEGMENT_HEADER_SIZE, r);
  }

  lemma WrittenLog(cfg: Config, w: Wal, r: WalRecord)
    requires Tidy(cfg, w) && Fits(r)
    ensures Tidy(cfg, Written(cfg, w, r))
    ensures DiskLog(cfg.crc, Written(cfg, w, r).files) == DiskLog(cfg.crc, w.files) + [Placed(AppendLoc(w, r), r)]
  {
    hide CleanFile, ScanFile, LogOf, Encode, WriteAt, DiskLog, HeaderAccepted;
    WrittenFile(cfg, w, r);
    NewestIsCurrent(w);
    GrownFile(cfg.crc, w.cur, w.files[w.cur], r);
    LogSplitNewest(cfg.crc, w.files, w.cur);
    LogReplaceNewest(cfg.crc, w.files, w.cur, Written(cfg, w, r).files[w.cur]);
  }

  lemma FreshSegmentClean(cfg: Config, id: nat, ts: u64)
    ensures CleanFile(cfg.crc, FreshSegment(cfg, id, ts)) && ScanFile(cfg.crc, id, FreshSegment(cfg, id, ts)) == []
  {
    HeaderRoundTrip(cfg.shard, id, ts);
    var d := EncodeHeader(cfg.shard, id, ts);
    assert d[..SEGMENT_HEADER_SIZE] == d;
  }

  lemma RotatedLog(cfg: Config, w: Wal, ts: u64)
    requires Tidy(cfg, w)
    ensures Tidy(cfg, Rotated(cfg, w, ts))
    ensures DiskLog(cfg.crc, Rotated(cfg, w, ts).files) == DiskLog(cfg.crc, w.files)
  {
    hide CleanFile, ScanFile, LogOf;
    var synced, newest := SyncCurrent(w), FreshSegment(cfg, w.nextSeg, ts);
    SyncUsable(w);
    SyncLog(cfg.crc, w);
    NewestIsCurrent(synced);
    FreshSegmentClean(cfg, w.nextSeg, ts);
    LogWithNewest(cfg.crc, synced.files, w.nextSeg, newest);
    RotatedUsable(cfg, w, ts);
  }

  /** Appending, with or without rotating, appends exactly one record to the log, where the caller is told. */
  lemma AppendLog(cfg: Config, w: Wal, r: WalRecord, ts: u64)
    requires Tidy(cfg, w) && Fits(r)
    ensures Tidy(cfg, Extended(cfg, w, r, ts))
    ensures DiskLog(cfg.crc, Extended(cfg, w, r, ts).files) == DiskLog(cfg.crc, w.files) + [Placed(AppendLoc(w, r), r)]
  {
    hide CleanFile, ScanFile, LogOf, Encode, WriteAt, DiskLog, Rotated, Written;
    WrittenLog(cfg, w, r);
    var w1 := Written(cfg, w, r);
    if w1.off >= cfg.maxSegment {
      RotatedLog(cfg, w1, ts);
    }
  }

  ghost predicate AllSynced(files: Files) {
    forall id <- files :: files[id].synced == |files[id].data|
  }

  /** After an append and a sync every byte of every segment is durable, rotation or not. */
  lemma AppendThenSyncIsDurable(cfg: Config, w: Wal, r: WalRecord, ts: u64)
    requires Usable(w)
    ensures Usable(Extended(cfg, w, r, ts))
    ensures var w' := SyncCurrent(Extended(cfg, w, r, ts));
            && Usable(w') && AllSynced(w'.files)
            && w.cur in w'.files && w.off + EncodedSize(r) <= w'.files[w.cur].synced
            && w'.files[w.cur].data[w.off..w.off + EncodedSize(r)] == Encode(cfg.crc, r)
  {
    AppendUsable(cfg, w, r, ts);
    var w1 := Extended(cfg, w, r, ts);
    SyncUsable(w1);
    var w' := SyncCurrent(w1);
    forall id <- w'.files ensures w'.files[id].synced == |w'.files[id].data| {
      assert FileUsable(w1.files[id], id, w1.cur);
    }
    WrittenFile(cfg, w, r);
    var d := w.files[w.cur].data + Encode(cfg.crc, r);
    assert w'.files[w.cur].data == d;
    assert d[w.off..w.off + EncodedSize(r)] == Encode(cfg.crc, r);
  }

  /** A segment is closed exactly when an append brings it to the limit; the next one starts empty. */
  lemma RotatesExactly(cfg: Config, w: Wal, r: WalRecord, ts: u64)
    requires Usable(w)
    ensures var w', end := Extended(cfg, w, r, ts), w.off + 48 + |r.payload|;
            && (w'.cur != w.cur <==> end >= cfg.maxSegment)
            && (w'.cur != w.cur ==> w'.off == 64 && w'.cur == w.nextSeg)
            && (w'.cur == w.cur ==> w'.off == end)
  {
    hide Encode, WriteAt, EncodeHeader;
    WrittenFile(cfg, w, r);
  }

  lemma AppendGrows(cfg: Config, w: Wal, r: WalRecord, ts: u64)
    requires Usable(w)
    ensures Usable(Extended(cfg, w, r, ts))
    ensures var files' := SyncCurrent(Extended(cfg, w, r, ts)).files;
            && (forall id <- w.files :: id in files' && w.files[id].data <= files'[id].data)
            && files'[w.cur].data == w.files[w.cur].data + Encode(cfg.crc, r)
  {
    hide Encode, EncodeHeader;
    WrittenFile(cfg, w, r);
    AppendUsable(cfg, w, r, ts);
    var w1 := Written(cfg, w, r);
    NewestIsCurrent(w);
  }

  // ---- collecting ----

  /** Keeps the current segment and the live ones. */
  function Collected(w: Wal, live: set<nat>): Wal {
    w.(files := w.files - (w.files.Keys - live - {w.cur}))
  }

  lemma {:induction false} CollectedLog(cfg: Config, w: Wal, live: set<nat>)
    requires Tidy(cfg, w)
    ensures Tidy(cfg, Collected(w, live))
    ensures Collected(w, live).files.Keys == w.files.Keys * (live + {w.cur})
    ensures DiskLog(cfg.crc, Collected(w, live).files)
         == OnlyIn(DiskLog(cfg.crc, w.files), w.files.Keys - (w.files.Keys - live - {w.cur}))
  {
    hide CleanFile, LogOf;
    LogOfRemaining(cfg.crc, w.files, w.files.Keys - live - {w.cur});
    var w' := Collected(w, live);
    forall id <- w'.files ensures FileUsable(w'.files[id], id, w'.cur) {
      assert FileUsable(w.files[id], id, w.cur);
    }
  }

  // ---- reopening ----

  function NextEntry(log: seq<Placed>): nat {
    if log == [] then 0 else Max(NextEntry(log[..|log| - 1]), log[|log| - 1].rec.entry + 1)
  }

  /** The entry counter after recovery is one above the highest entry id in the log, or 0 if the log is empty. */
  lemma NextEntryIsAbove(log: seq<Placed>)
    ensures forall p <- log :: p.rec.entry < NextEntry(log)
    ensures if log == [] then NextEntry(log) == 0 else exists p <- log :: p.rec.entry + 1 == NextEntry(log)
  {
    hide NextEntry;
    EmptyCounter();
    forall p <- log ensures p.rec.entry < NextEntry(log) {
      CounterCovers(log, p);
    }
    if log != [] {
      var p := CounterAttained(log);
    }
  }

  lemma EmptyCounter()
    ensures NextEntry([]) == 0
  {
  }

  lemma {:induction false} CounterCovers(log: seq<Placed>, p: Placed)
    requires p in log
    ensures p.rec.entry < NextEntry(log)
  {
    var front, last := log[..|log| - 1], log[|log| - 1];
    if p != last {
      assert log == front + [last];
      CounterCovers(front, p);
    }
  }

  lemma {:induction false} CounterAttained(log: seq<Placed>) returns (p: Placed)
    requires log != []
    ensures p in log && p.rec.entry + 1 == NextEntry(log)
  {
    p := log[|log| - 1];
    if NextEntry(log) != p.rec.entry + 1 {
      var front := log[..|log| - 1];
      EmptyCounter();
      p := CounterAttained(front);
    }
  }

  /** The stream table after observing every record of the log that is newer than the snapshot. */
  function ObserveLog(t: Table, log: seq<Placed>, from: nat): Table {
    if log == [] then t
    else
      var t', r := ObserveLog(t, log[..|log| - 1], from), log[|log| - 1].rec;
      if r.entry > from then Observed(t', r.stream, r.epoch, r.entry, r.lsn, r.payload) else t'
  }

  datatype Fault = NoFault | BadHeader | Aborted

  function FileFault(crc: Crc, f: File): Fault {
    if |f.data| < SEGMENT_HEADER_SIZE then NoFault
    else if !HeaderAccepted(f.data) then BadHeader
    else if ScanPanics(crc, f.data, SEGMENT_HEADER_SIZE) then Aborted
    else NoFault
  }

  /** The first segment that recovery cannot get past. */
  function FirstFault(crc: Crc, files: Files, ids: seq<nat>): Fault
    requires forall id <- ids :: id in files
    decreases |ids|
  {
    if ids == [] then NoFault
    else
      var front := FirstFault(crc, files, ids[..|ids| - 1]);
      if front != NoFault then front else FileFault(crc, files[ids[|ids| - 1]])
  }

  ghost function Reopened(cfg: Config, files: Files, ts: u64): Wal {
    if files == map[] then Wal(map[0 := FreshSegment(cfg, 0, ts)], 0, SEGMENT_HEADER_SIZE, 0, 1)
    else
      assert files.Keys != {};
      var last := MaxOf(files.Keys);
      Wal(files, last, |files[last].data|, NextEntry(DiskLog(cfg.crc, files)), last + 1)
  }

  /** All segments but the newest are durable; what is at the end of the newest may not be yet. */
  ghost predicate OlderSynced(files: Files) {
    forall id <- files.Keys :: FileUsable(files[id], id, MaxOf(files.Keys))
  }

  lemma AllSyncedOlder(files: Files)
    requires AllSynced(files)
    ensures OlderSynced(files)
  {
  }

  /** Reopening yields a usable writer, whether the machine went down or only the process. */
  lemma ReopenedUsable(cfg: Config, files: Files, ts: u64)
    requires OlderSynced(files)
    ensures Usable(Reopened(cfg, files, ts))
    ensures CleanFiles(cfg.crc, files) ==> Tidy(cfg, Reopened(cfg, files, ts))
  {
    hide CleanFile, NextEntry, DiskLog;
    if files == map[] {
      FreshSegmentClean(cfg, 0, ts);
    } else {
      assert files.Keys != {};
      var w := Reopened(cfg, files, ts);
      forall id <- w.files ensures FileUsable(w.files[id], id, w.cur) {
        assert id in files.Keys;
      }
    }
  }

  /** A segment that recovery gets past: too short for a header, or with a good one and a scan that does not abort. */
  predicate Passable(crc: Crc, f: File) {
    |f.data| >= 64 ==> DecodeHeader(f.data[..64]).Header? && !ScanPanics(crc, f.data, 64)
  }

  /**
   * Opening meets no fault exactly if every segment can be passed; otherwise it is the first one that cannot that
   * decides: a bad header if its header is, an abort if its header is good.
   */
  lemma {:induction false} FaultExactly(crc: Crc, files: Files, ids: seq<nat>)
    requires forall id <- ids :: id in files
    ensures FirstFault(crc, files, ids) == NoFault <==> forall id <- ids :: Passable(crc, files[id])
    ensures FirstFault(crc, files, ids) != NoFault ==>
              exists k :: 0 <= k < |ids| && !Passable(crc, files[ids[k]])
                          && (forall i :: 0 <= i < k ==> Passable(crc, files[ids[i]]))
                          && (FirstFault(crc, files, ids) == BadHeader
                              <==> !DecodeHeader(files[ids[k]].data[..64]).Header?)
    decreases |ids|
  {
    hide ScanPanics, DecodeHeader;
    if ids != [] {
      var front, last := ids[..|ids| - 1], ids[|ids| - 1];
      assert ids == front + [last];
      FaultExactly(crc, files, front);
      if FirstFault(crc, files, front) != NoFault {
        var k :| 0 <= k < |front| && !Passable(crc, files[front[k]])
                 && (forall i :: 0 <= i < k ==> Passable(crc, files[front[i]]))
                 && (FirstFault(crc, files, front) == BadHeader
                     <==> !DecodeHeader(files[front[k]].data[..64]).Header?);
        assert ids[k] == front[k] && forall i :: 0 <= i < k ==> ids[i] == front[i];
      } else if !Passable(crc, files[last]) {
        assert ids[|front|] == last && forall i :: 0 <= i < |front| ==> ids[i] == front[i] && front[i] in front;
      }
    }
  }

  lemma {:induction false} NoFaults(crc: Crc, files: Files, ids: seq<nat>)
    requires forall id <- ids :: id in files && FileFault(crc, files[id]) == NoFault
    ensures FirstFault(crc, files, ids) == NoFault
    decreases |ids|
  {
    hide FileFault;
    if ids != [] {
      NoFaults(crc, files, ids[..|ids| - 1]);
    }
  }

  // ---- crashing ----

  /** A crash touches nothing but the unsynced end of the newest segment. */
  lemma CrashHitsNewestOnly(w: Wal, image: Files)
    requires Usable(w) && CrashImage(w.files, image)
    ensures AllSynced(image) && image.Keys == w.files.Keys
    ensures forall id <- image :: id != w.cur ==> image[id] == w.files[id]
  {
    forall id <- image ensures image[id].synced == |image[id].data| && (id != w.cur ==> image[id] == w.files[id]) {
      assert SurvivesAs(w.files[id], image[id]) && FileUsable(w.files[id], id, w.cur);
      assert id != w.cur ==> w.files[id].data[..|w.files[id].data|] == w.files[id].data;
    }
  }

  /** Scanning any prefix of a segment that scans to its end stops without aborting. */
  lemma {:induction false} PrefixNeverPanics(crc: Crc, data: seq<byte>, off: nat, cut: nat)
    requires off <= cut <= |data| && ScanEnd(crc, data, off) == |data|
    ensures !ScanPanics(crc, data[..cut], off)
    decreases |data| - off
  {
    hide Decode, Encode;
    var short := data[..cut];
    if off < cut {
      var d := Decode(crc, data[off..]);
      assert short[off..] == data[off..][..cut - off];
      if off + d.size <= cut {
        DecodeCut(crc, data[off..], cut - off);
        PrefixNeverPanics(crc, data, off + d.size, cut);
      } else {
        PrefixTooSmall(crc, data[off..], cut - off);
      }
    }
  }

  lemma CutHasNoFault(crc: Crc, f: File, g: File)
    requires CleanFile(crc, f) && SurvivesAs(f, g)
    ensures FileFault(crc, g) == NoFault
  {
    hide ScanPanics, ScanEnd, DecodeHeader;
    if |g.data| >= SEGMENT_HEADER_SIZE {
      PrefixNeverPanics(crc, f.data, SEGMENT_HEADER_SIZE, |g.data|);
      assert g.data[..SEGMENT_HEADER_SIZE] == f.data[..SEGMENT_HEADER_SIZE];
    }
  }

  /** Opening succeeds after any crash, at whatever byte it cut which segment. */
  lemma CrashedOpens(cfg: Config, w: Wal, image: Files)
    requires Tidy(cfg, w) && CrashImage(w.files, image)
    ensures FirstFault(cfg.crc, image, Ids(image.Keys)) == NoFault
  {
    hide CleanFile, FileFault, FirstFault, SurvivesAs;
    forall id <- Ids(image.Keys) ensures id in image && FileFault(cfg.crc, image[id]) == NoFault {
      assert CleanFile(cfg.crc, w.files[id]) && SurvivesAs(w.files[id], image[id]);
      CutHasNoFault(cfg.crc, w.files[id], image[id]);
    }
    NoFaults(cfg.crc, image, Ids(image.Keys));
  }

  lemma CutFile(crc: Crc, id: nat, f: File, g: File)
    requires SurvivesAs(f, g) && |g.data| >= SEGMENT_HEADER_SIZE
    ensures ScanFile(crc, id, g) == UpTo(ScanFile(crc, id, f), |g.data|)
  {
    hide ScanFrom, UpTo;
    ScanCut(crc, id, f.data, SEGMENT_HEADER_SIZE, |g.data|);
  }

  /**
   * Recovery after any crash, at whatever byte it cut the newest segment, succeeds and finds the log up to the cut:
   * a prefix that loses only records reaching past the cut, and none that was synced.
   */
  lemma {:induction false} CrashLog(cfg: Config, w: Wal, image: Files)
    requires Tidy(cfg, w) && CrashImage(w.files, image) && |image[w.cur].data| >= SEGMENT_HEADER_SIZE
    ensures DiskLog(cfg.crc, image) == DiskLog(cfg.crc, w.files - {w.cur})
                                   + UpTo(ScanFile(cfg.crc, w.cur, w.files[w.cur]), |image[w.cur].data|)
    ensures DiskLog(cfg.crc, image) <= DiskLog(cfg.crc, w.files)
    ensures FirstFault(cfg.crc, image, Ids(image.Keys)) == NoFault
  {
    hide LogOf, UpTo, DiskLog, CleanFile, CleanFiles, FirstFault, Ids;
    CrashedOpens(cfg, w, image);
    CrashHitsNewestOnly(w, image);
    NewestIsCurrent(w);
    assert SurvivesAs(w.files[w.cur], image[w.cur]);
    CutFile(cfg.crc, w.cur, w.files[w.cur], image[w.cur]);
    hide ScanFile;
    LogSplitNewest(cfg.crc, w.files, w.cur);
    LogSplitNewest(cfg.crc, image, w.cur);
    assert image - {w.cur} == w.files - {w.cur};
  }

  lemma {:induction false} UpToKeeps(ps: seq<Placed>, seg: nat, off: nat, end: nat, cut: nat, p: Placed)
    requires Tiles(ps, seg, off, end) && p in ps && p.loc.off + EncodedSize(p.rec) <= cut
    requires forall q <- ps :: Fits(q.rec)
    ensures p in UpTo(ps, cut) && off <= p.loc.off
    decreases |ps|
  {
    if p != ps[0] {
      assert p in ps[1..];
      UpToKeeps(ps[1..], seg, off + EncodedSize(ps[0].rec), end, cut, p);
    }
  }

  /** Nothing synced is lost: every record whose bytes were durable is recovered at its location. */
  lemma SyncedRecordsSurvive(cfg: Config, w: Wal, image: Files, p: Placed)
    requires Tidy(cfg, w) && CrashImage(w.files, image) && |image[w.cur].data| >= SEGMENT_HEADER_SIZE
    requires forall q <- DiskLog(cfg.crc, w.files) :: Fits(q.rec)
    requires p in DiskLog(cfg.crc, w.files) && p.loc.seg in w.files
    requires p.loc.off + EncodedSize(p.rec) <= w.files[p.loc.seg].synced
    ensures p in DiskLog(cfg.crc, image)
  {
    hide LogOf, ScanFrom, ScanEnd, UpTo, Tiles, CleanFile;
    CrashLog(cfg, w, image);
    NewestIsCurrent(w);
    LogSplitNewest(cfg.crc, w.files, w.cur);
    var ps := ScanFile(cfg.crc, w.cur, w.files[w.cur]);
    if p in ps {
      ScanFileSeg(cfg.crc, w.cur, w.files[w.cur]);
      assert CleanFile(cfg.crc, w.files[w.cur]) && SurvivesAs(w.files[w.cur], image[w.cur]);
      CurrentTiles(cfg, w);
      UpToKeeps(ps, w.cur, SEGMENT_HEADER_SIZE, |w.files[w.cur].data|, |image[w.cur].data|, p);
    }
  }

  /** In every segment the records' locations tile the file from the end of its header to its last byte. */
  lemma SegmentTiles(crc: Crc, id: nat, f: File)
    requires CleanFile(crc, f)
    ensures Tiles(ScanFile(crc, id, f), id, SEGMENT_HEADER_SIZE, |f.data|)
    ensures f.data[SEGMENT_HEADER_SIZE..] == EncodeAll(crc, Records(ScanFile(crc, id, f)))
  {
    ScanIsImage(crc, id, f.data, SEGMENT_HEADER_SIZE);
  }

  lemma CurrentTiles(cfg: Config, w: Wal)
    requires Tidy(cfg, w)
    ensures Tiles(ScanFile(cfg.crc, w.cur, w.files[w.cur]), w.cur, SEGMENT_HEADER_SIZE, w.off)
  {
    SegmentTiles(cfg.crc, w.cur, w.files[w.cur]);
  }

  // ---- crashes at a record boundary ----

  ghost predicate SameData(a: Files, b: Files) {
    a.Keys == b.Keys && forall id <- a :: a[id].data == b[id].data
  }

  lemma SameDataSameLog(crc: Crc, a: Files, b: Files)
    requires SameData(a, b)
    ensures DiskLog(crc, a) == DiskLog(crc, b)
  {
    LogOfFrame(crc, a, b, Ids(a.Keys));
  }

  /** Everything is synced but possibly the header of a segment that holds nothing else yet. */
  ghost predicate SyncedOrBlank(files: Files) {
    forall id <- files :: files[id].synced == |files[id].data| || |files[id].data| == SEGMENT_HEADER_SIZE
  }

  lemma IdleBoundary(crc: Crc, files: Files, image: Files)
    requires SyncedOrBlank(files) && CrashImage(files, image) && CleanFiles(crc, image)
    ensures SameData(image, files)
  {
    hide ScanEnd, DecodeHeader;
    forall id <- image ensures image[id].data == files[id].data {
      assert SurvivesAs(files[id], image[id]) && CleanFile(crc, image[id]);
      assert files[id].data[..|files[id].data|] == files[id].data;
    }
  }

  /** A clean prefix of a clean file and one more record is the file without or with that record. */
  lemma CleanCut(crc: Crc, f: File, r: WalRecord, g: File)
    requires CleanFile(crc, f) && CleanFile(crc, g) && Fits(r)
    requires |f.data| <= |g.data| <= |f.data| + EncodedSize(r)
    requires g.data == (f.data + Encode(crc, r))[..|g.data|]
    ensures g.data == f.data || g.data == f.data + Encode(crc, r)
  {
    hide Encode, Decode, ScanFrom, DecodeHeader;
    var n := |f.data|;
    var torn := g.data[n..];
    assert g.data[..n] == f.data;
    assert torn == Encode(crc, r)[..|torn|];
    assert g.data == f.data + torn;
    ScanContinues(crc, 0, f.data, SEGMENT_HEADER_SIZE, torn);
    if 0 < |torn| < EncodedSize(r) {
      RoundTrip(crc, r, []);
      assert Encode(crc, r) + [] == Encode(crc, r);
      PrefixTooSmall(crc, Encode(crc, r), |torn|);
      assert false;
    } else if |torn| == EncodedSize(r) {
      assert torn == Encode(crc, r);
    }
  }

  /**
   * A crash once the record is written, and before the next segment is created if that is due, at a record boundary,
   * leaves the log without or with the record.
   */
  lemma WrittenBoundary(cfg: Config, w: Wal, r: WalRecord, image: Files)
    requires Tidy(cfg, w) && SyncedOrBlank(w.files) && Fits(r)
    requires CrashImage(Written(cfg, w, r).files, image) && CleanFiles(cfg.crc, image)
    ensures SameData(image, w.files) || SameData(image, Written(cfg, w, r).files)
  {
    hide ScanEnd, DecodeHeader, Encode, EncodeHeader;
    WrittenFile(cfg, w, r);
    var base := Written(cfg, w, r);
    var f := w.files[w.cur];
    assert FileUsable(f, w.cur, w.cur) && CleanFile(cfg.crc, f);
    assert CleanFile(cfg.crc, image[w.cur]) && SurvivesAs(base.files[w.cur], image[w.cur]);
    CleanCut(cfg.crc, f, r, image[w.cur]);
    forall id | id in image && id != w.cur ensures image[id].data == base.files[id].data {
      assert SurvivesAs(base.files[id], image[id]) && CleanFile(cfg.crc, image[id]);
      assert FileUsable(w.files[id], id, w.cur);
      assert base.files[id].data[..|base.files[id].data|] == base.files[id].data;
    }
  }

  /** A crash after a whole append, rotation included, at a record boundary, leaves the log without or with it. */
  lemma InFlightBoundary(cfg: Config, w: Wal, r: WalRecord, ts: u64, image: Files)
    requires Tidy(cfg, w) && SyncedOrBlank(w.files) && Fits(r)
    requires CrashImage(Extended(cfg, w, r, ts).files, image) && CleanFiles(cfg.crc, image)
    ensures SameData(image, w.files) || SameData(image, Extended(cfg, w, r, ts).files)
  {
    hide ScanEnd, DecodeHeader, Encode, EncodeHeader;
    WrittenFile(cfg, w, r);
    var base := Extended(cfg, w, r, ts);
    var f := w.files[w.cur];
    assert FileUsable(f, w.cur, w.cur) && CleanFile(cfg.crc, f);
    assert CleanFile(cfg.crc, image[w.cur]) && SurvivesAs(base.files[w.cur], image[w.cur]);
    assert base.files[w.cur].data == f.data + Encode(cfg.crc, r);
    CleanCut(cfg.crc, f, r, image[w.cur]);
    forall id | id in image && id != w.cur ensures image[id].data == base.files[id].data {
      assert SurvivesAs(base.files[id], image[id]) && CleanFile(cfg.crc, image[id]);
      assert id in w.files ==> FileUsable(w.files[id], id, w.cur);
      assert base.files[id].data[..|base.files[id].data|] == base.files[id].data;
    }
    if base.cur != w.cur {
      assert image[w.cur].data == base.files[w.cur].data;
    } else {
      assert base.files.Keys == w.files.Keys;
    }
  }

  function AllSurvive(files: Files): Files {
    map id | id in files :: Synced(files[id])
  }

  lemma AllSurviveIsImage(cfg: Config, w: Wal)
    requires Tidy(cfg, w)
    ensures CrashImage(w.files, AllSurvive(w.files)) && CleanFiles(cfg.crc, AllSurvive(w.files))
    ensures DiskLog(cfg.crc, AllSurvive(w.files)) == DiskLog(cfg.crc, w.files) && AllSurvive(w.files) != map[]
  {
    hide CleanFile, DiskLog;
    var files, image := w.files, AllSurvive(w.files);
    forall id <- files ensures SurvivesAs(files[id], image[id]) {
      assert FileUsable(files[id], id, w.cur);
      assert files[id].data[..|files[id].data|] == files[id].data;
    }
    forall id <- image ensures CleanFile(cfg.crc, image[id]) {
      assert CleanFile(cfg.crc, files[id]);
      SameDataClean(cfg.crc, files[id], image[id]);
    }
    SameDataSameLog(cfg.crc, image, files);
    assert w.cur in image;
  }

  // ---- reading ----

  datatype ReadResult = Found(rec: WalRecord) | NotFound | Io | Corrupt(why: DecodeResult)

  /** What reading a location gives. */
  function ReadAt(crc: Crc, files: Files, loc: Loc): ReadResult {
    if loc.seg !in files then NotFound
    else if loc.off + loc.size > |files[loc.seg].data| then Io
    else
      match Decode(crc, files[loc.seg].data[loc.off..loc.off + loc.size])
      case Decoded(r, _) => Found(r)
      case other => Corrupt(other)
  }

  function ReadRecordResult(crc: Crc, files: Files, ix: Entries, stream: nat, lsn: nat): ReadResult {
    match Find(ix, stream, lsn)
    case None => NotFound
    case Some(loc) => ReadAt(crc, files, loc)
  }

  /** How a read fails: no such key, no such segment, a place past the end of its file, or bytes that do not decode. */
  lemma ReadFails(crc: Crc, files: Files, ix: Entries, stream: nat, lsn: nat)
    ensures var r := ReadRecordResult(crc, files, ix, stream, lsn);
            if Find(ix, stream, lsn).None? then r == NotFound
            else
              var loc := Find(ix, stream, lsn).value;
              && (r == NotFound <==> loc.seg !in files)
              && (r == Io <==> loc.seg in files && |files[loc.seg].data| < loc.off + loc.size)
              && (r.Corrupt? ==> loc.seg in files && loc.off + loc.size <= |files[loc.seg].data|
                                 && r.why == Decode(crc, files[loc.seg].data[loc.off..loc.off + loc.size])
                                 && !r.why.Decoded?)
  {
    hide Decode;
  }

  /** Reading through an index entry that points at the key's last record gives that record. */
  lemma IndexedReads(crc: Crc, files: Files, ix: Entries, stream: nat, lsn: nat)
    requires forall p <- DiskLog(crc, files) :: Fits(p.rec)
    requires Find(ix, stream, lsn) == LastLoc(DiskLog(crc, files), stream, lsn)
    ensures ReadRecordResult(crc, files, ix, stream, lsn)
         == match Last(DiskLog(crc, files), stream, lsn) case Some(p) => Found(p.rec) case None => NotFound
  {
    hide Decode;
    match Last(DiskLog(crc, files), stream, lsn)
    case Some(p) => LogReadsBack(crc, files, p);
    case None =>
  }
}
