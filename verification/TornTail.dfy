/** A torn tail, met for real: an append cut short by a crash, and what happens to the next write after reopening. */
module TornTail {
  import opened Bytes
  import opened Record
  import opened Segment
  import opened Index
  import opened Scan
  import opened Log
  import opened Wal
  import opened History
  import opened Shard
  import opened LogInv
  import opened TableInv
  import opened ShardRun
  import opened Theorems
  import opened Guarantees
  import Raft = RaftStorage
  import Findings
  import ForgottenAck

  /** The crash that keeps every byte but those of segment id from cut on. */
  function CutAt(files: Files, id: nat, cut: nat): Files
    requires id in files && cut <= |files[id].data|
  {
    map k | k in files :: if k == id then File(files[id].data[..cut], cut) else Synced(files[k])
  }

  lemma CutAtIsImage(w: Wal, cut: nat)
    requires Usable(w) && w.files[w.cur].synced <= cut <= |w.files[w.cur].data|
    ensures CrashImage(w.files, CutAt(w.files, w.cur, cut))
  {
    var image := CutAt(w.files, w.cur, cut);
    forall id <- w.files ensures SurvivesAs(w.files[id], image[id]) {
      assert FileUsable(w.files[id], id, w.cur);
      assert w.files[id].data[..|w.files[id].data|] == w.files[id].data;
    }
  }

  /** A record cut strictly inside leaves a segment that does not scan to its end. */
  lemma TornIsNotClean(crc: Crc, f: File, r: WalRecord, torn: nat)
    requires CleanFile(crc, f) && Fits(r) && 0 < torn < EncodedSize(r)
    ensures var data := f.data + Encode(crc, r)[..torn];
            ScanEnd(crc, data, SEGMENT_HEADER_SIZE) != |data|
  {
    hide Encode, ScanEnd, DecodeHeader;
    var data := f.data + Encode(crc, r)[..torn];
    assert data == (f.data + Encode(crc, r))[..|data|];
    assert data[..SEGMENT_HEADER_SIZE] == f.data[..SEGMENT_HEADER_SIZE];
    if ScanEnd(crc, data, SEGMENT_HEADER_SIZE) == |data| {
      CleanCut(crc, f, r, File(data, |data|));
      assert false;
    }
  }

  /** In the recovered log of these files no record stands at this place. */
  ghost predicate NothingAt(crc: Crc, files: Files, loc: Loc) {
    !exists p <- DiskLog(crc, files) :: p.loc.seg == loc.seg && p.loc.off == loc.off
  }

  /** The files once the reopened shard has appended and synced a record, and so acknowledged it. */
  function AfterNext(cfg: Config, w: Wal, r: WalRecord, ts: u64): Files
    requires Usable(w)
  {
    AppendUsable(cfg, w, r, ts);
    SyncCurrent(Extended(cfg, w, r, ts)).files
  }

  /** The crash is possible, opening succeeds after it, and the record written next is lost to the next opening. */
  ghost predicate LosesNext(cfg: Config, before: Files, image: Files, r: WalRecord, rTs: u64, newTs: u64) {
    var w := Reopened(cfg, image, newTs);
    && CrashImage(before, image) && FirstFault(cfg.crc, image, Ids(image.Keys)) == NoFault
    && Usable(w) && NothingAt(cfg.crc, AfterNext(cfg, w, r, rTs), AppendLoc(w, r))
  }

  /**
   * In any reachable state, if the crash comes inside the write of the next record and keeps some but not all of its
   * bytes, opening succeeds, and the next record to be appended and synced is not found by the recovery after.
   */
  lemma {:induction false} TearLosesNext(
      cfg: Config, h: History, w: World, ts: u64, torn: nat, r: WalRecord, rTs: u64, newTs: u64)
    requires WithinLimits(h) && Reachable(cfg, h, w) && w.pos < |h| && Usable(w.s.wal) && Fits(r)
    requires 0 < torn < EncodedSize(RecordOf(h[w.pos], ts))
    ensures var wal := w.s.wal;
            var before := Written(cfg, wal, RecordOf(h[w.pos], ts)).files;
            && wal.cur in before && wal.off + torn <= |before[wal.cur].data|
            && LosesNext(cfg, before, CutAt(before, wal.cur, wal.off + torn), r, rTs, newTs)
  {
    hide Reachable, Encode, LosesNext, CutAt, Written, DiskLog, SnapshotGood, TableGood, TailsGood, Covers,
      IndexAgrees, ContentCurrent, LogKnown, SyncedOrBlank, Tidy;
    ReachableGood(cfg, h, w);
    InLimits(h, w.pos, ts);
    TornAppend(cfg, w.s.wal, RecordOf(h[w.pos], ts), torn, r, rTs, newTs);
  }

  lemma {:induction false} TornAppend(
      cfg: Config, w: Wal, e: WalRecord, torn: nat, r: WalRecord, rTs: u64, newTs: u64)
    requires Tidy(cfg, w) && Fits(e) && Fits(r) && 0 < torn < EncodedSize(e)
    ensures var before := Written(cfg, w, e).files;
            && w.cur in before && w.off + torn <= |before[w.cur].data|
            && LosesNext(cfg, before, CutAt(before, w.cur, w.off + torn), r, rTs, newTs)
  {
    hide Encode, DiskLog, FirstFault, CrashImage, ScanEnd, Reopened, AfterNext, NextEntry, HeaderAccepted, Ids;
    var after := Written(cfg, w, e);
    WrittenFile(cfg, w, e);
    assert CleanFile(cfg.crc, w.files[w.cur]) && FileUsable(w.files[w.cur], w.cur, w.cur);
    var image := CutAt(after.files, w.cur, w.off + torn);
    CutAtIsImage(after, w.off + torn);
    WrittenLog(cfg, w, e);
    CrashedOpens(cfg, after, image);
    CrashHitsNewestOnly(after, image);
    CrashedIds(after, image);
    AllSyncedOlder(image);
    TornIsNotClean(cfg.crc, w.files[w.cur], e, torn);
    assert image[w.cur].data == w.files[w.cur].data + Encode(cfg.crc, e)[..torn];
    LostIfTorn(cfg, image, w.cur, r, rTs, newTs);
  }

  lemma InLimits(h: History, i: nat, ts: u64)
    requires WithinLimits(h) && i < |h|
    ensures Fits(RecordOf(h[i], ts))
  {
    assert EntryWithinLimits(h[i]);
  }

  lemma LostIfTorn(cfg: Config, image: Files, cur: nat, r: WalRecord, rTs: u64, newTs: u64)
    requires OlderSynced(image) && image != map[] && MaxOf(image.Keys) == cur && Fits(r)
    requires |image[cur].data| >= SEGMENT_HEADER_SIZE
    requires ScanEnd(cfg.crc, image[cur].data, SEGMENT_HEADER_SIZE) != |image[cur].data|
    ensures var w' := Reopened(cfg, image, newTs);
            Usable(w') && NothingAt(cfg.crc, AfterNext(cfg, w', r, rTs), AppendLoc(w', r))
  {
    hide Encode, DiskLog, ScanEnd, NextEntry, SyncCurrent, Extended, Usable;
    Findings.AcknowledgedAgainFoundIffNoTear(cfg, image, r, rTs, newTs);
  }

  /** And there is such a state: a fresh shard, its first write torn after one byte, and that write applied again. */
  lemma {:induction false} AcknowledgedIsLost(crc: Crc, conf: Raft.ConfState) returns (w: World, image: Files)
    ensures var cfg, h := Config(crc, 0, 1000, 8), ForgottenAck.OneWrite();
            && WithinLimits(h) && Reachable(cfg, h, w) && w.pos == 0 && Usable(w.s.wal)
            && LosesNext(cfg, Written(cfg, w.s.wal, RecordOf(h[0], 0)).files, image, RecordOf(h[0], 0), 0, 0)
  {
    hide Reachable, Ready, LosesNext, Written, Usable, CutAt;
    var cfg, h := Config(crc, 0, 1000, 8), ForgottenAck.OneWrite();
    assert EntryWithinLimits(h[0]);
    w := Start(cfg, conf, 0);
    StartReachable(cfg, h, conf, 0);
    ReadyIsUsable(cfg, w.s);
    InLimits(h, 0, 0);
    TearLosesNext(cfg, h, w, 0, 1, RecordOf(h[0], 0), 0, 0);
    image := CutAt(Written(cfg, w.s.wal, RecordOf(h[0], 0)).files, w.s.wal.cur, w.s.wal.off + 1);
  }

  lemma ReadyIsUsable(cfg: Config, s: Shard)
    requires Ready(cfg, s)
    ensures Usable(s.wal)
  {
  }
}
