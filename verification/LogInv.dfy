/** How the log on disk, the index and the committed sequence stay in agreement, step by step. */
module LogInv {
  import opened Bytes
  import opened Record
  import opened Segment
  import opened Index
  import opened Scan
  import opened Log
  import opened Streams
  import opened Wal
  import opened History
  import opened Shard

  /** The record carries the entry (its timestamp is the node's own). */
  predicate RecordIs(r: WalRecord, e: Entry) {
    r.stream == e.cmd.stream && r.epoch == e.cmd.epoch && r.entry == e.index && r.lsn == e.cmd.lsn
    && r.payload == e.cmd.payload
  }

  ghost predicate KnownRecord(h: History, n: nat, r: WalRecord)
    requires n <= |h|
  {
    exists i :: 0 <= i < n && RecordIs(r, h[i])
  }

  /** Everything in the log comes from the first n committed entries. */
  ghost predicate LogKnown(log: seq<Placed>, h: History, n: nat)
    requires n <= |h|
  {
    forall p <- log :: KnownRecord(h, n, p.rec)
  }

  lemma LogKnownFits(log: seq<Placed>, h: History, n: nat)
    requires n <= |h| && WithinLimits(h) && LogKnown(log, h, n)
    ensures forall p <- log :: Fits(p.rec)
  {
    forall p <- log ensures Fits(p.rec) {
      var i :| 0 <= i < n && RecordIs(p.rec, h[i]);
      assert EntryWithinLimits(h[i]);
    }
  }

  lemma LogKnownGrows(log: seq<Placed>, h: History, m: nat, n: nat)
    requires m <= n <= |h| && LogKnown(log, h, m)
    ensures LogKnown(log, h, n)
  {
    forall p <- log ensures KnownRecord(h, n, p.rec) {
      assert KnownRecord(h, m, p.rec);
    }
  }

  // ---- the index ----

  /** A key is indexed at its last-written location, or its consumer has passed it and it was trimmed. */
  ghost predicate KeyAgrees(ix: Entries, log: seq<Placed>, consumed: nat, stream: nat, lsn: nat) {
    Find(ix, stream, lsn) == LastLoc(log, stream, lsn) || (Find(ix, stream, lsn).None? && lsn < consumed)
  }

  ghost predicate IndexAgrees(ix: Entries, log: seq<Placed>, t: Table) {
    forall s: nat, l: nat :: KeyAgrees(ix, log, Get(t, s).consumed, s, l)
  }

  ghost predicate ConsumedGrows(t: Table, t': Table) {
    forall s: nat :: Get(t, s).consumed <= Get(t', s).consumed
  }

  lemma IndexAfterAck(ix: Entries, log: seq<Placed>, t: Table, t': Table)
    requires IndexAgrees(ix, log, t) && ConsumedGrows(t, t')
    ensures IndexAgrees(ix, log, t')
  {
    forall s: nat, l: nat ensures KeyAgrees(ix, log, Get(t', s).consumed, s, l) {
      assert KeyAgrees(ix, log, Get(t, s).consumed, s, l);
      assert Get(t, s).consumed <= Get(t', s).consumed;
    }
  }

  lemma IndexAfterAppend(ix: Entries, log: seq<Placed>, t: Table, p: Placed)
    requires IndexAgrees(ix, log, t)
    ensures IndexAgrees(Inserted(ix, p.rec.stream, p.rec.lsn, p.loc), log + [p], t)
  {
    var ix' := Inserted(ix, p.rec.stream, p.rec.lsn, p.loc);
    forall s: nat, l: nat ensures KeyAgrees(ix', log + [p], Get(t, s).consumed, s, l) {
      assert KeyAgrees(ix, log, Get(t, s).consumed, s, l);
      LastSnoc(log, p, s, l);
    }
  }

  lemma IndexAfterRescan(log: seq<Placed>, t: Table)
    ensures IndexAgrees(IndexOf(log), log, t)
  {
    forall s: nat, l: nat ensures KeyAgrees(IndexOf(log), log, Get(t, s).consumed, s, l) {
      IndexOfIsLast(log, s, l);
    }
  }

  // ---- garbage collection ----

  /** Keys above the consumer's mark keep their last-written record through a collection, whole or cut short. */
  lemma GcKeepsLast(s: Shard, log: seq<Placed>, spared: set<nat>, stream: nat, lsn: nat)
    requires IndexAgrees(s.index, log, s.table) && lsn >= Get(s.table, stream).consumed
    requires forall p <- log :: p.loc.seg in s.wal.files
    ensures Last(OnlyIn(log, GcSparing(s, spared).wal.files.Keys), stream, lsn) == Last(log, stream, lsn)
  {
    hide LiveSegments;
    assert KeyAgrees(s.index, log, Get(s.table, stream).consumed, stream, lsn);
    if Last(log, stream, lsn).Some? {
      var p := Last(log, stream, lsn).value;
      assert Find(Trimmed(s.index, s.table), stream, lsn) == Some(p.loc);
      assert p.loc.seg in LiveSegments(Trimmed(s.index, s.table));
    }
    LastOnlyIn(log, GcSparing(s, spared).wal.files.Keys, stream, lsn);
  }

  /** After a collection the index agrees with what is left of the log. */
  lemma IndexAfterGc(s: Shard, log: seq<Placed>, spared: set<nat>)
    requires IndexAgrees(s.index, log, s.table) && forall p <- log :: p.loc.seg in s.wal.files
    ensures IndexAgrees(GcSparing(s, spared).index, OnlyIn(log, GcSparing(s, spared).wal.files.Keys), s.table)
  {
    hide Collected, LiveSegments;
    var log' := OnlyIn(log, GcSparing(s, spared).wal.files.Keys);
    forall stream: nat, l: nat
      ensures KeyAgrees(GcSparing(s, spared).index, log', Get(s.table, stream).consumed, stream, l)
    {
      if l >= Get(s.table, stream).consumed {
        assert KeyAgrees(s.index, log, Get(s.table, stream).consumed, stream, l);
        GcKeepsLast(s, log, spared, stream, l);
      }
    }
  }

  lemma KnownAfterGc(log: seq<Placed>, keep: set<nat>, h: History, n: nat)
    requires n <= |h| && LogKnown(log, h, n)
    ensures LogKnown(OnlyIn(log, keep), h, n)
  {
    hide OnlyIn;
    forall p <- OnlyIn(log, keep) ensures KnownRecord(h, n, p.rec) {
      OnlyInMember(log, keep, p);
    }
  }

  /** Exactly which segments are kept: the current one, and those that hold an indexed record. */
  lemma GcKeepsExactly(s: Shard, id: nat)
    ensures id in Gc(s).wal.files <==>
              && id in s.wal.files
              && (id == s.wal.cur
                  || exists st: nat, l: nat ::
                       Find(Gc(s).index, st, l).Some? && Find(Gc(s).index, st, l).value.seg == id)
  {
  }

  /** Every index entry that is left still reads what it read before: the last record written for its key. */
  lemma GcIsSafe(cfg: Config, s: Shard, st: nat, l: nat)
    requires Tidy(cfg, s.wal) && IndexAgrees(s.index, DiskLog(cfg.crc, s.wal.files), s.table)
    requires forall p <- DiskLog(cfg.crc, s.wal.files) :: Fits(p.rec)
    requires Find(Gc(s).index, st, l).Some?
    ensures Find(Gc(s).index, st, l) == Find(s.index, st, l)
    ensures Last(DiskLog(cfg.crc, s.wal.files), st, l).Some?
    ensures var r := Last(DiskLog(cfg.crc, s.wal.files), st, l).value.rec;
            && ReadRecordResult(cfg.crc, s.wal.files, s.index, st, l) == ReadResult.Found(r)
            && ReadRecordResult(cfg.crc, Gc(s).wal.files, Gc(s).index, st, l) == ReadResult.Found(r)
  {
    hide DiskLog, Tidy, Decode, Last, LiveSegments;
    var log := DiskLog(cfg.crc, s.wal.files);
    assert KeyAgrees(s.index, log, Get(s.table, st).consumed, st, l);
    IndexedReads(cfg.crc, s.wal.files, s.index, st, l);
    var loc := Find(Gc(s).index, st, l).value;
    LogReadsBack(cfg.crc, s.wal.files, Last(log, st, l).value);
    GcKeepsExactly(s, loc.seg);
    assert Gc(s).wal.files[loc.seg] == s.wal.files[loc.seg];
  }

  /** Reading through an index that fits a log whose records read back gives the key's last record of the log. */
  lemma IndexedReadOf(crc: Crc, files: Files, ix: Entries, log: seq<Placed>, consumed: nat, stream: nat, lsn: nat)
    requires forall p <- log :: ReadsBack(crc, files, p)
    requires KeyAgrees(ix, log, consumed, stream, lsn)
    ensures var r := ReadRecordResult(crc, files, ix, stream, lsn);
            if Find(ix, stream, lsn).Some? then
              Last(log, stream, lsn).Some? && r == ReadResult.Found(Last(log, stream, lsn).value.rec)
            else r == ReadResult.NotFound
  {
    hide Decode, Last;
  }

  // ---- contents ----

  function AckedOf(acked: map<nat, nat>, stream: nat): nat {
    if stream in acked then acked[stream] else 0
  }

  /**
   * The last record on disk for a key: there is one if an entry applied since the last start writes the key, and it
   * is at least as recent as the latest such entry.
   */
  ghost predicate KeyCurrent(log: seq<Placed>, h: History, pos: nat, high: nat, stream: nat, lsn: nat)
    requires pos <= high <= |h|
  {
    var last := Last(log, stream, lsn);
    && (LastWriter(h, pos, stream, lsn) >= 0 ==> last.Some?)
    && (last.Some? ==> RecentRecord(last.value.rec, h, LastWriter(h, pos, stream, lsn), high))
  }

  ghost predicate RecentRecord(r: WalRecord, h: History, from: int, high: nat)
    requires high <= |h|
  {
    exists i :: 0 <= i < high && from <= i && RecordIs(r, h[i])
  }

  ghost predicate ContentCurrent(log: seq<Placed>, h: History, pos: nat, high: nat, acked: map<nat, nat>)
    requires pos <= high <= |h|
  {
    forall s: nat, l: nat :: l >= AckedOf(acked, s) ==> KeyCurrent(log, h, pos, high, s, l)
  }

  lemma RecentGrows(r: WalRecord, h: History, from: int, high: nat, from': int, high': nat)
    requires high <= high' <= |h| && from' <= from && RecentRecord(r, h, from, high)
    ensures RecentRecord(r, h, from', high')
  {
    var i :| 0 <= i < high && from <= i && RecordIs(r, h[i]);
    assert 0 <= i < high' && from' <= i && RecordIs(r, h[i]);
  }

  /** Appending the next entry's record advances the position. */
  lemma ContentAfterAppend(log: seq<Placed>, h: History, pos: nat, high: nat, acked: map<nat, nat>, p: Placed)
    requires pos <= high <= |h| && pos < |h| && ContentCurrent(log, h, pos, high, acked)
    requires RecordIs(p.rec, h[pos])
    ensures ContentCurrent(log + [p], h, pos + 1, Max(high, pos + 1), acked)
  {
    var pos', high', log' := pos + 1, Max(high, pos + 1), log + [p];
    forall s: nat, l: nat | l >= AckedOf(acked, s) ensures KeyCurrent(log', h, pos', high', s, l) {
      assert KeyCurrent(log, h, pos, high, s, l);
      LastSnoc(log, p, s, l);
      if IsAt(p, s, l) {
        assert RecentRecord(p.rec, h, pos, high');
      } else if Last(log, s, l).Some? {
        RecentGrows(Last(log, s, l).value.rec, h, LastWriter(h, pos, s, l), high, LastWriter(h, pos, s, l), high');
      }
    }
  }

  /** Starting again from an earlier position forgets nothing that is on disk. */
  lemma ContentAfterRewind(log: seq<Placed>, h: History, pos: nat, high: nat, acked: map<nat, nat>, pos': nat)
    requires pos' <= pos <= high <= |h| && ContentCurrent(log, h, pos, high, acked)
    ensures ContentCurrent(log, h, pos', high, acked)
  {
    forall s: nat, l: nat | l >= AckedOf(acked, s) ensures KeyCurrent(log, h, pos', high, s, l) {
      assert KeyCurrent(log, h, pos, high, s, l);
      LastWriterGrows(h, pos', pos, s, l);
      if Last(log, s, l).Some? {
        RecentGrows(Last(log, s, l).value.rec, h, LastWriter(h, pos, s, l), high, LastWriter(h, pos', s, l), high);
      }
    }
  }

  lemma ContentAfterAck(log: seq<Placed>, h: History, pos: nat, high: nat, acked: map<nat, nat>, acked': map<nat, nat>)
    requires pos <= high <= |h| && ContentCurrent(log, h, pos, high, acked)
    requires forall s: nat :: AckedOf(acked, s) <= AckedOf(acked', s)
    ensures ContentCurrent(log, h, pos, high, acked')
  {
    forall s: nat, l: nat | l >= AckedOf(acked', s) ensures KeyCurrent(log, h, pos, high, s, l) {
      assert AckedOf(acked, s) <= AckedOf(acked', s);
    }
  }

  lemma ContentAfterGc(
      s: Shard, log: seq<Placed>, spared: set<nat>, h: History, pos: nat, high: nat, acked: map<nat, nat>)
    requires pos <= high <= |h| && ContentCurrent(log, h, pos, high, acked)
    requires IndexAgrees(s.index, log, s.table) && forall p <- log :: p.loc.seg in s.wal.files
    requires forall st: nat :: Get(s.table, st).consumed <= AckedOf(acked, st)
    ensures ContentCurrent(OnlyIn(log, GcSparing(s, spared).wal.files.Keys), h, pos, high, acked)
  {
    hide GcSparing;
    var log' := OnlyIn(log, GcSparing(s, spared).wal.files.Keys);
    forall st: nat, l: nat | l >= AckedOf(acked, st) ensures KeyCurrent(log', h, pos, high, st, l) {
      assert KeyCurrent(log, h, pos, high, st, l);
      assert Get(s.table, st).consumed <= AckedOf(acked, st);
      GcKeepsLast(s, log, spared, st, l);
    }
  }

  /** Once everything ever applied has been applied again, the last record on disk is the map's entry. */
  lemma CaughtUpContent(log: seq<Placed>, h: History, high: nat, stream: nat, lsn: nat)
    requires high <= |h| && KeyCurrent(log, h, high, high, stream, lsn)
    ensures match Content(h, high, stream, lsn)
            case None => Last(log, stream, lsn).None?
            case Some(e) => Last(log, stream, lsn).Some? && RecordIs(Last(log, stream, lsn).value.rec, e)
  {
    var last, w := Last(log, stream, lsn), LastWriter(h, high, stream, lsn);
    if last.Some? {
      var i :| 0 <= i < high && w <= i && RecordIs(last.value.rec, h[i]);
      NoneLater(h, high, stream, lsn, i);
      assert i == w;
    }
  }
}
