/** The WAL writer and reader: the objects that move the log's state, each step tied to its value-level meaning. */
module Writer {
  import opened Bytes
  import opened Record
  import opened Segment
  import opened Index
  import opened Scan
  import opened Log
  import opened Streams
  import opened Wal

  /** `create_segment`: a new file holding just its header. */
  method CreateSegment(cfg: Config, disk: Disk, id: nat, ts: u64)
    requires id !in disk.files
    modifies disk
    ensures disk.files == old(disk.files)[id := FreshSegment(cfg, id, ts)]
  {
    hide EncodeHeader;
    var ok := disk.CreateNew(id);
    var header := NewHeader(cfg.shard, id, ts);
    disk.WriteAllAt(id, header[..], 0);
    assert WriteAt(File([], 0), 0, header[..]) == FreshSegment(cfg, id, ts);
  }

  class WalWriter {
    const cfg: Config
    const disk: Disk
    var cur: nat
    var off: nat
    var nextEntry: nat
    var nextSeg: nat

    ghost function State(): Wal
      reads this, disk
    {
      Wal(disk.files, cur, off, nextEntry, nextSeg)
    }

    ghost predicate Valid()
      reads this, disk
    {
      Usable(State())
    }

    constructor At(cfg: Config, disk: Disk, cur: nat, off: nat, nextEntry: nat, nextSeg: nat)
      ensures this.cfg == cfg && this.disk == disk
      ensures this.cur == cur && this.off == off && this.nextEntry == nextEntry && this.nextSeg == nextSeg
    {
      this.cfg, this.disk := cfg, disk;
      this.cur, this.off, this.nextEntry, this.nextSeg := cur, off, nextEntry, nextSeg;
    }

    method Sync()
      requires Valid()
      modifies disk
      ensures Valid() && State() == SyncCurrent(old(State()))
    {
      SyncUsable(State());
      disk.SyncData(cur);
    }

    method Rotate(ts: u64)
      requires Valid()
      modifies this, disk
      ensures Valid() && State() == Rotated(cfg, old(State()), ts)
    {
      hide EncodeHeader;
      RotatedUsable(cfg, State(), ts);
      SyncUsable(State());
      Sync();
      CreateSegment(cfg, disk, nextSeg, ts);
      cur, off, nextSeg := nextSeg, SEGMENT_HEADER_SIZE, nextSeg + 1;
    }

    method AppendWithLogIndex(
        stream: u64, epoch: u64, lsn: u64, entry: u64, payload: seq<byte>, ts: u64, headerTs: u64)
      returns (loc: Loc)
      requires Valid()
      modifies this, disk
      ensures Valid()
      ensures var r := WalRecord(stream, epoch, entry, lsn, ts, payload);
              State() == Extended(cfg, old(State()), r, headerTs) && loc == AppendLoc(old(State()), r)
    {
      hide Encode, WriteAt;
      var r := WalRecord(stream, epoch, entry, lsn, ts, payload);
      WrittenFile(cfg, State(), r);
      nextEntry := Max(nextEntry, entry + 1);
      var data := new byte[EncodedSize(r)];
      var _ := EncodeInto(cfg.crc, r, data);
      assert data[..] == data[..EncodedSize(r)];
      disk.WriteAllAt(cur, data[..], off);
      loc := Loc(cur, off, EncodedSize(r) % U32_LIMIT);
      off := off + EncodedSize(r);
      if off >= cfg.maxSegment {
        Rotate(headerTs);
      }
    }

    /** The standalone append numbers its own entries. */
    method Append(stream: u64, epoch: u64, lsn: u64, payload: seq<byte>, ts: u64, headerTs: u64)
      returns (entry: nat, loc: Loc)
      requires Valid() && nextEntry < U64_LIMIT
      modifies this, disk
      ensures Valid() && entry == old(nextEntry) && nextEntry == entry + 1
      ensures var r := WalRecord(stream, epoch, entry, lsn, ts, payload);
              State() == Extended(cfg, old(State()), r, headerTs) && loc == AppendLoc(old(State()), r)
    {
      entry := nextEntry;
      loc := AppendWithLogIndex(stream, epoch, lsn, entry, payload, ts, headerTs);
    }
  }

  // ---- opening ----

  lemma ReplayStep(t0: Table, log: seq<Placed>, p: Placed, from: nat)
    ensures IndexOf(log + [p]) == Inserted(IndexOf(log), p.rec.stream, p.rec.lsn, p.loc)
    ensures ObserveLog(t0, log + [p], from)
         == if p.rec.entry > from then
              Observed(ObserveLog(t0, log, from), p.rec.stream, p.rec.epoch, p.rec.entry, p.rec.lsn, p.rec.payload)
            else ObserveLog(t0, log, from)
    ensures NextEntry(log + [p]) == Max(NextEntry(log), p.rec.entry + 1)
  {
    assert (log + [p])[..|log|] == log;
  }

  /** Replays one segment into the index, the stream table and the entry counter, until the scan stops. */
  method ReplaySegment(
      crc: Crc, seg: nat, data: seq<byte>, from: nat, index: StreamLogIndex, streams: StreamStateTable, entry: nat,
      ghost t0: Table, ghost log: seq<Placed>)
    returns (nextEntry: nat, aborted: bool)
    requires |data| >= SEGMENT_HEADER_SIZE
    requires index.entries == IndexOf(log) && streams.State() == ObserveLog(t0, log, from) && entry == NextEntry(log)
    modifies index, streams
    ensures aborted == ScanPanics(crc, data, SEGMENT_HEADER_SIZE)
    ensures var all := log + ScanFrom(crc, seg, data, SEGMENT_HEADER_SIZE);
            index.entries == IndexOf(all) && streams.State() == ObserveLog(t0, all, from) && nextEntry == NextEntry(all)
  {
    hide Decode, Observed, Inserted, IndexOf, ObserveLog, NextEntry, ScanFrom, ScanEnd;
    nextEntry := entry;
    var offset := SEGMENT_HEADER_SIZE;
    ghost var seen: seq<Placed> := [];
    assert log + seen == log;
    while offset < |data|
      invariant SEGMENT_HEADER_SIZE <= offset <= |data|
      invariant ScanFrom(crc, seg, data, SEGMENT_HEADER_SIZE) == seen + ScanFrom(crc, seg, data, offset)
      invariant ScanEnd(crc, data, SEGMENT_HEADER_SIZE) == ScanEnd(crc, data, offset)
      invariant index.entries == IndexOf(log + seen)
      invariant streams.State() == ObserveLog(t0, log + seen, from)
      invariant nextEntry == NextEntry(log + seen)
    {
      ScanTurn(crc, seg, data, offset);
      match Decode(crc, data[offset..])
      case Decoded(r, consumed) =>
        if r.entry >= nextEntry {
          nextEntry := r.entry + 1;
        }
        var p := Placed(Loc(seg, offset, consumed % U32_LIMIT), r);
        index.Insert(r.stream, r.lsn, p.loc);
        if r.entry > from {
          streams.ObserveRecovered(r.stream, r.epoch, r.entry, r.lsn, r.payload);
        }
        ReplayStep(t0, log + seen, p, from);
        assert log + seen + [p] == log + (seen + [p]);
        seen := seen + [p];
        offset := offset + consumed;
      case _ =>
        aborted := Decode(crc, data[offset..]) == Panicked;
        assert seen + [] == seen;
        return;
    }
    aborted := false;
    ScanTurn(crc, seg, data, offset);
    assert seen + [] == seen;
  }

  /** Replays all segments in id order, up to the first that recovery cannot get past. */
  method ReplaySegments(
      crc: Crc, disk: Disk, segments: seq<nat>, from: nat, index: StreamLogIndex, streams: StreamStateTable)
    returns (nextEntry: nat, fault: Fault)
    requires forall id <- segments :: id in disk.files
    requires index.entries == map[]
    modifies index, streams
    ensures fault == FirstFault(crc, disk.files, segments)
    ensures fault == NoFault ==>
              var log := LogOf(crc, disk.files, segments);
              && index.entries == IndexOf(log)
              && streams.State() == ObserveLog(old(streams.State()), log, from)
              && nextEntry == NextEntry(log)
  {
    hide ScanFrom, ScanEnd, FirstFault;
    ghost var t0 := streams.State();
    nextEntry := 0;
    NothingFaulty(crc, disk.files);
    for i := 0 to |segments|
      invariant FirstFault(crc, disk.files, segments[..i]) == NoFault
      invariant index.entries == IndexOf(LogOf(crc, disk.files, segments[..i]))
      invariant streams.State() == ObserveLog(t0, LogOf(crc, disk.files, segments[..i]), from)
      invariant nextEntry == NextEntry(LogOf(crc, disk.files, segments[..i]))
    {
      ghost var done := LogOf(crc, disk.files, segments[..i]);
      assert segments[..i + 1][..i] == segments[..i];
      var id := segments[i];
      var data := disk.files[id].data;
      FaultsAccumulate(crc, disk.files, segments, i);
      if |data| < SEGMENT_HEADER_SIZE {
        assert done + [] == done;
        continue;
      }
      if !DecodeHeader(data[..SEGMENT_HEADER_SIZE]).Header? {
        fault := BadHeader;
        return;
      }
      var aborted;
      nextEntry, aborted := ReplaySegment(crc, id, data, from, index, streams, nextEntry, t0, done);
      if aborted {
        fault := Aborted;
        return;
      }
    }
    assert segments[..|segments|] == segments;
    fault := NoFault;
  }

  lemma NothingFaulty(crc: Crc, files: Files)
    ensures FirstFault(crc, files, []) == NoFault
  {
  }

  /** The first fault of a longer list of segments is that of a shorter one, or else the next segment's own. */
  lemma {:induction false} FaultsAccumulate(crc: Crc, files: Files, ids: seq<nat>, i: nat)
    requires forall id <- ids :: id in files
    requires i < |ids| && FirstFault(crc, files, ids[..i]) == NoFault
    ensures FirstFault(crc, files, ids[..i + 1]) == FileFault(crc, files[ids[i]])
    ensures FileFault(crc, files[ids[i]]) != NoFault ==> FirstFault(crc, files, ids) == FileFault(crc, files[ids[i]])
    decreases |ids|
  {
    hide FileFault;
    assert ids[..i + 1][..i] == ids[..i];
    if i == |ids| - 1 {
      assert ids[..i + 1] == ids;
    } else {
      assert ids[..|ids| - 1][..i] == ids[..i];
      FaultsAccumulate(crc, files, ids[..|ids| - 1], i);
    }
  }

  /** Resumes at the end of the newest segment's file, or creates the first segment. */
  method Resume(cfg: Config, disk: Disk, segments: seq<nat>, nextEntry: nat, ts: u64) returns (writer: WalWriter)
    requires segments == Ids(disk.files.Keys) && nextEntry == NextEntry(DiskLog(cfg.crc, disk.files))
    modifies disk
    ensures fresh(writer) && writer.cfg == cfg && writer.disk == disk
    ensures writer.State() == Reopened(cfg, old(disk.files), ts)
  {
    hide FreshSegment, LogOf;
    if segments != [] {
      var last := segments[|segments| - 1];
      FrontOfAscending(segments);
      assert last == MaxOf(disk.files.Keys);
      writer := new WalWriter.At(cfg, disk, last, |disk.files[last].data|, nextEntry, last + 1);
    } else {
      NoSegments(cfg, disk.files);
      CreateSegment(cfg, disk, 0, ts);
      writer := new WalWriter.At(cfg, disk, 0, SEGMENT_HEADER_SIZE, nextEntry, 1);
    }
  }

  /**
   * `open`: rescans every segment in id order, then resumes at the end of the newest one or creates the first.
   * The recovered table, when there is one, is updated in place.
   */
  method Open(cfg: Config, disk: Disk, recovered: StreamStateTable?, from: nat, ts: u64)
    returns (fault: Fault, writer: WalWriter, index: StreamLogIndex, streams: StreamStateTable)
    modifies disk, recovered
    ensures fresh(writer) && fresh(index) && if recovered != null then streams == recovered else fresh(streams)
    ensures fault == FirstFault(cfg.crc, old(disk.files), Ids(old(disk.files).Keys))
    ensures fault == NoFault ==>
              && writer.cfg == cfg && writer.disk == disk
              && writer.State() == Reopened(cfg, old(disk.files), ts)
              && index.entries == IndexOf(DiskLog(cfg.crc, old(disk.files)))
              && streams.State() == ObserveLog(
                   if recovered == null then Table(map[], cfg.tailLimit) else old(recovered.State()),
                   DiskLog(cfg.crc, old(disk.files)), from)
    ensures fault != NoFault ==> disk.files == old(disk.files)
  {
    hide Reopened, LogOf, FirstFault, ObserveLog, IndexOf, NextEntry;
    index := new StreamLogIndex();
    if recovered == null {
      streams := new StreamStateTable(cfg.tailLimit);
    } else {
      streams := recovered;
    }
    var segments := disk.ListSegments();
    var nextEntry;
    nextEntry, fault := ReplaySegments(cfg.crc, disk, segments, from, index, streams);
    if fault != NoFault {
      writer := new WalWriter.At(cfg, disk, 0, 0, 0, 0);
    } else {
      writer := Resume(cfg, disk, segments, nextEntry, ts);
    }
  }

  lemma NoSegments(cfg: Config, files: Files)
    requires Ids(files.Keys) == []
    ensures files == map[] && NextEntry(DiskLog(cfg.crc, files)) == 0
  {
    assert forall k <- files.Keys :: k in Ids(files.Keys);
  }

  /** The reader keeps segments open; `handles` says which. */
  class WalReader {
    const crc: Crc
    const disk: Disk
    var handles: set<nat>

    /** Every open handle is to a segment that is still in the directory. */
    ghost predicate Valid()
      reads this, disk
    {
      handles <= disk.files.Keys
    }

    constructor (crc: Crc, disk: Disk)
      ensures this.crc == crc && this.disk == disk && handles == {} && Valid()
    {
      this.crc, this.disk, this.handles := crc, disk, {};
    }

    method GetOrOpenSegment(seg: nat) returns (found: bool)
      requires Valid()
      modifies this
      ensures Valid() && found == (seg in disk.files)
      ensures handles == if found then old(handles) + {seg} else old(handles)
    {
      if seg !in handles {
        var segments := disk.ListSegments();
        if seg !in segments {
          return false;
        }
        handles := handles + {seg};
      }
      return true;
    }

    method ReadRecord(stream: nat, lsn: nat, index: StreamLogIndex) returns (r: ReadResult)
      requires Valid()
      modifies this
      ensures Valid() && r == ReadRecordResult(crc, disk.files, index.entries, stream, lsn)
    {
      var at := index.Lookup(stream, lsn);
      if at.None? {
        return NotFound;
      }
      var loc := at.value;
      var found := GetOrOpenSegment(loc.seg);
      if !found {
        return NotFound;
      }
      var data := disk.files[loc.seg].data;
      if loc.off + loc.size > |data| {
        return Io;
      }
      match Decode(crc, data[loc.off..loc.off + loc.size])
      case Decoded(rec, _) => return Found(rec);
      case other => return Corrupt(other);
    }

    method EvictSegment(seg: nat)
      modifies this
      ensures handles == old(handles) - {seg}
    {
      handles := handles - {seg};
    }
  }
}
