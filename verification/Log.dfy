/** The log a directory of segments holds: what the recovery scan finds, segment after segment in id order. */
module Log {
  import opened Bytes
  import opened Record
  import opened Segment
  import opened Index
  import opened Scan

  function ScanFile(crc: Crc, id: nat, f: File): seq<Placed> {
    if |f.data| < SEGMENT_HEADER_SIZE then [] else ScanFrom(crc, id, f.data, SEGMENT_HEADER_SIZE)
  }

  function LogOf(crc: Crc, files: Files, ids: seq<nat>): seq<Placed>
    requires forall id <- ids :: id in files
    decreases |ids|
  {
    if ids == [] then []
    else
      var last := ids[|ids| - 1];
      LogOf(crc, files, ids[..|ids| - 1]) + ScanFile(crc, last, files[last])
  }

  ghost function DiskLog(crc: Crc, files: Files): seq<Placed> {
    LogOf(crc, files, Ids(files.Keys))
  }

  // ---- reading a log through an index ----

  predicate IsAt(p: Placed, stream: nat, lsn: nat) {
    p.rec.stream == stream && p.rec.lsn == lsn
  }

  /** The last record written for a key. */
  function Last(log: seq<Placed>, stream: nat, lsn: nat): (r: Option<Placed>)
    ensures r.Some? ==> r.value in log && IsAt(r.value, stream, lsn)
  {
    if log == [] then None
    else if IsAt(log[|log| - 1], stream, lsn) then Some(log[|log| - 1])
    else Last(log[..|log| - 1], stream, lsn)
  }

  lemma {:induction false} LastFindsAny(log: seq<Placed>, p: Placed)
    requires p in log
    ensures Last(log, p.rec.stream, p.rec.lsn).Some?
  {
    var front, end := log[..|log| - 1], log[|log| - 1];
    if p != end {
      assert log == front + [end];
      LastFindsAny(front, p);
    }
  }

  function LastLoc(log: seq<Placed>, stream: nat, lsn: nat): Option<Loc> {
    match Last(log, stream, lsn)
    case Some(p) => Some(p.loc)
    case None => None
  }

  /** The index obtained by inserting every record of a log in order. */
  function IndexOf(log: seq<Placed>): Entries {
    if log == [] then map[]
    else
      var p := log[|log| - 1];
      Inserted(IndexOf(log[..|log| - 1]), p.rec.stream, p.rec.lsn, p.loc)
  }

  /** Inserting in write order indexes every key at its last-written location. */
  lemma {:induction false} IndexOfIsLast(log: seq<Placed>, stream: nat, lsn: nat)
    ensures Find(IndexOf(log), stream, lsn) == LastLoc(log, stream, lsn)
  {
    if log != [] {
      IndexOfIsLast(log[..|log| - 1], stream, lsn);
    }
  }

  lemma LastSnoc(log: seq<Placed>, p: Placed, stream: nat, lsn: nat)
    ensures Last(log + [p], stream, lsn) == if IsAt(p, stream, lsn) then Some(p) else Last(log, stream, lsn)
  {
    assert (log + [p])[..|log|] == log;
  }

  // ---- dropping whole segments from a log ----

  function OnlyIn(log: seq<Placed>, keep: set<nat>): seq<Placed> {
    if log == [] then []
    else
      var p := log[|log| - 1];
      OnlyIn(log[..|log| - 1], keep) + (if p.loc.seg in keep then [p] else [])
  }

  lemma {:induction false} OnlyInMember(log: seq<Placed>, keep: set<nat>, p: Placed)
    ensures p in OnlyIn(log, keep) <==> p in log && p.loc.seg in keep
  {
    if log != [] {
      var front, end := log[..|log| - 1], log[|log| - 1];
      assert log == front + [end];
      OnlyInMember(front, keep, p);
    }
  }

  lemma {:induction false} LastOnlyIn(log: seq<Placed>, keep: set<nat>, stream: nat, lsn: nat)
    requires Last(log, stream, lsn).None? || Last(log, stream, lsn).value.loc.seg in keep
    ensures Last(OnlyIn(log, keep), stream, lsn) == Last(log, stream, lsn)
  {
    if log != [] {
      var p, front := log[|log| - 1], log[..|log| - 1];
      if !IsAt(p, stream, lsn) {
        LastOnlyIn(front, keep, stream, lsn);
      }
      if p.loc.seg in keep {
        LastSnoc(OnlyIn(front, keep), p, stream, lsn);
      } else {
        assert OnlyIn(front, keep) + [] == OnlyIn(front, keep);
      }
    }
  }

  lemma {:induction false} OnlyInConcat(a: seq<Placed>, b: seq<Placed>, keep: set<nat>)
    ensures OnlyIn(a + b, keep) == OnlyIn(a, keep) + OnlyIn(b, keep)
  {
    if b == [] {
      assert a + b == a;
    } else {
      var front := b[..|b| - 1];
      assert (a + b)[..|a + b| - 1] == a + front;
      OnlyInConcat(a, front, keep);
    }
  }

  lemma {:induction false} OnlyInOneSegment(log: seq<Placed>, keep: set<nat>, id: nat)
    requires forall p <- log :: p.loc.seg == id
    ensures OnlyIn(log, keep) == if id in keep then log else []
  {
    if log != [] {
      var front, end := log[..|log| - 1], log[|log| - 1];
      assert log == front + [end];
      OnlyInOneSegment(front, keep, id);
    }
  }

  // ---- how changes to the directory change the log ----

  lemma ScanFileSeg(crc: Crc, id: nat, f: File)
    ensures forall p <- ScanFile(crc, id, f) :: p.loc.seg == id
  {
    if |f.data| >= SEGMENT_HEADER_SIZE {
      ScanOffsets(crc, id, f.data, SEGMENT_HEADER_SIZE);
    }
  }

  lemma {:induction false} LogOfFrame(crc: Crc, a: Files, b: Files, ids: seq<nat>)
    requires forall id <- ids :: id in a && id in b && a[id].data == b[id].data
    ensures LogOf(crc, a, ids) == LogOf(crc, b, ids)
    decreases |ids|
  {
    if ids != [] {
      LogOfFrame(crc, a, b, ids[..|ids| - 1]);
    }
  }

  lemma LogOfSnoc(crc: Crc, files: Files, ids: seq<nat>, id: nat)
    requires id in files && forall k <- ids :: k in files
    ensures LogOf(crc, files, ids + [id]) == LogOf(crc, files, ids) + ScanFile(crc, id, files[id])
  {
    hide ScanFile;
    assert (ids + [id])[..|ids|] == ids;
  }

  /** The newest segment contributes the end of the log, whether it was there before or not. */
  lemma LogWithNewest(crc: Crc, files: Files, id: nat, f: File)
    requires forall k <- files :: k < id
    ensures DiskLog(crc, files[id := f]) == DiskLog(crc, files) + ScanFile(crc, id, f)
  {
    hide ScanFile, LogOf;
    IdsExtend(files.Keys, id);
    var all := files[id := f];
    assert all.Keys == files.Keys + {id};
    LogOfSnoc(crc, all, Ids(files.Keys), id);
    LogOfFrame(crc, files, all, Ids(files.Keys));
  }

  lemma LogSplitNewest(crc: Crc, files: Files, id: nat)
    requires id in files && forall k <- files :: k <= id
    ensures DiskLog(crc, files) == DiskLog(crc, files - {id}) + ScanFile(crc, id, files[id])
  {
    hide ScanFile, LogOf;
    LogWithNewest(crc, files - {id}, id, files[id]);
    assert files == (files - {id})[id := files[id]];
  }

  /** What replacing the newest segment does. */
  lemma LogReplaceNewest(crc: Crc, files: Files, id: nat, f: File)
    requires id in files && forall k <- files :: k <= id
    ensures DiskLog(crc, files[id := f]) == DiskLog(crc, files - {id}) + ScanFile(crc, id, f)
  {
    hide ScanFile, LogOf;
    LogWithNewest(crc, files - {id}, id, f);
    assert files[id := f] == (files - {id})[id := f];
  }

  function Kept(ids: seq<nat>, keep: set<nat>): (r: seq<nat>)
    ensures forall k :: k in r <==> k in ids && k in keep
  {
    if ids == [] then []
    else Kept(ids[..|ids| - 1], keep) + (if ids[|ids| - 1] in keep then [ids[|ids| - 1]] else [])
  }

  lemma {:induction false} KeptAscending(ids: seq<nat>, keep: set<nat>)
    requires Ascending(ids)
    ensures Ascending(Kept(ids, keep))
  {
    if ids != [] {
      FrontOfAscending(ids);
      KeptAscending(ids[..|ids| - 1], keep);
      var front, kept := ids[..|ids| - 1], Kept(ids[..|ids| - 1], keep);
      assert forall i :: 0 <= i < |kept| ==> kept[i] in kept && kept[i] in front;
    }
  }

  lemma {:induction false} LogOfKept(crc: Crc, files: Files, ids: seq<nat>, keep: set<nat>)
    requires forall id <- ids :: id in files
    ensures OnlyIn(LogOf(crc, files, ids), keep) == LogOf(crc, files, Kept(ids, keep))
    decreases |ids|
  {
    hide ScanFile;
    if ids != [] {
      var id, front := ids[|ids| - 1], ids[..|ids| - 1];
      LogOfKept(crc, files, front, keep);
      var tail := ScanFile(crc, id, files[id]);
      OnlyInConcat(LogOf(crc, files, front), tail, keep);
      ScanFileSeg(crc, id, files[id]);
      OnlyInOneSegment(tail, keep, id);
      var kept := Kept(front, keep);
      assert (kept + [id])[..|kept|] == kept && kept + [] == kept;
      assert LogOf(crc, files, kept) + [] == LogOf(crc, files, kept);
    }
  }

  /** Removing segment files removes exactly their records from the log. */
  lemma {:induction false} LogOfRemaining(crc: Crc, files: Files, gone: set<nat>)
    ensures DiskLog(crc, files - gone) == OnlyIn(DiskLog(crc, files), files.Keys - gone)
  {
    var keep := files.Keys - gone;
    LogOfKept(crc, files, Ids(files.Keys), keep);
    KeptAscending(Ids(files.Keys), keep);
    assert (files - gone).Keys == keep;
    AscendingUnique(Kept(Ids(files.Keys), keep), Ids(keep));
    LogOfFrame(crc, files, files - gone, Ids(keep));
  }

  // ---- every record of the log can be read back where it is placed ----

  ghost predicate ReadsBack(crc: Crc, files: Files, p: Placed) {
    && p.loc.seg in files
    && p.loc.off + p.loc.size <= |files[p.loc.seg].data|
    && Decode(crc, files[p.loc.seg].data[p.loc.off..p.loc.off + p.loc.size]) == Decoded(p.rec, p.loc.size)
  }

  lemma {:induction false} ScannedReadsBack(crc: Crc, seg: nat, data: seq<byte>, off: nat, p: Placed)
    requires off <= |data| && p in ScanFrom(crc, seg, data, off) && Fits(p.rec)
    ensures p.loc.seg == seg && p.loc.off + p.loc.size <= |data| && off <= p.loc.off
    ensures Decode(crc, data[p.loc.off..p.loc.off + p.loc.size]) == Decoded(p.rec, p.loc.size)
    ensures p.loc.size == EncodedSize(p.rec)
    decreases |data| - off
  {
    hide Decode, Encode;
    var d := Decode(crc, data[off..]);
    var ps := ScanFrom(crc, seg, data, off);
    if p == ps[0] {
      DecodeCut(crc, data[off..], d.size);
      assert data[off..][..d.size] == data[off..off + d.size];
    } else {
      assert ps == [ps[0]] + ScanFrom(crc, seg, data, off + d.size);
      ScannedReadsBack(crc, seg, data, off + d.size, p);
    }
  }

  lemma {:induction false} LogOfReadsBack(crc: Crc, files: Files, ids: seq<nat>, p: Placed)
    requires forall id <- ids :: id in files
    requires p in LogOf(crc, files, ids) && Fits(p.rec)
    ensures p.loc.seg in ids && p.loc.size == EncodedSize(p.rec)
    ensures ReadsBack(crc, files, p)
    decreases |ids|
  {
    hide Decode;
    var id := ids[|ids| - 1];
    if p in ScanFile(crc, id, files[id]) {
      ScannedReadsBack(crc, id, files[id].data, SEGMENT_HEADER_SIZE, p);
    } else {
      LogOfReadsBack(crc, files, ids[..|ids| - 1], p);
    }
  }

  /** A record of the log sits in a file of the directory, where decoding its location gives it back. */
  lemma LogReadsBack(crc: Crc, files: Files, p: Placed)
    requires p in DiskLog(crc, files) && Fits(p.rec)
    ensures ReadsBack(crc, files, p) && p.loc.size == EncodedSize(p.rec)
  {
    LogOfReadsBack(crc, files, Ids(files.Keys), p);
  }
}
