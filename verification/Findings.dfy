/** Where natural expectations of the code fail, and the exact condition under which they hold. */
module Findings {
  import opened Bytes
  import opened Record
  import opened Segment
  import opened Index
  import opened Scan
  import opened Log
  import opened Streams
  import opened Wal
  import opened History
  import opened Shard

  // ---- a torn tail is harmless once ----

  lemma {:induction false} LogOfMember(crc: Crc, files: Files, ids: seq<nat>, p: Placed)
    requires forall id <- ids :: id in files
    ensures p in LogOf(crc, files, ids) <==> p.loc.seg in ids && p in ScanFile(crc, p.loc.seg, files[p.loc.seg])
    decreases |ids|
  {
    hide ScanFile;
    if ids != [] {
      var front, last := ids[..|ids| - 1], ids[|ids| - 1];
      LogOfMember(crc, files, front, p);
      ScanFileSeg(crc, last, files[last]);
      assert ids == front + [last];
    }
  }

  lemma FoundInItsSegment(crc: Crc, files: Files, loc: Loc)
    ensures (exists p <- DiskLog(crc, files) :: p.loc.seg == loc.seg && p.loc.off == loc.off)
       <==> loc.seg in files && exists p <- ScanFile(crc, loc.seg, files[loc.seg]) :: p.loc.off == loc.off
  {
    hide ScanFile, LogOf;
    var ids := Ids(files.Keys);
    if p :| p in DiskLog(crc, files) && p.loc.seg == loc.seg && p.loc.off == loc.off {
      LogOfMember(crc, files, ids, p);
    }
    if loc.seg in files {
      if p :| p in ScanFile(crc, loc.seg, files[loc.seg]) && p.loc.off == loc.off {
        ScanFileSeg(crc, loc.seg, files[loc.seg]);
        LogOfMember(crc, files, ids, p);
      }
    }
  }

  /** What an append and a sync leave of the segment that was current, rotation or not. */
  lemma AppendedBytes(cfg: Config, w: Wal, r: WalRecord, ts: u64)
    requires Usable(w)
    ensures var w' := Extended(cfg, w, r, ts);
            Usable(w') && w.cur in SyncCurrent(w').files
            && SyncCurrent(w').files[w.cur].data == w.files[w.cur].data + Encode(cfg.crc, r)
  {
    hide Encode, EncodeHeader, EncodedSize;
    WrittenFile(cfg, w, r);
    AppendUsable(cfg, w, r, ts);
  }

  /**
   * After any crash and reopening, a record that is appended, synced and acknowledged is found at its place by the
   * next recovery if and only if the scan had reached the end of the newest segment's file at that reopening.
   */
  lemma {:induction false} AcknowledgedAgainFoundIffNoTear(cfg: Config, files: Files, r: WalRecord, ts: u64, newTs: u64)
    requires files != map[] && OlderSynced(files) && Fits(r)
    requires |files[MaxOf(files.Keys)].data| >= SEGMENT_HEADER_SIZE
    ensures var w := Reopened(cfg, files, newTs);
            var data := files[w.cur].data;
            && Usable(w) && Usable(Extended(cfg, w, r, ts))
            && ((exists p <- DiskLog(cfg.crc, SyncCurrent(Extended(cfg, w, r, ts)).files) ::
                   p.loc.seg == AppendLoc(w, r).seg && p.loc.off == AppendLoc(w, r).off)
                <==> ScanEnd(cfg.crc, data, SEGMENT_HEADER_SIZE) == |data|)
            && (ScanEnd(cfg.crc, data, SEGMENT_HEADER_SIZE) == |data| ==>
                  Placed(AppendLoc(w, r), r) in DiskLog(cfg.crc, SyncCurrent(Extended(cfg, w, r, ts)).files))
  {
    hide Encode, ScanFrom, ScanEnd, LogOf, Extended, DiskLog, SyncCurrent, Usable;
    var w := Reopened(cfg, files, newTs);
    assert files.Keys != {};
    var data := files[w.cur].data;
    ReopenedUsable(cfg, files, newTs);
    AppendedBytes(cfg, w, r, ts);
    var after := SyncCurrent(Extended(cfg, w, r, ts)).files;
    FoundInItsSegment(cfg.crc, after, AppendLoc(w, r));
    FoundAgainIffNoTear(cfg.crc, w.cur, data, SEGMENT_HEADER_SIZE, r);
    assert ScanFile(cfg.crc, w.cur, after[w.cur])
        == ScanFrom(cfg.crc, w.cur, data + Encode(cfg.crc, r), SEGMENT_HEADER_SIZE);
    LogHolds(cfg.crc, after, Placed(AppendLoc(w, r), r));
  }

  lemma LogHolds(crc: Crc, files: Files, p: Placed)
    ensures p in DiskLog(crc, files) <==> p.loc.seg in files && p in ScanFile(crc, p.loc.seg, files[p.loc.seg])
  {
    hide ScanFile, LogOf;
    LogOfMember(crc, files, Ids(files.Keys), p);
  }

  // ---- the tail cache answers with the oldest binding ----

  /** The table of a shard that applied the first n entries and nothing else. */
  function ApplyFirst(h: History, n: nat, limit: nat): Table
    requires n <= |h|
  {
    if n == 0 then Table(map[], limit) else AppliedTable(ApplyFirst(h, n - 1, limit), h[n - 1])
  }

  lemma {:induction false} FindTailSnoc(tail: seq<Tail>, x: Tail, lsn: nat)
    ensures FindTail(tail + [x], lsn)
         == if FindTail(tail, lsn).Some? then FindTail(tail, lsn) else if x.lsn == lsn then Some(x) else None
  {
    if tail == [] {
      assert tail + [x] == [x];
    } else {
      assert (tail + [x])[1..] == tail[1..] + [x];
      FindTailSnoc(tail[1..], x, lsn);
    }
  }

  /** Every record of a stream among the first n entries, as it was pushed into the cache. */
  function Pushed(h: History, n: nat, stream: nat): (all: seq<Tail>)
    requires n <= |h|
    ensures |all| == Count(h, n, stream)
  {
    if n == 0 then []
    else
      var e := h[n - 1];
      Pushed(h, n - 1, stream) + if e.cmd.stream == stream then [Tail(e.cmd.lsn, e.index, e.cmd.payload)] else []
  }

  /** The cache holds the newest of them. */
  lemma {:induction false} TailIsNewest(h: History, n: nat, limit: nat, stream: nat)
    requires n <= |h|
    ensures ApplyFirst(h, n, limit).limit == limit
    ensures Get(ApplyFirst(h, n, limit), stream).tail == Newest(Pushed(h, n, stream), limit)
  {
    hide AppliedTable, Newest, Pushed;
    if n > 0 {
      PushedStep(h, n - 1, stream);
      TailIsNewest(h, n - 1, limit, stream);
      AppliedPushes(ApplyFirst(h, n - 1, limit), h[n - 1], stream);
      NewestAgain(Pushed(h, n - 1, stream), limit, Tail(h[n - 1].cmd.lsn, h[n - 1].index, h[n - 1].cmd.payload));
    } else {
      NonePushed(h, stream);
      NoneNewest(limit);
    }
  }

  lemma AppliedPushes(t: Table, e: Entry, stream: nat)
    ensures AppliedTable(t, e).limit == t.limit
    ensures Get(AppliedTable(t, e), stream).tail
         == if e.cmd.stream == stream then
              Newest(Get(t, stream).tail + [Tail(e.cmd.lsn, e.index, e.cmd.payload)], t.limit)
            else Get(t, stream).tail
  {
    hide Newest;
  }

  lemma NewestAgain(all: seq<Tail>, limit: nat, x: Tail)
    ensures Newest(Newest(all, limit) + [x], limit) == Newest(all + [x], limit)
  {
  }

  lemma NoneNewest(limit: nat)
    ensures Newest([], limit) == []
  {
  }

  /** The first entry of the first n that writes the key, not counting the first skip entries of the stream. */
  function OldestFrom(h: History, n: nat, skip: nat, stream: nat, lsn: nat): (f: int)
    requires n <= |h|
    ensures -1 <= f < n
    ensures f >= 0 ==> Writes(h[f], stream, lsn) && skip <= |Pushed(h, f, stream)|
  {
    if n == 0 then -1
    else
      var f := OldestFrom(h, n - 1, skip, stream, lsn);
      if f >= 0 then f
      else if Writes(h[n - 1], stream, lsn) && skip <= |Pushed(h, n - 1, stream)| then n - 1
      else -1
  }

  lemma {:induction false} OldestIsOldest(h: History, n: nat, skip: nat, stream: nat, lsn: nat, i: nat)
    requires i < n <= |h| && Writes(h[i], stream, lsn) && skip <= |Pushed(h, i, stream)|
    ensures 0 <= OldestFrom(h, n, skip, stream, lsn) <= i
  {
    if i < n - 1 {
      OldestIsOldest(h, n - 1, skip, stream, lsn, i);
    }
  }

  function TailOf(h: History, f: int): Option<Tail>
    requires f < |h|
  {
    if f < 0 then None else Some(Tail(h[f].cmd.lsn, h[f].index, h[f].cmd.payload))
  }

  lemma {:induction false} FindIsOldest(h: History, n: nat, skip: nat, stream: nat, lsn: nat)
    requires n <= |h| && skip <= |Pushed(h, n, stream)|
    ensures FindTail(Pushed(h, n, stream)[skip..], lsn) == TailOf(h, OldestFrom(h, n, skip, stream, lsn))
  {
    hide FindTail, Pushed;
    if skip == |Pushed(h, n, stream)| {
      NothingIn(lsn);
      NothingFrom(h, n, skip, stream, lsn);
    } else {
      NonePushed(h, stream);
      var front, all, e := Pushed(h, n - 1, stream), Pushed(h, n, stream), h[n - 1];
      PushedStep(h, n - 1, stream);
      FindIsOldest(h, n - 1, skip, stream, lsn);
      if e.cmd.stream == stream {
        var x := Tail(e.cmd.lsn, e.index, e.cmd.payload);
        assert all[skip..] == front[skip..] + [x];
        FindTailSnoc(front[skip..], x, lsn);
      }
    }
  }

  lemma NonePushed(h: History, stream: nat)
    ensures Pushed(h, 0, stream) == []
  {
  }

  lemma PushedStep(h: History, n: nat, stream: nat)
    requires n < |h|
    ensures var x := Tail(h[n].cmd.lsn, h[n].index, h[n].cmd.payload);
            Pushed(h, n + 1, stream)
            == if h[n].cmd.stream == stream then Pushed(h, n, stream) + [x] else Pushed(h, n, stream)
  {
    assert Pushed(h, n, stream) + [] == Pushed(h, n, stream);
  }

  lemma NothingIn(lsn: nat)
    ensures FindTail([], lsn) == None
  {
  }

  lemma {:induction false} NothingFrom(h: History, n: nat, skip: nat, stream: nat, lsn: nat)
    requires n <= |h| && skip >= |Pushed(h, n, stream)|
    ensures OldestFrom(h, n, skip, stream, lsn) == -1
  {
    hide Pushed;
    if n > 0 {
      PushedStep(h, n - 1, stream);
      NothingFrom(h, n - 1, skip, stream, lsn);
    }
  }

  /** How many records of a stream were evicted from a cache of this limit after n entries. */
  function Evicted(h: History, n: nat, limit: nat, stream: nat): nat
    requires n <= |h|
  {
    Max(|Pushed(h, n, stream)| - limit, 0)
  }

  /** The cache answers with the oldest record of the LSN that was not evicted. */
  lemma TailAnswers(h: History, n: nat, limit: nat, stream: nat, lsn: nat)
    requires n <= |h|
    ensures FindTail(Get(ApplyFirst(h, n, limit), stream).tail, lsn)
         == TailOf(h, OldestFrom(h, n, Evicted(h, n, limit, stream), stream, lsn))
  {
    hide ApplyFirst, FindTail, OldestFrom, Pushed;
    TailIsNewest(h, n, limit, stream);
    FindIsOldest(h, n, Evicted(h, n, limit, stream), stream, lsn);
    var all := Pushed(h, n, stream);
    assert all[0..] == all;
  }

  /** A cached answer, if there is one, carries the payload the map holds. */
  predicate TailAgrees(h: History, n: nat, limit: nat, stream: nat, lsn: nat)
    requires n <= |h|
  {
    match FindTail(Get(ApplyFirst(h, n, limit), stream).tail, lsn)
    case None => true
    case Some(x) => Content(h, n, stream, lsn).Some? && Content(h, n, stream, lsn).value.cmd.payload == x.payload
  }

  /**
   * The cache of a shard that did nothing but apply the sequence agrees with the last-writer map after every prefix if
   * and only if an LSN is bound to a second payload only when at least a cache full of its stream has been applied
   * since the first.
   */
  lemma CacheAgreesIffFarApart(h: History, limit: nat)
    ensures RebindsFarApart(h, |h|, limit)
       <==> forall n: nat, stream: nat, lsn: nat :: n <= |h| ==> TailAgrees(h, n, limit, stream, lsn)
  {
    hide TailAgrees, RebindsNear;
    if RebindsFarApart(h, |h|, limit) {
      forall n: nat, stream: nat, lsn: nat | n <= |h| ensures TailAgrees(h, n, limit, stream, lsn) {
        FarApartAgrees(h, n, limit, stream, lsn);
      }
    } else {
      var i, j :| 0 <= i < j < |h| && RebindsNear(h, limit, i, j);
      var n := NearDisagrees(h, limit, i, j);
    }
  }

  lemma FarApartAgrees(h: History, n: nat, limit: nat, stream: nat, lsn: nat)
    requires n <= |h| && RebindsFarApart(h, |h|, limit)
    ensures TailAgrees(h, n, limit, stream, lsn)
  {
    hide ApplyFirst, Pushed, OldestFrom, LastWriter;
    TailAnswers(h, n, limit, stream, lsn);
    var f, w := OldestFrom(h, n, Evicted(h, n, limit, stream), stream, lsn), LastWriter(h, n, stream, lsn);
    if f >= 0 {
      NoneLater(h, n, stream, lsn, f);
      CountGrows(h, w, n, stream);
      assert f < w ==> !RebindsNear(h, limit, f, w);
    }
  }

  /**
   * If an LSN is bound to two payloads too soon, the cache is wrong after some prefix: right after the second write,
   * or earlier, because the record it still answers with was itself rebound.
   */
  lemma {:induction false} NearDisagrees(h: History, limit: nat, i: nat, j: nat) returns (n: nat)
    requires i < j < |h| && RebindsNear(h, limit, i, j)
    ensures n <= |h| && !TailAgrees(h, n, limit, h[i].cmd.stream, h[i].cmd.lsn)
    decreases j
  {
    hide ApplyFirst, Pushed, OldestFrom;
    var s, l := h[i].cmd.stream, h[i].cmd.lsn;
    n := j + 1;
    var skip := Evicted(h, n, limit, s);
    TailAnswers(h, n, limit, s, l);
    PushedStep(h, j, s);
    OldestIsOldest(h, n, skip, s, l, i);
    var f := OldestFrom(h, n, skip, s, l);
    assert LastWriter(h, n, s, l) == j;
    if h[f].cmd.payload == h[j].cmd.payload {
      CountGrows(h, i, j, s);
      n := NearDisagrees(h, limit, f, i);
    }
  }

  /** A cache that never evicts needs every LSN to be bound only once. */
  lemma LargeCacheAgreesIffFunctional(h: History, limit: nat)
    requires |h| <= limit
    ensures Functional(h)
       <==> forall n: nat, stream: nat, lsn: nat :: n <= |h| ==> TailAgrees(h, n, limit, stream, lsn)
  {
    hide TailAgrees, Pushed;
    CacheAgreesIffFarApart(h, limit);
    if Functional(h) {
      FunctionalIsFarApart(h, |h|, limit);
    } else {
      var i, j :| 0 <= i < j < |h| && Writes(h[j], h[i].cmd.stream, h[i].cmd.lsn)
                  && h[i].cmd.payload != h[j].cmd.payload;
      assert RebindsNear(h, limit, i, j);
    }
  }
}
