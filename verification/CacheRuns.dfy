/** The tail cache over runs: exactly which sequences it serves, and what it answers while entries are applied again. */
module CacheRuns {
  import opened Bytes
  import opened Record
  import opened Segment
  import opened Index
  import opened Scan
  import opened Log
  import opened Streams
  import opened Wal
  import opened History
  import opened Shard
  import opened LogInv
  import opened TableInv
  import opened ShardRun
  import opened CacheInv
  import opened Theorems
  import opened Findings
  import Raft = RaftStorage
  import Snapshot

  // ---- a shard that only applies ----

  /** The log holds the first n entries, one record each. */
  predicate LogIsFirst(log: seq<Placed>, h: History, n: nat)
    requires n <= |h|
  {
    |log| == n && forall k :: 0 <= k < n ==> RecordIs(log[k].rec, h[k])
  }

  ghost predicate AppliedFirst(cfg: Config, h: History, w: World, n: nat)
    requires n <= |h|
  {
    && w.pos == w.high == n && w.acked == map[] && w.s.table == ApplyFirst(h, n, cfg.tailLimit)
    && LogIsFirst(DiskLog(cfg.crc, w.s.wal.files), h, n)
  }

  /** A fresh shard that applies the first n entries and does nothing else. */
  lemma {:induction false} ApplyRun(cfg: Config, h: History, conf: Raft.ConfState, n: nat) returns (w: World)
    requires WithinLimits(h) && n <= |h|
    ensures Reachable(cfg, h, w) && AppliedFirst(cfg, h, w, n) && w.s.raft == Raft.Bootstrap(conf)
  {
    hide Reachable, Inv, WithinLimits, DiskLog, ApplyFirst, AppliedTable, LogIsFirst, Usable, AppendedWal, SyncCurrent,
      Snapshot.Decoded, Raft.Bootstrap, FreshSegment;
    if n == 0 {
      w := Start(cfg, conf, 0);
      StartReachable(cfg, h, conf, 0);
      NothingApplied(cfg, h, conf);
    } else {
      var v := ApplyRun(cfg, h, conf, n - 1);
      ReachableGood(cfg, h, v);
      InvReady(cfg, h, v);
      var ev := Event.Apply(0, 0);
      assert Enabled(cfg, h, v, ev);
      ReachableStep(cfg, h, v, ev);
      w := Step(cfg, h, v, ev);
      DeliveredLog(cfg, h, v, 0, 0);
      var loc := AppendLoc(v.s.wal, RecordOf(h[v.pos], 0));
      OneMoreApplied(h, DiskLog(cfg.crc, v.s.wal.files), n - 1, cfg.tailLimit, loc);
    }
  }

  lemma NothingApplied(cfg: Config, h: History, conf: Raft.ConfState)
    ensures AppliedFirst(cfg, h, Start(cfg, conf, 0), 0)
  {
    hide DiskLog, FreshSegment;
    StartIsBlank(cfg, conf, 0);
  }

  lemma DeliveredLog(cfg: Config, h: History, w: World, ts: u64, headerTs: u64)
    requires Inv(cfg, h, w) && Usable(w.s.wal) && w.pos < |h|
    ensures var r := RecordOf(h[w.pos], ts);
            DiskLog(cfg.crc, Delivered(cfg, h, w, ts, headerTs).s.wal.files)
            == DiskLog(cfg.crc, w.s.wal.files) + [Placed(AppendLoc(w.s.wal, r), r)]
  {
    hide DiskLog, Extended, SnapshotGood, TableGood, TailsGood, Covers, IndexAgrees, ContentCurrent, LogKnown;
    var r := RecordOf(h[w.pos], ts);
    assert EntryWithinLimits(h[w.pos]) && Fits(r);
    AppendLog(cfg, w.s.wal, r, headerTs);
    SyncLog(cfg.crc, AppendedWal(cfg, w.s.wal, h[w.pos], ts, headerTs));
  }

  lemma OneMoreApplied(h: History, log: seq<Placed>, n: nat, limit: nat, loc: Loc)
    requires n < |h| && LogIsFirst(log, h, n)
    ensures LogIsFirst(log + [Placed(loc, RecordOf(h[n], 0))], h, n + 1)
    ensures ApplyFirst(h, n + 1, limit) == AppliedTable(ApplyFirst(h, n, limit), h[n])
  {
  }

  // ---- exactly which sequences a caught-up shard serves ----

  ghost predicate AlwaysAnswersAsMap(cfg: Config, h: History) {
    forall w, stream: nat, lsn: nat ::
      Reachable(cfg, h, w) && CaughtUp(w) && w.high <= |h| && lsn >= AckedOf(w.acked, stream) ==>
        AnswersAsMap(cfg, h, w, stream, lsn)
  }

  /**
   * Over all runs, restarts included: every caught-up shard answers every read at or above the acknowledgements as
   * the map does if and only if no LSN is bound to another payload before its old record has left the cache.
   */
  lemma {:induction false} AnswersAsMapIffFarApart(cfg: Config, h: History)
    requires WithinLimits(h)
    ensures RebindsFarApart(h, |h|, cfg.tailLimit) <==> AlwaysAnswersAsMap(cfg, h)
  {
    hide Reachable, AnswersAsMap, WithinLimits, RebindsNear, AckedOf;
    if RebindsFarApart(h, |h|, cfg.tailLimit) {
      forall w, stream: nat, lsn: nat
        | Reachable(cfg, h, w) && CaughtUp(w) && w.high <= |h| && lsn >= AckedOf(w.acked, stream)
        ensures AnswersAsMap(cfg, h, w, stream, lsn)
      {
        FarApartAnswers(cfg, h, w, stream, lsn);
      }
    } else {
      var i, j :| 0 <= i < j < |h| && RebindsNear(h, cfg.tailLimit, i, j);
      var n := NearDisagrees(h, cfg.tailLimit, i, j);
      var w := ApplyRun(cfg, h, Raft.ConfState([]), n);
      var stream, lsn := h[i].cmd.stream, h[i].cmd.lsn;
      DisagreeingAnswer(cfg, h, w, n, stream, lsn);
      NoneAcked(stream);
    }
  }

  lemma NoneAcked(stream: nat)
    ensures AckedOf(map[], stream) == 0
  {
  }

  lemma FarApartAnswers(cfg: Config, h: History, w: World, stream: nat, lsn: nat)
    requires WithinLimits(h) && RebindsFarApart(h, |h|, cfg.tailLimit) && Reachable(cfg, h, w) && CaughtUp(w)
    requires w.high <= |h| && lsn >= AckedOf(w.acked, stream)
    ensures AnswersAsMap(cfg, h, w, stream, lsn)
  {
    hide Reachable, WithinLimits, RebindsNear, Read, Content, AckedOf;
    ReadsAreTheMap(cfg, h, w, stream, lsn);
  }

  lemma DisagreeingAnswer(cfg: Config, h: History, w: World, n: nat, stream: nat, lsn: nat)
    requires WithinLimits(h) && n <= |h| && Reachable(cfg, h, w) && AppliedFirst(cfg, h, w, n)
    requires !TailAgrees(h, n, cfg.tailLimit, stream, lsn)
    ensures !AnswersAsMap(cfg, h, w, stream, lsn)
  {
    hide Reachable, WithinLimits, LogGood, SnapshotGood, TableGood, FindTail, DiskLog, ReadRecordResult, LogIsFirst;
    ReachableGood(cfg, h, w);
    CachedIsBelowCommit(cfg, h, w, stream, lsn);
  }

  lemma CachedIsBelowCommit(cfg: Config, h: History, w: World, stream: nat, lsn: nat)
    requires Inv(cfg, h, w) && CaughtUp(w) && FindTail(Get(w.s.table, stream).tail, lsn).Some?
    ensures lsn < Get(w.s.table, stream).commit
  {
    hide LogGood, SnapshotGood, TableGood;
    var s := Get(w.s.table, stream);
    var x := FindTail(s.tail, lsn).value;
    assert StreamTailsGood(s, stream, w.s.index, h, w.high);
    assert TailGood(x, s, stream, w.s.index, h, w.high);
    var i :| 0 <= i < w.high && Writes(h[i], stream, x.lsn);
    assert CoversEntry(w.s.table, h[i]);
  }

  // ---- while entries are applied again ----

  /** Three writes to stream 7, of which the last rebinds the LSN of the first. */
  function Rebound(): History {
    [Entry(1, Command(1, 7, 0, 0, [1])), Entry(2, Command(2, 7, 0, 1, [9])), Entry(3, Command(3, 7, 0, 0, [2]))]
  }

  lemma ReboundIsFarApart()
    ensures WithinLimits(Rebound()) && RebindsFarApart(Rebound(), 3, 2)
  {
    var h := Rebound();
    assert EntryWithinLimits(h[0]) && EntryWithinLimits(h[1]) && EntryWithinLimits(h[2]);
    CountRebound(7);
  }

  lemma CountRebound(stream: nat)
    requires stream == 7
    ensures var h := Rebound(); Count(h, 0, stream) == 0 && Count(h, 1, stream) == 1 && Count(h, 2, stream) == 2
  {
    var h := Rebound();
    assert Count(h, 1, stream) == Count(h, 0, stream) + 1;
    assert Count(h, 2, stream) == Count(h, 1, stream) + 1;
  }

  /** Recovering the records of the first n entries caches what applying them did. */
  lemma {:induction false} ObservedFirst(log: seq<Placed>, h: History, n: nat, limit: nat)
    requires n <= |h| && LogIsFirst(log, h, n) && forall i :: 0 <= i < |h| ==> h[i].index > 0
    ensures ObserveLog(Table(map[], limit), log, 0) == ApplyFirst(h, n, limit)
  {
    hide Observed, AppliedTable;
    if n > 0 {
      ObservedFirst(log[..n - 1], h, n - 1, limit);
      ObservedIsApplied(ApplyFirst(h, n - 1, limit), log[n - 1].rec, h[n - 1]);
    }
  }

  /** The cache after all three entries, and the first of them again. */
  lemma ReboundTail()
    ensures var t := AppliedTable(ApplyFirst(Rebound(), 3, 2), Rebound()[0]);
            t.limit == 2 && Get(t, 7).tail == [Tail(0, 3, [2]), Tail(0, 1, [1])]
  {
    hide AppliedTable, ApplyFirst;
    var h := Rebound();
    TailIsNewest(h, 3, 2, 7);
    PushedRebound();
    AppliedPushes(ApplyFirst(h, 3, 2), h[0], 7);
  }

  lemma PushedRebound()
    ensures Pushed(Rebound(), 3, 7) == [Tail(0, 1, [1]), Tail(1, 2, [9]), Tail(0, 3, [2])]
  {
    var h := Rebound();
    assert Pushed(h, 1, 7) == [Tail(0, 1, [1])];
    assert Pushed(h, 2, 7) == [Tail(0, 1, [1]), Tail(1, 2, [9])];
  }

  /**
   * Being caught up matters: a reachable state, for a sequence whose rebindings are far apart, in which a restart has
   * cached the last binding, the first entry has been applied again, and the cache answers neither what the disk
   * holds nor what the map of the entries applied so far does.
   */
  lemma {:induction false} ReplayDisagrees(crc: Crc, conf: Raft.ConfState) returns (w: World)
    ensures var cfg, h := Config(crc, 0, 100000, 2), Rebound();
            && WithinLimits(h) && RebindsFarApart(h, |h|, cfg.tailLimit) && Reachable(cfg, h, w)
            && w.pos == 1 && w.high == 3 && w.acked == map[]
            && FindTail(Get(w.s.table, 7).tail, 0) == Some(Tail(0, 3, [2]))
            && Content(h, w.pos, 7, 0) == Some(h[0]) && h[0].cmd.payload == [1]
            && var r := ReadRecordResult(crc, w.s.wal.files, w.s.index, 7, 0);
            r.Found? && r.rec.payload == [1]
  {
    hide Reachable, Inv, Ready, Enabled, Step, DiskLog, AppliedTable, ApplyFirst, ReadRecordResult, AppliedFirst,
      LogIsFirst, RebindsFarApart, WithinLimits;
    var cfg, h := Config(crc, 0, 100000, 2), Rebound();
    ReboundIsFarApart();
    var v := ApplyRun(cfg, h, conf, 3);
    var u := RestartFromScratch(cfg, h, conf, v, 3);
    w := ApplyFirstAgain(cfg, h, u);
    ReboundTail();
    ReboundContent();
    assert FindTail(Get(w.s.table, 7).tail, 0) == Some(Tail(0, 3, [2]));
  }

  lemma ReboundContent()
    ensures Content(Rebound(), 1, 7, 0) == Some(Rebound()[0])
  {
    assert LastWriter(Rebound(), 1, 7, 0) == 0;
  }

  lemma {:induction false} RestartFromScratch(cfg: Config, h: History, conf: Raft.ConfState, v: World, n: nat)
    returns (u: World)
    requires WithinLimits(h) && n <= |h| && Reachable(cfg, h, v) && v.s.raft == Raft.Bootstrap(conf)
    requires AppliedFirst(cfg, h, v, n)
    ensures Reachable(cfg, h, u) && u.pos == 0 && u.high == n && u.acked == map[]
    ensures u.s.table == ApplyFirst(h, n, cfg.tailLimit)
  {
    hide Reachable, DiskLog, LogIsFirst, ApplyFirst, ObserveLog, SnapshotGood, TableGood, TailsGood, Covers,
      ContentCurrent, IndexAgrees, CleanFiles, CrashImage, AllSurvive, Reopened, IndexOf;
    ReachableGood(cfg, h, v);
    InvReady(cfg, h, v);
    AllSurviveIsImage(cfg, v.s.wal);
    forall i | 0 <= i < |h| ensures h[i].index > 0 {
      assert EntryWithinLimits(h[i]);
    }
    var ev := Event.Restart(AllSurvive(v.s.wal.files), Idle, 0, 0, 0, 0, 0);
    assert Enabled(cfg, h, v, ev);
    ReachableStep(cfg, h, v, ev);
    u := Step(cfg, h, v, ev);
    ObservedFirst(DiskLog(cfg.crc, v.s.wal.files), h, n, cfg.tailLimit);
  }

  lemma {:induction false} ApplyFirstAgain(cfg: Config, h: History, u: World) returns (w: World)
    requires WithinLimits(h) && Reachable(cfg, h, u) && u.pos == 0 && 0 < |h| == u.high
    ensures Reachable(cfg, h, w) && w.pos == 1 && w.high == |h| && w.acked == u.acked
    ensures w.s.table == AppliedTable(u.s.table, h[0])
    ensures var r := ReadRecordResult(cfg.crc, w.s.wal.files, w.s.index, h[0].cmd.stream, h[0].cmd.lsn);
            r.Found? && r.rec.payload == h[0].cmd.payload
  {
    hide Reachable, Inv, WithinLimits, DiskLog, Usable, AppendedWal, SyncCurrent, AppliedTable, ReadRecordResult,
      IndexKeeps, LogGood;
    ReachableGood(cfg, h, u);
    InvReady(cfg, h, u);
    var ev := Event.Apply(0, 0);
    assert Enabled(cfg, h, u, ev);
    ReachableStep(cfg, h, u, ev);
    w := Step(cfg, h, u, ev);
    ApplyKeepsLog(cfg, h, u, 0, 0);
    DeliveredLog(cfg, h, u, 0, 0);
    var r := RecordOf(h[0], 0);
    LastSnoc(DiskLog(cfg.crc, u.s.wal.files), Placed(AppendLoc(u.s.wal, r), r), r.stream, r.lsn);
    ColdRead(cfg, h, w, r.stream, r.lsn);
  }

  // ---- exactly when reads are right while entries are applied again ----

  /** A read of what the entries applied so far bind is answered with their payload. */
  predicate AnswersReplayed(cfg: Config, h: History, w: World, stream: nat, lsn: nat)
    requires w.pos <= |h|
  {
    match Content(h, w.pos, stream, lsn)
    case None => true
    case Some(e) =>
      var r := Read(cfg, w.s, stream, lsn);
      r.Answer? && r.lsn == lsn && r.payload == e.cmd.payload
  }

  /** The table after applying the first n entries again, on top of what recovery made of the log. */
  function ApplyMore(t: Table, h: History, n: nat): Table
    requires n <= |h|
  {
    if n == 0 then t else AppliedTable(ApplyMore(t, h, n - 1), h[n - 1])
  }

  lemma {:induction false} TailOfMore(t: Table, h: History, n: nat, stream: nat)
    requires n <= |h| && |Get(t, stream).tail| <= t.limit
    ensures ApplyMore(t, h, n).limit == t.limit
    ensures Get(ApplyMore(t, h, n), stream).tail == Newest(Get(t, stream).tail + Pushed(h, n, stream), t.limit)
  {
    hide AppliedTable, Newest, Pushed;
    var tail := Get(t, stream).tail;
    if n == 0 {
      NonePushed(h, stream);
      AllNewest(tail, t.limit);
      assert tail + [] == tail;
    } else {
      TailOfMore(t, h, n - 1, stream);
      PushedStep(h, n - 1, stream);
      AppliedPushes(ApplyMore(t, h, n - 1), h[n - 1], stream);
      var front, x := Pushed(h, n - 1, stream), Tail(h[n - 1].cmd.lsn, h[n - 1].index, h[n - 1].cmd.payload);
      NewestAgain(tail + front, t.limit, x);
      assert (tail + front) + [x] == tail + (front + [x]);
    }
  }

  lemma AllNewest(tail: seq<Tail>, limit: nat)
    requires |tail| <= limit
    ensures Newest(tail, limit) == tail
  {
  }

  /** Applying again, from the start, some of what was applied before. */
  lemma {:induction false} ReplayRun(cfg: Config, h: History, u: World, k: nat) returns (w: World)
    requires WithinLimits(h) && Reachable(cfg, h, u) && u.pos == 0 && k <= u.high <= |h|
    ensures Reachable(cfg, h, w) && w.pos == k && w.high == u.high && w.acked == u.acked
    ensures w.s.table == ApplyMore(u.s.table, h, k)
  {
    hide Reachable, Inv, WithinLimits, Usable, AppendedWal, SyncCurrent, AppliedTable, AppendLoc;
    if k == 0 {
      w := u;
    } else {
      var v := ReplayRun(cfg, h, u, k - 1);
      ReachableGood(cfg, h, v);
      InvReady(cfg, h, v);
      var ev := Event.Apply(0, 0);
      assert Enabled(cfg, h, v, ev);
      ReachableStep(cfg, h, v, ev);
      w := Step(cfg, h, v, ev);
    }
  }

  lemma {:induction false} FindInFront(a: seq<Tail>, b: seq<Tail>, lsn: nat, x: Tail)
    requires x in a && x.lsn == lsn
    ensures FindTail(a, lsn).Some? && FindTail(a + b, lsn) == FindTail(a, lsn) && FindTail(a, lsn).value in a
  {
    assert (a + b)[0] == a[0];
    if a[0].lsn != lsn {
      assert (a + b)[1..] == a[1..] + b;
      FindInFront(a[1..], b, lsn, x);
    }
  }

  /** With fewer than a cache full pushed on top, the newest record from before the restart is still cached. */
  lemma OldestOnTop(tail: seq<Tail>, more: seq<Tail>, limit: nat, lsn: nat)
    requires tail != [] && |tail| <= limit && |more| < limit && tail[|tail| - 1].lsn == lsn
    ensures FindTail(Newest(tail + more, limit), lsn).Some?
    ensures FindTail(Newest(tail + more, limit), lsn).value in tail
  {
    hide FindTail;
    var all := tail + more;
    var d := if |all| > limit then |all| - limit else 0;
    var kept := tail[d..];
    assert kept[|kept| - 1] == tail[|tail| - 1];
    assert Newest(all, limit) == kept + more;
    FindInFront(kept, more, lsn, tail[|tail| - 1]);
  }

  /** If rebindings are far apart, what is cached under the LSN of the entry just applied has its payload. */
  lemma {:induction false} CachedWithLast(t: Table, h: History, j: nat, x: Tail)
    requires j < |h| && CacheNear(t, h, j + 1, j + 1) && RebindsFarApart(h, |h|, t.limit)
    requires x in Get(t, h[j].cmd.stream).tail && x.lsn == h[j].cmd.lsn
    ensures x.payload == h[j].cmd.payload
  {
    hide Count;
    var s := h[j].cmd.stream;
    var tail := Get(t, s).tail;
    assert StreamCacheNear(tail, h, j + 1, j + 1, s, t.limit);
    var k :| 0 <= k < |tail| && tail[k] == x;
    assert CachedNear(x, h, j + 1, j + 1, s, |tail| - k);
    var i :| 0 <= i < j + 1 && Near(x, h, j + 1, s, |tail| - k, i);
    if i < j {
      CountGrows(h, j, j + 1, s);
      assert !RebindsNear(h, t.limit, i, j);
    }
  }

  /**
   * Any rebinding can be caught in the act if fewer entries of its stream than the cache holds come up to and
   * including the first binding: there is a reachable state in which a read of that LSN is answered wrongly, either
   * caught up, or after a restart that applies everything again.
   */
  lemma {:induction false} RebindingShows(cfg: Config, h: History, i: nat, j: nat)
    returns (w: World, stream: nat, lsn: nat)
    requires WithinLimits(h) && i < j < |h| && Count(h, i + 1, h[i].cmd.stream) < cfg.tailLimit
    requires Writes(h[j], h[i].cmd.stream, h[i].cmd.lsn) && h[i].cmd.payload != h[j].cmd.payload
    ensures Reachable(cfg, h, w) && w.pos <= w.high <= |h| && w.acked == map[]
    ensures !AnswersReplayed(cfg, h, w, stream, lsn)
  {
    hide Reachable, WithinLimits, RebindsNear, AnswersReplayed, AppliedFirst, Count;
    if RebindsFarApart(h, |h|, cfg.tailLimit) {
      stream, lsn := h[i].cmd.stream, h[i].cmd.lsn;
      w := RebindingReplayed(cfg, h, i, j);
    } else {
      var a, b :| 0 <= a < b < |h| && RebindsNear(h, cfg.tailLimit, a, b);
      stream, lsn := h[a].cmd.stream, h[a].cmd.lsn;
      w := RebindingAtOnce(cfg, h, a, b);
    }
  }

  lemma {:induction false} RebindingAtOnce(cfg: Config, h: History, a: nat, b: nat) returns (w: World)
    requires WithinLimits(h) && a < b < |h| && RebindsNear(h, cfg.tailLimit, a, b)
    ensures Reachable(cfg, h, w) && w.pos == w.high <= |h| && w.acked == map[]
    ensures !AnswersReplayed(cfg, h, w, h[a].cmd.stream, h[a].cmd.lsn)
  {
    hide Reachable, WithinLimits, RebindsNear, LogIsFirst, ApplyFirst, DiskLog, TailAgrees, Read, Content;
    var n := NearDisagrees(h, cfg.tailLimit, a, b);
    w := ApplyRun(cfg, h, Raft.ConfState([]), n);
    var s, l := h[a].cmd.stream, h[a].cmd.lsn;
    DisagreeingAnswer(cfg, h, w, n, s, l);
    DisagreeingHasContent(cfg, h, w, n, s, l);
  }

  lemma {:induction false} DisagreeingHasContent(cfg: Config, h: History, w: World, n: nat, stream: nat, lsn: nat)
    requires WithinLimits(h) && n <= |h| && Reachable(cfg, h, w) && AppliedFirst(cfg, h, w, n)
    requires !TailAgrees(h, n, cfg.tailLimit, stream, lsn)
    ensures Content(h, n, stream, lsn).Some?
  {
    hide Reachable, WithinLimits, LogGood, SnapshotGood, TableGood, FindTail, DiskLog, LogIsFirst, LastWriter;
    ReachableGood(cfg, h, w);
    var s := Get(w.s.table, stream);
    var x := FindTail(s.tail, lsn).value;
    assert StreamTailsGood(s, stream, w.s.index, h, w.high);
    assert TailGood(x, s, stream, w.s.index, h, w.high);
    var i :| 0 <= i < w.high && Writes(h[i], stream, x.lsn);
    NoneLater(h, n, stream, lsn, i);
  }

  lemma {:induction false} RebindingReplayed(cfg: Config, h: History, i: nat, j: nat) returns (w: World)
    requires WithinLimits(h) && i < j < |h| && Count(h, i + 1, h[i].cmd.stream) < cfg.tailLimit
    requires Writes(h[j], h[i].cmd.stream, h[i].cmd.lsn) && h[i].cmd.payload != h[j].cmd.payload
    requires RebindsFarApart(h, |h|, cfg.tailLimit)
    ensures Reachable(cfg, h, w) && w.pos == i + 1 && w.high == j + 1 && w.acked == map[]
    ensures !AnswersReplayed(cfg, h, w, h[i].cmd.stream, h[i].cmd.lsn)
  {
    hide Reachable, WithinLimits, RebindsFarApart, LogIsFirst, DiskLog, ApplyFirst, Pushed, CacheNear, Newest, FindTail,
      Count, ReadRecordResult, ApplyMore;
    var s, l := h[i].cmd.stream, h[i].cmd.lsn;
    var v := ApplyRun(cfg, h, Raft.ConfState([]), j + 1);
    ReachableCache(cfg, h, v);
    var tail := Get(v.s.table, s).tail;
    LastIsCached(h, j, cfg.tailLimit);
    var u := RestartFromScratch(cfg, h, Raft.ConfState([]), v, j + 1);
    w := ReplayRun(cfg, h, u, i + 1);
    TailOfMore(u.s.table, h, i + 1, s);
    OldestOnTop(tail, Pushed(h, i + 1, s), cfg.tailLimit, l);
    CachedWithLast(v.s.table, h, j, FindTail(Get(w.s.table, s).tail, l).value);
    assert LastWriter(h, i + 1, s, l) == i;
  }

  lemma LastIsCached(h: History, j: nat, limit: nat)
    requires j < |h| && limit > 0
    ensures var tail := Get(ApplyFirst(h, j + 1, limit), h[j].cmd.stream).tail;
            0 < |tail| <= limit && tail[|tail| - 1].lsn == h[j].cmd.lsn
    ensures ApplyFirst(h, j + 1, limit).limit == limit
  {
    hide ApplyFirst, Pushed;
    TailIsNewest(h, j + 1, limit, h[j].cmd.stream);
    PushedStep(h, j, h[j].cmd.stream);
  }

  ghost predicate AlwaysAnswersReplayed(cfg: Config, h: History) {
    forall w, stream: nat, lsn: nat ::
      Reachable(cfg, h, w) && w.pos <= |h| && lsn >= AckedOf(w.acked, stream) ==>
        AnswersReplayed(cfg, h, w, stream, lsn)
  }

  /**
   * With a cache larger than the sequence, reads are right in every reachable state, also while entries are applied
   * again, if and only if no LSN is bound to two payloads.
   */
  lemma {:induction false} AnswersReplayedIffFunctional(cfg: Config, h: History)
    requires WithinLimits(h) && |h| < cfg.tailLimit
    ensures Functional(h) <==> AlwaysAnswersReplayed(cfg, h)
  {
    hide Reachable, AnswersReplayed, WithinLimits, AckedOf;
    if Functional(h) {
      forall w, stream: nat, lsn: nat | Reachable(cfg, h, w) && w.pos <= |h| && lsn >= AckedOf(w.acked, stream)
        ensures AnswersReplayed(cfg, h, w, stream, lsn)
      {
        FunctionalAnswersReplayed(cfg, h, w, stream, lsn);
      }
    } else {
      var i, j :| 0 <= i < j < |h| && Writes(h[j], h[i].cmd.stream, h[i].cmd.lsn)
                  && h[i].cmd.payload != h[j].cmd.payload;
      var w, stream, lsn := RebindingShows(cfg, h, i, j);
      NoneAcked(stream);
    }
  }

  lemma FunctionalAnswersReplayed(cfg: Config, h: History, w: World, stream: nat, lsn: nat)
    requires WithinLimits(h) && Functional(h) && Reachable(cfg, h, w) && w.pos <= |h|
    requires lsn >= AckedOf(w.acked, stream)
    ensures AnswersReplayed(cfg, h, w, stream, lsn)
  {
    hide Reachable, WithinLimits, Functional, Read, Content, AckedOf;
    ReplayedIsAnswered(cfg, h, w, stream, lsn);
  }
}
