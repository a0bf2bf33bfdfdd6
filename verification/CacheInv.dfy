/** What the tail cache holds at every step of a run: records no further back than the cache reaches. */
module CacheInv {
  import opened Bytes
  import opened Segment
  import opened Scan
  import opened Log
  import opened Streams
  import opened Wal
  import opened History
  import opened Shard
  import opened LogInv
  import opened TableInv
  import opened ShardRun
  import Raft = RaftStorage
  import Snapshot

  /**
   * A cached record is that of an entry i, and from i up to the position of the shard no more entries of the stream
   * lie than there are cached records from this one on.  After a restart i may be at or above the position.
   */
  ghost predicate CachedNear(x: Tail, h: History, pos: nat, high: nat, stream: nat, room: nat)
    requires pos <= high <= |h|
  {
    exists i :: 0 <= i < high && Near(x, h, pos, stream, room, i)
  }

  predicate Near(x: Tail, h: History, pos: nat, stream: nat, room: nat, i: nat)
    requires pos <= |h| && i < |h|
  {
    && Writes(h[i], stream, x.lsn) && h[i].cmd.payload == x.payload
    && Count(h, pos, stream) <= Count(h, i, stream) + room
  }

  ghost predicate StreamCacheNear(tail: seq<Tail>, h: History, pos: nat, high: nat, stream: nat, limit: nat)
    requires pos <= high <= |h|
  {
    |tail| <= limit && forall k :: 0 <= k < |tail| ==> CachedNear(tail[k], h, pos, high, stream, |tail| - k)
  }

  ghost predicate CacheNear(t: Table, h: History, pos: nat, high: nat)
    requires pos <= high <= |h|
  {
    forall id: nat :: StreamCacheNear(Get(t, id).tail, h, pos, high, id, t.limit)
  }

  // ---- steps ----

  lemma NearGrows(x: Tail, h: History, pos: nat, high: nat, stream: nat, room: nat, pos': nat, high': nat, room': nat)
    requires pos <= high <= high' <= |h| && pos' <= high' && CachedNear(x, h, pos, high, stream, room)
    requires Count(h, pos', stream) + room <= Count(h, pos, stream) + room'
    ensures CachedNear(x, h, pos', high', stream, room')
  {
    hide Count;
    var i :| 0 <= i < high && Near(x, h, pos, stream, room, i);
    assert Near(x, h, pos', stream, room', i);
  }

  /** Applying the next entry of a stream: every cached record moves one place towards the front. */
  lemma PushNear(tail: seq<Tail>, h: History, pos: nat, high: nat, stream: nat, limit: nat)
    requires pos <= high <= |h| && pos < |h| && StreamCacheNear(tail, h, pos, high, stream, limit)
    requires h[pos].cmd.stream == stream
    ensures var x := Tail(h[pos].cmd.lsn, h[pos].index, h[pos].cmd.payload);
            StreamCacheNear(Newest(tail + [x], limit), h, pos + 1, Max(high, pos + 1), stream, limit)
  {
    hide CachedNear;
    var x := Tail(h[pos].cmd.lsn, h[pos].index, h[pos].cmd.payload);
    var all, now, high' := tail + [x], Newest(tail + [x], limit), Max(high, pos + 1);
    forall k | 0 <= k < |now| ensures CachedNear(now[k], h, pos + 1, high', stream, |now| - k) {
      var j := |all| - |now| + k;
      assert now[k] == all[j] && |now| - k == |all| - j;
      if j < |tail| {
        NearGrows(tail[j], h, pos, high, stream, |tail| - j, pos + 1, high', |all| - j);
      } else {
        JustPushed(h, pos, high', stream);
      }
    }
  }

  lemma JustPushed(h: History, pos: nat, high: nat, stream: nat)
    requires pos < high <= |h| && h[pos].cmd.stream == stream
    ensures CachedNear(Tail(h[pos].cmd.lsn, h[pos].index, h[pos].cmd.payload), h, pos + 1, high, stream, 1)
  {
    assert Near(Tail(h[pos].cmd.lsn, h[pos].index, h[pos].cmd.payload), h, pos + 1, stream, 1, pos);
  }

  /** Dropping records from the front, and moving on by entries of other streams. */
  lemma SuffixNear(
      tail: seq<Tail>, tail': seq<Tail>, h: History, pos: nat, high: nat, pos': nat, high': nat, stream: nat,
      limit: nat)
    requires pos <= high <= high' <= |h| && pos' <= high' && StreamCacheNear(tail, h, pos, high, stream, limit)
    requires |tail'| <= |tail| && tail' == tail[|tail| - |tail'|..]
    requires Count(h, pos', stream) == Count(h, pos, stream)
    ensures StreamCacheNear(tail', h, pos', high', stream, limit)
  {
    hide CachedNear, Count;
    forall k | 0 <= k < |tail'| ensures CachedNear(tail'[k], h, pos', high', stream, |tail'| - k) {
      var j := |tail| - |tail'| + k;
      NearGrows(tail[j], h, pos, high, stream, |tail| - j, pos', high', |tail'| - k);
    }
  }

  lemma AppliedNear(t: Table, h: History, pos: nat, high: nat)
    requires pos <= high <= |h| && pos < |h| && CacheNear(t, h, pos, high)
    ensures CacheNear(AppliedTable(t, h[pos]), h, pos + 1, Max(high, pos + 1))
  {
    hide StreamCacheNear, Newest, Count;
    var e, t', high' := h[pos], AppliedTable(t, h[pos]), Max(high, pos + 1);
    forall id: nat ensures StreamCacheNear(Get(t', id).tail, h, pos + 1, high', id, t'.limit) {
      var tail := Get(t, id).tail;
      assert StreamCacheNear(tail, h, pos, high, id, t.limit);
      if e.cmd.stream == id {
        PushNear(tail, h, pos, high, id, t.limit);
      } else {
        CountSame(h, pos, id);
        SuffixNear(tail, tail, h, pos, high, pos + 1, high', id, t.limit);
      }
    }
  }

  lemma CountSame(h: History, pos: nat, stream: nat)
    requires pos < |h| && h[pos].cmd.stream != stream
    ensures Count(h, pos + 1, stream) == Count(h, pos, stream)
  {
  }

  lemma AckedNear(t: Table, h: History, pos: nat, high: nat, stream: nat, lsn: nat)
    requires pos <= high <= |h| && CacheNear(t, h, pos, high)
    ensures CacheNear(Acked(t, stream, lsn), h, pos, high)
  {
    hide StreamCacheNear, Count;
    var t' := Acked(t, stream, lsn);
    forall id: nat ensures StreamCacheNear(Get(t', id).tail, h, pos, high, id, t'.limit) {
      assert StreamCacheNear(Get(t, id).tail, h, pos, high, id, t.limit);
      SuffixNear(Get(t, id).tail, Get(t', id).tail, h, pos, high, pos, high, id, t.limit);
    }
  }

  lemma SameTailsNear(t: Table, t': Table, h: History, pos: nat, high: nat)
    requires pos <= high <= |h| && CacheNear(t, h, pos, high) && t'.limit == t.limit
    requires forall id: nat :: Get(t', id).tail == Get(t, id).tail
    ensures CacheNear(t', h, pos, high)
  {
    hide StreamCacheNear;
    forall id: nat ensures StreamCacheNear(Get(t', id).tail, h, pos, high, id, t'.limit) {
      assert StreamCacheNear(Get(t, id).tail, h, pos, high, id, t.limit);
    }
  }

  // ---- recovery ----

  /** A record that recovery cached is that of an entry still to be delivered again. */
  ghost predicate StillToCome(x: Tail, h: History, pos: nat, high: nat, stream: nat)
    requires pos <= high <= |h|
  {
    exists i :: pos <= i < high && Writes(h[i], stream, x.lsn) && h[i].cmd.payload == x.payload
  }

  ghost predicate AllToCome(t: Table, h: History, pos: nat, high: nat)
    requires pos <= high <= |h|
  {
    forall id: nat :: |Get(t, id).tail| <= t.limit && forall x <- Get(t, id).tail :: StillToCome(x, h, pos, high, id)
  }

  lemma {:induction false} RecoveredToCome(
      t: Table, log: seq<Placed>, from: nat, h: History, pos: nat, high: nat)
    requires pos <= high <= |h| && LogKnown(log, h, high) && NoTails(t)
    requires forall i :: 0 <= i < pos ==> h[i].index <= from
    ensures AllToCome(ObserveLog(t, log, from), h, pos, high) && ObserveLog(t, log, from).limit == t.limit
  {
    hide Applied, Observed, Newest;
    if log != [] {
      var front, p := log[..|log| - 1], log[|log| - 1];
      RecoveredToCome(t, front, from, h, pos, high);
      if p.rec.entry > from {
        assert KnownRecord(h, high, p.rec);
        var i :| 0 <= i < high && RecordIs(p.rec, h[i]);
        var t1 := ObserveLog(t, front, from);
        ObservedIsApplied(t1, p.rec, h[i]);
        AppliedLimit(t1, h[i]);
        OneMoreToCome(t1, h, pos, high, i);
      }
    }
  }

  lemma OneMoreToCome(t: Table, h: History, pos: nat, high: nat, i: nat)
    requires pos <= i < high <= |h| && AllToCome(t, h, pos, high)
    ensures AllToCome(AppliedTable(t, h[i]), h, pos, high)
  {
    hide StillToCome;
    var t' := AppliedTable(t, h[i]);
    forall id: nat ensures |Get(t', id).tail| <= t'.limit {
      assert |Get(t, id).tail| <= t.limit;
    }
    forall id: nat, x | x in Get(t', id).tail ensures StillToCome(x, h, pos, high, id) {
      AppliedTail(t, h[i], id, x);
      IsToCome(h, pos, high, i);
    }
  }

  lemma IsToCome(h: History, pos: nat, high: nat, i: nat)
    requires pos <= i < high <= |h|
    ensures StillToCome(Tail(h[i].cmd.lsn, h[i].index, h[i].cmd.payload), h, pos, high, h[i].cmd.stream)
  {
  }

  lemma ToComeIsNear(t: Table, h: History, pos: nat, high: nat)
    requires pos <= high <= |h| && AllToCome(t, h, pos, high)
    ensures CacheNear(t, h, pos, high)
  {
    hide Count;
    forall id: nat ensures StreamCacheNear(Get(t, id).tail, h, pos, high, id, t.limit) {
      var tail := Get(t, id).tail;
      forall k | 0 <= k < |tail| ensures CachedNear(tail[k], h, pos, high, id, |tail| - k) {
        assert StillToCome(tail[k], h, pos, high, id);
        var i :| pos <= i < high && Writes(h[i], id, tail[k].lsn) && h[i].cmd.payload == tail[k].payload;
        CountGrows(h, pos, i, id);
        assert Near(tail[k], h, pos, id, |tail| - k, i);
      }
    }
  }

  // ---- every event ----

  lemma {:induction false} MoveKeepsCache(cfg: Config, h: History, w: World, ev: Event)
    requires Ready(cfg, w.s) && w.pos <= w.high <= |h| && StateGood(cfg, h, w)
    requires !ev.Restart? && Enabled(cfg, h, w, ev) && CacheNear(w.s.table, h, w.pos, w.high)
    ensures var w' := Step(cfg, h, w, ev);
            w'.pos <= w'.high <= |h| && CacheNear(w'.s.table, h, w'.pos, w'.high)
  {
    hide SnapshotGood, TailsGood, Covers, TableGood, AppliedBehind, CacheNear, GcSparing, SnapshotTaken,
      Allocate, Acked, AppliedTable, RollbackAll, AppendedWal, AckedOf, Usable;
    var t := w.s.table;
    match ev
    case ClientWrite(_, stream, epoch) =>
      AllocateTails(t, stream, epoch);
      SameTailsNear(t, Allocate(t, stream, epoch).0, h, w.pos, w.high);
    case ClientAck(stream, lsn) => AckedNear(t, h, w.pos, w.high, stream, lsn);
    case Apply(_, _) => AppliedNear(t, h, w.pos, w.high);
    case LoseLeadership(drained) =>
      forall p <- drained ensures p.lsn < U64_LIMIT {
        var id :| id in w.s.pending && w.s.pending[id] == p;
      }
      RollbackAllGood(t, drained, h, w.high, w.acked);
      SameTailsNear(t, RollbackAll(t, drained), h, w.pos, w.high);
    case TakeSnapshot(order) => TakenTable(w.s, order);
    case Collect(spared) => CollectedTable(w.s, spared);
    case _ =>
  }

  lemma {:induction false} StepKeepsCache(cfg: Config, h: History, w: World, ev: Event)
    requires Ready(cfg, w.s) && Inv(cfg, h, w) && Enabled(cfg, h, w, ev)
    requires w.pos <= w.high <= |h| && CacheNear(w.s.table, h, w.pos, w.high)
    ensures var w' := Step(cfg, h, w, ev);
            w'.pos <= w'.high <= |h| && CacheNear(w'.s.table, h, w'.pos, w'.high)
  {
    hide LogGood, StateGood, CacheNear, Ready, Enabled, Step;
    if ev.Restart? {
      RestartKeepsCache(cfg, h, w, ev);
    } else {
      MoveKeepsCache(cfg, h, w, ev);
    }
  }

  lemma AllocateTails(t: Table, stream: nat, epoch: nat)
    ensures var t' := Allocate(t, stream, epoch).0;
            t'.limit == t.limit && forall id: nat :: Get(t', id).tail == Get(t, id).tail
  {
  }

  lemma TakenTable(s: Shard, order: seq<nat>)
    requires Raft.Consecutive(s.raft.entries) && forall id <- order :: id in s.table.streams
    ensures SnapshotTaken(s, order).table == s.table
  {
  }

  lemma CollectedTable(s: Shard, spared: set<nat>)
    ensures GcSparing(s, spared).table == s.table
  {
  }

  lemma {:induction false} RecoveredCacheNear(
      cfg: Config, h: History, w: World, image: Files, pos: nat, high: nat, applied: nat, newTs: u64)
    requires Ready(cfg, w.s) && w.pos <= w.high <= high <= |h| && StateGood(cfg, h, w)
    requires LogKnown(DiskLog(cfg.crc, image), h, high) && RestartsAt(h, w, pos)
    ensures pos <= high && CacheNear(Recovered(cfg, image, w.s.raft, applied, newTs).table, h, pos, high)
  {
    hide DiskLog, TableGood, Usable, ObserveLog, IndexOf, CoversIndex, Snapshot.Decoded, Covers, TailsGood, CacheNear,
      LogKnown, NoTails, AllToCome, Reopened;
    var t0 := Snapshot.Decoded(cfg.tailLimit, w.s.raft.snap.data).table;
    RecoveredToCome(t0, DiskLog(cfg.crc, image), w.s.raft.snap.index, h, pos, high);
    ToComeIsNear(ObserveLog(t0, DiskLog(cfg.crc, image), w.s.raft.snap.index), h, pos, high);
  }

  lemma {:induction false} RestartKeepsCache(cfg: Config, h: History, w: World, ev: Event)
    requires Ready(cfg, w.s) && Inv(cfg, h, w) && ev.Restart? && Enabled(cfg, h, w, ev)
    ensures var w' := Step(cfg, h, w, ev);
            w'.pos <= w'.high <= |h| && CacheNear(w'.s.table, h, w'.pos, w'.high)
  {
    hide DiskLog, Tidy, SyncedOrBlank, IndexAgrees, ContentCurrent, StateGood, Usable, Recovered, CacheNear,
      FilesAtCrash, CleanFiles, LogKnown, RestartsAt, AppliedBehind;
    var w' := Step(cfg, h, w, ev);
    RestartKeepsLog(cfg, h, w, ev);
    RestartLog(cfg, h, w, ev);
    assert w'.s.wal.files == ev.image by { RecoveredFiles(cfg, ev.image, w.s.raft, ev.applied, ev.newTs); }
    RecoveredCacheNear(cfg, h, w, ev.image, ev.pos, w'.high, ev.applied, ev.newTs);
  }

  // ---- what a caught-up cache answers ----

  /** If rebindings are far apart, a cached record of a shard that is caught up carries what the map holds. */
  lemma {:induction false} NearIsContent(t: Table, h: History, n: nat, stream: nat, lsn: nat)
    requires n <= |h| && CacheNear(t, h, n, n) && RebindsFarApart(h, n, t.limit)
    requires FindTail(Get(t, stream).tail, lsn).Some?
    ensures var c := Content(h, n, stream, lsn);
            c.Some? && c.value.cmd.payload == FindTail(Get(t, stream).tail, lsn).value.payload
  {
    hide Count, LastWriter;
    var tail, x := Get(t, stream).tail, FindTail(Get(t, stream).tail, lsn).value;
    assert StreamCacheNear(tail, h, n, n, stream, t.limit);
    var k :| 0 <= k < |tail| && tail[k] == x;
    assert CachedNear(x, h, n, n, stream, |tail| - k);
    var i :| 0 <= i < n && Near(x, h, n, stream, |tail| - k, i);
    NoneLater(h, n, stream, lsn, i);
    var j := LastWriter(h, n, stream, lsn);
    if i < j {
      CountGrows(h, j, n, stream);
      assert !RebindsNear(h, t.limit, i, j);
    }
  }
}
