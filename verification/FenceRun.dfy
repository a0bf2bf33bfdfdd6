/** Who is granted a write, over whole runs of a shard: what the epoch fence of a stream is, and where it comes from. */
module FenceRun {
  import opened Bytes
  import opened Record
  import opened Scan
  import opened Log
  import opened Streams
  import opened Wal
  import opened History
  import opened Shard
  import opened LogInv
  import opened TableInv
  import opened ShardRun
  import opened Theorems
  import opened Guarantees
  import Raft = RaftStorage
  import Snapshot

  // ---- between restarts ----

  /** The epoch an event brings to a stream: that of a client's write, granted or not, or of the entry applied. */
  function Brought(h: History, w: World, ev: Event, stream: nat): nat {
    match ev
    case ClientWrite(_, s, epoch) => if s == stream then epoch else 0
    case Apply(_, _) => if w.pos < |h| && h[w.pos].cmd.stream == stream then h[w.pos].cmd.epoch else 0
    case _ => 0
  }

  /** The highest epoch that the events from i up to j brought. */
  function HighestBrought(h: History, ws: seq<World>, evs: seq<Event>, i: nat, j: nat, stream: nat): nat
    requires i <= j <= |evs| <= |ws|
    decreases j - i
  {
    if i == j then 0
    else
      var before, now := HighestBrought(h, ws, evs, i, j - 1, stream), Brought(h, ws[j - 1], evs[j - 1], stream);
      if before < now then now else before
  }

  lemma {:induction false} StepFence(cfg: Config, h: History, w: World, ev: Event, stream: nat)
    requires Ready(cfg, w.s) && Enabled(cfg, h, w, ev) && !ev.Restart?
    ensures var before, now := Get(w.s.table, stream).epoch, Brought(h, w, ev, stream);
            Get(Step(cfg, h, w, ev).s.table, stream).epoch == if before < now then now else before
  {
    hide Usable, AppendedWal, SyncCurrent, DropBelow, Newest, GcSparing, SnapshotTaken, RollbackAll,
      Raft.Consecutive, Snapshot.Decoded, AckedOf;
    match ev
    case LoseLeadership(drained) => RollbackKeepsFence(w.s.table, drained, stream);
    case TakeSnapshot(order) => TakenLeavesRest(w.s, order);
    case Collect(spared) => GcLeavesRest(w.s, spared);
    case _ =>
  }

  lemma {:induction false} RollbackKeepsFence(t: Table, ps: seq<Pending>, stream: nat)
    ensures Get(RollbackAll(t, ps), stream).epoch == Get(t, stream).epoch
  {
    if ps != [] {
      RollbackKeepsFence(t, ps[..|ps| - 1], stream);
    }
  }

  /** Between restarts the fence is the highest epoch brought since, or what it was if that is higher. */
  lemma {:induction false} FenceIsHighest(
      cfg: Config, h: History, ws: seq<World>, evs: seq<Event>, i: nat, j: nat, stream: nat)
    requires IsRun(cfg, h, ws, evs) && i <= j <= |evs| && NoRestart(evs, i, j)
    ensures var was, brought := Get(ws[i].s.table, stream).epoch, HighestBrought(h, ws, evs, i, j, stream);
            Get(ws[j].s.table, stream).epoch == if was < brought then brought else was
    decreases j - i
  {
    hide Step, Enabled, Ready, Brought;
    if i < j {
      FenceIsHighest(cfg, h, ws, evs, i, j - 1, stream);
      assert StepsTo(cfg, h, ws[j - 1], evs[j - 1], ws[j]);
      StepFence(cfg, h, ws[j - 1], evs[j - 1], stream);
    }
  }

  /**
   * A client's write is granted if and only if nothing since the last restart brought a higher epoch to its stream, and
   * the fence was not higher then; a refusal names the higher of the two.
   */
  lemma {:induction false} GrantedExactly(
      cfg: Config, h: History, ws: seq<World>, evs: seq<Event>, i: nat, j: nat)
    requires IsRun(cfg, h, ws, evs) && i <= j < |evs| && NoRestart(evs, i, j) && evs[j].ClientWrite?
    ensures var stream, epoch := evs[j].stream, evs[j].epoch;
            var was, brought := Get(ws[i].s.table, stream).epoch, HighestBrought(h, ws, evs, i, j, stream);
            && (Granted(ws[j], evs[j]) <==> was <= epoch && brought <= epoch)
            && (!Granted(ws[j], evs[j]) ==>
                  Allocate(ws[j].s.table, stream, epoch).1 == Stale(if was < brought then brought else was, epoch))
  {
    hide StepsTo, HighestBrought;
    FenceIsHighest(cfg, h, ws, evs, i, j, evs[j].stream);
  }

  // ---- across restarts ----

  /** The highest epoch of a stream's records in a log that are newer than the snapshot. */
  function HighestLogged(log: seq<Placed>, from: nat, stream: nat): nat {
    if log == [] then 0
    else
      var r, before := log[|log| - 1].rec, HighestLogged(log[..|log| - 1], from, stream);
      if r.stream == stream && r.entry > from && before < r.epoch then r.epoch else before
  }

  /** Recovery restores the fence from the snapshot and from the records of the log that are newer. */
  lemma {:induction false} RecoveredFence(t: Table, log: seq<Placed>, from: nat, stream: nat)
    ensures var was, logged := Get(t, stream).epoch, HighestLogged(log, from, stream);
            Get(ObserveLog(t, log, from), stream).epoch == if was < logged then logged else was
  {
    if log != [] {
      RecoveredFence(t, log[..|log| - 1], from, stream);
    }
  }

  /** A client's write among the first i events, or one of the first high entries, brought this epoch to the stream. */
  ghost predicate Caused(h: History, evs: seq<Event>, i: nat, high: nat, stream: nat, epoch: nat)
    requires i <= |evs| && high <= |h|
  {
    || epoch == 0
    || (exists k :: 0 <= k < i && evs[k].ClientWrite? && evs[k].stream == stream && evs[k].epoch == epoch)
    || (exists k :: 0 <= k < high && h[k].cmd.stream == stream && h[k].cmd.epoch == epoch)
  }

  ghost predicate TableCaused(h: History, evs: seq<Event>, i: nat, high: nat, t: Table)
    requires i <= |evs| && high <= |h|
  {
    forall id: nat :: Caused(h, evs, i, high, id, Get(t, id).epoch)
  }

  lemma CausedGrows(h: History, evs: seq<Event>, i: nat, high: nat, j: nat, high': nat, t: Table)
    requires i <= j <= |evs| && high <= high' <= |h| && TableCaused(h, evs, i, high, t)
    ensures TableCaused(h, evs, j, high', t)
  {
    forall id: nat ensures Caused(h, evs, j, high', id, Get(t, id).epoch) {
      assert Caused(h, evs, i, high, id, Get(t, id).epoch);
    }
  }

  lemma {:induction false} ObservedCaused(
      h: History, evs: seq<Event>, i: nat, high: nat, t: Table, log: seq<Placed>, from: nat)
    requires i <= |evs| && high <= |h| && TableCaused(h, evs, i, high, t) && LogKnown(log, h, high)
    ensures TableCaused(h, evs, i, high, ObserveLog(t, log, from))
  {
    hide Observed, AppliedTable;
    if log != [] {
      var front, r := log[..|log| - 1], log[|log| - 1].rec;
      ObservedCaused(h, evs, i, high, t, front, from);
      if r.entry > from {
        assert KnownRecord(h, high, r);
        var k :| 0 <= k < high && RecordIs(r, h[k]);
        ObservedIsApplied(ObserveLog(t, front, from), r, h[k]);
        AppliedCaused(h, evs, i, high, ObserveLog(t, front, from), k);
      }
    }
  }

  lemma AppliedCaused(h: History, evs: seq<Event>, i: nat, high: nat, t: Table, k: nat)
    requires i <= |evs| && k < high <= |h| && TableCaused(h, evs, i, high, t)
    ensures TableCaused(h, evs, i, high, AppliedTable(t, h[k]))
  {
    hide Newest;
    forall id: nat ensures Caused(h, evs, i, high, id, Get(AppliedTable(t, h[k]), id).epoch) {
      assert Caused(h, evs, i, high, id, Get(t, id).epoch);
    }
  }

  /** The fences in memory, and those in the stored snapshot, have their causes. */
  ghost predicate FencesCaused(cfg: Config, h: History, evs: seq<Event>, i: nat, w: World)
    requires i <= |evs|
  {
    var d := Snapshot.Decoded(cfg.tailLimit, w.s.raft.snap.data);
    && w.high <= |h| && TableCaused(h, evs, i, w.high, w.s.table)
    && d.Snapshot? && TableCaused(h, evs, i, w.high, d.table)
  }

  lemma {:induction false} StepCaused(cfg: Config, h: History, evs: seq<Event>, i: nat, w: World)
    requires i < |evs| && Ready(cfg, w.s) && Inv(cfg, h, w) && Enabled(cfg, h, w, evs[i])
    requires FencesCaused(cfg, h, evs, i, w)
    ensures FencesCaused(cfg, h, evs, i + 1, Step(cfg, h, w, evs[i]))
  {
    hide LogGood, StateGood, Caused, Usable, TableCaused, Enabled, Ready, Snapshot.Decoded;
    StepBounds(cfg, h, w, evs[i]);
    var ev, w' := evs[i], Step(cfg, h, w, evs[i]);
    var stored := Snapshot.Decoded(cfg.tailLimit, w.s.raft.snap.data).table;
    CausedGrows(h, evs, i, w.high, i + 1, w'.high, w.s.table);
    CausedGrows(h, evs, i, w.high, i + 1, w'.high, stored);
    if ev.Restart? {
      RestartCaused(cfg, h, evs, i, w);
    } else {
      MovedCaused(cfg, h, evs, i, w);
      if ev.TakeSnapshot? {
        TakenCaused(cfg, h, evs, i, w);
      } else {
        SnapshotKept(cfg, h, w, ev);
      }
    }
  }

  lemma {:induction false} StepBounds(cfg: Config, h: History, w: World, ev: Event)
    requires Ready(cfg, w.s) && Inv(cfg, h, w) && Enabled(cfg, h, w, ev)
    ensures w.pos <= w.high <= |h| && w.high <= Step(cfg, h, w, ev).high <= |h|
    ensures ev.Apply? ==> w.pos < Step(cfg, h, w, ev).high
  {
    hide LogGood, StateGood, Usable, ApplyEntry, LeaderWrite, SnapshotTaken, GcSparing, StepDown, Recovered,
      FilesAtCrash, RestartsAt, AppliedBehind;
  }

  lemma {:induction false} SnapshotKept(cfg: Config, h: History, w: World, ev: Event)
    requires Ready(cfg, w.s) && Enabled(cfg, h, w, ev) && !ev.TakeSnapshot?
    ensures Step(cfg, h, w, ev).s.raft.snap == w.s.raft.snap
  {
    hide Usable, AppendedWal, SyncCurrent, AppliedTable, Allocate, Acked, RollbackAll, Trimmed, Snapshot.Decoded,
      DiskLog, ObserveLog, IndexOf, Reopened, FilesAtCrash;
  }

  lemma {:induction false} MovedCaused(cfg: Config, h: History, evs: seq<Event>, i: nat, w: World)
    requires i < |evs| && Ready(cfg, w.s) && Enabled(cfg, h, w, evs[i]) && !evs[i].Restart?
    requires w.pos <= w.high <= Step(cfg, h, w, evs[i]).high <= |h|
    requires evs[i].Apply? ==> w.pos < Step(cfg, h, w, evs[i]).high
    requires TableCaused(h, evs, i + 1, Step(cfg, h, w, evs[i]).high, w.s.table)
    ensures TableCaused(h, evs, i + 1, Step(cfg, h, w, evs[i]).high, Step(cfg, h, w, evs[i]).s.table)
  {
    hide Step, Enabled, Ready;
    var w' := Step(cfg, h, w, evs[i]);
    forall id: nat ensures Caused(h, evs, i + 1, w'.high, id, Get(w'.s.table, id).epoch) {
      assert Caused(h, evs, i + 1, w'.high, id, Get(w.s.table, id).epoch);
      StepFence(cfg, h, w, evs[i], id);
    }
  }

  lemma {:induction false} TakenCaused(cfg: Config, h: History, evs: seq<Event>, i: nat, w: World)
    requires i < |evs| && Ready(cfg, w.s) && Inv(cfg, h, w) && Enabled(cfg, h, w, evs[i]) && evs[i].TakeSnapshot?
    requires w.high <= |h| && TableCaused(h, evs, i + 1, w.high, w.s.table)
    requires Snapshot.Decoded(cfg.tailLimit, w.s.raft.snap.data).Snapshot?
    requires TableCaused(h, evs, i + 1, w.high, Snapshot.Decoded(cfg.tailLimit, w.s.raft.snap.data).table)
    ensures var d := Snapshot.Decoded(cfg.tailLimit, Step(cfg, h, w, evs[i]).s.raft.snap.data);
            d.Snapshot? && TableCaused(h, evs, i + 1, w.high, d.table)
  {
    hide LogGood, Caused, Usable, Snapshot.Decoded, Bounded, ConsumedAcked, Covers, TailsGood, SnapshotGood,
      AppliedBehind, Raft.TermOf, Raft.Consecutive;
    var t, order := w.s.table, evs[i].order;
    Snapshot.RoundTrip(t, order, cfg.tailLimit);
    BareCaused(h, evs, i + 1, w.high, t, cfg.tailLimit);
  }

  lemma BareCaused(h: History, evs: seq<Event>, i: nat, high: nat, t: Table, limit: nat)
    requires i <= |evs| && high <= |h| && TableCaused(h, evs, i, high, t)
    ensures TableCaused(h, evs, i, high, Snapshot.Bare(t, limit))
  {
    hide Caused;
    forall id: nat ensures Caused(h, evs, i, high, id, Get(Snapshot.Bare(t, limit), id).epoch) {
      assert Caused(h, evs, i, high, id, Get(t, id).epoch);
    }
  }

  lemma {:induction false} RestartCaused(cfg: Config, h: History, evs: seq<Event>, i: nat, w: World)
    requires i < |evs| && Ready(cfg, w.s) && Inv(cfg, h, w) && Enabled(cfg, h, w, evs[i]) && evs[i].Restart?
    requires w.pos <= w.high <= Step(cfg, h, w, evs[i]).high <= |h|
    requires Snapshot.Decoded(cfg.tailLimit, w.s.raft.snap.data).Snapshot?
    requires var stored := Snapshot.Decoded(cfg.tailLimit, w.s.raft.snap.data).table;
             TableCaused(h, evs, i + 1, Step(cfg, h, w, evs[i]).high, stored)
    ensures var w' := Step(cfg, h, w, evs[i]);
            && TableCaused(h, evs, i + 1, w'.high, w'.s.table)
            && w'.s.raft == w.s.raft
  {
    hide TableCaused, StateGood, Usable, Snapshot.Decoded, DiskLog, ObserveLog, IndexOf, Reopened, FilesAtCrash, Tidy,
      SyncedOrBlank, IndexAgrees, ContentCurrent, LogKnown, CleanFiles, RestartsAt, AppliedBehind;
    var ev, w' := evs[i], Step(cfg, h, w, evs[i]);
    RestartKeepsLog(cfg, h, w, ev);
    RestartLog(cfg, h, w, ev);
    assert w'.s.wal.files == ev.image by { RecoveredFiles(cfg, ev.image, w.s.raft, ev.applied, ev.newTs); }
    var stored := Snapshot.Decoded(cfg.tailLimit, w.s.raft.snap.data).table;
    ObservedCaused(h, evs, i + 1, w'.high, stored, DiskLog(cfg.crc, ev.image), w.s.raft.snap.index);
  }

  /** No fence comes out of nothing, in any run from a fresh start, whatever restarts it goes through. */
  lemma {:induction false} RunCaused(
      cfg: Config, h: History, conf: Raft.ConfState, ts: u64, ws: seq<World>, evs: seq<Event>, i: nat)
    requires WithinLimits(h) && IsRun(cfg, h, ws, evs) && ws[0] == Start(cfg, conf, ts) && i <= |evs|
    ensures FencesCaused(cfg, h, evs, i, ws[i])
  {
    hide Inv, Step, Enabled, Ready, WithinLimits, FencesCaused, Start;
    if i == 0 {
      StartCaused(cfg, h, conf, ts, evs);
    } else {
      RunCaused(cfg, h, conf, ts, ws, evs, i - 1);
      StartGood(cfg, h, conf, ts);
      RunKeepsInv(cfg, h, ws, evs, i - 1);
      assert StepsTo(cfg, h, ws[i - 1], evs[i - 1], ws[i]);
      StepCaused(cfg, h, evs, i - 1, ws[i - 1]);
    }
  }

  lemma StartCaused(cfg: Config, h: History, conf: Raft.ConfState, ts: u64, evs: seq<Event>)
    ensures FencesCaused(cfg, h, evs, 0, Start(cfg, conf, ts))
  {
    hide FreshSegment;
  }

  /**
   * A write is refused only for cause: some earlier write of the run, or an entry that was applied, really had the
   * epoch that the refusal names, and it is higher.
   */
  lemma {:induction false} RefusedForCause(
      cfg: Config, h: History, conf: Raft.ConfState, ts: u64, ws: seq<World>, evs: seq<Event>, j: nat)
    requires WithinLimits(h) && IsRun(cfg, h, ws, evs) && ws[0] == Start(cfg, conf, ts) && j < |evs|
    requires evs[j].ClientWrite? && !Granted(ws[j], evs[j])
    ensures ws[j].high <= |h|
    ensures var fence := Get(ws[j].s.table, evs[j].stream).epoch;
            && fence > evs[j].epoch && Caused(h, evs, j, ws[j].high, evs[j].stream, fence)
            && Allocate(ws[j].s.table, evs[j].stream, evs[j].epoch).1 == Stale(fence, evs[j].epoch)
  {
    hide Start, WithinLimits, StepsTo, Caused;
    RunCaused(cfg, h, conf, ts, ws, evs, j);
  }
}
