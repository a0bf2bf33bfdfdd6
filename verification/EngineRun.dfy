/** The engine's methods move a shard only as the runs do: what holds in every reachable state holds of the engine. */
module EngineRun {
  import opened Bytes
  import opened Record
  import opened Segment
  import opened Scan
  import opened Log
  import opened Streams
  import opened Wal
  import opened History
  import opened Shard
  import opened LogInv
  import opened ShardRun
  import opened Theorems
  import Raft = RaftStorage
  import Snapshot
  import Leader
  import Engine

  /** How many of the first i entries of a batch carry a command. */
  function Commands(batch: seq<Engine.CommittedEntry>, i: nat): (n: nat)
    requires i <= |batch|
    ensures n <= i
  {
    if i == 0 then 0 else Commands(batch, i - 1) + if batch[i - 1].Normal? then 1 else 0
  }

  /** The commands of the batch are the next entries of the committed sequence. */
  ghost predicate Delivers(h: History, pos: nat, batch: seq<Engine.CommittedEntry>) {
    forall i :: 0 <= i < |batch| && batch[i].Normal? ==>
                  pos + Commands(batch, i) < |h| && batch[i].entry == h[pos + Commands(batch, i)]
  }

  lemma {:induction false} ApplyIsStep(
      cfg: Config, h: History, w: World, clock: (u64, u64), order: seq<nat>, s': Shard)
    returns (w': World)
    requires WithinLimits(h) && Reachable(cfg, h, w) && w.pos < |h| && Usable(w.s.wal)
    requires Engine.AppliesInOrder(ApplyEntry(cfg, w.s, h[w.pos], clock.0, clock.1), order, s')
    requires |s'.table.streams| < U32_LIMIT
    ensures Reachable(cfg, h, w') && w'.s == s' && w'.pos == w.pos + 1
  {
    hide Inv, Reachable, WithinLimits, Usable, ApplyEntry, Raft.Consecutive, Snapshot.IsOrder;
    var ev := Event.Apply(clock.0, clock.1);
    ReachableGood(cfg, h, w);
    InvReady(cfg, h, w);
    assert Enabled(cfg, h, w, ev);
    ReachableStep(cfg, h, w, ev);
    w' := Step(cfg, h, w, ev);
    if SnapshotDue(w'.s) {
      TakenLeavesTable(w'.s, order);
      assert Enabled(cfg, h, w', Event.TakeSnapshot(order));
      ReachableStep(cfg, h, w', Event.TakeSnapshot(order));
      w' := Step(cfg, h, w', Event.TakeSnapshot(order));
    }
  }

  lemma TakenLeavesTable(s: Shard, order: seq<nat>)
    requires Raft.Consecutive(s.raft.entries) && Snapshot.IsOrder(s.table, order)
    ensures SnapshotTaken(s, order).table == s.table
  {
  }

  /** Between any two entries of a batch the engine is in a reachable state. */
  lemma {:induction false} BatchIsRun(
      cfg: Config, h: History, w: World, batch: seq<Engine.CommittedEntry>, clock: seq<(u64, u64)>, states: seq<Shard>,
      i: nat)
    returns (w': World)
    requires WithinLimits(h) && Reachable(cfg, h, w) && Delivers(h, w.pos, batch)
    requires Engine.HandlesAll(cfg, states, batch, clock) && states[0] == w.s && i < |states|
    requires forall s <- states :: |s.table.streams| < U32_LIMIT
    ensures Reachable(cfg, h, w') && w'.s == states[i] && w'.pos == w.pos + Commands(batch, i)
  {
    hide Reachable, WithinLimits, Engine.AppliesInOrder, Usable, ApplyEntry;
    if i == 0 {
      w' := w;
    } else {
      w' := BatchIsRun(cfg, h, w, batch, clock, states, i - 1);
      var c, t := batch[i - 1], clock[i - 1];
      assert Engine.Handles(cfg, states[i - 1], c, t, states[i]);
      if c.Normal? {
        var order :| Engine.AppliesInOrder(ApplyEntry(cfg, w'.s, c.entry, t.0, t.1), order, states[i]);
        w' := ApplyIsStep(cfg, h, w', t, order, states[i]);
      }
    }
  }

  // ---- the index a batch leaves behind ----

  /** The Raft index of a committed entry, whatever it carries. */
  predicate HasIndex(c: Engine.CommittedEntry, index: nat) {
    match c
    case Normal(e) => e.index == index
    case Blank(i) => i == index
  }

  /** Indexes ascend within the batch, and from it to the entries of the committed sequence behind it. */
  ghost predicate Ascends(h: History, pos: nat, batch: seq<Engine.CommittedEntry>) {
    && (forall i, j, a: nat, b: nat ::
          0 <= i < j < |batch| && HasIndex(batch[i], a) && HasIndex(batch[j], b) ==> a < b)
    && (forall i, j, a: nat ::
          0 <= i < |batch| && HasIndex(batch[i], a) && pos + Commands(batch, |batch|) <= j < |h| ==> a < h[j].index)
  }

  /** Where the engine moves the applied index after a batch. */
  function MovedTo(applied: nat, batch: seq<Engine.CommittedEntry>): nat {
    if batch == [] then applied else Max(applied, Engine.IndexOfCommitted(batch[|batch| - 1]))
  }

  /**
   * The applied index moves to the last entry of the batch or stays where it was beyond it: no entry of the batch is
   * above it, every entry of the sequence up to it has been applied, and it does not move without an entry there.
   */
  lemma {:induction false} MovesBehindBatch(h: History, pos: nat, applied: nat, batch: seq<Engine.CommittedEntry>)
    requires AppliedBehind(h, applied, pos) && Ascends(h, pos, batch)
    ensures var moved := MovedTo(applied, batch);
            && AppliedBehind(h, moved, pos + Commands(batch, |batch|))
            && applied <= moved
            && (forall i, a: nat :: 0 <= i < |batch| && HasIndex(batch[i], a) ==> a <= moved)
            && (moved == applied || exists i :: 0 <= i < |batch| && HasIndex(batch[i], moved))
  {
    if batch != [] {
      var last := batch[|batch| - 1];
      assert HasIndex(last, Engine.IndexOfCommitted(last));
    }
  }

  /** Handling entries leaves the applied index alone. */
  lemma {:induction false} HandlingKeepsApplied(
      cfg: Config, batch: seq<Engine.CommittedEntry>, clock: seq<(u64, u64)>, states: seq<Shard>, i: nat)
    requires Engine.HandlesAll(cfg, states, batch, clock) && i < |states|
    ensures states[i].applied == states[0].applied
  {
    hide Engine.Handles;
    if i > 0 {
      HandlingKeepsApplied(cfg, batch, clock, states, i - 1);
      assert Engine.Handles(cfg, states[i - 1], batch[i - 1], clock[i - 1], states[i]);
      HandledKeepsApplied(cfg, states[i - 1], batch[i - 1], clock[i - 1], states[i]);
    }
  }

  lemma HandledKeepsApplied(cfg: Config, s: Shard, c: Engine.CommittedEntry, clock: (u64, u64), s': Shard)
    requires Engine.Handles(cfg, s, c, clock, s')
    ensures s'.applied == s.applied
  {
    hide Raft.SnapshotCreated, Raft.CompactedTo, Snapshot.IsOrder, Usable, AppendedWal, SyncCurrent;
  }

  /** A whole batch, with the applied index moved to where the engine moves it, leaves it in a reachable state. */
  lemma {:induction false} BatchStaysReachable(
      cfg: Config, h: History, w: World, batch: seq<Engine.CommittedEntry>, clock: seq<(u64, u64)>, states: seq<Shard>)
    returns (w': World)
    requires WithinLimits(h) && Reachable(cfg, h, w) && Delivers(h, w.pos, batch) && Ascends(h, w.pos, batch)
    requires Engine.HandlesAll(cfg, states, batch, clock) && states[0] == w.s && |states| == |batch| + 1
    requires forall s <- states :: |s.table.streams| < U32_LIMIT
    ensures Reachable(cfg, h, w') && w'.pos == w.pos + Commands(batch, |batch|)
    ensures w'.s == states[|batch|].(applied := MovedTo(w.s.applied, batch))
  {
    hide Reachable, LogGood, WithinLimits, Engine.HandlesAll, Usable, Ascends, AppliedBehind, MovedTo, Delivers;
    ReachableGood(cfg, h, w);
    MovesBehindBatch(h, w.pos, w.s.applied, batch);
    w' := BatchIsRun(cfg, h, w, batch, clock, states, |batch|);
    w' := AdvanceStaysReachable(cfg, h, w', MovedTo(w.s.applied, batch));
  }

  lemma {:induction false} AdvanceStaysReachable(cfg: Config, h: History, w: World, applied: nat) returns (w': World)
    requires WithinLimits(h) && Reachable(cfg, h, w) && AppliedBehind(h, applied, w.pos)
    ensures Reachable(cfg, h, w') && w'.s == w.s.(applied := applied) && w'.pos == w.pos
  {
    hide Reachable, Inv, WithinLimits, Ready, AppliedBehind;
    w' := EventStaysReachable(cfg, h, w, Event.Advance(applied));
  }

  /** A client's write leaves it in a reachable state. */
  lemma WriteStaysReachable(cfg: Config, h: History, w: World, conn: nat, stream: u64, epoch: u64) returns (w': World)
    requires WithinLimits(h) && Reachable(cfg, h, w) && Get(w.s.table, stream).next + 1 < U64_LIMIT
    ensures Reachable(cfg, h, w') && w'.s == LeaderWrite(w.s, conn, stream, epoch) && w'.pos == w.pos
  {
    hide Reachable, Inv, WithinLimits, Ready, LeaderWrite;
    w' := EventStaysReachable(cfg, h, w, Event.ClientWrite(conn, stream, epoch));
  }

  lemma AckStaysReachable(cfg: Config, h: History, w: World, stream: u64, lsn: u64) returns (w': World)
    requires WithinLimits(h) && Reachable(cfg, h, w)
    ensures Reachable(cfg, h, w') && w'.s == w.s.(table := Acked(w.s.table, stream, lsn)) && w'.pos == w.pos
  {
    hide Reachable, Inv, WithinLimits, Ready, Acked;
    w' := EventStaysReachable(cfg, h, w, Event.ClientAck(stream, lsn));
  }

  lemma GcStaysReachable(cfg: Config, h: History, w: World) returns (w': World)
    requires WithinLimits(h) && Reachable(cfg, h, w)
    ensures Reachable(cfg, h, w') && w'.s == Gc(w.s) && w'.pos == w.pos
  {
    hide Reachable, Inv, WithinLimits, Ready, GcSparing;
    w' := EventStaysReachable(cfg, h, w, Event.Collect({}));
  }

  /** So does stepping down, in the order in which the pending writes are drained and sorted. */
  lemma StepDownStaysReachable(cfg: Config, h: History, w: World, ids: seq<nat>, ps: seq<Pending>) returns (w': World)
    requires WithinLimits(h) && Reachable(cfg, h, w) && Leader.SortedDrain(w.s.pending, ids, ps)
    ensures Reachable(cfg, h, w') && w'.s == StepDown(w.s, ps) && w'.pos == w.pos
  {
    hide Reachable, Inv, WithinLimits, Ready, StepDown;
    forall p <- ps ensures p in w.s.pending.Values {
      var i :| 0 <= i < |ps| && ps[i] == p;
      assert w.s.pending[ids[i]] == p;
    }
    w' := EventStaysReachable(cfg, h, w, Event.LoseLeadership(ps));
  }

  lemma EventStaysReachable(cfg: Config, h: History, w: World, ev: Event) returns (w': World)
    requires WithinLimits(h) && Reachable(cfg, h, w)
    requires Ready(cfg, w.s) ==> Enabled(cfg, h, w, ev)
    ensures Ready(cfg, w.s) && Reachable(cfg, h, w') && w' == Step(cfg, h, w, ev)
  {
    hide Reachable, Inv, WithinLimits, Enabled, Step, Ready;
    ReachableGood(cfg, h, w);
    InvReady(cfg, h, w);
    ReachableStep(cfg, h, w, ev);
    w' := Step(cfg, h, w, ev);
  }

  /**
   * Restarting: the engine opens what the crash left, for neither of the two ways in which opening can fail happens,
   * and what it opens is in a reachable state.
   */
  lemma {:induction false} RestartStaysReachable(cfg: Config, h: History, w: World, ev: Event) returns (w': World)
    requires WithinLimits(h) && Reachable(cfg, h, w) && ev.Restart?
    requires Ready(cfg, w.s) ==> Enabled(cfg, h, w, ev)
    ensures FirstFault(cfg.crc, ev.image, Ids(ev.image.Keys)) == NoFault && OlderSynced(ev.image)
    ensures Snapshot.Decoded(cfg.tailLimit, w.s.raft.snap.data).Snapshot?
    ensures Reachable(cfg, h, w') && w'.pos == ev.pos
    ensures w'.s == Recovered(cfg, ev.image, w.s.raft, ev.applied, ev.newTs)
  {
    hide Reachable, Inv, WithinLimits, FirstFault, Recovered, CleanFile, CrashImage, AllSynced, OlderSynced,
      Snapshot.Decoded, RestartsAt, AppliedBehind, Usable, SameOrOneMore;
    ReachableGood(cfg, h, w);
    InvReady(cfg, h, w);
    RestartLog(cfg, h, w, ev);
    AllSyncedOlder(ev.image);
    CleanOpens(cfg.crc, ev.image);
    w' := EventStaysReachable(cfg, h, w, ev);
  }

  lemma CleanOpens(crc: Crc, files: Files)
    requires CleanFiles(crc, files)
    ensures FirstFault(crc, files, Ids(files.Keys)) == NoFault
  {
    hide FirstFault, ScanEnd, DecodeHeader, HeaderAccepted;
    forall id <- Ids(files.Keys) ensures id in files && FileFault(crc, files[id]) == NoFault {
      assert CleanFile(crc, files[id]);
    }
    NoFaults(crc, files, Ids(files.Keys));
  }

  // ---- a client that is answered for another's write ----

  /** One committed entry, proposed by an earlier leader: its first request, a write to stream 7. */
  function Inherited(): History {
    [Entry(2, Command(1, 7, 0, 0, [42]))]
  }

  /**
   * A reachable state, under any configuration, in which applying the next committed entry, a write to stream 7,
   * answers connection 9 Ok for its write to stream 8, of which nothing is committed.
   */
  lemma {:induction false} StrangerIsAnswered(cfg: Config, conf: Raft.ConfState, ts: u64) returns (w: World)
    ensures var h := Inherited();
            && WithinLimits(h) && Reachable(cfg, h, w) && w.pos == 0
            && w.s.pending == map[1 := Pending(9, 8, 1, 0)]
            && Engine.PendingReply(w.s.pending, h[0]) == [Engine.Response(9, Engine.Ok, 1, 0, [])]
            && Get(AppliedTable(w.s.table, h[0]), 8).commit == 0
  {
    hide Reachable, Inv, WithinLimits, Ready, Usable;
    var h, w0 := Inherited(), Start(cfg, conf, ts);
    InheritedFits();
    StartReachable(cfg, h, conf, ts);
    w := WriteStaysReachable(cfg, h, w0, 9, 8, 1);
    Engine.InheritedEntryAnswersStranger(w0.s, 9, 8, 1, h[0]);
  }

  lemma InheritedFits()
    ensures WithinLimits(Inherited())
  {
    assert EntryWithinLimits(Inherited()[0]);
  }

  // ---- what a client is told about a read ----

  /** Nothing at or above a stream's committed mark is ever answered, whatever cache, index and disk hold. */
  lemma UncommittedIsNotRead(cfg: Config, s: Shard, stream: nat, lsn: nat)
    requires stream in s.table.streams && Get(s.table, stream).commit <= lsn
    ensures Read(cfg, s, stream, lsn) == Missing(Get(s.table, stream).epoch)
  {
  }

  /** Ok if and only if there is an answer, to the connection that asked, about the LSN it asked for. */
  lemma ReplyIsTrue(conn: nat, lsn: nat, r: Reply)
    ensures var p := Engine.ReplyTo(conn, lsn, r);
            && p.conn == conn
            && match r
               case Answer(epoch, at, payload) =>
                 p.status == Engine.Ok && p.epoch == epoch && p.offset == at && p.payload == payload
               case Missing(epoch) =>
                 p.status == Engine.ErrNotFound && p.epoch == epoch && p.offset == lsn && p.payload == []
  {
  }

  /**
   * The response to a read on a caught-up leader, at or above the acknowledgements: not found, with the stream's
   * epoch, if the map has nothing there; else Ok with the entry's payload, and with the epoch of the entry, or of the
   * stream if the answer came from the cache.
   */
  lemma {:induction false} ReadIsTold(cfg: Config, h: History, w: World, conn: nat, stream: nat, lsn: nat)
    requires WithinLimits(h) && Reachable(cfg, h, w) && CaughtUp(w) && lsn >= AckedOf(w.acked, stream)
    requires RebindsFarApart(h, w.high, cfg.tailLimit) || FindTail(Get(w.s.table, stream).tail, lsn).None?
    ensures w.high <= |h|
    ensures var p := Engine.ReplyTo(conn, lsn, Read(cfg, w.s, stream, lsn));
            && p.conn == conn && p.offset == lsn
            && match Content(h, w.high, stream, lsn)
               case None =>
                 p.status == Engine.ErrNotFound && p.payload == [] && p.epoch == Get(w.s.table, stream).epoch
               case Some(e) =>
                 && p.status == Engine.Ok && p.payload == e.cmd.payload
                 && p.epoch == if FindTail(Get(w.s.table, stream).tail, lsn).Some? then Get(w.s.table, stream).epoch
                               else e.cmd.epoch
  {
    hide Inv, DiskLog, ReadRecordResult, Last, Reachable, RebindsFarApart, Content, AckedOf, FindTail, WithinLimits;
    ReachableGood(cfg, h, w);
    MapIsOnDisk(cfg, h, w, stream, lsn);
    ColdRead(cfg, h, w, stream, lsn);
    ReadsAreTheMap(cfg, h, w, stream, lsn);
    ReplyIsTrue(conn, lsn, Read(cfg, w.s, stream, lsn));
  }
}
