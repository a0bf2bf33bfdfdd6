/** A leader's runs are runs of its shard, and what its engine does for a client or an entry is a leader's step. */
module LeaderRun {
  import opened Bytes
  import opened Streams
  import opened Wal
  import opened History
  import opened Shard
  import opened LogInv
  import opened ShardRun
  import opened Theorems
  import Raft = RaftStorage
  import Snapshot
  import L = Leader
  import Engine
  import opened EngineRun

  /**
   * The event fits the committed sequence: the entry that commits a leader's oldest proposal is the next one, and the
   * applied index moves only behind what has been applied.
   */
  ghost predicate Fitting(h: History, pos: nat, l: L.Leader, ev: L.Event) {
    && (ev.CommitNext? && l.queue != [] ==> pos < |h| && h[pos] == Entry(ev.index, l.queue[0]))
    && (ev.Advance? ==> AppliedBehind(h, ev.applied, pos))
  }

  ghost predicate RunFits(h: History, pos: nat, ls: seq<L.Leader>, evs: seq<L.Event>)
    requires |ls| == |evs| + 1
  {
    forall k :: 0 <= k < |evs| ==> Fitting(h, pos + Commits(evs, k), ls[k], evs[k])
  }

  function Moved(ev: L.Event): nat {
    if ev.CommitNext? then 1 else 0
  }

  function AsEvent(ev: L.Event): Event {
    match ev
    case Propose(conn, stream, epoch, _) => ClientWrite(conn, stream, epoch)
    case CommitNext(_, ts, headerTs) => Apply(ts, headerTs)
    case Acknowledge(stream, lsn) => ClientAck(stream, lsn)
    case Collect => Event.Collect({})
    case TakeSnapshot(order) => Event.TakeSnapshot(order)
    case Advance(applied) => Event.Advance(applied)
    case RaftChange(raft) => Event.RaftChange(raft)
  }

  /** Every step of a leader is a step of its shard. */
  lemma {:induction false} StepStaysReachable(cfg: Config, h: History, w: World, l: L.Leader, ev: L.Event)
    returns (w': World)
    requires WithinLimits(h) && Reachable(cfg, h, w) && w.s == l.s
    requires L.Enabled(l, ev) && Fitting(h, w.pos, l, ev)
    ensures Reachable(cfg, h, w') && w'.s == L.Step(cfg, l, ev).s && w'.pos == w.pos + Moved(ev)
    ensures w'.high == Max(w.high, w'.pos)
  {
    hide Reachable, Inv, WithinLimits, Usable, Allocate, Acked, GcSparing, SnapshotTaken, ApplyEntry,
      Snapshot.IsOrder, Raft.Consecutive;
    var step := AsEvent(ev);
    ReachableGood(cfg, h, w);
    InvReady(cfg, h, w);
    assert Enabled(cfg, h, w, step);
    ReachableStep(cfg, h, w, step);
    w' := Step(cfg, h, w, step);
  }

  /** How many of the first i events commit a proposal. */
  function Commits(evs: seq<L.Event>, i: nat): nat
    requires i <= |evs|
  {
    if i == 0 then 0 else Commits(evs, i - 1) + Moved(evs[i - 1])
  }

  /** From a reachable state, a leader that gets its own proposals back in order stays in reachable states. */
  lemma {:induction false} RunStaysReachable(
      cfg: Config, h: History, w: World, ls: seq<L.Leader>, evs: seq<L.Event>, i: nat)
    returns (w': World)
    requires WithinLimits(h) && Reachable(cfg, h, w) && L.IsRun(cfg, ls, evs) && ls[0].s == w.s && i <= |evs|
    requires RunFits(h, w.pos, ls, evs)
    ensures Reachable(cfg, h, w') && w'.s == ls[i].s && w'.pos == w.pos + Commits(evs, i)
    ensures w'.pos <= w'.high == Max(w.high, w'.pos) <= |h|
  {
    hide Reachable, WithinLimits, L.Enabled, L.Step, Fitting, Inv;
    w' := w;
    ReachableGood(cfg, h, w);
    if i > 0 {
      w' := RunStaysReachable(cfg, h, w, ls, evs, i - 1);
      assert L.StepsTo(cfg, ls[i - 1], evs[i - 1], ls[i]);
      w' := StepStaysReachable(cfg, h, w', ls[i - 1], evs[i - 1]);
      ReachableGood(cfg, h, w');
    }
  }

  // ---- in sequence ----

  /** The commit that comes back to a caught-up leader takes the LSN right above all earlier ones of its stream. */
  lemma {:induction false} CommitIsInSequence(cfg: Config, h: History, w: World, l: L.Leader, ev: L.Event)
    requires WithinLimits(h) && Reachable(cfg, h, w) && CaughtUp(w) && w.s == l.s && L.Inv(l)
    requires ev.CommitNext? && L.Enabled(l, ev) && Fitting(h, w.pos, l, ev)
    ensures w.pos < |h| && h[w.pos].cmd.lsn == Peak(h, w.pos, h[w.pos].cmd.stream, ByLsn)
  {
    hide Reachable, WithinLimits, L.Inv, Peak, Usable;
    CaughtUpMarks(cfg, h, w, h[w.pos].cmd.stream);
    L.HeadIsNext(l);
  }

  /**
   * The entries that a caught-up leader commits carry the LSNs of each stream in order, without a gap and without
   * repetition.
   */
  lemma {:induction false} CommitsAreInSequence(
      cfg: Config, h: History, w: World, ls: seq<L.Leader>, evs: seq<L.Event>, i: nat)
    returns (w': World)
    requires WithinLimits(h) && Reachable(cfg, h, w) && L.IsRun(cfg, ls, evs) && ls[0].s == w.s && i <= |evs|
    requires RunFits(h, w.pos, ls, evs)
    requires CaughtUp(w) && L.Inv(ls[0])
    ensures Reachable(cfg, h, w') && w'.s == ls[i].s && w'.pos == w.pos + Commits(evs, i)
    ensures CaughtUp(w') && w'.pos <= |h| && InSequence(h, w.pos, w'.pos)
  {
    hide Reachable, WithinLimits, L.StepsTo, L.Enabled, L.Inv, Fitting, Peak, Inv, L.IsRun, RunFits, InSequence;
    RunLengths(cfg, ls, evs);
    w' := RunStaysReachable(cfg, h, w, ls, evs, i);
    NothingInSequence(h, w.pos);
    if i > 0 {
      var v := CommitsAreInSequence(cfg, h, w, ls, evs, i - 1);
      RunStep(cfg, h, w.pos, ls, evs, i - 1);
      if evs[i - 1].CommitNext? {
        L.RunKeepsInv(cfg, ls, evs, i - 1);
        StepIsEnabled(cfg, ls[i - 1], evs[i - 1], ls[i]);
        CommitIsInSequence(cfg, h, v, ls[i - 1], evs[i - 1]);
        OneMoreInSequence(h, w.pos, v.pos);
      }
    }
  }

  lemma RunStep(cfg: Config, h: History, pos: nat, ls: seq<L.Leader>, evs: seq<L.Event>, k: nat)
    requires L.IsRun(cfg, ls, evs) && RunFits(h, pos, ls, evs) && k < |evs|
    ensures L.StepsTo(cfg, ls[k], evs[k], ls[k + 1]) && Fitting(h, pos + Commits(evs, k), ls[k], evs[k])
  {
    hide L.StepsTo, Fitting, Commits;
  }

  lemma StepIsEnabled(cfg: Config, l: L.Leader, ev: L.Event, l': L.Leader)
    requires L.StepsTo(cfg, l, ev, l')
    ensures L.Enabled(l, ev)
  {
  }

  lemma NothingInSequence(h: History, pos: nat)
    requires pos <= |h|
    ensures InSequence(h, pos, pos)
  {
  }

  lemma OneMoreInSequence(h: History, from: nat, n: nat)
    requires from <= n < |h| && InSequence(h, from, n)
    requires h[n].cmd.lsn == Peak(h, n, h[n].cmd.stream, ByLsn)
    ensures InSequence(h, from, n + 1)
  {
    hide Peak;
  }

  /**
   * So reads in a run of such leaders need no hypothesis on the sequence: if they start where rebindings were far
   * apart, as on a fresh shard, every read at or above the acknowledgements answers as the map does at every step.
   */
  lemma {:induction false} LeaderReadsAreTheMap(
      cfg: Config, h: History, w: World, ls: seq<L.Leader>, evs: seq<L.Event>, i: nat, stream: nat, lsn: nat)
    returns (w': World)
    requires WithinLimits(h) && Reachable(cfg, h, w) && L.IsRun(cfg, ls, evs) && ls[0].s == w.s && i <= |evs|
    requires RunFits(h, w.pos, ls, evs)
    requires CaughtUp(w) && L.Inv(ls[0]) && RebindsFarApart(h, w.pos, cfg.tailLimit)
    ensures Reachable(cfg, h, w') && w'.s == ls[i].s && CaughtUp(w') && w'.high <= |h|
    ensures RebindsFarApart(h, w'.high, cfg.tailLimit)
    ensures lsn >= AckedOf(w'.acked, stream) ==> AnswersAsMap(cfg, h, w', stream, lsn)
  {
    hide Reachable, WithinLimits, L.IsRun, L.Inv, RunFits, RebindsFarApart, InSequence, AckedOf,
      Content, Read;
    w' := CommitsAreInSequence(cfg, h, w, ls, evs, i);
    SequencedIsFarApart(h, w.pos, w'.pos, cfg.tailLimit);
    if lsn >= AckedOf(w'.acked, stream) {
      ReadsAreTheMap(cfg, h, w', stream, lsn);
    }
  }

  /** A fresh shard is such a start. */
  lemma FreshLeader(cfg: Config, h: History, conf: Raft.ConfState, ts: u64)
    ensures var w := Start(cfg, conf, ts);
            CaughtUp(w) && L.Inv(L.Leader(w.s, [])) && RebindsFarApart(h, w.pos, cfg.tailLimit)
  {
    hide FreshSegment, Raft.Bootstrap, L.Inv;
    L.StartGood(L.Leader(Start(cfg, conf, ts).s, []));
  }

  /**
   * What the engine's write does, told by its contract, is the leader's proposal, with the proposals it handed to
   * Raft as the queue.
   */
  lemma WriteIsPropose(
      cfg: Config, l: L.Leader, conn: nat, stream: u64, epoch: u64, payload: seq<byte>, s': Shard,
      queue': seq<Command>)
    requires L.Enabled(l, L.Propose(conn, stream, epoch, payload))
    requires s' == LeaderWrite(l.s, conn, stream, epoch)
    requires match Allocate(l.s.table, stream, epoch).1
             case Stale(_, _) => queue' == l.queue
             case Allocated(lsn) => queue' == l.queue + [Command(l.s.requests + 1, stream, epoch, lsn, payload)]
    ensures L.Leader(s', queue') == L.Step(cfg, l, L.Propose(conn, stream, epoch, payload))
  {
  }

  // ---- batches ----

  /** A run, and one more step of it. */
  lemma {:induction false} OneMoreStep(
      cfg: Config, h: History, pos: nat, ls: seq<L.Leader>, evs: seq<L.Event>, ev: L.Event, l': L.Leader)
    requires L.IsRun(cfg, ls, evs) && RunFits(h, pos, ls, evs)
    requires L.StepsTo(cfg, ls[|evs|], ev, l') && Fitting(h, pos + Commits(evs, |evs|), ls[|evs|], ev)
    ensures L.IsRun(cfg, ls + [l'], evs + [ev]) && RunFits(h, pos, ls + [l'], evs + [ev])
    ensures Commits(evs + [ev], |evs| + 1) == Commits(evs, |evs|) + Moved(ev)
  {
    hide L.StepsTo, Fitting, L.IsRun, RunFits, Commits;
    RunLengths(cfg, ls, evs);
    CommitsOfAll(evs, ev);
    OneMoreRuns(cfg, ls, evs, ev, l');
    OneMoreFits(h, pos, ls, evs, ev, l');
  }

  lemma {:induction false} OneMoreRuns(
      cfg: Config, ls: seq<L.Leader>, evs: seq<L.Event>, ev: L.Event, l': L.Leader)
    requires L.IsRun(cfg, ls, evs) && L.StepsTo(cfg, ls[|evs|], ev, l')
    ensures L.IsRun(cfg, ls + [l'], evs + [ev])
  {
    hide L.StepsTo;
    var ls', evs' := ls + [l'], evs + [ev];
    forall k | 0 <= k < |evs'| ensures L.StepsTo(cfg, ls'[k], evs'[k], ls'[k + 1]) {
      if k < |evs| {
        assert L.StepsTo(cfg, ls[k], evs[k], ls[k + 1]);
      }
    }
  }

  lemma {:induction false} OneMoreFits(
      h: History, pos: nat, ls: seq<L.Leader>, evs: seq<L.Event>, ev: L.Event, l': L.Leader)
    requires |ls| == |evs| + 1 && RunFits(h, pos, ls, evs)
    requires Fitting(h, pos + Commits(evs, |evs|), ls[|evs|], ev)
    ensures RunFits(h, pos, ls + [l'], evs + [ev])
  {
    hide Fitting, Commits;
    var ls', evs' := ls + [l'], evs + [ev];
    forall k | 0 <= k < |evs'| ensures Fitting(h, pos + Commits(evs', k), ls'[k], evs'[k]) {
      CommitsOfFront(evs, ev, k);
      if k < |evs| {
        assert Fitting(h, pos + Commits(evs, k), ls[k], evs[k]);
      }
    }
  }

  lemma CommitsOfAll(evs: seq<L.Event>, ev: L.Event)
    ensures Commits(evs + [ev], |evs| + 1) == Commits(evs, |evs|) + Moved(ev)
  {
    CommitsOfFront(evs, ev, |evs|);
  }

  lemma {:induction false} CommitsOfFront(evs: seq<L.Event>, ev: L.Event, k: nat)
    requires k <= |evs|
    ensures Commits(evs + [ev], k) == Commits(evs, k)
  {
    if k > 0 {
      CommitsOfFront(evs, ev, k - 1);
    }
  }

  /** What the engine does for a committed entry of its own is one step of the leader, or two with a snapshot. */
  lemma {:induction false} HandledIsCommit(
      cfg: Config, h: History, pos: nat, ls: seq<L.Leader>, evs: seq<L.Event>, index: u64, clock: (u64, u64), s': Shard)
    returns (ls': seq<L.Leader>, evs': seq<L.Event>)
    requires L.IsRun(cfg, ls, evs) && RunFits(h, pos, ls, evs) && ls[|evs|].queue != []
    requires |s'.table.streams| < U32_LIMIT
    requires Engine.Handles(cfg, ls[|evs|].s, Engine.Normal(Entry(index, ls[|evs|].queue[0])), clock, s')
    requires Fitting(h, pos + Commits(evs, |evs|), ls[|evs|], L.CommitNext(index, clock.0, clock.1))
    ensures L.IsRun(cfg, ls', evs') && RunFits(h, pos, ls', evs') && ls' != [] && ls'[0] == ls[0]
    ensures ls'[|evs'|] == L.Leader(s', ls[|evs|].queue[1..])
    ensures Commits(evs', |evs'|) == Commits(evs, |evs|) + 1
  {
    hide ApplyEntry, Usable, Snapshot.IsOrder, Raft.Consecutive, L.IsRun, RunFits, Commits;
    RunLengths(cfg, ls, evs);
    var l := ls[|evs|];
    var e := Entry(index, l.queue[0]);
    var s := ApplyEntry(cfg, l.s, e, clock.0, clock.1);
    var order :| Engine.AppliesInOrder(s, order, s');
    var commit, l1 := L.CommitNext(index, clock.0, clock.1), L.Leader(s, l.queue[1..]);
    assert L.StepsTo(cfg, l, commit, l1);
    OneMoreStep(cfg, h, pos, ls, evs, commit, l1);
    ls', evs' := ls + [l1], evs + [commit];
    if SnapshotDue(s) {
      TakenTable(s, order);
      var snap, l2 := L.TakeSnapshot(order), L.Leader(s', l.queue[1..]);
      assert L.StepsTo(cfg, l1, snap, l2);
      OneMoreStep(cfg, h, pos, ls', evs', snap, l2);
      ls', evs' := ls' + [l2], evs' + [snap];
    }
  }

  lemma RunLengths(cfg: Config, ls: seq<L.Leader>, evs: seq<L.Event>)
    requires L.IsRun(cfg, ls, evs)
    ensures |ls| == |evs| + 1
  {
  }

  lemma TakenTable(s: Shard, order: seq<nat>)
    requires Raft.Consecutive(s.raft.entries) && Snapshot.IsOrder(s.table, order)
    ensures SnapshotTaken(s, order).table == s.table
  {
  }

  /** The commands of the batch are the oldest proposals of the queue. */
  ghost predicate OwnBatch(batch: seq<Engine.CommittedEntry>, queue: seq<Command>) {
    forall i :: 0 <= i < |batch| && batch[i].Normal? ==>
                  Commands(batch, i) < |queue| && batch[i].entry.cmd == queue[Commands(batch, i)]
  }

  /** Up to each entry of a batch of its own proposals the engine makes a run of the leader. */
  lemma {:induction false} BatchPrefixIsRun(
      cfg: Config, h: History, pos: nat, l: L.Leader, batch: seq<Engine.CommittedEntry>, clock: seq<(u64, u64)>,
      states: seq<Shard>, i: nat)
    returns (ls: seq<L.Leader>, evs: seq<L.Event>)
    requires Engine.HandlesAll(cfg, states, batch, clock) && states[0] == l.s && i < |states|
    requires OwnBatch(batch, l.queue) && Delivers(h, pos, batch)
    requires forall s <- states :: |s.table.streams| < U32_LIMIT
    ensures L.IsRun(cfg, ls, evs) && RunFits(h, pos, ls, evs) && ls != [] && ls[0] == l
    ensures Commands(batch, i) <= |l.queue| && ls[|evs|] == L.Leader(states[i], l.queue[Commands(batch, i)..])
    ensures Commits(evs, |evs|) == Commands(batch, i)
  {
    hide Engine.Handles, L.IsRun, RunFits;
    if i == 0 {
      ls, evs := [l], [];
      NoSteps(cfg, h, pos, l);
      assert l.queue[0..] == l.queue;
    } else {
      ls, evs := BatchPrefixIsRun(cfg, h, pos, l, batch, clock, states, i - 1);
      RunLengths(cfg, ls, evs);
      var c, n := batch[i - 1], Commands(batch, i - 1);
      assert Engine.Handles(cfg, states[i - 1], c, clock[i - 1], states[i]);
      if c.Normal? {
        assert l.queue[n..][0] == c.entry.cmd && l.queue[n..][1..] == l.queue[n + 1..];
        ls, evs := HandledIsCommit(cfg, h, pos, ls, evs, c.entry.index, clock[i - 1], states[i]);
      } else {
        BlankIsNothing(cfg, states[i - 1], c, clock[i - 1], states[i]);
      }
    }
  }

  lemma NoSteps(cfg: Config, h: History, pos: nat, l: L.Leader)
    ensures L.IsRun(cfg, [l], []) && RunFits(h, pos, [l], [])
  {
  }

  lemma BlankIsNothing(cfg: Config, s: Shard, c: Engine.CommittedEntry, clock: (u64, u64), s': Shard)
    requires c.Blank? && Engine.Handles(cfg, s, c, clock, s')
    ensures s' == s
  {
  }

  /**
   * A whole batch of its own proposals, with the applied index moved to where the engine moves it, is a run of the
   * leader, which ends with the rest of its queue.
   */
  lemma {:induction false} BatchIsLeaderRun(
      cfg: Config, h: History, pos: nat, l: L.Leader, batch: seq<Engine.CommittedEntry>, clock: seq<(u64, u64)>,
      states: seq<Shard>)
    returns (ls: seq<L.Leader>, evs: seq<L.Event>)
    requires Engine.HandlesAll(cfg, states, batch, clock) && states[0] == l.s && |states| == |batch| + 1
    requires OwnBatch(batch, l.queue) && Delivers(h, pos, batch) && Ascends(h, pos, batch)
    requires forall s <- states :: |s.table.streams| < U32_LIMIT
    requires AppliedBehind(h, l.s.applied, pos)
    ensures L.IsRun(cfg, ls, evs) && RunFits(h, pos, ls, evs) && ls != [] && ls[0] == l
    ensures Commands(batch, |batch|) <= |l.queue|
    ensures var end := states[|batch|].(applied := MovedTo(l.s.applied, batch));
            ls[|evs|] == L.Leader(end, l.queue[Commands(batch, |batch|)..])
    ensures Commits(evs, |evs|) == Commands(batch, |batch|)
  {
    hide Engine.HandlesAll, L.IsRun, RunFits, OwnBatch, Delivers, AppliedBehind, Commits, Ascends, MovedTo;
    MovesBehindBatch(h, pos, l.s.applied, batch);
    ls, evs := BatchPrefixIsRun(cfg, h, pos, l, batch, clock, states, |batch|);
    RunLengths(cfg, ls, evs);
    var ev := L.Advance(MovedTo(l.s.applied, batch));
    var l' := L.Step(cfg, ls[|evs|], ev);
    OneMoreStep(cfg, h, pos, ls, evs, ev, l');
    ls, evs := ls + [l'], evs + [ev];
  }
}
