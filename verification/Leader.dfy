/** What a caught-up leader allocates, and what stepping down takes back. */
module Leader {
  import opened Bytes
  import opened Streams
  import opened Wal
  import opened History
  import opened Shard
  import Raft = RaftStorage
  import Snapshot

  /** A leader's shard and the commands it proposed that are not applied yet, in order. */
  datatype Leader = Leader(s: Shard, queue: seq<Command>)

  datatype Event =
    | Propose(conn: nat, stream: u64, epoch: u64, payload: seq<byte>) // granted or fenced
    | CommitNext(index: u64, ts: u64, headerTs: u64) // its oldest proposal comes back committed
    | Acknowledge(stream: u64, lsn: u64)
    | Collect
    | TakeSnapshot(order: seq<nat>)
    | Advance(applied: nat)
    | RaftChange(raft: Raft.RaftState)

  ghost predicate Enabled(l: Leader, ev: Event) {
    match ev
    case Propose(_, stream, _, _) => Get(l.s.table, stream).next + 1 < U64_LIMIT && l.s.requests + 1 < U64_LIMIT
    case CommitNext(_, _, _) => l.queue != [] && Usable(l.s.wal)
    case TakeSnapshot(order) =>
      && SnapshotDue(l.s) && Snapshot.IsOrder(l.s.table, order) && |l.s.table.streams| < U32_LIMIT
      && Raft.Consecutive(l.s.raft.entries)
    case RaftChange(raft) => raft.snap == l.s.raft.snap && Raft.Consecutive(raft.entries)
    case _ => true
  }

  ghost function Step(cfg: Config, l: Leader, ev: Event): Leader
    requires Enabled(l, ev)
  {
    match ev
    case Propose(conn, stream, epoch, payload) =>
      var s := LeaderWrite(l.s, conn, stream, epoch);
      var lsn: u64 := Get(l.s.table, stream).next;
      if Allocate(l.s.table, stream, epoch).1.Stale? then Leader(s, l.queue)
      else Leader(s, l.queue + [Command(l.s.requests + 1, stream, epoch, lsn, payload)])
    case CommitNext(index, ts, headerTs) =>
      Leader(ApplyEntry(cfg, l.s, Entry(index, l.queue[0]), ts, headerTs), l.queue[1..])
    case Acknowledge(stream, lsn) => l.(s := l.s.(table := Acked(l.s.table, stream, lsn)))
    case Collect => l.(s := Gc(l.s))
    case TakeSnapshot(order) => l.(s := SnapshotTaken(l.s, order))
    case Advance(applied) => l.(s := l.s.(applied := applied))
    case RaftChange(raft) => l.(s := l.s.(raft := raft))
  }

  // ---- the invariant ----

  predicate At(p: Pending, stream: nat, lsn: nat) {
    p.stream == stream && p.lsn == lsn
  }

  ghost predicate SomePending(pending: map<nat, Pending>, stream: nat, lsn: nat) {
    exists id :: id in pending && At(pending[id], stream, lsn)
  }

  /** The LSNs pending on a stream are exactly those from its committed mark up to the next one, each held once. */
  ghost predicate StreamGapFree(t: Table, pending: map<nat, Pending>, stream: nat) {
    var s := Get(t, stream);
    && s.commit <= s.next < U64_LIMIT
    && forall lsn: nat :: SomePending(pending, stream, lsn) <==> s.commit <= lsn < s.next
  }

  ghost predicate GapFree(t: Table, pending: map<nat, Pending>) {
    forall stream: nat :: StreamGapFree(t, pending, stream)
  }

  ghost predicate HeldOnce(pending: map<nat, Pending>) {
    forall i, j :: i in pending && j in pending && At(pending[i], pending[j].stream, pending[j].lsn) ==> i == j
  }

  ghost predicate QueueOrdered(queue: seq<Command>) {
    && (forall i, j :: 0 <= i < j < |queue| && queue[i].stream == queue[j].stream ==> queue[i].lsn < queue[j].lsn)
    && (forall i, j :: 0 <= i < j < |queue| ==> queue[i].request < queue[j].request)
  }

  ghost predicate CommandPending(c: Command, pending: map<nat, Pending>, requests: nat) {
    c.request in pending && At(pending[c.request], c.stream, c.lsn) && c.request <= requests
  }

  ghost predicate IsQueued(queue: seq<Command>, id: nat) {
    exists i :: 0 <= i < |queue| && queue[i].request == id
  }

  /** The pending writes are those of the queued commands. */
  ghost predicate QueuePending(queue: seq<Command>, pending: map<nat, Pending>, requests: nat) {
    && (forall c <- queue :: CommandPending(c, pending, requests))
    && (forall id <- pending :: IsQueued(queue, id))
  }

  ghost predicate Inv(l: Leader) {
    && GapFree(l.s.table, l.s.pending) && HeldOnce(l.s.pending)
    && QueueOrdered(l.queue) && QueuePending(l.queue, l.s.pending, l.s.requests)
  }

  /** Where a caught-up leader starts: nothing pending, and every stream's next LSN is its committed mark. */
  ghost predicate CaughtUpLeader(l: Leader) {
    && l.queue == [] && l.s.pending == map[]
    && forall stream: nat :: Get(l.s.table, stream).commit == Get(l.s.table, stream).next < U64_LIMIT
  }

  lemma StartGood(l: Leader)
    requires CaughtUpLeader(l)
    ensures Inv(l)
  {
    forall stream: nat ensures StreamGapFree(l.s.table, l.s.pending, stream) {
      assert Get(l.s.table, stream).commit == Get(l.s.table, stream).next;
    }
  }

  /** An allocation takes the next LSN, above everything queued for its stream. */
  lemma ProposeGood(cfg: Config, l: Leader, ev: Event)
    requires Inv(l) && ev.Propose? && Enabled(l, ev)
    ensures Inv(Step(cfg, l, ev))
  {
    hide HeldOnce, QueueOrdered, QueuePending, StreamGapFree;
    var t, stream := l.s.table, ev.stream;
    var t' := Allocate(t, stream, ev.epoch).0;
    if Allocate(t, stream, ev.epoch).1.Allocated? {
      var id, lsn := l.s.requests + 1, Get(t, stream).next;
      var p, c := Pending(ev.conn, stream, ev.epoch, lsn), Command(id, stream, ev.epoch, lsn, ev.payload);
      RequestsBelow(l);
      var pending' := l.s.pending[id := p];
      forall k: nat ensures StreamGapFree(t', pending', k) {
        ProposedStream(t, t', l.s.pending, id, p, k);
      }
      ProposedHeldOnce(l.s.pending, t, id, p);
      ProposedOrder(l, c);
      ProposedPending(l.queue, l.s.pending, l.s.requests, c, p);
    } else {
      forall k: nat ensures StreamGapFree(t', l.s.pending, k) {
        SameMarks(t, t', l.s.pending, k);
      }
    }
  }

  lemma SameMarks(t: Table, t': Table, pending: map<nat, Pending>, k: nat)
    requires GapFree(t, pending)
    requires Get(t', k).commit == Get(t, k).commit && Get(t', k).next == Get(t, k).next
    ensures StreamGapFree(t', pending, k)
  {
    assert StreamGapFree(t, pending, k);
  }

  lemma RequestsBelow(l: Leader)
    requires QueuePending(l.queue, l.s.pending, l.s.requests)
    ensures forall id <- l.s.pending :: id <= l.s.requests
  {
    forall id <- l.s.pending ensures id <= l.s.requests {
      assert IsQueued(l.queue, id);
      var i :| 0 <= i < |l.queue| && l.queue[i].request == id;
      assert CommandPending(l.queue[i], l.s.pending, l.s.requests);
    }
  }

  lemma ProposedStream(t: Table, t': Table, pending: map<nat, Pending>, id: nat, p: Pending, k: nat)
    requires GapFree(t, pending) && id !in pending && p.lsn == Get(t, p.stream).next && p.lsn + 1 < U64_LIMIT
    requires Get(t', p.stream).next == p.lsn + 1 && Get(t', p.stream).commit == Get(t, p.stream).commit
    requires k != p.stream ==> Get(t', k) == Get(t, k)
    ensures StreamGapFree(t', pending[id := p], k)
  {
    assert StreamGapFree(t, pending, k);
    var s', pending' := Get(t', k), pending[id := p];
    forall lsn: nat ensures SomePending(pending', k, lsn) <==> s'.commit <= lsn < s'.next {
      PendingAdded(pending, id, p, k, lsn);
      assert SomePending(pending, k, lsn) <==> Get(t, k).commit <= lsn < Get(t, k).next;
    }
  }

  lemma PendingAdded(pending: map<nat, Pending>, id: nat, p: Pending, stream: nat, lsn: nat)
    requires id !in pending
    ensures SomePending(pending[id := p], stream, lsn) <==> SomePending(pending, stream, lsn) || At(p, stream, lsn)
  {
    var pending' := pending[id := p];
    if At(p, stream, lsn) {
      assert id in pending' && At(pending'[id], stream, lsn);
    }
    if SomePending(pending, stream, lsn) {
      var i :| i in pending && At(pending[i], stream, lsn);
      assert i in pending' && At(pending'[i], stream, lsn);
    }
  }

  lemma ProposedHeldOnce(pending: map<nat, Pending>, t: Table, id: nat, p: Pending)
    requires GapFree(t, pending) && HeldOnce(pending) && p.lsn == Get(t, p.stream).next && id !in pending
    ensures HeldOnce(pending[id := p])
  {
    forall i | i in pending && pending[i].stream == p.stream ensures pending[i].lsn < p.lsn {
      assert StreamGapFree(t, pending, p.stream);
      assert SomePending(pending, p.stream, pending[i].lsn);
    }
  }

  lemma ProposedOrder(l: Leader, c: Command)
    requires Inv(l) && c.request == l.s.requests + 1 && c.lsn == Get(l.s.table, c.stream).next
    ensures QueueOrdered(l.queue + [c])
  {
    forall q <- l.queue ensures q.request < c.request && (q.stream == c.stream ==> q.lsn < c.lsn) {
      assert CommandPending(q, l.s.pending, l.s.requests);
      assert StreamGapFree(l.s.table, l.s.pending, q.stream);
      assert SomePending(l.s.pending, q.stream, q.lsn);
    }
  }

  lemma ProposedPending(queue: seq<Command>, pending: map<nat, Pending>, requests: nat, c: Command, p: Pending)
    requires QueuePending(queue, pending, requests) && c.request == requests + 1 && At(p, c.stream, c.lsn)
    ensures QueuePending(queue + [c], pending[c.request := p], requests + 1)
  {
    var queue', pending' := queue + [c], pending[c.request := p];
    forall q <- queue' ensures CommandPending(q, pending', requests + 1) {
      assert q in queue ==> CommandPending(q, pending, requests);
    }
    forall id <- pending' ensures IsQueued(queue', id) {
      if id == c.request {
        assert queue'[|queue|].request == id;
      } else {
        assert IsQueued(queue, id);
        var i :| 0 <= i < |queue| && queue[i].request == id;
        assert queue'[i].request == id;
      }
    }
  }

  lemma QueuePosition(l: Leader, stream: nat, lsn: nat) returns (j: nat)
    requires Inv(l) && Get(l.s.table, stream).commit <= lsn < Get(l.s.table, stream).next
    ensures j < |l.queue| && l.queue[j].stream == stream && l.queue[j].lsn == lsn
  {
    assert StreamGapFree(l.s.table, l.s.pending, stream);
    assert SomePending(l.s.pending, stream, lsn);
    var id :| id in l.s.pending && At(l.s.pending[id], stream, lsn);
    assert IsQueued(l.queue, id);
    j :| 0 <= j < |l.queue| && l.queue[j].request == id;
    assert CommandPending(l.queue[j], l.s.pending, l.s.requests);
  }

  /** The command that comes back first is the one at its stream's committed mark. */
  lemma HeadIsNext(l: Leader)
    requires Inv(l) && l.queue != []
    ensures var c := l.queue[0];
            c.lsn == Get(l.s.table, c.stream).commit < Get(l.s.table, c.stream).next
            && CommandPending(c, l.s.pending, l.s.requests)
  {
    var c := l.queue[0];
    assert CommandPending(c, l.s.pending, l.s.requests);
    assert StreamGapFree(l.s.table, l.s.pending, c.stream);
    assert SomePending(l.s.pending, c.stream, c.lsn);
    assert forall i :: 0 < i < |l.queue| && l.queue[i].stream == c.stream ==> c.lsn < l.queue[i].lsn;
    var j := QueuePosition(l, c.stream, Get(l.s.table, c.stream).commit);
  }

  lemma CommitGood(cfg: Config, l: Leader, ev: Event)
    requires Inv(l) && ev.CommitNext? && Enabled(l, ev)
    ensures Inv(Step(cfg, l, ev))
  {
    hide Gc, Newest, Extended, StreamGapFree, HeldOnce, QueueOrdered, QueuePending;
    var c := l.queue[0];
    HeadIsNext(l);
    var t' := AppliedTable(l.s.table, Entry(ev.index, c));
    forall k: nat ensures StreamGapFree(t', l.s.pending - {c.request}, k) {
      CommittedStream(l, t', k);
    }
    CommittedQueue(l);
  }

  lemma CommittedStream(l: Leader, t': Table, k: nat)
    requires Inv(l) && l.queue != [] && l.queue[0].lsn == Get(l.s.table, l.queue[0].stream).commit
    requires CommandPending(l.queue[0], l.s.pending, l.s.requests)
    requires Get(t', l.queue[0].stream).commit == l.queue[0].lsn + 1 <= Get(l.s.table, l.queue[0].stream).next
    requires Get(t', l.queue[0].stream).next == Get(l.s.table, l.queue[0].stream).next
    requires k != l.queue[0].stream ==> Get(t', k) == Get(l.s.table, k)
    ensures StreamGapFree(t', l.s.pending - {l.queue[0].request}, k)
  {
    hide QueuePending, QueueOrdered;
    var c, pending := l.queue[0], l.s.pending;
    var pending', s' := pending - {c.request}, Get(t', k);
    assert StreamGapFree(l.s.table, pending, k);
    forall lsn: nat ensures SomePending(pending', k, lsn) <==> s'.commit <= lsn < s'.next {
      PendingRemoved(pending, c, k, lsn);
      assert SomePending(pending, k, lsn) <==> Get(l.s.table, k).commit <= lsn < Get(l.s.table, k).next;
    }
  }

  lemma PendingRemoved(pending: map<nat, Pending>, c: Command, stream: nat, lsn: nat)
    requires HeldOnce(pending) && c.request in pending && At(pending[c.request], c.stream, c.lsn)
    ensures SomePending(pending - {c.request}, stream, lsn)
       <==> SomePending(pending, stream, lsn) && !(stream == c.stream && lsn == c.lsn)
  {
    var pending' := pending - {c.request};
    if SomePending(pending, stream, lsn) {
      var i :| i in pending && At(pending[i], stream, lsn);
      if i != c.request {
        assert i in pending' && At(pending'[i], stream, lsn);
      }
    }
  }

  lemma CommittedQueue(l: Leader)
    requires Inv(l) && l.queue != []
    ensures QueueOrdered(l.queue[1..])
    ensures QueuePending(l.queue[1..], l.s.pending - {l.queue[0].request}, l.s.requests)
    ensures HeldOnce(l.s.pending - {l.queue[0].request})
  {
    hide GapFree, CommandPending, IsQueued, At;
    var queue, queue', pending' := l.queue, l.queue[1..], l.s.pending - {l.queue[0].request};
    forall c <- queue' ensures CommandPending(c, pending', l.s.requests) {
      var i :| 0 <= i < |queue'| && queue'[i] == c;
      assert c == queue[i + 1] && queue[0].request < queue[i + 1].request;
      StillPending(c, l.s.pending, l.s.requests, queue[0].request);
    }
    forall id <- pending' ensures IsQueued(queue', id) {
      StillQueued(queue, id);
    }
  }

  lemma StillPending(c: Command, pending: map<nat, Pending>, requests: nat, gone: nat)
    requires CommandPending(c, pending, requests) && c.request != gone
    ensures CommandPending(c, pending - {gone}, requests)
  {
  }

  lemma StillQueued(queue: seq<Command>, id: nat)
    requires queue != [] && IsQueued(queue, id) && id != queue[0].request
    ensures IsQueued(queue[1..], id)
  {
    var i :| 0 <= i < |queue| && queue[i].request == id;
    assert queue[1..][i - 1].request == id;
  }

  lemma AckedMarks(t: Table, stream: nat, lsn: nat)
    ensures var t' := Acked(t, stream, lsn);
            forall k: nat :: Get(t', k).commit == Get(t, k).commit && Get(t', k).next == Get(t, k).next
  {
    hide DropBelow;
  }

  lemma CollectedSame(s: Shard)
    ensures var s' := GcSparing(s, {}); s'.table == s.table && s'.pending == s.pending && s'.requests == s.requests
  {
    hide Trimmed;
  }

  lemma TakenSame(s: Shard, order: seq<nat>)
    requires Raft.Consecutive(s.raft.entries) && Snapshot.IsOrder(s.table, order)
    ensures var s' := SnapshotTaken(s, order);
            s'.table == s.table && s'.pending == s.pending && s'.requests == s.requests
  {
    hide Raft.SnapshotCreated, Raft.CompactedTo;
  }

  lemma QuietStepGood(cfg: Config, l: Leader, ev: Event)
    requires Inv(l) && Enabled(l, ev) && !ev.Propose? && !ev.CommitNext?
    ensures Inv(Step(cfg, l, ev))
  {
    hide Acked, GcSparing, SnapshotTaken, StreamGapFree, HeldOnce, QueueOrdered, QueuePending, Usable,
      Snapshot.IsOrder, Raft.Consecutive;
    var l' := Step(cfg, l, ev);
    match ev {
      case Acknowledge(stream, lsn) => AckedMarks(l.s.table, stream, lsn);
      case Collect => CollectedSame(l.s);
      case TakeSnapshot(order) => TakenSame(l.s, order);
      case _ =>
    }
    forall k: nat ensures StreamGapFree(l'.s.table, l'.s.pending, k) {
      SameMarks(l.s.table, l'.s.table, l.s.pending, k);
    }
  }

  ghost predicate IsRun(cfg: Config, ls: seq<Leader>, evs: seq<Event>) {
    |ls| == |evs| + 1 && forall i :: 0 <= i < |evs| ==> StepsTo(cfg, ls[i], evs[i], ls[i + 1])
  }

  ghost predicate StepsTo(cfg: Config, l: Leader, ev: Event, l': Leader) {
    Enabled(l, ev) && l' == Step(cfg, l, ev)
  }

  lemma {:induction false} RunKeepsInv(cfg: Config, ls: seq<Leader>, evs: seq<Event>, i: nat)
    requires IsRun(cfg, ls, evs) && Inv(ls[0]) && i <= |evs|
    ensures Inv(ls[i])
  {
    hide Inv, Step;
    if i > 0 {
      RunKeepsInv(cfg, ls, evs, i - 1);
      var ev := evs[i - 1];
      assert StepsTo(cfg, ls[i - 1], ev, ls[i]);
      match ev
      case Propose(_, _, _, _) => ProposeGood(cfg, ls[i - 1], ev);
      case CommitNext(_, _, _) => CommitGood(cfg, ls[i - 1], ev);
      case _ => QuietStepGood(cfg, ls[i - 1], ev);
    }
  }

  /** Allocation is gap-free at every step of a caught-up leader. */
  lemma {:induction false} AllocationIsGapFree(cfg: Config, ls: seq<Leader>, evs: seq<Event>, i: nat)
    requires IsRun(cfg, ls, evs) && CaughtUpLeader(ls[0]) && i <= |evs|
    ensures Inv(ls[i]) && GapFree(ls[i].s.table, ls[i].s.pending) && HeldOnce(ls[i].s.pending)
  {
    hide GapFree, HeldOnce, QueueOrdered, QueuePending, StepsTo, CaughtUpLeader;
    StartGood(ls[0]);
    RunKeepsInv(cfg, ls, evs, i);
  }

  // ---- stepping down ----

  /** By stream, and within a stream from the highest LSN down. */
  predicate Before(a: Pending, b: Pending) {
    a.stream < b.stream || (a.stream == b.stream && a.lsn >= b.lsn)
  }

  /** The drained and sorted pending writes: ids lists every pending request once, in that order. */
  ghost predicate SortedDrain(pending: map<nat, Pending>, ids: seq<nat>, ps: seq<Pending>) {
    && |ids| == |ps|
    && (forall id :: id in ids <==> id in pending)
    && (forall i, j :: 0 <= i < j < |ids| ==> ids[i] != ids[j])
    && (forall i :: 0 <= i < |ids| ==> ids[i] in pending && ps[i] == pending[ids[i]])
    && (forall i, j :: 0 <= i < j < |ps| ==> Before(ps[i], ps[j]))
  }

  ghost predicate SomeFrom(ps: seq<Pending>, k: nat, stream: nat, lsn: nat) {
    exists j :: k <= j < |ps| && At(ps[j], stream, lsn)
  }

  /** What is left between committed and next is exactly what is still to be rolled back. */
  ghost predicate LeftToUndo(t: Table, ps: seq<Pending>, k: nat, stream: nat) {
    var s := Get(t, stream);
    && s.commit <= s.next < U64_LIMIT
    && forall lsn: nat :: SomeFrom(ps, k, stream, lsn) <==> s.commit <= lsn < s.next
  }

  lemma UndoOne(t: Table, ps: seq<Pending>, k: nat, stream: nat)
    requires k < |ps| && forall s: nat :: LeftToUndo(t, ps, k, s)
    requires forall i, j :: 0 <= i < j < |ps| ==> Before(ps[i], ps[j]) && !At(ps[j], ps[i].stream, ps[i].lsn)
    ensures LeftToUndo(Rollback(t, ps[k].stream, ps[k].lsn), ps, k + 1, stream)
    ensures Get(Rollback(t, ps[k].stream, ps[k].lsn), stream).(next := 0) == Get(t, stream).(next := 0)
  {
    var p := ps[k];
    assert LeftToUndo(t, ps, k, p.stream) && LeftToUndo(t, ps, k, stream);
    var s := Get(t, p.stream);
    assert SomeFrom(ps, k, p.stream, p.lsn);
    assert SomeFrom(ps, k, p.stream, s.next - 1);
    assert forall i :: k < i < |ps| ==> Before(p, ps[i]);
    var j :| k <= j < |ps| && At(ps[j], p.stream, s.next - 1);
    assert s.next == p.lsn + 1;
    var t', k' := Rollback(t, p.stream, p.lsn), k + 1;
    var s' := Get(t', stream);
    forall lsn: nat ensures SomeFrom(ps, k', stream, lsn) <==> s'.commit <= lsn < s'.next {
      assert SomeFrom(ps, k, stream, lsn) <==> Get(t, stream).commit <= lsn < Get(t, stream).next;
      SomeFromSplit(ps, k, stream, lsn);
    }
  }

  lemma SomeFromSplit(ps: seq<Pending>, k: nat, stream: nat, lsn: nat)
    requires k < |ps|
    requires forall i, j :: 0 <= i < j < |ps| ==> !At(ps[j], ps[i].stream, ps[i].lsn)
    ensures SomeFrom(ps, k, stream, lsn) <==> SomeFrom(ps, k + 1, stream, lsn) || At(ps[k], stream, lsn)
    ensures At(ps[k], stream, lsn) ==> !SomeFrom(ps, k + 1, stream, lsn)
  {
    if SomeFrom(ps, k, stream, lsn) {
      var j :| k <= j < |ps| && At(ps[j], stream, lsn);
      assert j == k || k + 1 <= j < |ps|;
    }
  }

  lemma {:induction false} UndoPrefix(t: Table, ps: seq<Pending>, k: nat, stream: nat)
    requires k <= |ps| && forall s: nat :: LeftToUndo(t, ps, 0, s)
    requires forall i, j :: 0 <= i < j < |ps| ==> Before(ps[i], ps[j]) && !At(ps[j], ps[i].stream, ps[i].lsn)
    ensures forall s: nat :: LeftToUndo(RollbackAll(t, ps[..k]), ps, k, s)
    ensures Get(RollbackAll(t, ps[..k]), stream).(next := 0) == Get(t, stream).(next := 0)
    decreases k
  {
    hide Rollback, LeftToUndo;
    if k == 0 {
      assert ps[..0] == [];
    } else {
      UndoPrefix(t, ps, k - 1, stream);
      var before := RollbackAll(t, ps[..k - 1]);
      assert ps[..k][..k - 1] == ps[..k - 1];
      forall s: nat ensures LeftToUndo(RollbackAll(t, ps[..k]), ps, k, s) {
        UndoOne(before, ps, k - 1, s);
      }
      UndoOne(before, ps, k - 1, stream);
    }
  }

  /**
   * Allocation is fully undone: stepping down rolls every stream's next LSN back to its committed mark, and changes
   * nothing else of any stream.
   */
  lemma StepDownUndoes(l: Leader, ids: seq<nat>, ps: seq<Pending>, stream: nat)
    requires Inv(l) && SortedDrain(l.s.pending, ids, ps)
    ensures var was, now := Get(l.s.table, stream), Get(StepDown(l.s, ps).table, stream);
            now == was.(next := was.commit)
  {
    hide Rollback, QueueOrdered, QueuePending;
    var t, pending := l.s.table, l.s.pending;
    forall s: nat ensures LeftToUndo(t, ps, 0, s) {
      assert StreamGapFree(t, pending, s);
      forall lsn: nat ensures SomeFrom(ps, 0, s, lsn) <==> SomePending(pending, s, lsn) {
        DrainSame(pending, ids, ps, s, lsn);
      }
      assert forall lsn: nat :: SomePending(pending, s, lsn) <==> Get(t, s).commit <= lsn < Get(t, s).next;
    }
    forall i, j | 0 <= i < j < |ps| ensures Before(ps[i], ps[j]) && !At(ps[j], ps[i].stream, ps[i].lsn) {
      assert ids[i] != ids[j];
    }
    UndoPrefix(t, ps, |ps|, stream);
    assert ps[..|ps|] == ps;
    var now := RollbackAll(t, ps);
    assert LeftToUndo(now, ps, |ps|, stream);
    assert !SomeFrom(ps, |ps|, stream, Get(now, stream).commit);
  }

  lemma DrainSame(pending: map<nat, Pending>, ids: seq<nat>, ps: seq<Pending>, stream: nat, lsn: nat)
    requires SortedDrain(pending, ids, ps)
    ensures SomeFrom(ps, 0, stream, lsn) <==> SomePending(pending, stream, lsn)
  {
    if SomeFrom(ps, 0, stream, lsn) {
      var j :| 0 <= j < |ps| && At(ps[j], stream, lsn);
      assert ids[j] in pending && At(pending[ids[j]], stream, lsn);
    }
    if SomePending(pending, stream, lsn) {
      var id :| id in pending && At(pending[id], stream, lsn);
      assert id in ids;
      var j :| 0 <= j < |ids| && ids[j] == id;
      assert At(ps[j], stream, lsn);
    }
  }
}
