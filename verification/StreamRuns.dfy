/** What holds of the stream table over every run of leader writes, rollbacks, applies and acknowledgements. */
module StreamRuns {
  import opened Bytes
  import opened Streams

  datatype Op =
    | Write(id: nat, epoch: nat) // a leader allocation, granted or fenced
    | Undo(id: nat, lsn: nat) // a rollback, effective or not
    | Apply(id: nat, epoch: nat, entry: nat, lsn: nat, payload: seq<byte>)
    | Ack(id: nat, lsn: nat)

  function Step(t: Table, op: Op): Table {
    match op
    case Write(id, epoch) => Allocate(t, id, epoch).0
    case Undo(id, lsn) => Rollback(t, id, lsn)
    case Apply(id, epoch, entry, lsn, payload) => Applied(t, id, epoch, entry, lsn, payload)
    case Ack(id, lsn) => Acked(t, id, lsn)
  }

  function Run(t: Table, ops: seq<Op>): Table {
    if ops == [] then t else Step(Run(t, ops[..|ops| - 1]), ops[|ops| - 1])
  }

  // ---- watermarks ----

  ghost predicate WatermarksOk(t: Table) {
    forall id: nat :: Get(t, id).commit <= Get(t, id).next
  }

  lemma StepWatermarks(t: Table, op: Op, id: nat)
    requires Get(t, op.id).commit <= Get(t, op.id).next && Get(t, id).commit <= Get(t, id).next
    ensures var a, b := Get(t, id), Get(Step(t, op), id);
            && b.commit <= b.next
            && a.commit <= b.commit && a.consumed <= b.consumed && a.epoch <= b.epoch && a.lastEntry <= b.lastEntry
            && (b.next < a.next ==> op == Undo(id, b.next) && a.next == b.next + 1)
  {
  }

  /** Committed never passes next, and the four watermarks never decrease, over any run. */
  lemma {:induction false} WatermarksOverRuns(t: Table, ops: seq<Op>, id: nat)
    requires WatermarksOk(t)
    ensures WatermarksOk(Run(t, ops))
    ensures var a, b := Get(t, id), Get(Run(t, ops), id);
            a.commit <= b.commit && a.consumed <= b.consumed && a.epoch <= b.epoch && a.lastEntry <= b.lastEntry
  {
    if ops != [] {
      var front, op := ops[..|ops| - 1], ops[|ops| - 1];
      WatermarksOverRuns(t, front, id);
      forall i: nat ensures Get(Run(t, ops), i).commit <= Get(Run(t, ops), i).next {
        StepWatermarks(Run(t, front), op, i);
      }
      StepWatermarks(Run(t, front), op, id);
    }
  }

  // ---- the epoch fence ----

  /** The epoch an operation brings to a stream. */
  function EpochIn(op: Op, id: nat): nat {
    match op
    case Write(i, epoch) => if i == id then epoch else 0
    case Apply(i, epoch, _, _, _) => if i == id then epoch else 0
    case _ => 0
  }

  /** The highest epoch that the writes, refused ones included, and the applied entries of a stream brought. */
  function HighestEpoch(ops: seq<Op>, id: nat): nat {
    if ops == [] then 0 else Max(HighestEpoch(ops[..|ops| - 1], id), EpochIn(ops[|ops| - 1], id))
  }

  lemma {:induction false} FenceIsHighest(limit: nat, ops: seq<Op>, id: nat)
    ensures Get(Run(Table(map[], limit), ops), id).epoch == HighestEpoch(ops, id)
  {
    if ops != [] {
      var front, op := ops[..|ops| - 1], ops[|ops| - 1];
      FenceIsHighest(limit, front, id);
      if op.id == id {
        FenceIsHighest(limit, front, op.id);
      }
    }
  }

  /**
   * After any run a write is granted if and only if no write or applied entry of its stream had a higher epoch; it
   * gets the stream's next LSN, and a refusal names the highest epoch and the one asked for.
   */
  lemma GrantedExactly(limit: nat, ops: seq<Op>, id: nat, epoch: nat)
    ensures var t := Run(Table(map[], limit), ops);
            Allocate(t, id, epoch).1
            == if HighestEpoch(ops, id) <= epoch then Allocated(Get(t, id).next)
               else Stale(HighestEpoch(ops, id), epoch)
  {
    FenceIsHighest(limit, ops, id);
  }

  // ---- determinism ----

  /** The applied entries of a run, in order. */
  function Applies(ops: seq<Op>): seq<Op> {
    if ops == [] then []
    else Applies(ops[..|ops| - 1]) + (if ops[|ops| - 1].Apply? then [ops[|ops| - 1]] else [])
  }

  ghost predicate SameCommitted(a: Table, b: Table) {
    forall id: nat :: Get(a, id).commit == Get(b, id).commit && Get(a, id).lastEntry == Get(b, id).lastEntry
  }

  lemma SameStep(a: Table, b: Table, op: Op)
    requires SameCommitted(a, b)
    ensures SameCommitted(Step(a, op), if op.Apply? then Step(b, op) else b)
  {
    var a', b' := Step(a, op), if op.Apply? then Step(b, op) else b;
    forall id: nat
      ensures Get(a', id).commit == Get(b', id).commit && Get(a', id).lastEntry == Get(b', id).lastEntry
    {
      assert Get(a, id).commit == Get(b, id).commit;
    }
  }

  lemma {:induction false} OnlyAppliesMatter(t: Table, ops: seq<Op>)
    ensures SameCommitted(Run(t, ops), Run(t, Applies(ops)))
  {
    if ops != [] {
      var front, op := ops[..|ops| - 1], ops[|ops| - 1];
      OnlyAppliesMatter(t, front);
      SameStep(Run(t, front), Run(t, Applies(front)), op);
      if op.Apply? {
        assert Applies(ops)[..|Applies(front)|] == Applies(front);
      } else {
        assert Applies(ops) == Applies(front);
      }
    }
  }

  /**
   * Two replicas that applied the same entries agree on what is committed, whatever allocations, fenced writes,
   * rollbacks and acknowledgements each of them mixed in.
   */
  lemma ReplicasAgree(t: Table, ops: seq<Op>, others: seq<Op>, id: nat)
    requires Applies(ops) == Applies(others)
    ensures var a, b := Get(Run(t, ops), id), Get(Run(t, others), id);
            a.commit == b.commit && a.lastEntry == b.lastEntry
  {
    OnlyAppliesMatter(t, ops);
    OnlyAppliesMatter(t, others);
    assert Get(Run(t, ops), id).commit == Get(Run(t, Applies(ops)), id).commit;
    assert Get(Run(t, others), id).commit == Get(Run(t, Applies(ops)), id).commit;
  }

  // ---- the tail cache as a window ----

  /** Every entry was applied at its stream's committed mark. */
  predicate InOrder(t: Table, ops: seq<Op>) {
    ops == []
    || (var front, op := ops[..|ops| - 1], ops[|ops| - 1];
        InOrder(t, front) && (op.Apply? ==> op.lsn == Get(Run(t, front), op.id).commit))
  }

  /** The cache holds consecutive LSNs, no more than the limit, and ends just below the committed mark. */
  predicate Window(tail: seq<Tail>, commit: nat, limit: nat) {
    && |tail| <= limit
    && |tail| <= commit
    && forall i :: 0 <= i < |tail| ==> tail[i].lsn == commit - |tail| + i
  }

  lemma WindowPush(tail: seq<Tail>, commit: nat, limit: nat, x: Tail)
    requires Window(tail, commit, limit) && x.lsn == commit
    ensures Window(Newest(tail + [x], limit), commit + 1, limit)
  {
  }

  lemma {:induction false} WindowDrop(tail: seq<Tail>, commit: nat, limit: nat, lsn: nat)
    requires Window(tail, commit, limit)
    ensures Window(DropBelow(tail, lsn), commit, limit)
  {
    if tail != [] && tail[0].lsn < lsn {
      WindowDrop(tail[1..], commit, limit, lsn);
    }
  }

  predicate StreamWindow(t: Table, id: nat) {
    Window(Get(t, id).tail, Get(t, id).commit, t.limit)
  }

  lemma WindowStep(t: Table, op: Op, id: nat)
    requires StreamWindow(t, id)
    requires op.Apply? && op.id == id ==> op.lsn == Get(t, id).commit
    ensures Step(t, op).limit == t.limit && StreamWindow(Step(t, op), id)
  {
    hide Window, Newest, DropBelow;
    var s := Get(t, id);
    if op.Apply? && op.id == id {
      WindowPush(s.tail, s.commit, t.limit, Tail(op.lsn, op.entry, op.payload));
    } else if op.Ack? && op.id == id {
      WindowDrop(s.tail, s.commit, t.limit, Max(s.consumed, op.lsn));
    }
  }

  /** From empty, whatever is acknowledged and whenever, in-order application keeps the cache a window. */
  lemma {:induction false} WindowOverRuns(limit: nat, ops: seq<Op>, id: nat)
    requires InOrder(Table(map[], limit), ops)
    ensures var t := Run(Table(map[], limit), ops); t.limit == limit && StreamWindow(t, id)
  {
    if ops != [] {
      WindowOverRuns(limit, ops[..|ops| - 1], id);
      WindowStep(Run(Table(map[], limit), ops[..|ops| - 1]), ops[|ops| - 1], id);
    }
  }
}
