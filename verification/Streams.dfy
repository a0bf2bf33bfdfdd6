/** Per-stream replica state: watermarks, epoch fence, and the cache of the newest records. */
module Streams {
  import opened Bytes

  datatype Tail = Tail(lsn: nat, entry: nat, payload: seq<byte>)

  datatype Stream = Stream(
    id: nat, epoch: nat, next: nat, commit: nat, consumed: nat, lastEntry: nat, tail: seq<Tail>)

  datatype Table = Table(streams: map<nat, Stream>, limit: nat)

  datatype AllocResult = Allocated(lsn: nat) | Stale(current: nat, request: nat)

  function NewStream(id: nat): Stream {
    Stream(id, 0, 0, 0, 0, 0, [])
  }

  /** The state of a stream; one that was never touched is in its initial state. */
  function Get(t: Table, id: nat): Stream {
    if id in t.streams then t.streams[id] else NewStream(id)
  }

  function Put(t: Table, id: nat, s: Stream): Table {
    t.(streams := t.streams[id := s])
  }

  lemma PutPut(t: Table, id: nat, a: Stream, b: Stream)
    ensures Put(Put(t, id, a), id, b) == Put(t, id, b)
    ensures Get(Put(t, id, a), id) == a
  {
    assert t.streams[id := a][id := b] == t.streams[id := b];
  }

  function Allocate(t: Table, id: nat, epoch: nat): (Table, AllocResult) {
    var s := Get(t, id);
    if epoch < s.epoch then (Put(t, id, s), Stale(s.epoch, epoch))
    else (Put(t, id, s.(epoch := epoch, next := s.next + 1)), Allocated(s.next))
  }

  function Rollback(t: Table, id: nat, lsn: nat): Table {
    if id in t.streams then
      var s := t.streams[id];
      if s.next == Min(lsn + 1, U64_LIMIT - 1) && s.commit <= lsn then Put(t, id, s.(next := lsn)) else t
    else t
  }

  function Newest(tail: seq<Tail>, limit: nat): (r: seq<Tail>)
    ensures |r| <= limit
  {
    if |tail| > limit then tail[|tail| - limit..] else tail
  }

  function Appended(t: Table, id: nat, epoch: nat, entry: nat, lsn: nat, payload: seq<byte>): Table {
    var s := Get(t, id);
    Put(t, id, s.(
      epoch := Max(s.epoch, epoch), lastEntry := Max(s.lastEntry, entry), next := Max(s.next, lsn + 1),
      tail := Newest(s.tail + [Tail(lsn, entry, payload)], t.limit)))
  }

  function Committed(t: Table, id: nat, entry: nat, lsn: nat): Table {
    var s := Get(t, id);
    Put(t, id, s.(lastEntry := Max(s.lastEntry, entry), commit := Max(s.commit, lsn + 1)))
  }

  function DropBelow(tail: seq<Tail>, lsn: nat): (r: seq<Tail>)
    ensures |r| <= |tail| && r == tail[|tail| - |r|..]
  {
    if tail != [] && tail[0].lsn < lsn then DropBelow(tail[1..], lsn) else tail
  }

  function Acked(t: Table, id: nat, lsn: nat): Table {
    var s := Get(t, id);
    var consumed := Max(s.consumed, lsn);
    Put(t, id, s.(consumed := consumed, tail := DropBelow(s.tail, consumed)))
  }

  /** The oldest cached record with this LSN. */
  function FindTail(tail: seq<Tail>, lsn: nat): (r: Option<Tail>)
    ensures r.Some? ==> r.value in tail && r.value.lsn == lsn
  {
    if tail == [] then None else if tail[0].lsn == lsn then Some(tail[0]) else FindTail(tail[1..], lsn)
  }

  function Observed(t: Table, id: nat, epoch: nat, entry: nat, lsn: nat, payload: seq<byte>): Table {
    var s := Get(t, id);
    Put(t, id, s.(
      epoch := Max(s.epoch, epoch), lastEntry := Max(s.lastEntry, entry), next := Max(s.next, lsn + 1),
      commit := Max(s.commit, lsn + 1), tail := Newest(s.tail + [Tail(lsn, entry, payload)], t.limit)))
  }

  /** What applying a committed entry does to the table. */
  function Applied(t: Table, id: nat, epoch: nat, entry: nat, lsn: nat, payload: seq<byte>): Table {
    Committed(Appended(t, id, epoch, entry, lsn, payload), id, entry, lsn)
  }

  /** Observing a record during recovery has the effect of applying its entry. */
  lemma RecoveryIsApply(t: Table, id: nat, epoch: nat, entry: nat, lsn: nat, payload: seq<byte>)
    ensures Observed(t, id, epoch, entry, lsn, payload) == Applied(t, id, epoch, entry, lsn, payload)
  {
    var a := Appended(t, id, epoch, entry, lsn, payload);
    PutPut(t, id, Get(a, id), Get(Committed(a, id, entry, lsn), id));
  }

  /** Dropping a prefix keeps every record at or above the mark. */
  lemma {:induction false} DropBelowKeeps(tail: seq<Tail>, lsn: nat, x: Tail)
    requires x in tail && x.lsn >= lsn
    ensures x in DropBelow(tail, lsn)
  {
    if tail[0].lsn < lsn {
      assert x in tail[1..];
      DropBelowKeeps(tail[1..], lsn, x);
    }
  }

  /** What is dropped is below the mark, and what is left does not start below it. */
  lemma {:induction false} DropBelowExactly(tail: seq<Tail>, lsn: nat)
    ensures var r := DropBelow(tail, lsn);
            && (r != [] ==> r[0].lsn >= lsn)
            && forall i :: 0 <= i < |tail| - |r| ==> tail[i].lsn < lsn
  {
    if tail != [] && tail[0].lsn < lsn {
      DropBelowExactly(tail[1..], lsn);
      assert forall i :: 0 < i < |tail| ==> tail[i] == tail[1..][i - 1];
    }
  }

  /** Only records below the mark were dropped, from the front, and the first one left is not below it. */
  predicate IsPruned(before: seq<Tail>, after: seq<Tail>, mark: nat) {
    && |after| <= |before| && after == before[|before| - |after|..]
    && (forall i :: 0 <= i < |before| - |after| ==> before[i].lsn < mark)
    && (after != [] ==> after[0].lsn >= mark)
  }

  /** An acknowledgement raises one stream's mark and prunes its cache up to it, and touches nothing else. */
  lemma AckPrunes(t: Table, id: nat, lsn: nat, other: nat)
    ensures var s, s' := Get(t, id), Get(Acked(t, id, lsn), id);
            && s'.consumed == (if lsn > s.consumed then lsn else s.consumed)
            && IsPruned(s.tail, s'.tail, s'.consumed)
            && s' == s.(consumed := s'.consumed, tail := s'.tail)
    ensures other != id ==> Get(Acked(t, id, lsn), other) == Get(t, other)
  {
    hide DropBelow;
    DropBelowExactly(Get(t, id).tail, Max(Get(t, id).consumed, lsn));
  }

  class StreamStateTable {
    var streams: map<nat, Stream>
    const limit: nat

    constructor (limit: nat)
      ensures streams == map[] && this.limit == limit
    {
      this.streams := map[];
      this.limit := limit;
    }

    constructor FromSnapshot(streams: map<nat, Stream>, limit: nat)
      ensures this.streams == streams && this.limit == limit
    {
      this.streams := streams;
      this.limit := limit;
    }

    function State(): Table
      reads this
    {
      Table(streams, limit)
    }

    method EnsureStream(id: nat) returns (s: Stream)
      modifies this
      ensures s == Get(old(State()), id)
      ensures State() == Put(old(State()), id, s)
    {
      if id in streams {
        assert streams == streams[id := streams[id]];
      } else {
        streams := streams[id := NewStream(id)];
      }
      s := streams[id];
    }

    method AllocateAppend(id: nat, epoch: nat) returns (r: AllocResult)
      modifies this
      ensures (State(), r) == Allocate(old(State()), id, epoch)
    {
      var s := EnsureStream(id);
      var lsn := s.next;
      if epoch < s.epoch {
        return Stale(s.epoch, epoch);
      }
      var after := s.(epoch := epoch, next := lsn + 1);
      PutPut(old(State()), id, s, after);
      streams := streams[id := after];
      r := Allocated(lsn);
    }

    method RollbackUncommittedAppend(id: nat, lsn: nat)
      modifies this
      ensures State() == Rollback(old(State()), id, lsn)
    {
      if id in streams {
        var s := streams[id];
        var expectedNext := if lsn + 1 < U64_LIMIT then lsn + 1 else U64_LIMIT - 1;
        if s.next == expectedNext && s.commit <= lsn {
          streams := streams[id := s.(next := lsn)];
        }
      }
    }

    /** Pops cached records from the front while they are below the mark. */
    method PopBelow(tail: seq<Tail>, lsn: nat) returns (r: seq<Tail>)
      ensures r == DropBelow(tail, lsn)
    {
      r := tail;
      while r != [] && r[0].lsn < lsn
        invariant DropBelow(r, lsn) == DropBelow(tail, lsn)
        decreases |r|
      {
        r := r[1..];
      }
    }

    /** Pushes a record and pops from the front while the cache is over its limit. */
    method PushTail(tail: seq<Tail>, x: Tail) returns (r: seq<Tail>)
      ensures r == Newest(tail + [x], limit)
    {
      r := tail + [x];
      while |r| > limit
        invariant r == Newest(tail + [x], Max(limit, |r|))
      {
        r := r[1..];
      }
    }

    method MarkAppended(id: nat, epoch: nat, entry: nat, lsn: nat, payload: seq<byte>)
      modifies this
      ensures State() == Appended(old(State()), id, epoch, entry, lsn, payload)
    {
      var s := EnsureStream(id);
      var tail := PushTail(s.tail, Tail(lsn, entry, payload));
      var after := s.(
        epoch := Max(s.epoch, epoch), lastEntry := Max(s.lastEntry, entry), next := Max(s.next, lsn + 1),
        tail := tail);
      PutPut(old(State()), id, s, after);
      streams := streams[id := after];
    }

    method MarkCommitted(id: nat, entry: nat, lsn: nat)
      modifies this
      ensures State() == Committed(old(State()), id, entry, lsn)
    {
      var s := EnsureStream(id);
      var after := s.(lastEntry := Max(s.lastEntry, entry), commit := Max(s.commit, lsn + 1));
      PutPut(old(State()), id, s, after);
      streams := streams[id := after];
    }

    method AdvanceConsumed(id: nat, lsn: nat) returns (consumed: nat)
      modifies this
      ensures State() == Acked(old(State()), id, lsn)
      ensures consumed == Get(State(), id).consumed
    {
      var s := EnsureStream(id);
      consumed := Max(s.consumed, lsn);
      var tail := PopBelow(s.tail, consumed);
      var after := s.(consumed := consumed, tail := tail);
      PutPut(old(State()), id, s, after);
      streams := streams[id := after];
    }

    function ReadFromTail(id: nat, lsn: nat): Option<Tail>
      reads this
    {
      if id in streams then FindTail(streams[id].tail, lsn) else None
    }

    method ObserveRecovered(id: nat, epoch: nat, entry: nat, lsn: nat, payload: seq<byte>)
      modifies this
      ensures State() == Observed(old(State()), id, epoch, entry, lsn, payload)
    {
      var s := EnsureStream(id);
      var tail := PushTail(s.tail, Tail(lsn, entry, payload));
      var after := s.(
        epoch := Max(s.epoch, epoch), lastEntry := Max(s.lastEntry, entry), next := Max(s.next, lsn + 1),
        commit := Max(s.commit, lsn + 1), tail := tail);
      PutPut(old(State()), id, s, after);
      streams := streams[id := after];
    }

    function CurrentEpoch(id: nat): nat
      reads this
    {
      Get(State(), id).epoch
    }
  }
}
