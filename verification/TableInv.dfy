/** How the stream table and its snapshots stay between what was applied and what was ever applied. */
module TableInv {
  import opened Bytes
  import opened Record
  import opened Index
  import opened Scan
  import opened Streams
  import opened Wal
  import opened History
  import opened Shard
  import opened LogInv
  import Snapshot

  /** The stream's marks are at or above the entry's. */
  ghost predicate CoversEntry(t: Table, e: Entry) {
    var s := Get(t, e.cmd.stream);
    e.cmd.lsn + 1 <= s.commit && e.index <= s.lastEntry && e.cmd.epoch <= s.epoch
  }

  ghost predicate Covers(t: Table, h: History, n: nat)
    requires n <= |h|
  {
    forall i :: 0 <= i < n ==> CoversEntry(t, h[i])
  }

  /** The table covers every entry up to a Raft index. */
  ghost predicate CoversIndex(t: Table, h: History, index: nat) {
    forall i :: 0 <= i < |h| && h[i].index <= index ==> CoversEntry(t, h[i])
  }

  /** The stream's committed marks stem from the first n entries, and committed never passes next. */
  ghost predicate StreamBounded(s: Stream, h: History, n: nat, id: nat)
    requires n <= |h|
  {
    s.commit <= Peak(h, n, id, ByLsn) && s.lastEntry <= Peak(h, n, id, ByIndex) && s.commit <= s.next
  }

  ghost predicate Bounded(t: Table, h: History, n: nat)
    requires n <= |h|
  {
    forall id: nat :: StreamBounded(Get(t, id), h, n, id)
  }

  ghost predicate ConsumedAcked(t: Table, acked: map<nat, nat>) {
    forall id: nat :: Get(t, id).consumed <= AckedOf(acked, id)
  }

  ghost predicate Words(t: Table) {
    forall id <- t.streams :: Snapshot.StorableStream(id, t.streams[id])
  }

  /** What every table of a running shard satisfies. */
  ghost predicate TableGood(t: Table, h: History, n: nat, acked: map<nat, nat>)
    requires n <= |h|
  {
    Bounded(t, h, n) && ConsumedAcked(t, acked) && Words(t)
  }

  ghost predicate Grows(t: Table, t': Table) {
    forall id: nat :: StreamGrows(Get(t, id), Get(t', id))
  }

  predicate StreamGrows(s: Stream, s': Stream) {
    s.commit <= s'.commit && s.lastEntry <= s'.lastEntry && s.epoch <= s'.epoch && s.consumed <= s'.consumed
  }

  lemma GrowsCovers(t: Table, t': Table, e: Entry)
    requires Grows(t, t') && CoversEntry(t, e)
    ensures CoversEntry(t', e)
  {
    assert StreamGrows(Get(t, e.cmd.stream), Get(t', e.cmd.stream));
  }

  lemma GrowsCoversAll(t: Table, t': Table, h: History, n: nat)
    requires n <= |h| && Grows(t, t') && Covers(t, h, n)
    ensures Covers(t', h, n)
  {
    forall i | 0 <= i < n ensures CoversEntry(t', h[i]) {
      GrowsCovers(t, t', h[i]);
    }
  }

  lemma BoundedGrows(t: Table, h: History, m: nat, n: nat)
    requires m <= n <= |h| && Bounded(t, h, m)
    ensures Bounded(t, h, n)
  {
    forall id: nat ensures StreamBounded(Get(t, id), h, n, id) {
      assert StreamBounded(Get(t, id), h, m, id);
      PeakGrows(h, m, n, id, ByLsn);
      PeakGrows(h, m, n, id, ByIndex);
    }
  }

  // ---- steps ----

  lemma AppliedGrows(t: Table, e: Entry)
    ensures Grows(t, AppliedTable(t, e)) && CoversEntry(AppliedTable(t, e), e)
    ensures ConsumedGrows(t, AppliedTable(t, e)) && ConsumedGrows(AppliedTable(t, e), t)
  {
    var t' := AppliedTable(t, e);
    forall id: nat ensures StreamGrows(Get(t, id), Get(t', id)) && Get(t, id).consumed == Get(t', id).consumed {
    }
  }

  lemma AppliedGood(t: Table, h: History, n: nat, acked: map<nat, nat>, i: nat)
    requires i < n <= |h| && WithinLimits(h) && TableGood(t, h, n, acked)
    ensures TableGood(AppliedTable(t, h[i]), h, n, acked)
  {
    hide Newest, Peak;
    var e := h[i];
    var t' := AppliedTable(t, e);
    assert EntryWithinLimits(e);
    PeakCovers(h, n, i, ByLsn);
    PeakCovers(h, n, i, ByIndex);
    forall id: nat ensures StreamBounded(Get(t', id), h, n, id) && Get(t', id).consumed <= AckedOf(acked, id) {
      assert StreamBounded(Get(t, id), h, n, id);
      assert Get(t, id).consumed <= AckedOf(acked, id);
    }
    forall id | id in t'.streams ensures Snapshot.StorableStream(id, t'.streams[id]) {
      assert id in t.streams ==> Snapshot.StorableStream(id, t.streams[id]);
    }
  }

  /** A step that changes at most the consumed mark and the cache of one stream, and moves its fence and next up. */
  ghost predicate QuietStream(s: Stream, s': Stream) {
    && s'.id == s.id && s'.commit == s.commit && s'.lastEntry == s.lastEntry
    && s.epoch <= s'.epoch < U64_LIMIT && s'.commit <= s'.next < U64_LIMIT && s.consumed <= s'.consumed < U64_LIMIT
  }

  ghost predicate QuietTable(t: Table, t': Table, id: nat) {
    && id < U64_LIMIT && QuietStream(Get(t, id), Get(t', id))
    && t'.limit == t.limit
    && (t' == t || t' == Put(t, id, Get(t', id)))
  }

  lemma QuietGood(t: Table, t': Table, id: nat, h: History, n: nat, acked: map<nat, nat>, acked': map<nat, nat>)
    requires n <= |h| && TableGood(t, h, n, acked) && QuietTable(t, t', id)
    requires forall s: nat :: AckedOf(acked, s) <= AckedOf(acked', s)
    requires Get(t', id).consumed <= AckedOf(acked', id)
    ensures TableGood(t', h, n, acked') && Grows(t, t')
  {
    hide Peak;
    forall k: nat
      ensures StreamBounded(Get(t', k), h, n, k) && Get(t', k).consumed <= AckedOf(acked', k)
      ensures StreamGrows(Get(t, k), Get(t', k))
    {
      assert StreamBounded(Get(t, k), h, n, k);
      assert Get(t, k).consumed <= AckedOf(acked, k) <= AckedOf(acked', k);
      assert k != id ==> Get(t', k) == Get(t, k);
    }
    forall k | k in t'.streams ensures Snapshot.StorableStream(k, t'.streams[k]) {
      assert k in t.streams ==> Snapshot.StorableStream(k, t.streams[k]);
      assert StreamBounded(Get(t, k), h, n, k);
    }
  }

  lemma AckedGood(t: Table, h: History, n: nat, acked: map<nat, nat>, stream: u64, lsn: u64)
    requires n <= |h| && TableGood(t, h, n, acked)
    ensures var acked' := acked[stream := Max(AckedOf(acked, stream), lsn)];
            && TableGood(Acked(t, stream, lsn), h, n, acked')
            && Grows(t, Acked(t, stream, lsn))
            && forall s: nat :: AckedOf(acked, s) <= AckedOf(acked', s)
  {
    hide DropBelow, Peak;
    var s := Get(t, stream);
    assert StreamBounded(s, h, n, stream) && s.consumed <= AckedOf(acked, stream);
    assert stream in t.streams ==> Snapshot.StorableStream(stream, t.streams[stream]);
    var consumed := Max(s.consumed, lsn);
    var s' := s.(consumed := consumed, tail := DropBelow(s.tail, consumed));
    assert QuietStream(s, s');
    PutPut(t, stream, s', s');
    hide TableGood, QuietStream, Put, StreamBounded;
    var acked' := acked[stream := Max(AckedOf(acked, stream), lsn)];
    QuietGood(t, Acked(t, stream, lsn), stream, h, n, acked, acked');
  }

  lemma AllocateGood(t: Table, h: History, n: nat, acked: map<nat, nat>, stream: u64, epoch: u64)
    requires n <= |h| && TableGood(t, h, n, acked) && Get(t, stream).next + 1 < U64_LIMIT
    ensures var t' := Allocate(t, stream, epoch).0;
            && TableGood(t', h, n, acked) && Grows(t, t')
            && forall id: nat :: Get(t', id).tail == Get(t, id).tail && Get(t', id).consumed == Get(t, id).consumed
  {
    assert StreamBounded(Get(t, stream), h, n, stream) && Get(t, stream).consumed <= AckedOf(acked, stream);
    assert stream in t.streams ==> Snapshot.StorableStream(stream, t.streams[stream]);
    QuietGood(t, Allocate(t, stream, epoch).0, stream, h, n, acked, acked);
  }

  lemma RollbackGood(t: Table, stream: nat, lsn: nat, h: History, n: nat, acked: map<nat, nat>)
    requires n <= |h| && TableGood(t, h, n, acked) && lsn < U64_LIMIT
    ensures TableGood(Rollback(t, stream, lsn), h, n, acked) && Grows(t, Rollback(t, stream, lsn))
    ensures forall id: nat :: Get(Rollback(t, stream, lsn), id).tail == Get(t, id).tail
    ensures forall id: nat :: Get(Rollback(t, stream, lsn), id).consumed == Get(t, id).consumed
  {
    if Rollback(t, stream, lsn) != t {
      assert StreamBounded(Get(t, stream), h, n, stream) && Get(t, stream).consumed <= AckedOf(acked, stream);
      assert Snapshot.StorableStream(stream, t.streams[stream]);
      QuietGood(t, Rollback(t, stream, lsn), stream, h, n, acked, acked);
    }
  }

  lemma {:induction false} RollbackAllGood(t: Table, ps: seq<Pending>, h: History, n: nat, acked: map<nat, nat>)
    requires n <= |h| && TableGood(t, h, n, acked) && forall p <- ps :: p.lsn < U64_LIMIT
    ensures TableGood(RollbackAll(t, ps), h, n, acked) && Grows(t, RollbackAll(t, ps))
    ensures forall id: nat :: Get(RollbackAll(t, ps), id).tail == Get(t, id).tail
    ensures forall id: nat :: Get(RollbackAll(t, ps), id).consumed == Get(t, id).consumed
    ensures RollbackAll(t, ps).limit == t.limit
  {
    hide Rollback, TableGood;
    if ps != [] {
      var front, p := ps[..|ps| - 1], ps[|ps| - 1];
      RollbackAllGood(t, front, h, n, acked);
      RollbackGood(RollbackAll(t, front), p.stream, p.lsn, h, n, acked);
      RollbackLimit(RollbackAll(t, front), p.stream, p.lsn);
      GrowsThrough(t, RollbackAll(t, front), RollbackAll(t, ps));
    }
  }

  lemma RollbackLimit(t: Table, stream: nat, lsn: nat)
    ensures Rollback(t, stream, lsn).limit == t.limit
  {
  }

  // ---- the tail cache ----

  ghost predicate KnownTail(x: Tail, h: History, n: nat, stream: nat)
    requires n <= |h|
  {
    exists i :: 0 <= i < n && Writes(h[i], stream, x.lsn) && h[i].cmd.payload == x.payload && h[i].index == x.entry
  }

  /** Cached records come from the first n entries, and those not yet consumed are indexed. */
  ghost predicate TailGood(x: Tail, s: Stream, id: nat, ix: Entries, h: History, n: nat)
    requires n <= |h|
  {
    KnownTail(x, h, n, id) && (x.lsn >= s.consumed ==> Find(ix, id, x.lsn).Some?)
  }

  ghost predicate TailsGood(t: Table, ix: Entries, h: History, n: nat)
    requires n <= |h|
  {
    forall id: nat :: StreamTailsGood(Get(t, id), id, ix, h, n)
  }

  ghost predicate StreamTailsGood(s: Stream, id: nat, ix: Entries, h: History, n: nat)
    requires n <= |h|
  {
    forall x <- s.tail :: TailGood(x, s, id, ix, h, n)
  }

  ghost predicate IndexKeeps(ix: Entries, ix': Entries, t: Table) {
    forall s: nat, l: nat :: l >= Get(t, s).consumed && Find(ix, s, l).Some? ==> Find(ix', s, l).Some?
  }

  /** More history, an index that keeps what is not consumed, fewer cached records, a higher mark: still good. */
  lemma TailsCarryOver(t: Table, t': Table, ix: Entries, ix': Entries, h: History, m: nat, n: nat)
    requires m <= n <= |h| && TailsGood(t, ix, h, m) && IndexKeeps(ix, ix', t) && ConsumedGrows(t, t')
    requires forall id: nat :: forall x <- Get(t', id).tail :: x in Get(t, id).tail
    ensures TailsGood(t', ix', h, n)
  {
    forall id: nat, x: Tail | x in Get(t', id).tail ensures TailGood(x, Get(t', id), id, ix', h, n) {
      assert StreamTailsGood(Get(t, id), id, ix, h, m);
      assert TailGood(x, Get(t, id), id, ix, h, m);
      assert Get(t, id).consumed <= Get(t', id).consumed;
      var i :| 0 <= i < m && Writes(h[i], id, x.lsn) && h[i].cmd.payload == x.payload && h[i].index == x.entry;
    }
  }

  lemma TailsAfterApplied(t: Table, ix: Entries, h: History, n: nat, i: nat)
    requires i < n <= |h| && TailsGood(t, ix, h, n)
    requires Find(ix, h[i].cmd.stream, h[i].cmd.lsn).Some?
    ensures TailsGood(AppliedTable(t, h[i]), ix, h, n)
  {
    var e := h[i];
    var t', pushed := AppliedTable(t, e), Tail(e.cmd.lsn, e.index, e.cmd.payload);
    forall id: nat, x: Tail | x in Get(t', id).tail ensures TailGood(x, Get(t', id), id, ix, h, n) {
      assert StreamTailsGood(Get(t, id), id, ix, h, n);
      AppliedTail(t, e, id, x);
      if x !in Get(t, id).tail {
        assert Writes(h[i], id, x.lsn) && h[i].cmd.payload == x.payload && h[i].index == x.entry;
      } else {
        assert TailGood(x, Get(t, id), id, ix, h, n);
      }
    }
  }

  /** After an apply, a cached record is one cached before or the one just applied. */
  lemma AppliedTail(t: Table, e: Entry, id: nat, x: Tail)
    requires x in Get(AppliedTable(t, e), id).tail
    ensures x in Get(t, id).tail || (id == e.cmd.stream && x == Tail(e.cmd.lsn, e.index, e.cmd.payload))
    ensures Get(AppliedTable(t, e), id).consumed == Get(t, id).consumed
  {
    if id == e.cmd.stream {
      var pushed := Get(t, id).tail + [Tail(e.cmd.lsn, e.index, e.cmd.payload)];
      assert Get(AppliedTable(t, e), id).tail == Newest(pushed, t.limit);
      assert x in pushed;
    }
  }

  // ---- recovery ----

  ghost predicate NoTails(t: Table) {
    forall id <- t.streams :: t.streams[id].tail == []
  }

  /** Observing a recovered record is applying the entry it carries. */
  lemma ObservedIsApplied(t: Table, r: WalRecord, e: Entry)
    requires RecordIs(r, e)
    ensures Observed(t, r.stream, r.epoch, r.entry, r.lsn, r.payload) == AppliedTable(t, e)
  {
    RecoveryIsApply(t, r.stream, r.epoch, r.entry, r.lsn, r.payload);
  }

  /** Recovery keeps the table within what was ever applied, and only adds to the snapshot's marks. */
  lemma {:induction false} RecoveredGood(
      t: Table, log: seq<Placed>, from: nat, h: History, n: nat, acked: map<nat, nat>, ix: Entries)
    requires n <= |h| && WithinLimits(h) && LogKnown(log, h, n) && TableGood(t, h, n, acked) && NoTails(t)
    requires forall p <- log :: Find(ix, p.rec.stream, p.rec.lsn).Some?
    ensures var t' := ObserveLog(t, log, from);
            TableGood(t', h, n, acked) && Grows(t, t') && TailsGood(t', ix, h, n) && t'.limit == t.limit
  {
    hide Applied, Observed, TableGood;
    if log != [] {
      var front, p := log[..|log| - 1], log[|log| - 1];
      RecoveredGood(t, front, from, h, n, acked, ix);
      if p.rec.entry > from {
        assert KnownRecord(h, n, p.rec);
        var i :| 0 <= i < n && RecordIs(p.rec, h[i]);
        var t1 := ObserveLog(t, front, from);
        ObservedIsApplied(t1, p.rec, h[i]);
        AppliedGood(t1, h, n, acked, i);
        AppliedGrows(t1, h[i]);
        GrowsThrough(t, t1, AppliedTable(t1, h[i]));
        TailsAfterApplied(t1, ix, h, n, i);
        AppliedLimit(t1, h[i]);
      }
    } else {
      assert Grows(t, t);
    }
  }

  lemma AppliedLimit(t: Table, e: Entry)
    ensures AppliedTable(t, e).limit == t.limit
  {
  }

  lemma GrowsThrough(a: Table, b: Table, c: Table)
    requires Grows(a, b) && Grows(b, c)
    ensures Grows(a, c)
  {
    forall id: nat ensures StreamGrows(Get(a, id), Get(c, id)) {
      assert StreamGrows(Get(a, id), Get(b, id)) && StreamGrows(Get(b, id), Get(c, id));
    }
  }

  lemma BareGood(t: Table, h: History, n: nat, acked: map<nat, nat>, limit: nat)
    requires n <= |h| && TableGood(t, h, n, acked)
    ensures var b := Snapshot.Bare(t, limit);
            TableGood(b, h, n, acked) && NoTails(b) && Grows(t, b)
  {
    var b := Snapshot.Bare(t, limit);
    forall id: nat
      ensures StreamBounded(Get(b, id), h, n, id) && Get(b, id).consumed <= AckedOf(acked, id)
      ensures StreamGrows(Get(t, id), Get(b, id))
    {
      assert StreamBounded(Get(t, id), h, n, id);
      assert Get(t, id).consumed <= AckedOf(acked, id);
    }
    forall id | id in b.streams ensures Snapshot.StorableStream(id, b.streams[id]) {
      assert Snapshot.StorableStream(id, t.streams[id]);
    }
  }
}
