/** The lightweight snapshot of the stream table: watermarks only, no cached records. */
module Snapshot {
  import opened Bytes
  import opened Streams

  const STATUS_SIZE: nat := 48

  datatype SnapshotResult = Snapshot(table: Table) | TooSmall | Truncated

  function StatusBytes(s: Stream): (b: seq<byte>)
    ensures |b| == STATUS_SIZE
  {
    BE(8, s.id) + BE(8, s.epoch) + BE(8, s.next) + BE(8, s.commit) + BE(8, s.consumed) + BE(8, s.lastEntry)
  }

  function StatusesBytes(t: Table, order: seq<nat>): (b: seq<byte>)
    requires forall id <- order :: id in t.streams
    ensures |b| == STATUS_SIZE * |order|
  {
    if order == [] then [] else StatusBytes(t.streams[order[0]]) + StatusesBytes(t, order[1..])
  }

  /** The snapshot, with the streams in the order in which the hash map happened to yield them. */
  function SnapshotBytes(t: Table, order: seq<nat>): seq<byte>
    requires forall id <- order :: id in t.streams
  {
    BE(4, |order|) + StatusesBytes(t, order)
  }

  ghost predicate IsOrder(t: Table, order: seq<nat>) {
    && (forall id :: id in order <==> id in t.streams)
    && (forall i, j :: 0 <= i < j < |order| ==> order[i] != order[j])
  }

  function StatusAt(buf: seq<byte>, i: nat): Stream
    requires i + STATUS_SIZE <= |buf|
  {
    Stream(U64At(buf, i), U64At(buf, i + 8), U64At(buf, i + 16), U64At(buf, i + 24), U64At(buf, i + 32),
           U64At(buf, i + 40), [])
  }

  function DecodeStatuses(buf: seq<byte>, cursor: nat, count: nat, acc: map<nat, Stream>): Option<map<nat, Stream>>
    decreases count
  {
    if count == 0 then Some(acc)
    else if |buf| < cursor + STATUS_SIZE then None
    else
      var s := StatusAt(buf, cursor);
      DecodeStatuses(buf, cursor + STATUS_SIZE, count - 1, acc[s.id := s])
  }

  function Decoded(limit: nat, buf: seq<byte>): SnapshotResult {
    if buf == [] then Snapshot(Table(map[], limit))
    else if |buf| < 4 then TooSmall
    else
      match DecodeStatuses(buf, 4, U32At(buf, 0), map[])
      case Some(streams) => Snapshot(Table(streams, limit))
      case None => Truncated
  }

  /** What a snapshot can carry: every stream filed under its own id, and every number within a word. */
  ghost predicate Storable(t: Table) {
    && |t.streams| < U32_LIMIT
    && forall id <- t.streams :: StorableStream(id, t.streams[id])
  }

  predicate StorableStream(id: nat, s: Stream) {
    && s.id == id < U64_LIMIT
    && s.epoch < U64_LIMIT && s.next < U64_LIMIT && s.commit < U64_LIMIT
    && s.consumed < U64_LIMIT && s.lastEntry < U64_LIMIT
  }

  /** A table without its cached records. */
  function Bare(t: Table, limit: nat): Table {
    Table(map id | id in t.streams :: t.streams[id].(tail := []), limit)
  }

  function BareListed(t: Table, order: seq<nat>): map<nat, Stream>
    requires forall id <- order :: id in t.streams
  {
    map id | id in order :: t.streams[id].(tail := [])
  }

  lemma BareAll(t: Table, order: seq<nat>, limit: nat)
    requires IsOrder(t, order)
    ensures map[] + BareListed(t, order) == Bare(t, limit).streams
  {
  }

  lemma BareStep(t: Table, order: seq<nat>, acc: map<nat, Stream>)
    requires order != [] && forall id <- order :: id in t.streams
    ensures acc[order[0] := t.streams[order[0]].(tail := [])] + BareListed(t, order[1..]) == acc + BareListed(t, order)
  {
  }

  /** Where each of six fields of eight bytes sits. */
  lemma SixFields(a: seq<byte>, b: seq<byte>, c: seq<byte>, d: seq<byte>, e: seq<byte>, f: seq<byte>)
    requires |a| == |b| == |c| == |d| == |e| == |f| == 8
    ensures var s := a + b + c + d + e + f;
            && s[0..8] == a && s[8..16] == b && s[16..24] == c && s[24..32] == d && s[32..40] == e && s[40..48] == f
  {
    var s := a + b + c + d + e + f;
    assert s[0..8] == a;
    assert s[8..16] == b;
    assert s[16..24] == c;
    assert s[24..32] == d;
    assert s[32..40] == e;
    assert s[40..48] == f;
  }

  lemma StatusRoundTrip(id: nat, s: Stream, buf: seq<byte>, i: nat)
    requires StorableStream(id, s)
    requires i + STATUS_SIZE <= |buf| && buf[i..i + STATUS_SIZE] == StatusBytes(s)
    ensures StatusAt(buf, i) == s.(tail := [])
  {
    hide BE, FromBE, U64At, Pow256;
    SixFields(BE(8, s.id), BE(8, s.epoch), BE(8, s.next), BE(8, s.commit), BE(8, s.consumed), BE(8, s.lastEntry));
    FieldWithin(buf, i, 0, s.id);
    FieldWithin(buf, i, 8, s.epoch);
    FieldWithin(buf, i, 16, s.next);
    FieldWithin(buf, i, 24, s.commit);
    FieldWithin(buf, i, 32, s.consumed);
    FieldWithin(buf, i, 40, s.lastEntry);
  }

  lemma FieldWithin(buf: seq<byte>, i: nat, k: nat, v: nat)
    requires k + 8 <= STATUS_SIZE && i + STATUS_SIZE <= |buf| && v < U64_LIMIT
    requires buf[i..i + STATUS_SIZE][k..k + 8] == BE(8, v)
    ensures U64At(buf, i + k) == v
  {
    hide BE, FromBE, U64At, Pow256;
    var a, b := buf[i..i + STATUS_SIZE][k..k + 8], buf[i + k..i + k + 8];
    assert forall j :: 0 <= j < 8 ==> a[j] == b[j];
    assert a == b;
    FieldAt(buf, i + k, 8, v);
  }

  lemma {:induction false} DecodeRest(t: Table, order: seq<nat>, pre: seq<byte>, acc: map<nat, Stream>)
    requires forall id <- order :: id in t.streams && StorableStream(id, t.streams[id])
    ensures DecodeStatuses(pre + StatusesBytes(t, order), |pre|, |order|, acc)
         == Some(acc + BareListed(t, order))
    decreases |order|
  {
    hide StatusBytes, StatusAt;
    if order == [] {
      assert acc + BareListed(t, order) == acc;
    } else {
      hide BareListed;
      var buf := pre + StatusesBytes(t, order);
      var id, rest := order[0], order[1..];
      var s := t.streams[id].(tail := []);
      var one := StatusBytes(t.streams[id]);
      assert buf == pre + one + StatusesBytes(t, rest);
      assert buf[|pre|..|pre| + STATUS_SIZE] == one;
      StatusRoundTrip(id, t.streams[id], buf, |pre|);
      DecodeRest(t, rest, pre + one, acc[id := s]);
      BareStep(t, order, acc);
    }
  }

  lemma {:induction false} OrderLength(s: set<nat>, order: seq<nat>)
    requires forall id :: id in order <==> id in s
    requires forall i, j :: 0 <= i < j < |order| ==> order[i] != order[j]
    ensures |order| == |s|
  {
    if order == [] {
      assert s == {};
    } else {
      var front, last := order[..|order| - 1], order[|order| - 1];
      assert order == front + [last];
      OrderLength(s - {last}, front);
    }
  }

  /** In whatever order the streams were written, reading the snapshot back gives the table without its cache. */
  lemma RoundTrip(t: Table, order: seq<nat>, limit: nat)
    requires Storable(t) && IsOrder(t, order)
    ensures Decoded(limit, SnapshotBytes(t, order)) == Snapshot(Bare(t, limit))
  {
    hide BE, FromBE, U32At, Pow256, StatusesBytes, DecodeStatuses, BareListed;
    var buf := SnapshotBytes(t, order);
    OrderLength(t.streams.Keys, order);
    assert buf[0..4] == BE(4, |order|);
    FieldAt(buf, 0, 4, |order|);
    DecodeRest(t, order, BE(4, |order|), map[]);
    BareAll(t, order, limit);
  }

  lemma {:induction false} ShortIsTruncated(buf: seq<byte>, cursor: nat, count: nat, acc: map<nat, Stream>)
    requires cursor <= |buf| < cursor + STATUS_SIZE * count
    ensures DecodeStatuses(buf, cursor, count, acc).None?
    decreases count
  {
    if |buf| >= cursor + STATUS_SIZE {
      var s := StatusAt(buf, cursor);
      ShortIsTruncated(buf, cursor + STATUS_SIZE, count - 1, acc[s.id := s]);
    }
  }

  /** Where the fields are: the number of streams, then for each its six numbers. */
  lemma {:induction false} Layout(t: Table, order: seq<nat>, i: nat)
    requires Storable(t) && IsOrder(t, order) && i < |order|
    ensures var b, s, at := SnapshotBytes(t, order), t.streams[order[i]], 4 + 48 * i;
            && |b| == 4 + 48 * |order| && U32At(b, 0) == |order|
            && U64At(b, at) == order[i] && U64At(b, at + 8) == s.epoch && U64At(b, at + 16) == s.next
            && U64At(b, at + 24) == s.commit && U64At(b, at + 32) == s.consumed && U64At(b, at + 40) == s.lastEntry
  {
    hide BE, FromBE, U32At, U64At, Pow256, StatusesBytes;
    var b := SnapshotBytes(t, order);
    OrderLength(t.streams.Keys, order);
    assert b[0..4] == BE(4, |order|);
    FieldAt(b, 0, 4, |order|);
    StatusPlace(t, order, i);
    var at := 4 + 48 * i;
    assert b[at..at + 48] == StatusesBytes(t, order)[48 * i..48 * i + 48];
    var s := t.streams[order[i]];
    SixFields(BE(8, s.id), BE(8, s.epoch), BE(8, s.next), BE(8, s.commit), BE(8, s.consumed), BE(8, s.lastEntry));
    FieldWithin(b, at, 0, s.id);
    FieldWithin(b, at, 8, s.epoch);
    FieldWithin(b, at, 16, s.next);
    FieldWithin(b, at, 24, s.commit);
    FieldWithin(b, at, 32, s.consumed);
    FieldWithin(b, at, 40, s.lastEntry);
  }

  lemma {:induction false} StatusPlace(t: Table, order: seq<nat>, i: nat)
    requires i < |order| && forall id <- order :: id in t.streams
    ensures StatusesBytes(t, order)[48 * i..48 * i + 48] == StatusBytes(t.streams[order[i]])
  {
    hide StatusBytes;
    var first, rest := StatusBytes(t.streams[order[0]]), StatusesBytes(t, order[1..]);
    if i == 0 {
      assert (first + rest)[0..48] == first;
    } else {
      StatusPlace(t, order[1..], i - 1);
      assert (first + rest)[48 * i..48 * i + 48] == rest[48 * (i - 1)..48 * (i - 1) + 48];
    }
  }

  /**
   * Of the strict prefixes of a snapshot only the empty one is accepted: it reads as a table without streams.  Less
   * than the number of streams is too small, the others are truncated.
   */
  lemma PrefixesRejected(t: Table, order: seq<nat>, limit: nat, cut: nat)
    requires Storable(t) && IsOrder(t, order)
    requires cut < |SnapshotBytes(t, order)|
    ensures var d := Decoded(limit, SnapshotBytes(t, order)[..cut]);
            && (d.Snapshot? <==> cut == 0)
            && d == if cut == 0 then Snapshot(Table(map[], limit)) else if cut < 4 then TooSmall else Truncated
  {
    var buf := SnapshotBytes(t, order)[..cut];
    if cut >= 4 {
      OrderLength(t.streams.Keys, order);
      assert buf[0..4] == BE(4, |order|);
      FieldAt(buf, 0, 4, |order|);
      ShortIsTruncated(buf, 4, |order|, map[]);
    }
  }

  // ---- the table's own methods ----

  /** `all_statuses`: the streams in some order. */
  method AllStatuses(t: StreamStateTable) returns (order: seq<nat>)
    ensures IsOrder(t.State(), order)
  {
    var rest := t.streams.Keys;
    order := [];
    while rest != {}
      invariant rest <= t.streams.Keys
      invariant forall id :: id in order <==> id in t.streams && id !in rest
      invariant forall i, j :: 0 <= i < j < |order| ==> order[i] != order[j]
      decreases rest
    {
      var id :| id in rest;
      order := order + [id];
      rest := rest - {id};
    }
  }

  lemma StatusesSnoc(t: Table, order: seq<nat>, i: nat)
    requires i < |order| && forall id <- order :: id in t.streams
    ensures StatusesBytes(t, order[..i + 1]) == StatusesBytes(t, order[..i]) + StatusBytes(t.streams[order[i]])
    decreases i
  {
    hide StatusBytes;
    if i > 0 {
      assert order[1..][..i] == order[..i + 1][1..] && order[1..][..i - 1] == order[..i][1..];
      StatusesSnoc(t, order[1..], i - 1);
    } else {
      assert order[..1][1..] == [] && order[..0] == [];
    }
  }

  /** `encode_snapshot`: grows the buffer field by field. */
  method EncodeSnapshot(t: StreamStateTable) returns (buf: seq<byte>, ghost order: seq<nat>)
    ensures IsOrder(t.State(), order) && buf == SnapshotBytes(t.State(), order)
  {
    hide BE;
    var statuses := AllStatuses(t);
    order := statuses;
    buf := BE(4, |statuses|);
    for i := 0 to |statuses|
      invariant buf == BE(4, |statuses|) + StatusesBytes(t.State(), statuses[..i])
    {
      var s := t.streams[statuses[i]];
      StatusesSnoc(t.State(), statuses, i);
      buf := buf + (BE(8, s.id) + BE(8, s.epoch) + BE(8, s.next) + BE(8, s.commit) + BE(8, s.consumed)
                    + BE(8, s.lastEntry));
    }
    assert statuses[..|statuses|] == statuses;
  }

  /** `decode_snapshot`: a cursor over the buffer. */
  method DecodeSnapshot(limit: nat, buf: seq<byte>) returns (r: SnapshotResult)
    ensures r == Decoded(limit, buf)
  {
    if buf == [] {
      return Snapshot(Table(map[], limit));
    }
    if |buf| < 4 {
      return TooSmall;
    }
    var count := U32At(buf, 0);
    var cursor: nat := 4;
    var streams: map<nat, Stream> := map[];
    for i := 0 to count
      invariant DecodeStatuses(buf, cursor, count - i, streams) == DecodeStatuses(buf, 4, count, map[])
    {
      if |buf| < cursor + STATUS_SIZE {
        return Truncated;
      }
      var s := StatusAt(buf, cursor);
      streams := streams[s.id := s];
      cursor := cursor + STATUS_SIZE;
    }
    r := Snapshot(Table(streams, limit));
  }
}
