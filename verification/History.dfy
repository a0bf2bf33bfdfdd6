/** The committed sequence a shard is fed, and the simple map and watermarks it stands for. */
module History {
  import opened Bytes
  import opened Record

  datatype Command = Command(request: u64, stream: u64, epoch: u64, lsn: u64, payload: seq<byte>)

  datatype Entry = Entry(index: u64, cmd: Command)

  type History = seq<Entry>

  /** Every record fits its length field, no LSN is the largest word, and Raft indexes start at 1. */
  ghost predicate WithinLimits(h: History) {
    forall i :: 0 <= i < |h| ==> EntryWithinLimits(h[i])
  }

  predicate EntryWithinLimits(e: Entry) {
    HEADER_SIZE + |e.cmd.payload| < U32_LIMIT && e.cmd.lsn + 1 < U64_LIMIT && e.index >= 1
  }

  predicate Writes(e: Entry, stream: nat, lsn: nat) {
    e.cmd.stream == stream && e.cmd.lsn == lsn
  }

  /** The committed sequence binds each stream LSN to one payload. */
  ghost predicate Functional(h: History) {
    forall i, j :: 0 <= i < j < |h| && Writes(h[j], h[i].cmd.stream, h[i].cmd.lsn) ==>
                     h[i].cmd.payload == h[j].cmd.payload
  }

  /** The position of the last entry among the first n that writes a key, or -1. */
  function LastWriter(h: History, n: nat, stream: nat, lsn: nat): (r: int)
    requires n <= |h|
    ensures -1 <= r < n
    ensures r >= 0 ==> Writes(h[r], stream, lsn)
  {
    if n == 0 then -1
    else if Writes(h[n - 1], stream, lsn) then n - 1
    else LastWriter(h, n - 1, stream, lsn)
  }

  /** The map the first n entries stand for: the last write of a key wins. */
  function Content(h: History, n: nat, stream: nat, lsn: nat): Option<Entry>
    requires n <= |h|
  {
    var i := LastWriter(h, n, stream, lsn);
    if i < 0 then None else Some(h[i])
  }

  lemma {:induction false} NoneLater(h: History, n: nat, stream: nat, lsn: nat, i: nat)
    requires i < n <= |h| && Writes(h[i], stream, lsn)
    ensures i <= LastWriter(h, n, stream, lsn)
  {
    if i < n - 1 {
      NoneLater(h, n - 1, stream, lsn, i);
    }
  }

  lemma {:induction false} LastWriterGrows(h: History, m: nat, n: nat, stream: nat, lsn: nat)
    requires m <= n <= |h|
    ensures LastWriter(h, m, stream, lsn) <= LastWriter(h, n, stream, lsn)
  {
    if m < n {
      LastWriterGrows(h, m, n - 1, stream, lsn);
    }
  }

  // ---- watermarks ----

  datatype Mark = ByLsn | ByIndex | ByEpoch

  function MarkOf(e: Entry, m: Mark): nat {
    match m
    case ByLsn => e.cmd.lsn + 1
    case ByIndex => e.index
    case ByEpoch => e.cmd.epoch
  }

  /** The highest mark of a stream among the first n entries. */
  function Peak(h: History, n: nat, stream: nat, m: Mark): nat
    requires n <= |h|
  {
    if n == 0 then 0
    else
      var p := Peak(h, n - 1, stream, m);
      if h[n - 1].cmd.stream == stream then Max(p, MarkOf(h[n - 1], m)) else p
  }

  lemma {:induction false} PeakGrows(h: History, a: nat, b: nat, stream: nat, m: Mark)
    requires a <= b <= |h|
    ensures Peak(h, a, stream, m) <= Peak(h, b, stream, m)
  {
    if a < b {
      PeakGrows(h, a, b - 1, stream, m);
    }
  }

  lemma {:induction false} PeakCovers(h: History, n: nat, i: nat, m: Mark)
    requires i < n <= |h|
    ensures MarkOf(h[i], m) <= Peak(h, n, h[i].cmd.stream, m)
  {
    if i < n - 1 {
      PeakCovers(h, n - 1, i, m);
    }
  }

  /** The peak is the least bound: anything at or above every mark of the stream is at or above it. */
  lemma {:induction false} PeakIsLeast(h: History, n: nat, stream: nat, m: Mark, bound: nat)
    requires n <= |h|
    requires forall i :: 0 <= i < n && h[i].cmd.stream == stream ==> MarkOf(h[i], m) <= bound
    ensures Peak(h, n, stream, m) <= bound
  {
    if n > 0 {
      PeakIsLeast(h, n - 1, stream, m, bound);
    }
  }

  /** Each of the entries from one position to another takes the LSN right above all earlier ones of its stream. */
  ghost predicate InSequence(h: History, from: nat, n: nat)
    requires n <= |h|
  {
    forall i :: from <= i < n ==> h[i].cmd.lsn == Peak(h, i, h[i].cmd.stream, ByLsn)
  }

  // ---- binding an LSN again ----

  /** How many of the first n entries write to a stream. */
  function Count(h: History, n: nat, stream: nat): (c: nat)
    requires n <= |h|
    ensures c <= n
  {
    if n == 0 then 0 else Count(h, n - 1, stream) + if h[n - 1].cmd.stream == stream then 1 else 0
  }

  lemma {:induction false} CountGrows(h: History, m: nat, n: nat, stream: nat)
    requires m <= n <= |h|
    ensures Count(h, m, stream) <= Count(h, n, stream)
    ensures m < n && h[m].cmd.stream == stream ==> Count(h, m, stream) < Count(h, n, stream)
  {
    if m < n {
      CountGrows(h, m, n - 1, stream);
    }
  }

  /** Entry j binds the LSN of entry i to another payload with fewer than limit entries of their stream in [i, j). */
  predicate RebindsNear(h: History, limit: nat, i: nat, j: nat)
    requires i <= j < |h|
  {
    && Writes(h[j], h[i].cmd.stream, h[i].cmd.lsn) && h[i].cmd.payload != h[j].cmd.payload
    && Count(h, j, h[i].cmd.stream) < Count(h, i, h[i].cmd.stream) + limit
  }

  /** No LSN is bound to another payload, among the first n entries, before its old record has left the cache. */
  ghost predicate RebindsFarApart(h: History, n: nat, limit: nat) {
    forall i, j :: 0 <= i < j < n && j < |h| ==> !RebindsNear(h, limit, i, j)
  }

  lemma FunctionalIsFarApart(h: History, n: nat, limit: nat)
    requires Functional(h)
    ensures RebindsFarApart(h, n, limit)
  {
  }

  /** Entries in sequence bind no LSN that was bound before. */
  lemma {:induction false} SequencedIsFarApart(h: History, from: nat, n: nat, limit: nat)
    requires n <= |h| && RebindsFarApart(h, from, limit) && InSequence(h, from, n)
    ensures RebindsFarApart(h, n, limit)
  {
    hide Count, Peak;
    forall i, j | 0 <= i < j < n && j >= from ensures !Writes(h[j], h[i].cmd.stream, h[i].cmd.lsn) {
      PeakCovers(h, j, i, ByLsn);
    }
    forall i, j | 0 <= i < j < n && j < |h| ensures !RebindsNear(h, limit, i, j) {
      assert j < from ==> !RebindsNear(h, limit, i, j);
    }
  }
}
