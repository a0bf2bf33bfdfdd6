/** Segment headers, segment files with their synced length, and the shard's directory. */
module Segment {
  import opened Bytes

  const SEGMENT_MAGIC: u32 := 0x57534547
  const SEGMENT_HEADER_SIZE: nat := 64

  datatype HeaderResult = Header(shard: u16, id: u64, createdTs: u64) | BadMagic(magic: u32) | BadVersion(version: byte)

  function EncodeHeader(shard: u16, id: nat, ts: u64): (s: seq<byte>)
    ensures |s| == SEGMENT_HEADER_SIZE
  {
    BE(4, SEGMENT_MAGIC) + [1] + BE(2, shard) + [0] + BE(8, id) + BE(8, ts) + Zeros(40)
  }

  /** Writes a field over zeros: what is in front stays, the zeros behind it are fewer. */
  method PutField(hdr: array<byte>, ghost front: seq<byte>, at: nat, field: seq<byte>, ghost zeros: nat)
    requires at == |front| && hdr[..] == front + Zeros(|field| + zeros)
    modifies hdr
    ensures hdr[..] == front + field + Zeros(zeros)
  {
    CopyFromSlice(hdr, at, field);
    assert hdr[..] == hdr[..at] + hdr[at..at + |field|] + hdr[at + |field|..];
  }

  /** `encode_segment_header`: fills a zeroed array field by field. */
  method NewHeader(shard: u16, id: nat, ts: u64) returns (hdr: array<byte>)
    ensures fresh(hdr) && hdr[..] == EncodeHeader(shard, id, ts)
  {
    hide BE;
    hdr := new byte[SEGMENT_HEADER_SIZE](_ => 0);
    assert hdr[..] == [] + Zeros(64);
    PutField(hdr, [], 0, BE(4, SEGMENT_MAGIC), 60);
    ghost var f1 := [] + BE(4, SEGMENT_MAGIC);
    PutField(hdr, f1, 4, [1], 59);
    ghost var f2 := f1 + [1];
    PutField(hdr, f2, 5, BE(2, shard), 57);
    ghost var f3 := f2 + BE(2, shard) + [0];
    assert Zeros(57) == [0] + Zeros(56);
    PutField(hdr, f3, 8, BE(8, id), 48);
    PutField(hdr, f3 + BE(8, id), 16, BE(8, ts), 40);
  }

  function DecodeHeader(hdr: seq<byte>): HeaderResult
    requires |hdr| == SEGMENT_HEADER_SIZE
  {
    if U32At(hdr, 0) != SEGMENT_MAGIC then BadMagic(U32At(hdr, 0))
    else if hdr[4] != 1 then BadVersion(hdr[4])
    else Header(U16At(hdr, 5), U64At(hdr, 8), U64At(hdr, 16))
  }

  lemma HeaderRoundTrip(shard: u16, id: nat, ts: u64)
    ensures DecodeHeader(EncodeHeader(shard, id, ts)).Header?
    ensures id < U64_LIMIT ==> DecodeHeader(EncodeHeader(shard, id, ts)) == Header(shard, id, ts)
  {
    var h := EncodeHeader(shard, id, ts);
    assert h[0..4] == BE(4, SEGMENT_MAGIC) && h[5..7] == BE(2, shard);
    assert h[8..16] == BE(8, id) && h[16..24] == BE(8, ts);
    FieldAt(h, 0, 4, SEGMENT_MAGIC);
    FieldAt(h, 5, 2, shard);
    FieldAt(h, 8, 8, id);
    FieldAt(h, 16, 8, ts);
  }

  /** Where a header's fields are; the rest is zero. */
  lemma HeaderLayout(shard: u16, id: u64, ts: u64)
    ensures var h := EncodeHeader(shard, id, ts);
            && |h| == 64 && h[0..4] == [0x57, 0x53, 0x45, 0x47] && h[4] == 1 && h[7] == 0
            && U16At(h, 5) == shard && U64At(h, 8) == id && U64At(h, 16) == ts
            && forall k :: 24 <= k < 64 ==> h[k] == 0
  {
    var h := EncodeHeader(shard, id, ts);
    assert h[0..4] == BE(4, SEGMENT_MAGIC);
    assert h[5..7] == BE(2, shard);
    assert h[8..16] == BE(8, id);
    assert h[16..24] == BE(8, ts);
    MagicBytes();
    FieldAt(h, 5, 2, shard);
    FieldAt(h, 8, 8, id);
    FieldAt(h, 16, 8, ts);
  }

  lemma MagicBytes()
    ensures BE(4, SEGMENT_MAGIC) == [0x57, 0x53, 0x45, 0x47]
  {
  }

  /** A header is accepted exactly if it starts with the magic number and version 1, and gives its fields. */
  lemma AcceptedExactly(hdr: seq<byte>)
    requires |hdr| == 64
    ensures DecodeHeader(hdr).Header? <==> hdr[0..4] == [0x57, 0x53, 0x45, 0x47] && hdr[4] == 1
    ensures DecodeHeader(hdr).Header? ==> DecodeHeader(hdr) == Header(U16At(hdr, 5), U64At(hdr, 8), U64At(hdr, 16))
    ensures DecodeHeader(hdr).BadMagic? <==> hdr[0..4] != [0x57, 0x53, 0x45, 0x47]
    ensures DecodeHeader(hdr).BadMagic? ==> DecodeHeader(hdr).magic == U32At(hdr, 0)
    ensures DecodeHeader(hdr).BadVersion? ==> DecodeHeader(hdr).version == hdr[4] != 1
  {
    hide BE, FromBE;
    MagicBytes();
    FieldBytes(hdr, 0);
    if hdr[0..4] == BE(4, SEGMENT_MAGIC) {
      FieldAt(hdr, 0, 4, SEGMENT_MAGIC);
    }
  }

  /** A segment file: its bytes, and how many of them are known to survive a crash. */
  datatype File = File(data: seq<byte>, synced: nat)

  type Files = map<nat, File>

  /** A file whose header, if it is all there, is acceptable to recovery. */
  predicate HeaderAccepted(data: seq<byte>) {
    |data| < SEGMENT_HEADER_SIZE || DecodeHeader(data[..SEGMENT_HEADER_SIZE]).Header?
  }

  function WriteAt(f: File, off: nat, bytes: seq<byte>): File
    requires off <= |f.data|
  {
    File(
      f.data[..off] + bytes + (if off + |bytes| < |f.data| then f.data[off + |bytes|..] else []),
      Min(f.synced, off))
  }

  function Synced(f: File): File {
    File(f.data, |f.data|)
  }

  /** What a crash can leave of a file: some prefix that includes everything synced, all of it durable from now on. */
  ghost predicate SurvivesAs(f: File, g: File) {
    f.synced <= |g.data| <= |f.data| && g.data == f.data[..|g.data|] && g.synced == |g.data|
  }

  ghost predicate CrashImage(before: Files, after: Files) {
    before.Keys == after.Keys && forall id <- before.Keys :: SurvivesAs(before[id], after[id])
  }

  // ---- ascending lists of ids ----

  predicate Ascending(s: seq<nat>) {
    forall i, j :: 0 <= i < j < |s| ==> s[i] < s[j]
  }

  lemma {:induction false} MaxExists(s: set<nat>)
    requires s != {}
    ensures exists m :: m in s && forall k <- s :: k <= m
  {
    var m :| m in s;
    if s != {m} {
      MaxExists(s - {m});
      var n :| n in s - {m} && forall k <- s - {m} :: k <= n;
      var top := Max(m, n);
      assert top in s && forall k <- s :: k == m || k in s - {m};
    }
  }

  ghost function MaxOf(s: set<nat>): (m: nat)
    requires s != {}
    ensures m in s && forall k <- s :: k <= m
  {
    MaxExists(s);
    var m: nat :| m in s && forall k <- s :: k <= m;
    m
  }

  /** The elements of s in ascending order. */
  ghost function Ids(s: set<nat>): (r: seq<nat>)
    ensures Ascending(r)
    ensures forall k :: k in r <==> k in s
  {
    if s == {} then [] else Ids(s - {MaxOf(s)}) + [MaxOf(s)]
  }

  lemma FrontOfAscending(a: seq<nat>)
    requires Ascending(a) && a != []
    ensures Ascending(a[..|a| - 1])
    ensures forall k :: k in a[..|a| - 1] <==> k in a && k != a[|a| - 1]
    ensures forall k <- a :: k <= a[|a| - 1]
  {
    var front, last := a[..|a| - 1], a[|a| - 1];
    assert a == front + [last];
    forall k | k in front ensures k < last {
      var i :| 0 <= i < |front| && front[i] == k;
      assert a[i] < a[|a| - 1];
    }
  }

  /** There is only one way to list a set in ascending order. */
  lemma {:induction false} AscendingUnique(a: seq<nat>, b: seq<nat>)
    requires Ascending(a) && Ascending(b)
    requires forall k :: k in a <==> k in b
    ensures a == b
  {
    if a == [] {
      assert forall i :: 0 <= i < |b| ==> b[i] in b;
    } else {
      assert a[|a| - 1] in b && b != [] && b[|b| - 1] in a;
      FrontOfAscending(a);
      FrontOfAscending(b);
      assert a[|a| - 1] == b[|b| - 1];
      var x, a', b' := a[|a| - 1], a[..|a| - 1], b[..|b| - 1];
      forall k ensures k in a' <==> k in b' {
        assert k in a' <==> k in a && k != x;
        assert k in b' <==> k in b && k != x;
      }
      AscendingUnique(a', b');
      assert a == a[..|a| - 1] + [a[|a| - 1]] && b == b[..|b| - 1] + [b[|b| - 1]];
    }
  }

  lemma IdsExtend(s: set<nat>, m: nat)
    requires forall k <- s :: k < m
    ensures Ids(s + {m}) == Ids(s) + [m]
  {
    AscendingUnique(Ids(s + {m}), Ids(s) + [m]);
  }

  // ---- the directory ----

  lemma SplitAscending(s: seq<nat>, i: nat, x: nat)
    requires Ascending(s) && x !in s && i <= |s|
    requires forall j :: 0 <= j < i ==> s[j] < x
    requires i < |s| ==> x <= s[i]
    ensures Ascending(s[..i] + [x] + s[i..])
    ensures forall k :: k in s[..i] + [x] + s[i..] <==> k in s || k == x
  {
    var r := s[..i] + [x] + s[i..];
    assert forall j :: i < j < |r| ==> r[j] == s[j - 1];
    assert i < |s| ==> s[i] in s;
    forall a, b | 0 <= a < b < |r| ensures r[a] < r[b] {
      if a < i < b {
        assert r[a] == s[a] && r[b] == s[b - 1];
      }
    }
    assert s == s[..i] + s[i..];
  }

  method InsertAscending(s: seq<nat>, x: nat) returns (r: seq<nat>)
    requires Ascending(s) && x !in s
    ensures Ascending(r)
    ensures forall k :: k in r <==> k in s || k == x
  {
    var i := 0;
    while i < |s| && s[i] < x
      invariant i <= |s|
      invariant forall j :: 0 <= j < i ==> s[j] < x
    {
      i := i + 1;
    }
    r := s[..i] + [x] + s[i..];
    SplitAscending(s, i, x);
  }

  /** The shard's directory, as the operating system keeps it. */
  class Disk {
    var files: Files

    constructor ()
      ensures files == map[]
    {
      files := map[];
    }

    /** `create_new`: refuses an id that is already there. */
    method CreateNew(id: nat) returns (ok: bool)
      modifies this
      ensures ok <==> id !in old(files)
      ensures files == if ok then old(files)[id := File([], 0)] else old(files)
    {
      ok := id !in files;
      if ok {
        files := files[id := File([], 0)];
      }
    }

    method WriteAllAt(id: nat, bytes: seq<byte>, off: nat)
      requires id in files && off <= |files[id].data|
      modifies this
      ensures files == old(files)[id := WriteAt(old(files[id]), off, bytes)]
    {
      files := files[id := WriteAt(files[id], off, bytes)];
    }

    method SyncData(id: nat)
      requires id in files
      modifies this
      ensures files == old(files)[id := Synced(old(files[id]))]
    {
      files := files[id := Synced(files[id])];
    }

    method Remove(id: nat)
      modifies this
      ensures files == old(files) - {id}
    {
      files := files - {id};
    }

    /** `list_segments`: collects the ids in whatever order the directory yields them, and sorts. */
    method ListSegments() returns (ids: seq<nat>)
      ensures ids == Ids(files.Keys)
    {
      var rest := files.Keys;
      ids := [];
      while rest != {}
        invariant rest <= files.Keys
        invariant Ascending(ids)
        invariant forall k :: k in ids <==> k in files && k !in rest
        decreases rest
      {
        var id :| id in rest;
        ids := InsertAscending(ids, id);
        rest := rest - {id};
      }
      AscendingUnique(ids, Ids(files.Keys));
    }
  }
}
