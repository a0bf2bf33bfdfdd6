/** The WAL record codec.  The checksum function is a parameter: nothing below depends on what it computes. */
module Record {
  import opened Bytes

  const HEADER_SIZE: nat := 48

  type Crc = seq<byte> -> u32

  datatype WalRecord = WalRecord(stream: u64, epoch: u64, entry: u64, lsn: u64, ts: u64, payload: seq<byte>)

  datatype DecodeResult =
    | Decoded(rec: WalRecord, size: nat)
    | TooSmall
    | CrcMismatch(expected: u32, actual: u32)
    | Panicked // the payload slice starts after it ends: the process aborts

  function EncodedSize(r: WalRecord): nat {
    HEADER_SIZE + |r.payload|
  }

  /** The encoded size survives the casts to u32 of the length field and of the index entry. */
  predicate Fits(r: WalRecord) {
    EncodedSize(r) < U32_LIMIT
  }

  /** Everything after the checksum, which is also what the checksum covers. */
  function Body(r: WalRecord): (b: seq<byte>)
    ensures |b| == EncodedSize(r) - 4
  {
    BE(4, EncodedSize(r) - 8) + BE(8, r.stream) + BE(8, r.epoch) + BE(8, r.entry) + BE(8, r.lsn) + BE(8, r.ts)
    + r.payload
  }

  function Encode(crc: Crc, r: WalRecord): (s: seq<byte>)
    ensures |s| == EncodedSize(r)
  {
    BE(4, crc(Body(r))) + Body(r)
  }

  function Decode(crc: Crc, buf: seq<byte>): (r: DecodeResult)
    ensures r.Decoded? ==> HEADER_SIZE <= r.size <= |buf| && EncodedSize(r.rec) == r.size
  {
    if |buf| < HEADER_SIZE then TooSmall
    else
      var storedCrc := U32At(buf, 0);
      var total := 8 + U32At(buf, 4);
      if |buf| < total then TooSmall
      else if storedCrc != crc(buf[4..total]) then CrcMismatch(storedCrc, crc(buf[4..total]))
      else if total < HEADER_SIZE then Panicked
      else
        Decoded(
          WalRecord(U64At(buf, 8), U64At(buf, 16), U64At(buf, 24), U64At(buf, 32), U64At(buf, 40),
                 buf[HEADER_SIZE..total]),
          total)
  }

  lemma SliceOfSlice<T>(s: seq<T>, a: nat, b: nat, i: nat, j: nat)
    requires i <= j && a + j <= b <= |s|
    ensures s[a..b][i..j] == s[a + i..a + j]
  {
    var l, r := s[a..b][i..j], s[a + i..a + j];
    assert |l| == |r| && forall k :: 0 <= k < |l| ==> l[k] == s[a..b][i + k] == s[a + i + k] == r[k];
  }

  /** Where each field sits in a buffer that holds a record's body from byte 4. */
  lemma BodyFields(r: WalRecord, b: seq<byte>)
    requires |b| >= EncodedSize(r) && b[4..EncodedSize(r)] == Body(r)
    ensures b[4..8] == BE(4, EncodedSize(r) - 8)
    ensures b[8..16] == BE(8, r.stream)
    ensures b[16..24] == BE(8, r.epoch)
    ensures b[24..32] == BE(8, r.entry)
    ensures b[32..40] == BE(8, r.lsn)
    ensures b[40..48] == BE(8, r.ts)
    ensures b[48..EncodedSize(r)] == r.payload
  {
    var n := EncodedSize(r);
    var body := Body(r);
    assert body[0..4] == BE(4, n - 8) && body[4..12] == BE(8, r.stream) && body[12..20] == BE(8, r.epoch);
    assert body[20..28] == BE(8, r.entry) && body[28..36] == BE(8, r.lsn) && body[36..44] == BE(8, r.ts);
    assert body[44..n - 4] == r.payload;
    SliceOfSlice(b, 4, n, 0, 4);
    SliceOfSlice(b, 4, n, 4, 12);
    SliceOfSlice(b, 4, n, 12, 20);
    SliceOfSlice(b, 4, n, 20, 28);
    SliceOfSlice(b, 4, n, 28, 36);
    SliceOfSlice(b, 4, n, 36, 44);
    SliceOfSlice(b, 4, n, 44, n - 4);
  }

  /** Decoding an encoding, whatever follows it, gives the record and its size back. */
  lemma RoundTrip(crc: Crc, r: WalRecord, rest: seq<byte>)
    requires Fits(r)
    ensures Decode(crc, Encode(crc, r) + rest) == Decoded(r, EncodedSize(r))
  {
    var b := Encode(crc, r) + rest;
    assert b[0..4] == BE(4, crc(Body(r)));
    assert b[4..EncodedSize(r)] == Body(r);
    BodyFields(r, b);
    FieldAt(b, 0, 4, crc(Body(r)));
    FieldAt(b, 4, 4, EncodedSize(r) - 8);
    FieldAt(b, 8, 8, r.stream);
    FieldAt(b, 16, 8, r.epoch);
    FieldAt(b, 24, 8, r.entry);
    FieldAt(b, 32, 8, r.lsn);
    FieldAt(b, 40, 8, r.ts);
  }

  lemma Glue(buf: seq<byte>, n: nat)
    requires 48 <= n <= |buf|
    ensures buf[4..8] + buf[8..16] + buf[16..24] + buf[24..32] + buf[32..40] + buf[40..48] + buf[48..n] == buf[4..n]
    ensures buf[..n] == buf[0..4] + buf[4..n]
  {
  }

  /** The converse: whatever decodes is, byte for byte, the encoding of what it decodes to. */
  lemma DecodedIsEncoded(crc: Crc, buf: seq<byte>)
    requires Decode(crc, buf).Decoded?
    ensures var d := Decode(crc, buf); Encode(crc, d.rec) == buf[..d.size]
  {
    hide BE, FromBE, U32At, U64At, Pow256;
    var d := Decode(crc, buf);
    FieldBytes(buf, 0);
    FieldBytes(buf, 4);
    FieldBytes(buf, 8);
    FieldBytes(buf, 16);
    FieldBytes(buf, 24);
    FieldBytes(buf, 32);
    FieldBytes(buf, 40);
    assert d.size == 8 + U32At(buf, 4);
    Glue(buf, d.size);
  }

  /** A verdict other than "too small" is final: more bytes after it change nothing. */
  lemma DecodeStable(crc: Crc, buf: seq<byte>, more: seq<byte>)
    requires !Decode(crc, buf).TooSmall?
    ensures Decode(crc, buf + more) == Decode(crc, buf)
  {
    var b := buf + more;
    assert b[0..4] == buf[0..4] && b[4..8] == buf[4..8];
    var total := 8 + U32At(buf, 4);
    assert b[4..total] == buf[4..total];
    if total >= HEADER_SIZE {
      assert b[8..16] == buf[8..16] && b[16..24] == buf[16..24] && b[24..32] == buf[24..32];
      assert b[32..40] == buf[32..40] && b[40..48] == buf[40..48] && b[48..total] == buf[48..total];
    }
  }

  /** Every strict prefix of something that decodes is too small, whatever the checksum. */
  lemma PrefixTooSmall(crc: Crc, buf: seq<byte>, cut: nat)
    requires Decode(crc, buf).Decoded? && cut < Decode(crc, buf).size
    ensures Decode(crc, buf[..cut]) == TooSmall
  {
    if cut >= HEADER_SIZE {
      assert buf[..cut][4..8] == buf[4..8];
    }
  }

  /** Cutting behind the record that decodes changes nothing. */
  lemma DecodeCut(crc: Crc, buf: seq<byte>, cut: nat)
    requires Decode(crc, buf).Decoded? && Decode(crc, buf).size <= cut <= |buf|
    ensures Decode(crc, buf[..cut]) == Decode(crc, buf)
  {
    assert buf[..cut][4..8] == buf[4..8];
    assert buf == buf[..cut] + buf[cut..];
    DecodeStable(crc, buf[..cut], buf[cut..]);
  }

  /** Where a record's fields are in its encoding. */
  lemma Layout(crc: Crc, r: WalRecord)
    requires Fits(r)
    ensures var b := Encode(crc, r);
            && |b| == 48 + |r.payload|
            && U32At(b, 0) == crc(b[4..]) && U32At(b, 4) == 40 + |r.payload|
            && U64At(b, 8) == r.stream && U64At(b, 16) == r.epoch && U64At(b, 24) == r.entry
            && U64At(b, 32) == r.lsn && U64At(b, 40) == r.ts && b[48..] == r.payload
  {
    hide BE, FromBE, U32At, U64At, Pow256;
    var b := Encode(crc, r);
    assert b[0..4] == BE(4, crc(Body(r)));
    assert b[4..EncodedSize(r)] == Body(r) == b[4..];
    BodyFields(r, b);
    assert b[48..] == b[48..EncodedSize(r)];
    FieldAt(b, 0, 4, crc(Body(r)));
    FieldAt(b, 4, 4, EncodedSize(r) - 8);
    FieldAt(b, 8, 8, r.stream);
    FieldAt(b, 16, 8, r.epoch);
    FieldAt(b, 24, 8, r.entry);
    FieldAt(b, 32, 8, r.lsn);
    FieldAt(b, 40, 8, r.ts);
  }

  /** A buffer is called too small only as long as more bytes would lead to another verdict. */
  lemma TooSmallCanGrow(crc: Crc, buf: seq<byte>)
    requires Decode(crc, buf) == TooSmall
    ensures exists more :: Decode(crc, buf + more) != TooSmall
  {
    var all := buf + Zeros(U32_LIMIT + 48);
    assert |all| >= 8 + U32At(all, 4);
    assert Decode(crc, all) != TooSmall;
  }

  /** A mismatch names the checksum stored and the one computed, and they differ. */
  lemma MismatchNames(crc: Crc, buf: seq<byte>)
    requires Decode(crc, buf).CrcMismatch?
    ensures |buf| >= 48 && |buf| >= 8 + U32At(buf, 4)
    ensures var d := Decode(crc, buf);
            d.expected == U32At(buf, 0) && d.actual == crc(buf[4..8 + U32At(buf, 4)]) && d.expected != d.actual
  {
  }

  /** Exactly which buffers abort the process: a checksum that matches over a body shorter than the fixed fields. */
  lemma PanicsExactly(crc: Crc, buf: seq<byte>)
    ensures Decode(crc, buf) == Panicked
       <==> |buf| >= HEADER_SIZE && U32At(buf, 4) < 40 && U32At(buf, 0) == crc(buf[4..8 + U32At(buf, 4)])
  {
  }

  /** Such a buffer exists for every checksum: a length of zero, and the checksum of those four length bytes. */
  lemma PanicInput(crc: Crc)
    ensures Decode(crc, BE(4, crc([0, 0, 0, 0])) + Zeros(44)) == Panicked
  {
    var buf := BE(4, crc([0, 0, 0, 0])) + Zeros(44);
    assert buf[0..4] == BE(4, crc([0, 0, 0, 0])) && buf[4..8] == [0, 0, 0, 0] == BE(4, 0);
    FieldAt(buf, 0, 4, crc([0, 0, 0, 0]));
    FieldAt(buf, 4, 4, 0);
  }

  // ---- the in-place encoder ----

  /** Writes s right after what was already written from byte 4 on. */
  method Extend(buf: array<byte>, at: nat, s: seq<byte>, ghost done: seq<byte>)
    requires 4 <= at && at + |s| <= buf.Length
    requires buf[4..at] == done
    modifies buf
    ensures buf[4..at + |s|] == done + s
    ensures forall k :: at + |s| <= k < buf.Length ==> buf[k] == old(buf[k])
  {
    CopyFromSlice(buf, at, s);
    assert buf[4..at] == buf[..at][4..];
    assert buf[4..at + |s|] == buf[4..at] + buf[at..at + |s|];
    assert forall k :: at + |s| <= k < buf.Length ==> buf[k] == buf[at + |s|..][k - at - |s|];
  }

  /** `encode`: fills the front of the buffer in place and touches nothing behind it. */
  method EncodeInto(crc: Crc, r: WalRecord, buf: array<byte>) returns (written: nat)
    requires buf.Length >= EncodedSize(r)
    modifies buf
    ensures written == EncodedSize(r)
    ensures buf[..written] == Encode(crc, r)
    ensures forall k :: written <= k < buf.Length ==> buf[k] == old(buf[k])
  {
    written := EncodedSize(r);
    ghost var d1 := BE(4, written - 8);
    ghost var d2 := d1 + BE(8, r.stream);
    ghost var d3 := d2 + BE(8, r.epoch);
    ghost var d4 := d3 + BE(8, r.entry);
    ghost var d5 := d4 + BE(8, r.lsn);
    ghost var d6 := d5 + BE(8, r.ts);
    Extend(buf, 4, BE(4, written - 8), []);
    Extend(buf, 8, BE(8, r.stream), d1);
    Extend(buf, 16, BE(8, r.epoch), d2);
    Extend(buf, 24, BE(8, r.entry), d3);
    Extend(buf, 32, BE(8, r.lsn), d4);
    Extend(buf, 40, BE(8, r.ts), d5);
    Extend(buf, 48, r.payload, d6);
    assert buf[4..written] == Body(r);
    var checksum := crc(buf[4..written]);
    label Filled:
    CopyFromSlice(buf, 0, BE(4, checksum));
    assert forall k :: 4 <= k < buf.Length ==>
        buf[k] == buf[4..][k - 4] == old@Filled(buf[4..])[k - 4] == old@Filled(buf[k]);
    assert buf[4..written] == Body(r);
    assert buf[..written] == buf[0..4] + buf[4..written];
  }
}
