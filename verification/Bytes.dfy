/** Bytes, machine words, and the big-endian encoding every on-disk and on-wire format here is built from. */
module Bytes {

  const U16_LIMIT: int := 0x1_0000
  const U32_LIMIT: int := 0x1_0000_0000
  const U64_LIMIT: int := 0x1_0000_0000_0000_0000

  type byte = b: int | 0 <= b < 256
  type u16 = x: int | 0 <= x < U16_LIMIT
  type u32 = x: int | 0 <= x < U32_LIMIT
  type u64 = x: int | 0 <= x < U64_LIMIT

  datatype Option<+T> = None | Some(value: T)

  function Max(a: int, b: int): int {
    if a < b then b else a
  }

  function Min(a: int, b: int): int {
    if a < b then a else b
  }

  function Pow256(n: nat): (p: nat)
    ensures p > 0
  {
    if n == 0 then 1 else 256 * Pow256(n - 1)
  }

  /** The low n bytes of v, most significant first: `to_be_bytes`, and a truncating cast when v is too wide. */
  function BE(n: nat, v: nat): (s: seq<byte>)
    ensures |s| == n
    decreases n, v
  {
    if n == 0 then [] else BE(n - 1, v / 256) + [v % 256]
  }

  function Zeros(n: nat): (s: seq<byte>)
    ensures |s| == n
  {
    seq(n, i => 0)
  }

  /** The number a big-endian byte string denotes: `from_be_bytes`. */
  function FromBE(s: seq<byte>): (v: nat)
    ensures v < Pow256(|s|)
  {
    if s == [] then 0 else 256 * FromBE(s[..|s| - 1]) + s[|s| - 1]
  }

  lemma {:induction false} FromBEofBE(n: nat, v: nat)
    requires v < Pow256(n)
    ensures FromBE(BE(n, v)) == v
  {
    if n > 0 {
      FromBEofBE(n - 1, v / 256);
      assert BE(n, v)[..n - 1] == BE(n - 1, v / 256);
    }
  }

  lemma {:induction false} BEofFromBE(s: seq<byte>)
    ensures BE(|s|, FromBE(s)) == s
  {
    if s != [] {
      var front, last := s[..|s| - 1], s[|s| - 1];
      BEofFromBE(front);
      assert FromBE(s) / 256 == FromBE(front) && FromBE(s) % 256 == last;
      assert s == front + [last];
    }
  }

  /** The first byte is the most significant. */
  lemma {:induction false} MostSignificantFirst(x: byte, s: seq<byte>)
    ensures FromBE([x] + s) == x * Pow256(|s|) + FromBE(s)
  {
    if s == [] {
      assert [x][..0] == [];
      assert FromBE([x]) == 256 * FromBE([]) + x;
      assert [x] + s == [x];
    } else {
      hide FromBE, Pow256;
      var front, last := s[..|s| - 1], s[|s| - 1];
      MostSignificantFirst(x, front);
      LastByte([x] + s);
      assert ([x] + s)[..|s|] == [x] + front;
      LastByte(s);
      ScaleUp(x, Pow256(|front|), FromBE(front), last);
    }
  }

  lemma LastByte(s: seq<byte>)
    requires s != []
    ensures FromBE(s) == 256 * FromBE(s[..|s| - 1]) + s[|s| - 1]
    ensures Pow256(|s|) == 256 * Pow256(|s| - 1)
  {
  }

  lemma ScaleUp(x: int, p: int, f: int, last: int)
    ensures 256 * (x * p + f) + last == x * (256 * p) + (256 * f + last)
  {
  }

  function U16At(buf: seq<byte>, i: nat): u16
    requires i + 2 <= |buf|
  {
    assert Pow256(2) == U16_LIMIT;
    FromBE(buf[i..i + 2])
  }

  function U32At(buf: seq<byte>, i: nat): u32
    requires i + 4 <= |buf|
  {
    assert Pow256(4) == U32_LIMIT;
    FromBE(buf[i..i + 4])
  }

  function U64At(buf: seq<byte>, i: nat): u64
    requires i + 8 <= |buf|
  {
    assert Pow256(8) == U64_LIMIT;
    FromBE(buf[i..i + 8])
  }

  /** A field read where a field was written gives the value back. */
  lemma FieldAt(buf: seq<byte>, i: nat, n: nat, v: nat)
    requires n in {2, 4, 8} && i + n <= |buf|
    requires buf[i..i + n] == BE(n, v)
    ensures n == 2 && v < U16_LIMIT ==> U16At(buf, i) == v
    ensures n == 4 && v < U32_LIMIT ==> U32At(buf, i) == v
    ensures n == 8 && v < U64_LIMIT ==> U64At(buf, i) == v
  {
    assert Pow256(2) == U16_LIMIT && Pow256(4) == U32_LIMIT && Pow256(8) == U64_LIMIT;
    if v < Pow256(n) {
      FromBEofBE(n, v);
    }
  }

  /** Conversely, re-encoding a field that was read gives its bytes back. */
  lemma FieldBytes(buf: seq<byte>, i: nat)
    ensures i + 4 <= |buf| ==> BE(4, U32At(buf, i)) == buf[i..i + 4]
    ensures i + 8 <= |buf| ==> BE(8, U64At(buf, i)) == buf[i..i + 8]
  {
    if i + 4 <= |buf| {
      BEofFromBE(buf[i..i + 4]);
    }
    if i + 8 <= |buf| {
      BEofFromBE(buf[i..i + 8]);
    }
  }

  /** `copy_from_slice`: overwrites part of a buffer and nothing else of it. */
  method CopyFromSlice(buf: array<byte>, at: nat, s: seq<byte>)
    requires at + |s| <= buf.Length
    modifies buf
    ensures buf[at..at + |s|] == s
    ensures buf[..at] == old(buf[..at]) && buf[at + |s|..] == old(buf[at + |s|..])
  {
    for i := 0 to |s|
      invariant buf[at..at + i] == s[..i]
      invariant buf[..at] == old(buf[..at]) && buf[at + |s|..] == old(buf[at + |s|..])
    {
      buf[at + i] := s[i];
    }
  }
}
