/**
 * The recovery scan of a segment, and the log it recovers from a whole directory.
 * The scan is also the abstraction function of this model: `DiskLog` is what the bytes on disk mean.
 */
module Scan {
  import opened Bytes
  import opened Record
  import opened Index

  datatype Placed = Placed(loc: Loc, rec: WalRecord)

  /** The records the scan finds from offset off on, with the locations it indexes them at. */
  function ScanFrom(crc: Crc, seg: nat, data: seq<byte>, off: nat): (ps: seq<Placed>)
    requires off <= |data|
    decreases |data| - off
  {
    if off == |data| then []
    else
      match Decode(crc, data[off..])
      case Decoded(r, n) => [Placed(Loc(seg, off, n % U32_LIMIT), r)] + ScanFrom(crc, seg, data, off + n)
      case _ => []
  }

  /** Where the scan stops. */
  function ScanEnd(crc: Crc, data: seq<byte>, off: nat): (end: nat)
    requires off <= |data|
    ensures off <= end <= |data|
    decreases |data| - off
  {
    if off == |data| then off
    else
      match Decode(crc, data[off..])
      case Decoded(_, n) => ScanEnd(crc, data, off + n)
      case _ => off
  }

  /** The scan stops because decoding aborts the process. */
  predicate ScanPanics(crc: Crc, data: seq<byte>, off: nat)
    requires off <= |data|
  {
    var end := ScanEnd(crc, data, off);
    end < |data| && Decode(crc, data[end..]) == Panicked
  }

  function EncodeAll(crc: Crc, rs: seq<WalRecord>): seq<byte> {
    if rs == [] then [] else Encode(crc, rs[0]) + EncodeAll(crc, rs[1..])
  }

  function Records(ps: seq<Placed>): (rs: seq<WalRecord>)
    ensures |rs| == |ps| && forall i :: 0 <= i < |ps| ==> rs[i] == ps[i].rec
  {
    seq(|ps|, i requires 0 <= i < |ps| => ps[i].rec)
  }

  /** The locations of consecutive records start at off, touch one another, and end at end. */
  predicate Tiles(ps: seq<Placed>, seg: nat, off: nat, end: nat) {
    if ps == [] then off == end
    else
      ps[0].loc == Loc(seg, off, EncodedSize(ps[0].rec) % U32_LIMIT)
      && Tiles(ps[1..], seg, off + EncodedSize(ps[0].rec), end)
  }

  // ---- one segment ----

  /** One turn of the scan. */
  lemma ScanTurn(crc: Crc, seg: nat, data: seq<byte>, off: nat)
    requires off <= |data|
    ensures if off == |data| then ScanFrom(crc, seg, data, off) == [] && ScanEnd(crc, data, off) == off
            else
              match Decode(crc, data[off..])
              case Decoded(r, n) =>
                && ScanFrom(crc, seg, data, off)
                   == [Placed(Loc(seg, off, n % U32_LIMIT), r)] + ScanFrom(crc, seg, data, off + n)
                && ScanEnd(crc, data, off) == ScanEnd(crc, data, off + n)
              case _ => ScanFrom(crc, seg, data, off) == [] && ScanEnd(crc, data, off) == off
  {
  }

  /** The bytes scanned are exactly the encodings of the records found, tiled without gap or overlap. */
  lemma {:induction false} ScanIsImage(crc: Crc, seg: nat, data: seq<byte>, off: nat)
    requires off <= |data|
    ensures var ps, end := ScanFrom(crc, seg, data, off), ScanEnd(crc, data, off);
            data[off..end] == EncodeAll(crc, Records(ps)) && Tiles(ps, seg, off, end)
    decreases |data| - off
  {
    hide Decode, Encode, ScanFrom, ScanEnd;
    ScanTurn(crc, seg, data, off);
    if off < |data| && Decode(crc, data[off..]).Decoded? {
      var d := Decode(crc, data[off..]);
      var next, end := off + d.size, ScanEnd(crc, data, off);
      ScanIsImage(crc, seg, data, next);
      DecodedIsEncoded(crc, data[off..]);
      var ps, rest := ScanFrom(crc, seg, data, off), ScanFrom(crc, seg, data, next);
      assert ps[1..] == rest;
      assert Records(ps)[1..] == Records(rest);
      assert data[off..][..d.size] == data[off..next];
      assert data[off..end] == data[off..next] + data[next..end];
    }
  }

  /** A location written by consecutive appends from off on. */
  function PlacedFrom(seg: nat, off: nat, rs: seq<WalRecord>): seq<Placed>
    decreases |rs|
  {
    if rs == [] then []
    else [Placed(Loc(seg, off, EncodedSize(rs[0])), rs[0])] + PlacedFrom(seg, off + EncodedSize(rs[0]), rs[1..])
  }

  ghost predicate TornTail(crc: Crc, torn: seq<byte>) {
    exists r :: Fits(r) && |torn| < EncodedSize(r) && torn == Encode(crc, r)[..|torn|]
  }

  lemma Regroup(a: seq<byte>, b: seq<byte>, c: seq<byte>, d: seq<byte>)
    ensures a + (b + c) + d == (a + b) + c + d
    ensures (a + (b + c) + d)[|a|..] == b + (c + d)
  {
  }

  /** The converse: encodings followed by a piece of one more are scanned to exactly those records. */
  lemma {:induction false} ScanFindsRecords(crc: Crc, seg: nat, pre: seq<byte>, rs: seq<WalRecord>, torn: seq<byte>)
    requires forall r <- rs :: Fits(r)
    requires TornTail(crc, torn)
    ensures var data := pre + EncodeAll(crc, rs) + torn;
            && ScanFrom(crc, seg, data, |pre|) == PlacedFrom(seg, |pre|, rs)
            && ScanEnd(crc, data, |pre|) == |data| - |torn|
            && !ScanPanics(crc, data, |pre|)
    decreases |rs|
  {
    hide Decode, Encode, ScanFrom, ScanEnd;
    var data := pre + EncodeAll(crc, rs) + torn;
    ScanTurn(crc, seg, data, |pre|);
    if rs == [] {
      var r :| Fits(r) && |torn| < EncodedSize(r) && torn == Encode(crc, r)[..|torn|];
      RoundTrip(crc, r, []);
      assert Encode(crc, r) + [] == Encode(crc, r);
      PrefixTooSmall(crc, Encode(crc, r), |torn|);
      assert data[|pre|..] == torn;
    } else {
      var first := Encode(crc, rs[0]);
      var rest := EncodeAll(crc, rs[1..]);
      Regroup(pre, first, rest, torn);
      RoundTrip(crc, rs[0], rest + torn);
      ScanFindsRecords(crc, seg, pre + first, rs[1..], torn);
    }
  }

  /** Scanning past a point the scan would have stopped at anyway continues from there. */
  lemma {:induction false} ScanContinues(crc: Crc, seg: nat, data: seq<byte>, off: nat, more: seq<byte>)
    requires off <= |data| && ScanEnd(crc, data, off) == |data|
    ensures ScanFrom(crc, seg, data + more, off)
         == ScanFrom(crc, seg, data, off) + ScanFrom(crc, seg, data + more, |data|)
    ensures ScanEnd(crc, data + more, off) == ScanEnd(crc, data + more, |data|)
    decreases |data| - off
  {
    hide Decode, Encode, ScanFrom, ScanEnd;
    ScanTurn(crc, seg, data, off);
    ScanTurn(crc, seg, data + more, off);
    if off < |data| {
      var n := Decode(crc, data[off..]).size;
      DecodeStable(crc, data[off..], more);
      assert (data + more)[off..] == data[off..] + more;
      ScanContinues(crc, seg, data, off + n, more);
    }
  }

  /** Appending a record to a segment the scan reads to its end appends exactly that record to the scan. */
  lemma {:induction false} ScanAppend(crc: Crc, seg: nat, data: seq<byte>, off: nat, r: WalRecord)
    requires off <= |data| && ScanEnd(crc, data, off) == |data| && Fits(r)
    ensures ScanFrom(crc, seg, data + Encode(crc, r), off)
         == ScanFrom(crc, seg, data, off) + [Placed(Loc(seg, |data|, EncodedSize(r)), r)]
    ensures ScanEnd(crc, data + Encode(crc, r), off) == |data| + EncodedSize(r)
  {
    hide Decode, Encode;
    var all := data + Encode(crc, r);
    ScanContinues(crc, seg, data, off, Encode(crc, r));
    assert all[|data|..] == Encode(crc, r) + [];
    RoundTrip(crc, r, []);
  }

  /** The records that end at or before cut. */
  function UpTo(ps: seq<Placed>, cut: nat): (r: seq<Placed>)
    ensures r <= ps
  {
    if ps == [] || ps[0].loc.off + EncodedSize(ps[0].rec) > cut then [] else [ps[0]] + UpTo(ps[1..], cut)
  }

  /** Cutting a segment anywhere loses exactly the records that reach past the cut. */
  lemma {:induction false} ScanCut(crc: Crc, seg: nat, data: seq<byte>, off: nat, cut: nat)
    requires off <= cut <= |data|
    ensures ScanFrom(crc, seg, data[..cut], off) == UpTo(ScanFrom(crc, seg, data, off), cut)
    decreases |data| - off
  {
    hide Decode, Encode, ScanFrom, ScanEnd;
    var short := data[..cut];
    ScanTurn(crc, seg, data, off);
    ScanTurn(crc, seg, short, off);
    if off < |data| {
      var d := Decode(crc, data[off..]);
      assert short[off..] == data[off..][..cut - off];
      assert data[off..] == short[off..] + data[cut..];
      if !Decode(crc, short[off..]).TooSmall? {
        DecodeStable(crc, short[off..], data[cut..]);
      }
      if d.Decoded? && off + d.size <= cut {
        DecodeCut(crc, data[off..], cut - off);
        ScanCut(crc, seg, data, off + d.size, cut);
        var ps := ScanFrom(crc, seg, data, off);
        assert ps[1..] == ScanFrom(crc, seg, data, off + d.size);
      } else if d.Decoded? {
        PrefixTooSmall(crc, data[off..], cut - off);
      }
    }
  }

  lemma {:induction false} ScanOffsets(crc: Crc, seg: nat, data: seq<byte>, off: nat)
    requires off <= |data|
    ensures forall p <- ScanFrom(crc, seg, data, off) :: p.loc.seg == seg && off <= p.loc.off < |data|
    decreases |data| - off
  {
    hide Decode, Encode;
    if off < |data| && Decode(crc, data[off..]).Decoded? {
      ScanOffsets(crc, seg, data, off + Decode(crc, data[off..]).size);
    }
  }

  /**
   * What appending at the end of the file, rather than where the scan stopped, does to the next recovery: the
   * record written is found again if and only if the scan of the old contents had reached the end of the file.
   */
  lemma {:induction false} FoundAgainIffNoTear(crc: Crc, seg: nat, data: seq<byte>, off: nat, r: WalRecord)
    requires off <= |data| && Fits(r)
    ensures (exists p <- ScanFrom(crc, seg, data + Encode(crc, r), off) :: p.loc.off == |data|)
       <==> ScanEnd(crc, data, off) == |data|
    ensures ScanEnd(crc, data, off) == |data| ==>
              Placed(Loc(seg, |data|, EncodedSize(r)), r) in ScanFrom(crc, seg, data + Encode(crc, r), off)
    decreases |data| - off
  {
    hide Decode, Encode, ScanFrom, ScanEnd;
    ScanTurn(crc, seg, data, off);
    ScanTurn(crc, seg, data + Encode(crc, r), off);
    var all := data + Encode(crc, r);
    if ScanEnd(crc, data, off) == |data| {
      ScanAppend(crc, seg, data, off, r);
      assert ScanFrom(crc, seg, all, off)[|ScanFrom(crc, seg, data, off)|].loc.off == |data|;
    } else {
      assert all[off..] == data[off..] + Encode(crc, r);
      if !Decode(crc, data[off..]).TooSmall? {
        DecodeStable(crc, data[off..], Encode(crc, r));
      }
      var d := Decode(crc, all[off..]);
      if d.Decoded? {
        if off + d.size <= |data| {
          DecodeCut(crc, all[off..], |data| - off);
          assert all[off..][..|data| - off] == data[off..];
          FoundAgainIffNoTear(crc, seg, data, off + d.size, r);
        } else {
          ScanOffsets(crc, seg, all, off + d.size);
        }
      }
    }
  }
}
