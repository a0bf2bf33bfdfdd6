/** The in-memory index from (stream, stream LSN) to the place of a record in the segments. */
module Index {
  import opened Bytes

  datatype Loc = Loc(seg: nat, off: nat, size: nat)

  type Entries = map<nat, map<nat, Loc>>

  function Inner(ix: Entries, stream: nat): map<nat, Loc> {
    if stream in ix then ix[stream] else map[]
  }

  function Find(ix: Entries, stream: nat, lsn: nat): Option<Loc> {
    if stream in ix && lsn in ix[stream] then Some(ix[stream][lsn]) else None
  }

  function Inserted(ix: Entries, stream: nat, lsn: nat, loc: Loc): (r: Entries)
    ensures forall s: nat, l: nat :: Find(r, s, l) == if s == stream && l == lsn then Some(loc) else Find(ix, s, l)
  {
    ix[stream := Inner(ix, stream)[lsn := loc]]
  }

  function TruncatedBefore(ix: Entries, stream: nat, lsn: nat): (r: Entries)
    ensures forall s: nat, l: nat :: Find(r, s, l) == if s == stream && l < lsn then None else Find(ix, s, l)
  {
    if stream in ix then ix[stream := map l | l in ix[stream] && l >= lsn :: ix[stream][l]] else ix
  }

  function SegmentsOf(ix: Entries): set<nat> {
    set s, l | s in ix && l in ix[s] :: ix[s][l].seg
  }

  lemma SegmentsAreLive(ix: Entries, seg: nat)
    ensures seg in SegmentsOf(ix) <==> exists s: nat, l: nat :: Find(ix, s, l).Some? && Find(ix, s, l).value.seg == seg
  {
    if seg in SegmentsOf(ix) {
      var s, l :| s in ix && l in ix[s] && ix[s][l].seg == seg;
      assert Find(ix, s, l) == Some(ix[s][l]);
    }
    if s: nat, l: nat :| Find(ix, s, l).Some? && Find(ix, s, l).value.seg == seg {
      assert s in ix && l in ix[s] && ix[s][l].seg == seg;
    }
  }

  lemma AllSegmentsAreLive(ix: Entries)
    ensures forall seg: nat :: seg in SegmentsOf(ix) <==>
                                 exists s: nat, l: nat :: Find(ix, s, l).Some? && Find(ix, s, l).value.seg == seg
  {
    forall seg: nat
      ensures seg in SegmentsOf(ix) <==>
                exists s: nat, l: nat :: Find(ix, s, l).Some? && Find(ix, s, l).value.seg == seg
    {
      SegmentsAreLive(ix, seg);
    }
  }

  /** The segments that hold at least one indexed record. */
  function LiveSegments(ix: Entries): (r: set<nat>)
    ensures forall seg: nat ::
              seg in r <==> exists s: nat, l: nat :: Find(ix, s, l).Some? && Find(ix, s, l).value.seg == seg
  {
    AllSegmentsAreLive(ix);
    SegmentsOf(ix)
  }

  class StreamLogIndex {
    var entries: Entries

    constructor ()
      ensures entries == map[]
    {
      entries := map[];
    }

    method Insert(stream: nat, lsn: nat, loc: Loc)
      modifies this
      ensures entries == Inserted(old(entries), stream, lsn, loc)
    {
      var inner: map<nat, Loc> := if stream in entries then entries[stream] else map[];
      entries := entries[stream := inner[lsn := loc]];
    }

    function Lookup(stream: nat, lsn: nat): Option<Loc>
      reads this
    {
      Find(entries, stream, lsn)
    }

    method TruncateStreamBefore(stream: nat, lsn: nat)
      modifies this
      ensures entries == TruncatedBefore(old(entries), stream, lsn)
    {
      if stream in entries {
        var keep := map l | l in entries[stream] && l >= lsn :: entries[stream][l];
        entries := entries[stream := keep];
      }
    }

    function LiveSegmentIds(): set<nat>
      reads this
    {
      LiveSegments(entries)
    }
  }
}
