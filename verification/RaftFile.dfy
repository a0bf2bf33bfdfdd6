/** The Raft state file and the storage object that rewrites it after every change.  Message codecs are parameters. */
module RaftFile {
  import opened Bytes
  import opened RaftStorage

  datatype Codec<!T> = Codec(enc: T -> seq<byte>, dec: seq<byte> -> Option<T>)

  datatype Codecs = Codecs(
    hard: Codec<HardState>, conf: Codec<ConfState>, snap: Codec<RaftSnapshot>, entry: Codec<RaftEntry>)

  /** Decoding inverts encoding on this message, and its length fits the length field. */
  ghost predicate Carries<T>(c: Codec<T>, m: T) {
    c.dec(c.enc(m)) == Some(m) && |c.enc(m)| < U32_LIMIT
  }

  ghost predicate CarriesState(cs: Codecs, st: RaftState) {
    && Carries(cs.hard, st.hard) && Carries(cs.conf, st.conf) && Carries(cs.snap, st.snap)
    && |st.entries| < U32_LIMIT && forall e <- st.entries :: Carries(cs.entry, e)
  }

  function Frame<T>(c: Codec<T>, m: T): seq<byte> {
    BE(4, |c.enc(m)|) + c.enc(m)
  }

  function Frames<T>(c: Codec<T>, ms: seq<T>): seq<byte> {
    if ms == [] then [] else Frame(c, ms[0]) + Frames(c, ms[1..])
  }

  /** The bytes of the state file. */
  function Format(cs: Codecs, st: RaftState): seq<byte> {
    Frame(cs.hard, st.hard) + (Frame(cs.conf, st.conf) + (Frame(cs.snap, st.snap)
    + (BE(4, |st.entries|) + Frames(cs.entry, st.entries))))
  }

  /** `take_message`: the message at the cursor and the cursor behind it. */
  function Take<T>(c: Codec<T>, data: seq<byte>, cursor: nat): (r: Option<(T, nat)>)
    ensures r.Some? ==> cursor < r.value.1 <= |data|
  {
    if |data| < cursor + 4 then None
    else
      var end := cursor + 4 + U32At(data, cursor);
      if |data| < end then None
      else
        match c.dec(data[cursor + 4..end])
        case Some(m) => Some((m, end))
        case None => None
  }

  function TakeMany<T>(c: Codec<T>, data: seq<byte>, cursor: nat, count: nat): (r: Option<(seq<T>, nat)>)
    ensures r.Some? && cursor <= |data| ==> cursor <= r.value.1 <= |data|
    decreases count
  {
    if count == 0 then Some(([], cursor))
    else
      match Take(c, data, cursor)
      case None => None
      case Some((m, next)) =>
        match TakeMany(c, data, next, count - 1)
        case None => None
        case Some((ms, end)) => Some(([m] + ms, end))
  }

  function TakeEntries(cs: Codecs, data: seq<byte>, cursor: nat): Option<(seq<RaftEntry>, nat)> {
    if |data| < cursor + 4 then None else TakeMany(cs.entry, data, cursor + 4, U32At(data, cursor))
  }

  /** `load_state`: the state, and where reading it ended. */
  function Load(cs: Codecs, data: seq<byte>): Option<(RaftState, nat)> {
    match Take(cs.hard, data, 0)
    case None => None
    case Some((hard, c1)) =>
      match Take(cs.conf, data, c1)
      case None => None
      case Some((conf, c2)) =>
        match Take(cs.snap, data, c2)
        case None => None
        case Some((snap, c3)) =>
          match TakeEntries(cs, data, c3)
          case None => None
          case Some((entries, end)) => Some((RaftState(hard, conf, entries, snap), end))
  }

  // ---- round trip ----

  lemma TakeFrame<T>(c: Codec<T>, m: T, pre: seq<byte>, rest: seq<byte>)
    requires Carries(c, m)
    ensures Take(c, pre + (Frame(c, m) + rest), |pre|) == Some((m, |pre| + |Frame(c, m)|))
  {
    hide BE, FromBE, U32At, Pow256;
    var data := pre + (Frame(c, m) + rest);
    var n := |c.enc(m)|;
    assert data[|pre|..|pre| + 4] == BE(4, n);
    FieldAt(data, |pre|, 4, n);
    assert data[|pre| + 4..|pre| + 4 + n] == c.enc(m);
  }

  lemma Shift(a: seq<byte>, b: seq<byte>, c: seq<byte>)
    ensures a + (b + c) == (a + b) + c
  {
  }

  lemma {:induction false} TakeFrames<T>(c: Codec<T>, ms: seq<T>, pre: seq<byte>, rest: seq<byte>)
    requires forall m <- ms :: Carries(c, m)
    ensures TakeMany(c, pre + (Frames(c, ms) + rest), |pre|, |ms|) == Some((ms, |pre| + |Frames(c, ms)|))
    decreases |ms|
  {
    hide Frame, Take, Carries;
    if ms != [] {
      var first, others := Frame(c, ms[0]), Frames(c, ms[1..]);
      Shift(first, others, rest);
      TakeFrame(c, ms[0], pre, others + rest);
      Shift(pre, first, others + rest);
      TakeFrames(c, ms[1..], pre + first, rest);
      assert [ms[0]] + ms[1..] == ms;
    }
  }

  lemma TakeCounted(cs: Codecs, es: seq<RaftEntry>, pre: seq<byte>, rest: seq<byte>)
    requires |es| < U32_LIMIT && forall e <- es :: Carries(cs.entry, e)
    ensures var body := BE(4, |es|) + Frames(cs.entry, es);
            TakeEntries(cs, pre + (body + rest), |pre|) == Some((es, |pre| + |body|))
  {
    hide BE, FromBE, U32At, Pow256, TakeMany, Frames, Carries;
    var count, frames := BE(4, |es|), Frames(cs.entry, es);
    var data := pre + ((count + frames) + rest);
    assert data[|pre|..|pre| + 4] == count;
    FieldAt(data, |pre|, 4, |es|);
    assert data == (pre + count) + (frames + rest);
    TakeFrames(cs.entry, es, pre + count, rest);
  }

  /** Reading the file gives back the state that was written, and ends exactly at its last byte. */
  lemma RoundTrip(cs: Codecs, st: RaftState, rest: seq<byte>)
    requires CarriesState(cs, st)
    ensures Load(cs, Format(cs, st) + rest) == Some((st, |Format(cs, st)|))
  {
    hide Frame, Frames, Take, TakeEntries, Carries, BE;
    var a, b, c, d := Frame(cs.hard, st.hard), Frame(cs.conf, st.conf), Frame(cs.snap, st.snap),
                      BE(4, |st.entries|) + Frames(cs.entry, st.entries);
    var data := Format(cs, st) + rest;
    assert data == [] + (a + (b + (c + (d + rest))));
    assert data == a + (b + (c + (d + rest)));
    assert data == (a + b) + (c + (d + rest));
    assert data == (a + b + c) + (d + rest);
    TakeFrame(cs.hard, st.hard, [], b + (c + (d + rest)));
    TakeFrame(cs.conf, st.conf, a, c + (d + rest));
    TakeFrame(cs.snap, st.snap, a + b, d + rest);
    TakeCounted(cs, st.entries, a + b + c, rest);
  }

  lemma Places(
      n1: seq<byte>, m1: seq<byte>, n2: seq<byte>, m2: seq<byte>, n3: seq<byte>, m3: seq<byte>, n4: seq<byte>,
      rest: seq<byte>)
    requires |n1| == |n2| == |n3| == |n4| == 4
    ensures var b, h, c, s := n1 + m1 + (n2 + m2 + (n3 + m3 + (n4 + rest))), |m1|, |m2|, |m3|;
            && |b| == 16 + h + c + s + |rest|
            && b[0..4] == n1 && b[4..4 + h] == m1
            && b[4 + h..8 + h] == n2 && b[8 + h..8 + h + c] == m2
            && b[8 + h + c..12 + h + c] == n3 && b[12 + h + c..12 + h + c + s] == m3
            && b[12 + h + c + s..16 + h + c + s] == n4
  {
    var b3 := n3 + m3 + (n4 + rest);
    var b2 := n2 + m2 + b3;
    var b, h, c, s := n1 + m1 + b2, |m1|, |m2|, |m3|;
    assert b[4 + h..] == b2;
    assert b2[4 + c..] == b3;
    assert b[8 + h + c..] == b3;
    assert b[4 + h..8 + h] == b2[0..4] && b[8 + h..8 + h + c] == b2[4..4 + c];
    assert b[8 + h + c..12 + h + c] == b3[0..4] && b[12 + h + c..12 + h + c + s] == b3[4..4 + s];
    assert b[12 + h + c + s..16 + h + c + s] == b3[4 + s..8 + s];
  }

  /** Which message is where: hard state, configuration, snapshot, then the number of entries and the entries. */
  lemma Layout(cs: Codecs, st: RaftState)
    requires CarriesState(cs, st)
    ensures var b, h, c, s := Format(cs, st), |cs.hard.enc(st.hard)|, |cs.conf.enc(st.conf)|, |cs.snap.enc(st.snap)|;
            && |b| >= 16 + h + c + s
            && U32At(b, 0) == h && b[4..4 + h] == cs.hard.enc(st.hard)
            && U32At(b, 4 + h) == c && b[8 + h..8 + h + c] == cs.conf.enc(st.conf)
            && U32At(b, 8 + h + c) == s && b[12 + h + c..12 + h + c + s] == cs.snap.enc(st.snap)
            && U32At(b, 12 + h + c + s) == |st.entries|
  {
    hide BE, FromBE, U32At, Pow256, Frames;
    var b, m1, m2, m3 := Format(cs, st), cs.hard.enc(st.hard), cs.conf.enc(st.conf), cs.snap.enc(st.snap);
    Places(BE(4, |m1|), m1, BE(4, |m2|), m2, BE(4, |m3|), m3, BE(4, |st.entries|), Frames(cs.entry, st.entries));
    FieldAt(b, 0, 4, |m1|);
    FieldAt(b, 4 + |m1|, 4, |m2|);
    FieldAt(b, 8 + |m1| + |m2|, 4, |m3|);
    FieldAt(b, 12 + |m1| + |m2| + |m3|, 4, |st.entries|);
  }

  // ---- truncation ----

  lemma TakeStable<T>(c: Codec<T>, data: seq<byte>, cursor: nat, more: seq<byte>)
    requires Take(c, data, cursor).Some?
    ensures Take(c, data + more, cursor) == Take(c, data, cursor)
  {
    var end := cursor + 4 + U32At(data, cursor);
    assert (data + more)[cursor..cursor + 4] == data[cursor..cursor + 4];
    assert (data + more)[cursor + 4..end] == data[cursor + 4..end];
  }

  lemma {:induction false} TakeManyStable<T>(c: Codec<T>, data: seq<byte>, cursor: nat, count: nat, more: seq<byte>)
    requires TakeMany(c, data, cursor, count).Some?
    ensures TakeMany(c, data + more, cursor, count) == TakeMany(c, data, cursor, count)
    decreases count
  {
    hide Take;
    if count > 0 {
      TakeStable(c, data, cursor, more);
      TakeManyStable(c, data, Take(c, data, cursor).value.1, count - 1, more);
    }
  }

  lemma LoadStable(cs: Codecs, data: seq<byte>, more: seq<byte>)
    requires Load(cs, data).Some?
    ensures Load(cs, data + more) == Load(cs, data) && Load(cs, data).value.1 <= |data|
  {
    hide Take, TakeMany, FromBE;
    TakeStable(cs.hard, data, 0, more);
    var c1 := Take(cs.hard, data, 0).value.1;
    TakeStable(cs.conf, data, c1, more);
    var c2 := Take(cs.conf, data, c1).value.1;
    TakeStable(cs.snap, data, c2, more);
    var c3 := Take(cs.snap, data, c2).value.1;
    assert (data + more)[c3..c3 + 4] == data[c3..c3 + 4];
    TakeManyStable(cs.entry, data, c3 + 4, U32At(data, c3), more);
  }

  /** A file cut short anywhere is rejected. */
  lemma TruncationRejected(cs: Codecs, st: RaftState, cut: nat)
    requires CarriesState(cs, st) && cut < |Format(cs, st)|
    ensures Load(cs, Format(cs, st)[..cut]) == None
  {
    hide Load, Format, CarriesState;
    var all := Format(cs, st);
    var short := all[..cut];
    if Load(cs, short).Some? {
      LoadStable(cs, short, all[cut..]);
      assert short + all[cut..] == all && all + [] == all;
      RoundTrip(cs, st, []);
      assert false;
    }
  }

  // ---- the storage object ----

  class PersistentStorage {
    const cs: Codecs
    var state: RaftState
    var file: Option<seq<byte>> // the state file, absent before the first start

    /** What is in memory is what a restart would read. */
    ghost predicate Valid()
      reads this
    {
      Consecutive(state.entries) && file == Some(Format(cs, state))
    }

    constructor (cs: Codecs, state: RaftState, file: Option<seq<byte>>)
      ensures this.cs == cs && this.state == state && this.file == file
    {
      this.cs, this.state, this.file := cs, state, file;
    }

    /**
     * `open`: reads the state file if there is one and fails if it is corrupt; bootstraps otherwise.  After a
     * restart the storage is in the state last written, which the caller may name.
     */
    static method Open(cs: Codecs, file: Option<seq<byte>>, conf: ConfState, ghost written: RaftState)
      returns (r: PersistentStorage?)
      ensures r != null ==> fresh(r) && r.cs == cs
      ensures file.None? ==> r != null && r.Valid() && r.state == Bootstrap(conf)
      ensures file.Some? ==> (r == null <==> Load(cs, file.value).None?)
      ensures file.Some? && r != null ==> r.state == Load(cs, file.value).value.0 && r.file == file
      ensures CarriesState(cs, written) && file == Some(Format(cs, written)) ==> r != null && r.state == written
    {
      hide Load, Format, CarriesState;
      if file.None? {
        var blank := new PersistentStorage(cs, Bootstrap(conf), None);
        blank.Persist();
        return blank;
      }
      var loaded := LoadState(cs, file.value);
      if loaded.None? {
        r := null;
      } else {
        r := new PersistentStorage(cs, loaded.value, file);
      }
      if CarriesState(cs, written) && file == Some(Format(cs, written)) {
        RoundTrip(cs, written, []);
        assert Format(cs, written) + [] == Format(cs, written);
      }
    }

    /** `load_state`: a cursor over the file. */
    static method LoadState(cs: Codecs, data: seq<byte>) returns (r: Option<RaftState>)
      ensures r == match Load(cs, data) case Some((st, _)) => Some(st) case None => None
    {
      hide Take;
      var hard := Take(cs.hard, data, 0);
      if hard.None? { return None; }
      var conf := Take(cs.conf, data, hard.value.1);
      if conf.None? { return None; }
      var snap := Take(cs.snap, data, conf.value.1);
      if snap.None? { return None; }
      var start := snap.value.1;
      if |data| < start + 4 { return None; }
      var count := U32At(data, start);
      var cursor := start + 4;
      var entries := [];
      ghost var all := TakeMany(cs.entry, data, cursor, count);
      assert all.Some? ==> [] + all.value.0 == all.value.0;
      for i := 0 to count
        invariant all ==
                  match TakeMany(cs.entry, data, cursor, count - i)
                  case Some((es, end)) => Some((entries + es, end))
                  case None => None
      {
        var entry := Take(cs.entry, data, cursor);
        if entry.None? { return None; }
        ghost var rest := TakeMany(cs.entry, data, entry.value.1, count - i - 1);
        assert rest.Some? ==> entries + ([entry.value.0] + rest.value.0) == (entries + [entry.value.0]) + rest.value.0;
        cursor := entry.value.1;
        entries := entries + [entry.value.0];
      }
      assert entries + [] == entries;
      r := Some(RaftState(hard.value.0, conf.value.0, entries, snap.value.0));
    }

    /** `persist`: builds the file message by message and replaces the old one. */
    method Persist()
      modifies this`file
      ensures file == Some(Format(cs, state))
    {
      hide Frame;
      var head := Frame(cs.hard, state.hard) + Frame(cs.conf, state.conf) + Frame(cs.snap, state.snap)
                  + BE(4, |state.entries|);
      var buf := head;
      for i := 0 to |state.entries|
        invariant head + Frames(cs.entry, state.entries) == buf + Frames(cs.entry, state.entries[i..])
      {
        assert state.entries[i..][1..] == state.entries[i + 1..];
        Shift(buf, Frame(cs.entry, state.entries[i]), Frames(cs.entry, state.entries[i + 1..]));
        buf := buf + Frame(cs.entry, state.entries[i]);
      }
      assert state.entries[|state.entries|..] == [] && buf + [] == buf;
      assert head + Frames(cs.entry, state.entries) == Format(cs, state);
      file := Some(buf);
    }

    method SetHardState(hard: HardState)
      requires Valid()
      modifies this
      ensures Valid() && state == old(state).(hard := hard)
    {
      state := state.(hard := hard);
      Persist();
    }

    method Append(ents: seq<RaftEntry>) returns (error: Option<StorageError>)
      requires Valid()
      modifies this
      ensures match Appended(old(state), ents)
              case Ok(st) => error == None && state == st && file == Some(Format(cs, st))
              case Err(e) => error == Some(e) && unchanged(this)
    {
      if ents == [] {
        return None;
      }
      var first := FirstIndex(state);
      if ents[0].index < first {
        return Some(OverwritesCompacted);
      }
      if ents[0].index <= LastIndex(state) {
        var keep := ents[0].index - first;
        state := state.(entries := if state.entries == [] then [] else state.entries[..keep]);
      }
      state := state.(entries := state.entries + ents);
      Persist();
      error := None;
    }

    method ApplySnapshot(snap: RaftSnapshot)
      requires Valid()
      modifies this
      ensures Valid() && state == SnapshotInstalled(old(state), snap)
    {
      state := state.(snap := snap, conf := snap.conf);
      state := state.(hard := state.hard.(commit := snap.index));
      state := state.(hard := state.hard.(term := Max(state.hard.term, snap.term)));
      state := state.(entries := []);
      Persist();
    }

    method CreateSnapshot(index: nat, data: seq<byte>) returns (error: Option<StorageError>)
      requires Valid()
      modifies this
      ensures match SnapshotCreated(old(state), index, data)
              case Ok(st) => error == None && state == st && Valid()
              case Err(e) => error == Some(e) && unchanged(this)
    {
      var term := TermOf(state, index);
      if term.Err? {
        return Some(term.error);
      }
      state := state.(snap := RaftSnapshot(index, term.value, state.conf, data));
      Persist();
      error := None;
    }

    method Compact(index: nat) returns (error: Option<StorageError>)
      requires Valid()
      modifies this
      ensures match CompactedTo(old(state), index)
              case Ok(st) => error == None && state == st && Valid()
              case Err(e) => error == Some(e) && unchanged(this)
    {
      if index <= FirstIndex(state) {
        return None;
      }
      if index > LastIndex(state) + 1 {
        return Some(BeyondLast);
      }
      if state.entries != [] {
        state := state.(entries := state.entries[index - FirstIndex(state)..]);
      }
      Persist();
      error := None;
    }
  }
}
