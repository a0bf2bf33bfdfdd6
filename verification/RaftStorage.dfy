/**
 * The Raft log storage: a window of entries above a snapshot.  It is measured against a plain log, the sequence of
 * all entries from index 1 on, of which the window keeps only the end.
 */
module RaftStorage {
  import opened Bytes

  datatype HardState = HardState(term: nat, vote: nat, commit: nat)
  datatype ConfState = ConfState(voters: seq<nat>)
  datatype RaftEntry = RaftEntry(index: nat, term: nat, data: seq<byte>)
  datatype RaftSnapshot = RaftSnapshot(index: nat, term: nat, conf: ConfState, data: seq<byte>)
  datatype RaftState = RaftState(hard: HardState, conf: ConfState, entries: seq<RaftEntry>, snap: RaftSnapshot)

  datatype StorageError = Compacted | Unavailable | SnapshotOutOfDate | OverwritesCompacted | BeyondLast
  datatype Result<+T> = Ok(value: T) | Err(error: StorageError)

  function FirstIndex(st: RaftState): nat {
    if st.entries != [] then st.entries[0].index else st.snap.index + 1
  }

  function LastIndex(st: RaftState): nat {
    if st.entries != [] then st.entries[|st.entries| - 1].index else st.snap.index
  }

  predicate Consecutive(es: seq<RaftEntry>) {
    forall i :: 0 <= i < |es| ==> es[i].index == es[0].index + i
  }

  function TermOf(st: RaftState, idx: nat): Result<nat>
    requires Consecutive(st.entries)
  {
    if idx == st.snap.index then Ok(st.snap.term)
    else if idx + 1 < FirstIndex(st) then Err(Compacted)
    else if idx < FirstIndex(st) then Ok(st.snap.term)
    else if idx > LastIndex(st) then Err(Unavailable)
    else Ok(st.entries[idx - FirstIndex(st)].term)
  }

  /** The entries in [low, high), shortened to the first keep of them by the caller's size limit. */
  function EntriesOf(st: RaftState, low: nat, high: nat, keep: nat): Result<seq<RaftEntry>>
    requires Consecutive(st.entries) && low <= high
  {
    if low < FirstIndex(st) then Err(Compacted)
    else if high > LastIndex(st) + 1 then Err(Unavailable)
    else if st.entries == [] then Ok([])
    else Ok(st.entries[low - FirstIndex(st)..high - FirstIndex(st)][..Min(keep, high - low)])
  }

  function Appended(st: RaftState, ents: seq<RaftEntry>): Result<RaftState>
    requires Consecutive(st.entries)
  {
    if ents == [] then Ok(st)
    else if ents[0].index < FirstIndex(st) then Err(OverwritesCompacted)
    else if ents[0].index <= LastIndex(st) then
      Ok(st.(entries := (if st.entries == [] then [] else st.entries[..ents[0].index - FirstIndex(st)]) + ents))
    else Ok(st.(entries := st.entries + ents))
  }

  function SnapshotInstalled(st: RaftState, snap: RaftSnapshot): RaftState {
    RaftState(st.hard.(commit := snap.index, term := Max(st.hard.term, snap.term)), snap.conf, [], snap)
  }

  function SnapshotCreated(st: RaftState, index: nat, data: seq<byte>): Result<RaftState>
    requires Consecutive(st.entries)
  {
    match TermOf(st, index)
    case Err(e) => Err(e)
    case Ok(term) => Ok(st.(snap := RaftSnapshot(index, term, st.conf, data)))
  }

  function CompactedTo(st: RaftState, index: nat): Result<RaftState>
    requires Consecutive(st.entries)
  {
    if index <= FirstIndex(st) then Ok(st)
    else if index > LastIndex(st) + 1 then Err(BeyondLast)
    else Ok(st.(entries := if st.entries == [] then [] else st.entries[index - FirstIndex(st)..]))
  }

  // ---- the plain log ----

  /** Entry number i sits at position i - 1. */
  predicate IsPlainLog(log: seq<RaftEntry>) {
    forall i :: 0 <= i < |log| ==> log[i].index == i + 1
  }

  function PlainTerm(log: seq<RaftEntry>, idx: nat): nat
    requires idx <= |log|
  {
    if idx == 0 then 0 else log[idx - 1].term
  }

  /** The window holds the end of the plain log, and the snapshot covers what is missing in front. */
  predicate Refines(st: RaftState, log: seq<RaftEntry>) {
    && IsPlainLog(log)
    && Consecutive(st.entries)
    && LastIndex(st) == |log|
    && 1 <= FirstIndex(st) <= st.snap.index + 1 <= |log| + 1
    && st.entries == log[FirstIndex(st) - 1..]
    && st.snap.term == PlainTerm(log, st.snap.index)
  }

  /** `term` answers as the plain log would on the retained window and at the snapshot. */
  lemma TermAnswers(st: RaftState, log: seq<RaftEntry>, idx: nat)
    requires Refines(st, log)
    ensures FirstIndex(st) <= idx <= |log| || idx == st.snap.index ==> TermOf(st, idx) == Ok(PlainTerm(log, idx))
    ensures idx > |log| ==> TermOf(st, idx) == Err(Unavailable)
    ensures idx + 1 < FirstIndex(st) ==> TermOf(st, idx) == Err(Compacted)
  {
  }

  /** `entries` returns the plain log's entries, up to the size limit, and errors exactly outside the window. */
  lemma EntriesAnswer(st: RaftState, log: seq<RaftEntry>, low: nat, high: nat, keep: nat)
    requires Refines(st, log) && low <= high
    ensures var r := EntriesOf(st, low, high, keep);
            && (low < FirstIndex(st) <==> r == Err(Compacted))
            && (low >= FirstIndex(st) && high > |log| + 1 <==> r == Err(Unavailable))
            && (r.Ok? <==> low >= FirstIndex(st) && high <= |log| + 1)
            && (r.Ok? ==> r.value == log[low - 1..high - 1][..Min(keep, high - low)])
  {
    if low >= FirstIndex(st) && high <= |log| + 1 && st.entries != [] {
      var f := FirstIndex(st);
      assert log[f - 1..][low - f..high - f] == log[low - 1..high - 1];
    }
  }

  lemma WindowOfPlain(log: seq<RaftEntry>, from: nat)
    requires IsPlainLog(log) && from < |log|
    ensures var w := log[from..]; Consecutive(w) && w != [] && w[0].index == from + 1 && w[|w| - 1].index == |log|
  {
    var w := log[from..];
    assert forall i :: 0 <= i < |w| ==> w[i] == log[from + i];
  }

  lemma PlainAppend(log: seq<RaftEntry>, ents: seq<RaftEntry>)
    requires IsPlainLog(log) && ents != [] && Consecutive(ents) && 1 <= ents[0].index <= |log| + 1
    ensures IsPlainLog(log[..ents[0].index - 1] + ents)
  {
    var at := ents[0].index - 1;
    var all := log[..at] + ents;
    forall i | 0 <= i < |all| ensures all[i].index == i + 1 {
      if i >= at {
        assert all[i] == ents[i - at];
      }
    }
  }

  lemma AppendedEntries(st: RaftState, log: seq<RaftEntry>, ents: seq<RaftEntry>)
    requires Refines(st, log) && ents != [] && st.snap.index < ents[0].index <= |log| + 1
    ensures Appended(st, ents).Ok?
    ensures var st' := Appended(st, ents).value;
            st' == st.(entries := log[FirstIndex(st) - 1..ents[0].index - 1] + ents)
  {
    hide Consecutive, IsPlainLog, PlainTerm;
    var f, at := FirstIndex(st), ents[0].index;
    if at <= |log| && st.entries != [] {
      assert log[f - 1..][..at - f] == log[f - 1..at - 1];
    }
  }

  lemma SplicedLog(log: seq<RaftEntry>, f: nat, snap: nat, ents: seq<RaftEntry>)
    requires IsPlainLog(log) && ents != [] && Consecutive(ents)
    requires 1 <= f <= snap + 1 && snap < ents[0].index <= |log| + 1
    ensures var log' := log[..ents[0].index - 1] + ents;
            && IsPlainLog(log') && snap < |log'| && f <= |log'|
            && log'[f - 1..] == log[f - 1..ents[0].index - 1] + ents
            && PlainTerm(log', snap) == PlainTerm(log, snap)
  {
    hide IsPlainLog, Consecutive;
    PlainAppend(log, ents);
    Splice(log, f - 1, ents[0].index - 1, ents);
  }

  /** Appending replaces exactly the suffix from the batch's first index, and nothing committed to the snapshot. */
  lemma {:induction false} AppendRefines(st: RaftState, log: seq<RaftEntry>, ents: seq<RaftEntry>)
    requires Refines(st, log) && ents != [] && Consecutive(ents)
    requires st.snap.index < ents[0].index <= |log| + 1
    ensures Appended(st, ents).Ok?
    ensures Refines(Appended(st, ents).value, log[..ents[0].index - 1] + ents)
  {
    hide Consecutive, IsPlainLog, Appended, PlainTerm, FirstIndex;
    AppendedEntries(st, log, ents);
    SplicedLog(log, FirstIndex(st), st.snap.index, ents);
    hide Refines;
    WindowRefines(Appended(st, ents).value, log[..ents[0].index - 1] + ents, FirstIndex(st));
  }

  lemma Splice<T>(s: seq<T>, a: nat, b: nat, t: seq<T>)
    requires a <= b <= |s|
    ensures (s[..b] + t)[a..] == s[a..b] + t
  {
  }

  lemma WindowRefines(st: RaftState, log: seq<RaftEntry>, f: nat)
    requires IsPlainLog(log) && 1 <= f <= |log| && st.entries == log[f - 1..]
    requires f <= st.snap.index + 1 <= |log| + 1 && st.snap.term == PlainTerm(log, st.snap.index)
    ensures Refines(st, log)
  {
    hide Consecutive, IsPlainLog, PlainTerm;
    WindowOfPlain(log, f - 1);
  }

  lemma InstallRefines(st: RaftState, snap: RaftSnapshot, log: seq<RaftEntry>)
    requires IsPlainLog(log) && snap.index == |log| && snap.term == PlainTerm(log, snap.index)
    ensures Refines(SnapshotInstalled(st, snap), log)
  {
    assert log[|log|..] == [];
  }

  lemma CreateRefines(st: RaftState, log: seq<RaftEntry>, index: nat, data: seq<byte>)
    requires Refines(st, log) && st.snap.index < index
    ensures SnapshotCreated(st, index, data).Ok? <==> index <= |log|
    ensures index <= |log| ==>
              var st' := SnapshotCreated(st, index, data).value;
              Refines(st', log) && st'.snap.index == index && st'.snap.data == data && st'.entries == st.entries
  {
    TermAnswers(st, log, index);
  }

  /** Compaction is faithful to the plain log exactly as far as the snapshot reaches. */
  lemma CompactRefines(st: RaftState, log: seq<RaftEntry>, index: nat)
    requires Refines(st, log) && FirstIndex(st) < index <= |log| + 1
    ensures CompactedTo(st, index).Ok?
    ensures Refines(CompactedTo(st, index).value, log) <==> index <= st.snap.index + 1
  {
    hide Consecutive, IsPlainLog;
    var f := FirstIndex(st);
    assert st.entries[index - f..] == log[index - 1..];
    if index <= |log| {
      WindowOfPlain(log, index - 1);
    } else {
      EmptyConsecutive();
    }
  }

  /** Whether or not the index is sensible, compaction leaves consecutive entries and the snapshot alone. */
  lemma CompactedKeepsShape(st: RaftState, index: nat)
    requires Consecutive(st.entries)
    ensures var r := CompactedTo(st, index); r.Ok? ==> Consecutive(r.value.entries) && r.value.snap == st.snap
  {
  }

  lemma EmptyConsecutive()
    ensures Consecutive([])
  {
  }

  /** A snapshot followed by compacting up to it: the boundary is right and nothing above it is disturbed. */
  lemma CompactionIsInvisible(st: RaftState, log: seq<RaftEntry>, index: nat, data: seq<byte>, idx: nat)
    requires Refines(st, log) && st.snap.index < index <= |log|
    ensures SnapshotCreated(st, index, data).Ok? && CompactedTo(SnapshotCreated(st, index, data).value, index + 1).Ok?
    ensures var st' := CompactedTo(SnapshotCreated(st, index, data).value, index + 1).value;
            && Refines(st', log)
            && FirstIndex(st') == st'.snap.index + 1 == index + 1
            && TermOf(st', FirstIndex(st') - 1) == Ok(PlainTerm(log, index))
            && (index < idx ==> TermOf(st', idx) == TermOf(st, idx))
  {
    CreateRefines(st, log, index, data);
    assert FirstIndex(SnapshotCreated(st, index, data).value) <= index;
    hide Refines, SnapshotCreated;
    var mid := SnapshotCreated(st, index, data).value;
    CompactRefines(mid, log, index + 1);
    var st' := CompactedTo(mid, index + 1).value;
    TermAnswers(st, log, idx);
    TermAnswers(st', log, idx);
  }

  /** Every range of entries above the snapshot is answered as before the compaction, errors included. */
  lemma {:induction false} CompactionKeepsEntries(
      st: RaftState, log: seq<RaftEntry>, index: nat, data: seq<byte>, low: nat, high: nat, keep: nat)
    requires Refines(st, log) && st.snap.index < index <= |log| && index < low <= high
    ensures SnapshotCreated(st, index, data).Ok? && CompactedTo(SnapshotCreated(st, index, data).value, index + 1).Ok?
    ensures var st' := CompactedTo(SnapshotCreated(st, index, data).value, index + 1).value;
            Consecutive(st'.entries) && EntriesOf(st', low, high, keep) == EntriesOf(st, low, high, keep)
  {
    hide CompactedTo, TermOf, EntriesOf;
    CompactionIsInvisible(st, log, index, data, low);
    var st' := CompactedTo(SnapshotCreated(st, index, data).value, index + 1).value;
    EntriesAnswer(st, log, low, high, keep);
    EntriesAnswer(st', log, low, high, keep);
  }

  predicate TermsRise(log: seq<RaftEntry>) {
    forall i, j :: 0 <= i <= j < |log| ==> 1 <= log[i].term <= log[j].term
  }

  /**
   * The term just below the window, asked between a snapshot and its compaction: the answer is the snapshot's term,
   * which is the true one if and only if no entry from there up to the snapshot began a newer term.
   */
  lemma TermBelowWindow(st: RaftState, log: seq<RaftEntry>)
    requires Refines(st, log) && TermsRise(log)
    ensures TermOf(st, FirstIndex(st) - 1) == Ok(PlainTerm(log, FirstIndex(st) - 1))
       <==> forall i :: FirstIndex(st) <= i <= st.snap.index ==> PlainTerm(log, i) == PlainTerm(log, FirstIndex(st) - 1)
  {
    var f, s := FirstIndex(st), st.snap.index;
    assert TermOf(st, f - 1) == Ok(PlainTerm(log, s));
    if PlainTerm(log, s) == PlainTerm(log, f - 1) {
      forall i | f <= i <= s ensures PlainTerm(log, i) == PlainTerm(log, f - 1) {
        assert log[i - 1].term <= log[s - 1].term;
      }
    } else if f <= s {
      assert PlainTerm(log, s) != PlainTerm(log, f - 1);
    }
  }

  /** A state in which that answer is wrong: the bootstrap entry snapshotted and not yet compacted. */
  lemma TermBelowWindowCanBeWrong(conf: ConfState, data: seq<byte>)
    ensures SnapshotCreated(Bootstrap(conf), 1, data).Ok?
    ensures var st := SnapshotCreated(Bootstrap(conf), 1, data).value;
            Refines(st, BootstrapLog()) && TermOf(st, FirstIndex(st) - 1) == Ok(1) && PlainTerm(BootstrapLog(), 0) == 0
  {
    BootstrapRefines(conf);
    CreateRefines(Bootstrap(conf), BootstrapLog(), 1, data);
  }

  /** What a new node starts from. */
  function BootstrapLog(): seq<RaftEntry> {
    [RaftEntry(1, 1, [])]
  }

  function Bootstrap(conf: ConfState): RaftState {
    RaftState(HardState(1, 0, 1), conf, BootstrapLog(), RaftSnapshot(0, 0, conf, []))
  }

  lemma BootstrapRefines(conf: ConfState)
    ensures Refines(Bootstrap(conf), BootstrapLog())
  {
    assert BootstrapLog()[0..] == BootstrapLog();
  }

  // ---- what else the calls do, and what they refuse ----

  /** An append is refused exactly if it starts below the window; it changes the entries only, and none if empty. */
  lemma AppendVerdict(st: RaftState, ents: seq<RaftEntry>)
    requires Consecutive(st.entries)
    ensures ents == [] ==> Appended(st, ents) == Ok(st)
    ensures ents != [] ==>
              (Appended(st, ents) == Err(OverwritesCompacted) <==> ents[0].index < FirstIndex(st))
    ensures match Appended(st, ents)
            case Ok(st') => st' == st.(entries := st'.entries)
            case Err(e) => e == OverwritesCompacted
  {
  }

  lemma JoinsConsecutively(kept: seq<RaftEntry>, ents: seq<RaftEntry>)
    requires Consecutive(kept) && kept != [] && ents != []
    ensures Consecutive(kept + ents) <==> Consecutive(ents) && ents[0].index == kept[0].index + |kept|
  {
    var all := kept + ents;
    assert all[0] == kept[0];
    if Consecutive(all) {
      assert all[|kept|] == ents[0];
      forall i | 0 <= i < |ents| ensures ents[i].index == ents[0].index + i {
        assert all[|kept| + i] == ents[i];
      }
    }
    if Consecutive(ents) && ents[0].index == kept[0].index + |kept| {
      forall i | 0 <= i < |all| ensures all[i].index == all[0].index + i {
        assert i >= |kept| ==> all[i] == ents[i - |kept|];
      }
    }
  }

  /** The storage checks nothing else: the window stays consecutive exactly if the batch is, and leaves no gap. */
  lemma AppendKeepsConsecutiveIff(st: RaftState, ents: seq<RaftEntry>)
    requires Consecutive(st.entries) && st.entries != [] && ents != [] && Appended(st, ents).Ok?
    requires ents[0].index > FirstIndex(st)
    ensures Consecutive(Appended(st, ents).value.entries)
       <==> Consecutive(ents) && ents[0].index <= LastIndex(st) + 1
  {
    var kept := if ents[0].index <= LastIndex(st) then st.entries[..ents[0].index - FirstIndex(st)] else st.entries;
    JoinsConsecutively(kept, ents);
  }

  /** An installed snapshot is committed as a whole, brings its configuration, and never lowers the term. */
  lemma InstallMeta(st: RaftState, snap: RaftSnapshot)
    ensures var st' := SnapshotInstalled(st, snap);
            && st'.snap == snap && st'.conf == snap.conf && st'.entries == []
            && FirstIndex(st') == snap.index + 1 && LastIndex(st') == st'.hard.commit == snap.index
            && st'.hard.vote == st.hard.vote
            && st'.hard.term >= st.hard.term && st'.hard.term >= snap.term
            && (st'.hard.term == st.hard.term || st'.hard.term == snap.term)
  {
  }

  /** A snapshot carries the configuration in force; taking it changes nothing else, and fails as `term` does. */
  lemma CreateMeta(st: RaftState, index: nat, data: seq<byte>)
    requires Consecutive(st.entries)
    ensures match SnapshotCreated(st, index, data)
            case Ok(st') =>
              && st' == st.(snap := st'.snap) && st'.snap.conf == st.conf
              && st'.snap.index == index && st'.snap.data == data && TermOf(st, index) == Ok(st'.snap.term)
            case Err(e) => TermOf(st, index) == Err(e)
  {
  }

  /** Compaction at or below the window does nothing, beyond the log it is refused, and else it drops entries only. */
  lemma CompactVerdict(st: RaftState, index: nat)
    requires Consecutive(st.entries)
    ensures index <= FirstIndex(st) ==> CompactedTo(st, index) == Ok(st)
    ensures index > FirstIndex(st) ==> (CompactedTo(st, index) == Err(BeyondLast) <==> index > LastIndex(st) + 1)
    ensures match CompactedTo(st, index)
            case Ok(st') => st' == st.(entries := st'.entries) && |st'.entries| <= |st.entries|
                            && st'.entries == st.entries[|st.entries| - |st'.entries|..]
            case Err(e) => e == BeyondLast
  {
  }

  /** A new node voted for nobody, is in the term of its one entry, which is committed, and its peers are voters. */
  lemma BootstrapMeta(conf: ConfState)
    ensures var st := Bootstrap(conf);
            && st.hard == HardState(1, 0, LastIndex(st)) && st.conf == conf == st.snap.conf
            && |st.entries| == 1 && st.entries[0].term == st.hard.term && st.entries[0].data == [] == st.snap.data
            && st.snap.index == 0 && st.snap.term == 0
  {
  }

  // ---- runs ----

  datatype Op =
    | SetHard(hard: HardState)
    | AppendOp(ents: seq<RaftEntry>)
    | Create(index: nat, data: seq<byte>)
    | Compact(index: nat)
    | Install(snap: RaftSnapshot, remote: seq<RaftEntry>) // remote: the leader's log up to the snapshot

  function OpStep(st: RaftState, op: Op): Result<RaftState>
    requires Consecutive(st.entries)
  {
    match op
    case SetHard(hard) => Ok(st.(hard := hard))
    case AppendOp(ents) => Appended(st, ents)
    case Create(index, data) => SnapshotCreated(st, index, data)
    case Compact(index) => CompactedTo(st, index)
    case Install(snap, _) => Ok(SnapshotInstalled(st, snap))
  }

  /** What each step does to the plain log. */
  function PlainStep(log: seq<RaftEntry>, op: Op): seq<RaftEntry> {
    match op
    case AppendOp(ents) =>
      if ents != [] && 1 <= ents[0].index <= |log| + 1 then log[..ents[0].index - 1] + ents else log
    case Install(_, remote) => remote
    case _ => log
  }

  /** How Raft calls its storage: consecutive batches without a gap and above the snapshot; snapshot, then compact. */
  predicate Disciplined(st: RaftState, op: Op) {
    match op
    case SetHard(_) => true
    case AppendOp(ents) => ents == [] || (Consecutive(ents) && st.snap.index < ents[0].index <= LastIndex(st) + 1)
    case Create(index, _) => st.snap.index < index <= LastIndex(st)
    case Compact(index) => index <= st.snap.index + 1
    case Install(snap, remote) =>
      IsPlainLog(remote) && snap.index == |remote| && snap.term == PlainTerm(remote, snap.index)
  }

  /** Every call that is reached, on a window that is still consecutive, is one that Raft would make. */
  predicate DisciplinedRun(st: RaftState, ops: seq<Op>)
    requires Consecutive(st.entries)
    decreases |ops|
  {
    ops == []
    || (Disciplined(st, ops[0])
        && (OpStep(st, ops[0]).Ok? && Consecutive(OpStep(st, ops[0]).value.entries) ==>
              DisciplinedRun(OpStep(st, ops[0]).value, ops[1..])))
  }

  /** The state after a run; none if a call failed or left a window with a gap, in which the next would go astray. */
  function OpRun(st: RaftState, ops: seq<Op>): Option<RaftState>
    requires Consecutive(st.entries)
    decreases |ops|
  {
    if ops == [] then Some(st)
    else
      match OpStep(st, ops[0])
      case Err(_) => None
      case Ok(next) => if Consecutive(next.entries) then OpRun(next, ops[1..]) else None
  }

  function PlainRun(log: seq<RaftEntry>, ops: seq<Op>): seq<RaftEntry>
    decreases |ops|
  {
    if ops == [] then log else PlainRun(PlainStep(log, ops[0]), ops[1..])
  }

  /** A disciplined call never fails, and keeps the window an end of the plain log. */
  lemma {:induction false} StepRefines(st: RaftState, log: seq<RaftEntry>, op: Op)
    requires Refines(st, log) && Disciplined(st, op)
    ensures OpStep(st, op).Ok? && Refines(OpStep(st, op).value, PlainStep(log, op))
  {
    hide Consecutive, IsPlainLog, SnapshotCreated;
    match op
    case SetHard(_) =>
    case AppendOp(ents) => if ents != [] { AppendRefines(st, log, ents); }
    case Create(index, data) => CreateRefines(st, log, index, data);
    case Compact(index) => if FirstIndex(st) < index { CompactRefines(st, log, index); }
    case Install(snap, remote) => InstallRefines(st, snap, remote);
  }

  /** Over every disciplined run no call fails, and the storage refines the plain log. */
  lemma {:induction false} RunRefines(st: RaftState, log: seq<RaftEntry>, ops: seq<Op>)
    requires Refines(st, log) && DisciplinedRun(st, ops)
    ensures OpRun(st, ops).Some? && Refines(OpRun(st, ops).value, PlainRun(log, ops))
    decreases |ops|
  {
    hide OpStep, PlainStep, Disciplined;
    if ops != [] {
      StepRefines(st, log, ops[0]);
      RunRefines(OpStep(st, ops[0]).value, PlainStep(log, ops[0]), ops[1..]);
    }
  }
}
