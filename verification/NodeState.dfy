/** One node's persistent state and the effect of each record on it.

    `noraft` is not part of this model: its log is taken to be a start position
    and a list of entries, a position being in the log when its index is in
    range and its term is that of the last term entry at or before it. */
module NodeStates {
  import opened Records

  datatype Log = Log(config: ClusterConfig, entries: LogEntries)

  datatype State = State(
    currentTerm: Term,
    votedFor: Option<NodeId>,
    log: Log,
    payloads: PayloadMap,
    snapshot: Option<SnapshotData>)

  const DEFAULT_STATE: State := State(0, None, Log(EMPTY_CONFIG, Entries(ZERO_POSITION, [])), map[], None)

  // ---- the log ------------------------------------------------------------------------

  /** The term after the first `k` entries. */
  function TermAt(e: LogEntries, k: nat): Term
    requires k <= |e.list|
  {
    if k == 0 then e.prev.term
    else if e.list[k - 1].TermEntry? then e.list[k - 1].term
    else TermAt(e, k - 1)
  }

  predicate Contains(e: LogEntries, p: LogPosition) {
    && e.prev.index <= p.index <= e.prev.index + |e.list|
    && TermAt(e, p.index - e.prev.index) == p.term
  }

  function LastPosition(e: LogEntries): LogPosition
    requires InIndexSpace(e)
  {
    LogPosition(TermAt(e, |e.list|), e.prev.index + |e.list|)
  }

  /** The entries after a position, if it is in the log. */
  function Since(e: LogEntries, p: LogPosition): Option<LogEntries> {
    if Contains(e, p) then Some(Entries(p, e.list[p.index - e.prev.index..])) else None
  }

  /** The log cut after the suffix's anchor and extended, if the anchor is in it. */
  function AppendSuffix(e: LogEntries, s: LogEntries): Option<LogEntries> {
    if Contains(e, s.prev) then Some(Entries(e.prev, e.list[..s.prev.index - e.prev.index] + s.list)) else None
  }

  // ---- records ------------------------------------------------------------------------

  function Above(m: PayloadMap, p: LogIndex): PayloadMap {
    map i | i in m && p < i :: m[i]
  }

  function UpTo(m: PayloadMap, p: LogIndex): PayloadMap {
    map i | i in m && i <= p :: m[i]
  }

  ghost function ApplyAppend(st: State, a: Append): Option<State> {
    if !ValidAppend(a) then None
    else
      match AppendSuffix(st.log.entries, a.entries)
      case None => None
      case Some(entries) =>
        Some(st.(log := st.log.(entries := entries), payloads := UpTo(st.payloads, a.entries.prev.index) + a.payloads))
  }

  function RetainedAfterSnapshot(e: LogEntries, p: LogPosition): Option<LogEntries>
    requires InIndexSpace(e)
  {
    if p.index < e.prev.index then None
    else if Since(e, p).Some? then Since(e, p)
    else if LastPosition(e).index < p.index then Some(Entries(p, []))
    else None
  }

  function ApplySnapshot(st: State, s: SnapshotData): Option<State>
    requires InIndexSpace(st.log.entries)
  {
    match RetainedAfterSnapshot(st.log.entries, s.lastIncluded)
    case None => None
    case Some(entries) =>
      Some(st.(log := Log(s.config, entries), payloads := Above(st.payloads, s.lastIncluded.index),
          snapshot := Some(s)))
  }

  ghost function IntoState(c: Checkpoint): Option<State> {
    if !ValidCheckpoint(c) then None
    else
      match ApplySnapshot(DEFAULT_STATE.(currentTerm := c.currentTerm, votedFor := c.votedFor), c.snapshot)
      case None => None
      case Some(st) => ApplyAppend(st, c.suffix)
  }

  ghost function ApplyRecord(st: State, r: Record): Option<State> {
    match r
    case CurrentTerm(term) => Some(st.(currentTerm := term))
    case VotedFor(votedFor) => Some(st.(votedFor := votedFor))
    case Append(append) => ApplyAppend(st, append)
    case SnapshotCheckpoint(checkpoint) => IntoState(checkpoint)
  }

  /** The state after a list of records, or None at the first that fails. */
  ghost function Fold(st: State, rs: seq<Record>): Option<State>
    decreases |rs|
  {
    if rs == [] then Some(st)
    else
      match ApplyRecord(st, rs[0])
      case None => None
      case Some(next) => Fold(next, rs[1..])
  }

  lemma {:induction false} FoldConcat(st: State, a: seq<Record>, b: seq<Record>)
    ensures Fold(st, a + b) == match Fold(st, a) case None => None case Some(mid) => Fold(mid, b)
    decreases |a|
  {
    hide ApplyRecord;
    if a == [] {
      assert a + b == b;
    } else {
      assert (a + b)[1..] == a[1..] + b;
      match ApplyRecord(st, a[0])
      case None =>
      case Some(next) => FoldConcat(next, a[1..], b);
    }
  }

  // ---- what every state keeps -------------------------------------------------------------

  /** Payloads are exactly those of the command entries in the log, and a snapshot,
      if there is one, ends where the log starts. */
  ghost predicate StateInv(st: State) {
    && InIndexSpace(st.log.entries)
    && st.payloads.Keys == CommandIndexes(st.log.entries)
    && (st.snapshot.Some? ==> st.log.entries.prev == st.snapshot.value.lastIncluded)
    && (st.snapshot.Some? ==> st.log.config == st.snapshot.value.config)
  }

  lemma CommandAt(e: LogEntries, i: int)
    ensures i in CommandIndexes(e) <==> 0 <= i - e.prev.index - 1 < |e.list| && e.list[i - e.prev.index - 1].Command?
  {
    var k := i - e.prev.index - 1;
    if 0 <= k < |e.list| && e.list[k].Command? {
      assert e.prev.index + 1 + k in CommandIndexes(e);
    }
  }

  lemma AppendKeepsInv(st: State, a: Append)
    requires StateInv(st) && ApplyAppend(st, a).Some?
    ensures StateInv(ApplyAppend(st, a).value)
  {
    var e, e' := st.log.entries, ApplyAppend(st, a).value.log.entries;
    forall i: int ensures i in ApplyAppend(st, a).value.payloads.Keys <==> i in CommandIndexes(e') {
      CommandAt(e, i);
      CommandAt(e', i);
      CommandAt(a.entries, i);
    }
  }

  lemma SnapshotKeepsInv(st: State, s: SnapshotData)
    requires InIndexSpace(st.log.entries) && st.payloads.Keys == CommandIndexes(st.log.entries)
    requires ApplySnapshot(st, s).Some?
    ensures StateInv(ApplySnapshot(st, s).value)
  {
    var e, e' := st.log.entries, ApplySnapshot(st, s).value.log.entries;
    forall i: int ensures i in ApplySnapshot(st, s).value.payloads.Keys <==> i in CommandIndexes(e') {
      CommandAt(e, i);
      CommandAt(e', i);
    }
  }

  lemma DefaultInv(term: Term, votedFor: Option<NodeId>)
    ensures StateInv(DEFAULT_STATE.(currentTerm := term, votedFor := votedFor))
  {
    assert CommandIndexes(DEFAULT_STATE.log.entries) == {};
  }

  lemma RecordKeepsInv(st: State, r: Record)
    requires StateInv(st) && ApplyRecord(st, r).Some?
    ensures StateInv(ApplyRecord(st, r).value)
  {
    hide ApplyAppend, ApplySnapshot, StateInv;
    match r
    case CurrentTerm(term) => RenamedInv(st, term, st.votedFor);
    case VotedFor(votedFor) => RenamedInv(st, st.currentTerm, votedFor);
    case Append(append) => AppendKeepsInv(st, append);
    case SnapshotCheckpoint(c) =>
      var init := DEFAULT_STATE.(currentTerm := c.currentTerm, votedFor := c.votedFor);
      DefaultInv(c.currentTerm, c.votedFor);
      InvParts(init);
      SnapshotKeepsInv(init, c.snapshot);
      AppendKeepsInv(ApplySnapshot(init, c.snapshot).value, c.suffix);
  }

  lemma RenamedInv(st: State, term: Term, votedFor: Option<NodeId>)
    requires StateInv(st)
    ensures StateInv(st.(currentTerm := term)) && StateInv(st.(votedFor := votedFor))
  {
  }

  lemma InvParts(st: State)
    requires StateInv(st)
    ensures InIndexSpace(st.log.entries) && st.payloads.Keys == CommandIndexes(st.log.entries)
  {
  }

  /** Every state a replay returns satisfies the state invariant. */
  lemma {:induction false} FoldKeepsInv(st: State, rs: seq<Record>)
    requires StateInv(st) && Fold(st, rs).Some?
    ensures StateInv(Fold(st, rs).value)
    decreases |rs|
  {
    hide ApplyRecord, StateInv;
    if rs != [] {
      RecordKeepsInv(st, rs[0]);
      FoldKeepsInv(ApplyRecord(st, rs[0]).value, rs[1..]);
    }
  }

  // ---- checkpoints ----------------------------------------------------------------------------

  /** The state a checkpoint spells out. */
  function CheckpointState(c: Checkpoint): State {
    State(c.currentTerm, c.votedFor, Log(c.snapshot.config, c.suffix.entries), c.suffix.payloads, Some(c.snapshot))
  }

  /** A stored checkpoint loads exactly when it is valid and does not claim a term at
      index 0, where no entry can have one; it then loads as exactly its own content,
      whatever came before it. */
  lemma CheckpointLoads(c: Checkpoint)
    ensures IntoState(c).Some? <==>
            ValidCheckpoint(c) && !(c.snapshot.lastIncluded.index == 0 && c.snapshot.lastIncluded.term != 0)
    ensures IntoState(c).Some? ==> IntoState(c) == Some(CheckpointState(c))
  {
    var init := DEFAULT_STATE.(currentTerm := c.currentTerm, votedFor := c.votedFor);
    var p := c.snapshot.lastIncluded;
    if ValidCheckpoint(c) && !(p.index == 0 && p.term != 0) {
      var st := ApplySnapshot(init, c.snapshot).value;
      assert st.log.entries == Entries(p, []);
      assert st.payloads == map[];
      assert AppendSuffix(st.log.entries, c.suffix.entries).value == c.suffix.entries;
      assert UpTo(st.payloads, p.index) + c.suffix.payloads == c.suffix.payloads;
    }
  }

  // ---- compaction and appending commute ----------------------------------------------------------

  lemma {:induction false} TermAtAgrees(a: LogEntries, b: LogEntries, k: nat)
    requires k <= |a.list| && k <= |b.list|
    requires a.prev.term == b.prev.term && a.list[..k] == b.list[..k]
    ensures TermAt(a, k) == TermAt(b, k)
    decreases k
  {
    if k > 0 {
      assert a.list[..k][k - 1] == b.list[..k][k - 1];
      assert a.list[..k - 1] == a.list[..k][..k - 1] && b.list[..k - 1] == b.list[..k][..k - 1];
      TermAtAgrees(a, b, k - 1);
    }
  }

  /** The terms of a log from one of its positions on do not depend on what is before. */
  lemma {:induction false} TermAtSince(e: LogEntries, p: LogPosition, k: nat)
    requires Contains(e, p) && p.index - e.prev.index <= k <= |e.list|
    ensures TermAt(Since(e, p).value, k - (p.index - e.prev.index)) == TermAt(e, k)
    decreases k
  {
    if k > p.index - e.prev.index {
      TermAtSince(e, p, k - 1);
    }
  }

  lemma ContainsSince(e: LogEntries, p: LogPosition, q: LogPosition)
    requires Contains(e, p) && p.index <= q.index
    ensures Contains(Since(e, p).value, q) <==> Contains(e, q)
  {
    if q.index <= e.prev.index + |e.list| {
      TermAtSince(e, p, q.index - e.prev.index);
    }
  }

  lemma ContainsAppended(e: LogEntries, s: LogEntries, p: LogPosition)
    requires Contains(e, p) && Contains(e, s.prev) && p.index <= s.prev.index
    ensures Contains(AppendSuffix(e, s).value, p)
  {
    var k := p.index - e.prev.index;
    var e' := AppendSuffix(e, s).value;
    assert e'.list[..k] == e.list[..k];
    TermAtAgrees(e', e, k);
  }

  ghost function SnapshotThenAppend(st: State, s: SnapshotData, a: Append): Option<State>
    requires StateInv(st)
  {
    match ApplySnapshot(st, s)
    case None => None
    case Some(mid) => ApplyAppend(mid, a)
  }

  ghost function AppendThenSnapshot(st: State, s: SnapshotData, a: Append): Option<State>
    requires StateInv(st)
  {
    match ApplyAppend(st, a)
    case None => None
    case Some(mid) =>
      AppendKeepsInv(st, a);
      ApplySnapshot(mid, s)
  }

  lemma SpliceRetained<T>(l: seq<T>, more: seq<T>, k: nat, m: nat)
    requires k <= m <= |l|
    ensures l[k..][..m - k] + more == (l[..m] + more)[k..]
  {
    assert l[k..][..m - k] == l[k..m];
    assert (l[..m] + more)[k..] == l[k..m] + more;
  }

  /** The retained part of an extended log is the extension of the retained part. */
  lemma RetainAppended(e: LogEntries, p: LogPosition, s: LogEntries)
    requires InIndexSpace(e) && Contains(e, p) && p.index <= s.prev.index
    ensures AppendSuffix(Since(e, p).value, s).Some? <==> AppendSuffix(e, s).Some?
    ensures AppendSuffix(e, s).Some? ==>
              && Contains(AppendSuffix(e, s).value, p)
              && AppendSuffix(Since(e, p).value, s).value == Since(AppendSuffix(e, s).value, p).value
  {
    hide TermAt;
    ContainsSince(e, p, s.prev);
    if Contains(e, s.prev) {
      ContainsAppended(e, s, p);
      SpliceRetained(e.list, s.list, p.index - e.prev.index, s.prev.index - e.prev.index);
    }
  }

  lemma PayloadsCommute(m: PayloadMap, p: LogIndex, q: LogIndex, added: PayloadMap)
    requires p <= q && forall i :: i in added ==> q < i
    ensures UpTo(Above(m, p), q) + added == Above(UpTo(m, q) + added, p)
  {
  }

  /** Compaction commutes with appending at or after the snapshot position, success or failure. */
  lemma CompactionCommutes(st: State, s: SnapshotData, a: Append)
    requires StateInv(st) && Contains(st.log.entries, s.lastIncluded)
    requires s.lastIncluded.index <= a.entries.prev.index
    ensures SnapshotThenAppend(st, s, a) == AppendThenSnapshot(st, s, a)
  {
    hide Contains, AppendSuffix, Since, StateInv, ValidAppend, Above, UpTo, RetainedAfterSnapshot, TermAt, InIndexSpace;
    var e, p, q := st.log.entries, s.lastIncluded, a.entries.prev;
    InvParts(st);
    RetainAppended(e, p, a.entries);
    if ValidAppend(a) && AppendSuffix(e, a.entries).Some? {
      AppendKeepsInv(st, a);
      InvParts(ApplyAppend(st, a).value);
      SinceContained(AppendSuffix(e, a.entries).value, p);
      SinceContained(e, p);
      PayloadsAbove(a);
      PayloadsCommute(st.payloads, p.index, q.index, a.payloads);
    } else {
      SinceContained(e, p);
    }
  }

  lemma SinceContained(e: LogEntries, p: LogPosition)
    requires InIndexSpace(e) && Contains(e, p)
    ensures Since(e, p).Some? && e.prev.index <= p.index
    ensures RetainedAfterSnapshot(e, p) == Since(e, p)
  {
  }

  lemma PayloadsAbove(a: Append)
    requires ValidAppend(a)
    ensures forall i :: i in a.payloads ==> a.entries.prev.index < i
  {
    forall i | i in a.payloads ensures a.entries.prev.index < i {
      CommandAt(a.entries, i);
    }
  }

  // ---- the state object --------------------------------------------------------------------------

  /** A node state being rebuilt, record by record. A record that fails leaves it unchanged. */
  class NodeState {
    var currentTerm: Term
    var votedFor: Option<NodeId>
    var log: Log
    var commandPayloads: PayloadMap
    var snapshot: Option<SnapshotData>

    function View(): State
      reads this
    {
      State(currentTerm, votedFor, log, commandPayloads, snapshot)
    }

    constructor ()
      ensures View() == DEFAULT_STATE
    {
      currentTerm, votedFor := 0, None;
      log := Log(EMPTY_CONFIG, Entries(ZERO_POSITION, []));
      commandPayloads, snapshot := map[], None;
    }

    method ApplyAppendOwned(append: Append) returns (ok: bool)
      requires InIndexSpace(append.entries)
      modifies this
      ensures ok <==> ApplyAppend(old(View()), append).Some?
      ensures View() == if ok then ApplyAppend(old(View()), append).value else old(View())
    {
      ok := ValidateAppend(append);
      if !ok {
        return;
      }
      var prevIndex := append.entries.prev.index;
      var entries := AppendSuffix(log.entries, append.entries);
      if entries.None? {
        return false;
      }
      log := log.(entries := entries.value);
      commandPayloads := UpTo(commandPayloads, prevIndex);
      commandPayloads := commandPayloads + append.payloads;
    }

    method ApplySnapshotData(s: SnapshotData) returns (ok: bool)
      requires InIndexSpace(log.entries)
      modifies this
      ensures ok <==> ApplySnapshot(old(View()), s).Some?
      ensures View() == if ok then ApplySnapshot(old(View()), s).value else old(View())
    {
      var entries := RetainedAfterSnapshot(log.entries, s.lastIncluded);
      if entries.None? {
        return false;
      }
      commandPayloads := Above(commandPayloads, s.lastIncluded.index);
      log := Log(s.config, entries.value);
      snapshot := Some(s);
      return true;
    }

    method ApplyRecordToState(r: Record) returns (ok: bool)
      requires StateInv(View()) && RecordInIndexSpace(r)
      modifies this
      ensures ok <==> ApplyRecord(old(View()), r).Some?
      ensures View() == if ok then ApplyRecord(old(View()), r).value else old(View())
      ensures StateInv(View())
    {
      hide ApplyAppend, ApplySnapshot, StateInv, ValidCheckpoint;
      ghost var before := View();
      if ApplyRecord(before, r).Some? {
        RecordKeepsInv(before, r);
      }
      match r
      case CurrentTerm(term) =>
        currentTerm := term;
        ok := true;
      case VotedFor(v) =>
        votedFor := v;
        ok := true;
      case Append(append) =>
        ok := ApplyAppendOwned(append);
      case SnapshotCheckpoint(c) =>
        var st := CheckpointIntoState(c);
        ok := st.Some?;
        if ok {
          currentTerm, votedFor, log := st.value.currentTerm, st.value.votedFor, st.value.log;
          commandPayloads, snapshot := st.value.payloads, st.value.snapshot;
        }
    }
  }

  /** `SnapshotCheckpoint::into_state`. */
  method CheckpointIntoState(c: Checkpoint) returns (r: Option<State>)
    requires InIndexSpace(c.suffix.entries)
    ensures r == IntoState(c)
  {
    hide ApplyAppend, ApplySnapshot, ValidAppend;
    var ok := ValidateCheckpoint(c);
    if !ok {
      return None;
    }
    var state := new NodeState();
    state.currentTerm := c.currentTerm;
    state.votedFor := c.votedFor;
    ok := state.ApplySnapshotData(c.snapshot);
    if !ok {
      return None;
    }
    ok := state.ApplyAppendOwned(c.suffix);
    if !ok {
      return None;
    }
    return Some(state.View());
  }
}
