/** What a list of records amounts to, found by searching it from the end instead
    of applying the records in turn: the term and the vote, the snapshot, and the
    entry and the payload at every index. */
module Folds {
  import opened Words
  import opened Records
  import opened NodeStates
  import opened ReplayProofs

  // ---- one append, field by field --------------------------------------------------------------

  /** The entry of a log at an index, if the log reaches from before it to it. */
  function EntryAt(e: LogEntries, i: int): Option<LogEntry> {
    var k := i - e.prev.index - 1;
    if 0 <= k < |e.list| then Some(e.list[k]) else None
  }

  function PayloadAt(m: PayloadMap, i: int): Option<Payload> {
    if 0 <= i < U64_LIMIT && i in m then Some(m[i]) else None
  }

  /** `term` is the term after the first `k` entries: that of the last term entry among them, or the
      one the log starts with. */
  ghost predicate HasTerm(e: LogEntries, k: nat, term: Term)
    requires k <= |e.list|
  {
    || (term == e.prev.term && forall j :: 0 <= j < k ==> !e.list[j].TermEntry?)
    || exists j :: 0 <= j < k && e.list[j] == TermEntry(term) && forall l :: j < l < k ==> !e.list[l].TermEntry?
  }

  lemma {:induction false} TermIsLast(e: LogEntries, k: nat, term: Term)
    requires k <= |e.list|
    ensures TermAt(e, k) == term <==> HasTerm(e, k, term)
    decreases k
  {
    if k > 0 {
      TermIsLast(e, k - 1, term);
      var last := e.list[k - 1];
      if last.TermEntry? {
        if last.term == term {
          assert e.list[k - 1] == TermEntry(term);
        }
      } else if HasTerm(e, k - 1, term) && !(term == e.prev.term && forall j :: 0 <= j < k - 1 ==> !e.list[j].TermEntry?) {
        var j :| 0 <= j < k - 1 && e.list[j] == TermEntry(term) && forall l :: j < l < k - 1 ==> !e.list[l].TermEntry?;
        assert forall l :: j < l < k ==> !e.list[l].TermEntry?;
      }
    }
  }

  /** The log goes through a position: its index is in range and its term is the one there. */
  ghost predicate GoesThrough(e: LogEntries, p: LogPosition) {
    e.prev.index <= p.index <= e.prev.index + |e.list| && HasTerm(e, p.index - e.prev.index, p.term)
  }

  /** Exactly one payload for every command entry, and none for anything else. */
  ghost predicate PayloadsMatch(a: Append) {
    forall i: LogIndex :: i in a.payloads <==> EntryAt(a.entries, i) == Some(Command)
  }

  lemma ValidIsMatching(a: Append)
    ensures ValidAppend(a) <==> a.entries.prev.index + |a.entries.list| < 0x1_0000_0000_0000_0000 && PayloadsMatch(a)
  {
    if InIndexSpace(a.entries) {
      forall i: int
        ensures i in CommandIndexes(a.entries) <==> 0 <= i < U64_LIMIT && EntryAt(a.entries, i) == Some(Command)
      {
        CommandAt(a.entries, i);
      }
    }
  }

  /** What an append makes of a state: everything up to the anchor stays, everything behind it is
      the append's. */
  ghost predicate AppendedTo(s: State, a: Append, s': State) {
    var e, e', p := s.log.entries, s'.log.entries, a.entries.prev.index;
    && s'.currentTerm == s.currentTerm && s'.votedFor == s.votedFor
    && s'.snapshot == s.snapshot && s'.log.config == s.log.config
    && e'.prev == e.prev
    && e.prev.index <= p <= e.prev.index + |e.list|
    && |e'.list| == p - e.prev.index + |a.entries.list|
    && (forall k :: 0 <= k < p - e.prev.index ==> e'.list[k] == e.list[k])
    && (forall k :: 0 <= k < |a.entries.list| ==> e'.list[p - e.prev.index + k] == a.entries.list[k])
    && (forall i: LogIndex :: i <= p ==> PayloadAt(s'.payloads, i) == PayloadAt(s.payloads, i))
    && (forall i: LogIndex :: p < i ==> PayloadAt(s'.payloads, i) == PayloadAt(a.payloads, i))
  }

  /** An append succeeds exactly when it is valid and the log goes through its anchor. */
  lemma AppendSpelledOut(s: State, a: Append)
    ensures ApplyAppend(s, a).Some? <==> ValidAppend(a) && GoesThrough(s.log.entries, a.entries.prev)
    ensures ApplyAppend(s, a).Some? ==> AppendedTo(s, a, ApplyAppend(s, a).value)
  {
    hide TermAt, HasTerm, InIndexSpace;
    var e, p := s.log.entries, a.entries.prev;
    if e.prev.index <= p.index <= e.prev.index + |e.list| {
      TermIsLast(e, p.index - e.prev.index, p.term);
    }
    if ApplyAppend(s, a).Some? {
      PayloadsAbove(a);
    }
  }

  /** In particular any valid append behind the last entry succeeds, if it names the term of the
      last term entry. */
  lemma AppendAtEnd(s: State, a: Append, j: nat)
    requires ValidAppend(a) && a.entries.prev.index == s.log.entries.prev.index + |s.log.entries.list|
    requires j < |s.log.entries.list| && s.log.entries.list[j] == TermEntry(a.entries.prev.term)
    requires forall l :: j < l < |s.log.entries.list| ==> !s.log.entries.list[l].TermEntry?
    ensures ApplyAppend(s, a).Some?
  {
    hide TermAt, ApplyAppend, ValidAppend;
    AppendSpelledOut(s, a);
    assert HasTerm(s.log.entries, |s.log.entries.list|, a.entries.prev.term);
  }

  /** What a snapshot makes of a state: what lies behind its position stays, if the log goes through
      it, and everything before is gone. */
  ghost predicate CompactedTo(s: State, d: SnapshotData, s': State) {
    var e, e', p := s.log.entries, s'.log.entries, d.lastIncluded;
    && s'.currentTerm == s.currentTerm && s'.votedFor == s.votedFor
    && s'.snapshot == Some(d) && s'.log.config == d.config
    && e'.prev == p && e.prev.index <= p.index
    && (GoesThrough(e, p) ==>
          && |e'.list| == e.prev.index + |e.list| - p.index
          && forall k :: 0 <= k < |e'.list| ==> e'.list[k] == e.list[p.index - e.prev.index + k])
    && (!GoesThrough(e, p) ==> e'.list == [])
    && (forall i: LogIndex :: i <= p.index ==> PayloadAt(s'.payloads, i) == None)
    && (forall i: LogIndex :: p.index < i ==> PayloadAt(s'.payloads, i) == PayloadAt(s.payloads, i))
  }

  /** A snapshot is applied exactly when the log goes through its position or ends before it. */
  lemma SnapshotSpelledOut(s: State, d: SnapshotData)
    requires InIndexSpace(s.log.entries)
    ensures ApplySnapshot(s, d).Some? <==>
              GoesThrough(s.log.entries, d.lastIncluded)
              || s.log.entries.prev.index + |s.log.entries.list| < d.lastIncluded.index
    ensures ApplySnapshot(s, d).Some? ==> CompactedTo(s, d, ApplySnapshot(s, d).value)
  {
    hide TermAt, HasTerm;
    var e, p := s.log.entries, d.lastIncluded;
    if e.prev.index <= p.index <= e.prev.index + |e.list| {
      TermIsLast(e, p.index - e.prev.index, p.term);
    }
  }

  // ---- searching from the end --------------------------------------------------------------------

  function TermNamed(r: Record): Option<Term> {
    match r
    case CurrentTerm(term) => Some(term)
    case SnapshotCheckpoint(c) => Some(c.currentTerm)
    case _ => None
  }

  function VoteNamed(r: Record): Option<Option<NodeId>> {
    match r
    case VotedFor(votedFor) => Some(votedFor)
    case SnapshotCheckpoint(c) => Some(c.votedFor)
    case _ => None
  }

  /** The term of the last record that names one. */
  function LastTerm(rs: seq<Record>, otherwise: Term): Term
    decreases |rs|
  {
    if rs == [] then otherwise
    else
      match TermNamed(rs[|rs| - 1])
      case Some(term) => term
      case None => LastTerm(rs[..|rs| - 1], otherwise)
  }

  /** The vote of the last record that names one, `None` among them. */
  function LastVote(rs: seq<Record>, otherwise: Option<NodeId>): Option<NodeId>
    decreases |rs|
  {
    if rs == [] then otherwise
    else
      match VoteNamed(rs[|rs| - 1])
      case Some(vote) => vote
      case None => LastVote(rs[..|rs| - 1], otherwise)
  }

  function LastCheckpointIn(rs: seq<Record>): Option<Checkpoint>
    decreases |rs|
  {
    if rs == [] then None
    else if rs[|rs| - 1].SnapshotCheckpoint? then Some(rs[|rs| - 1].checkpoint)
    else LastCheckpointIn(rs[..|rs| - 1])
  }

  /** The entries and payloads that decide an index: those of the last append that starts before it,
      or of the last checkpoint, whichever comes later. */
  function LastWrite(rs: seq<Record>, i: int): Option<Append>
    decreases |rs|
  {
    if rs == [] then None
    else
      match rs[|rs| - 1]
      case Append(a) => if a.entries.prev.index < i then Some(a) else LastWrite(rs[..|rs| - 1], i)
      case SnapshotCheckpoint(c) => Some(c.suffix)
      case _ => LastWrite(rs[..|rs| - 1], i)
  }

  // ---- folding is searching ------------------------------------------------------------------------

  lemma FoldLast(st: State, rs: seq<Record>)
    requires rs != []
    ensures Fold(st, rs)
         == match Fold(st, rs[..|rs| - 1]) case None => None case Some(mid) => ApplyRecord(mid, rs[|rs| - 1])
  {
    hide ApplyRecord;
    var front, last := rs[..|rs| - 1], rs[|rs| - 1];
    assert rs == front + [last];
    FoldConcat(st, front, [last]);
    match Fold(st, front)
    case None =>
    case Some(mid) => assert [last][1..] == [];
  }

  lemma {:induction false} TermAndVote(st: State, rs: seq<Record>)
    requires Fold(st, rs).Some?
    ensures Fold(st, rs).value.currentTerm == LastTerm(rs, st.currentTerm)
    ensures Fold(st, rs).value.votedFor == LastVote(rs, st.votedFor)
    decreases |rs|
  {
    hide Fold, ApplyAppend, IntoState;
    if rs == [] {
      FoldNothing(st);
    } else {
      FoldLast(st, rs);
      var mid, last := Fold(st, rs[..|rs| - 1]).value, rs[|rs| - 1];
      TermAndVote(st, rs[..|rs| - 1]);
      match last
      case Append(a) => AppendSpelledOut(mid, a);
      case SnapshotCheckpoint(c) => CheckpointLoads(c);
      case _ =>
    }
  }

  lemma FoldNothing(st: State)
    ensures Fold(st, []) == Some(st)
  {
  }

  /** Start, configuration and snapshot are those of the last checkpoint. */
  lemma {:induction false} StartAndSnapshot(st: State, rs: seq<Record>)
    requires Fold(st, rs).Some?
    ensures var s := Fold(st, rs).value;
            match LastCheckpointIn(rs)
            case None =>
              && s.log.entries.prev == st.log.entries.prev && s.log.config == st.log.config
              && s.snapshot == st.snapshot
            case Some(c) =>
              && s.log.entries.prev == c.snapshot.lastIncluded && s.log.config == c.snapshot.config
              && s.snapshot == Some(c.snapshot)
    decreases |rs|
  {
    hide Fold, ApplyAppend, IntoState;
    if rs == [] {
      FoldNothing(st);
    } else {
      FoldLast(st, rs);
      var mid, last := Fold(st, rs[..|rs| - 1]).value, rs[|rs| - 1];
      StartAndSnapshot(st, rs[..|rs| - 1]);
      match last
      case Append(a) => AppendSpelledOut(mid, a);
      case SnapshotCheckpoint(c) => CheckpointLoads(c);
      case _ =>
    }
  }

  /** Behind its start a log has, at every index, the entry and the payload of the last write that
      decides the index; nothing where that write is too short. */
  lemma {:induction false} EntryAndPayload(st: State, rs: seq<Record>, i: int)
    requires Fold(st, rs).Some? && Fold(st, rs).value.log.entries.prev.index < i < U64_LIMIT
    ensures var s := Fold(st, rs).value;
            match LastWrite(rs, i)
            case None =>
              && EntryAt(s.log.entries, i) == EntryAt(st.log.entries, i)
              && PayloadAt(s.payloads, i) == PayloadAt(st.payloads, i)
            case Some(a) =>
              EntryAt(s.log.entries, i) == EntryAt(a.entries, i) && PayloadAt(s.payloads, i) == PayloadAt(a.payloads, i)
    decreases |rs|
  {
    hide Fold, ApplyAppend, IntoState;
    if rs == [] {
      FoldNothing(st);
    } else {
      FoldLast(st, rs);
      var mid, last := Fold(st, rs[..|rs| - 1]).value, rs[|rs| - 1];
      match last
      case Append(a) =>
        AppendSpelledOut(mid, a);
        EntryAppended(mid, a, i);
        if i <= a.entries.prev.index {
          EntryAndPayload(st, rs[..|rs| - 1], i);
        }
      case SnapshotCheckpoint(c) => CheckpointLoads(c);
      case _ => EntryAndPayload(st, rs[..|rs| - 1], i);
    }
  }

  lemma EntryAppended(s: State, a: Append, i: int)
    requires ApplyAppend(s, a).Some? && s.log.entries.prev.index < i < U64_LIMIT
    ensures var s' := ApplyAppend(s, a).value;
            && s'.log.entries.prev == s.log.entries.prev
            && (i <= a.entries.prev.index ==>
                && EntryAt(s'.log.entries, i) == EntryAt(s.log.entries, i)
                && PayloadAt(s'.payloads, i) == PayloadAt(s.payloads, i))
            && (a.entries.prev.index < i ==>
                && EntryAt(s'.log.entries, i) == EntryAt(a.entries, i)
                && PayloadAt(s'.payloads, i) == PayloadAt(a.payloads, i))
  {
    hide ApplyAppend, ValidAppend, GoesThrough;
    AppendSpelledOut(s, a);
    var e, e', p := s.log.entries, ApplyAppend(s, a).value.log.entries, a.entries.prev.index;
    var k := i - e.prev.index - 1;
    if p < i && k < |e'.list| {
      assert e'.list[k] == a.entries.list[k - (p - e.prev.index)];
    }
  }

  // ---- when a fold fails ---------------------------------------------------------------------------

  /** A record that cannot be applied: an append that is not valid or whose anchor the log does not go
      through, or a checkpoint that is not valid or claims a term at index 0. */
  ghost predicate Refused(s: State, r: Record) {
    match r
    case Append(a) => !ValidAppend(a) || !GoesThrough(s.log.entries, a.entries.prev)
    case SnapshotCheckpoint(c) =>
      !ValidCheckpoint(c) || (c.snapshot.lastIncluded.index == 0 && c.snapshot.lastIncluded.term != 0)
    case _ => false
  }

  lemma RefusedFails(s: State, r: Record)
    ensures ApplyRecord(s, r).None? <==> Refused(s, r)
  {
    hide ApplyAppend, IntoState, ValidAppend, ValidCheckpoint, GoesThrough;
    match r
    case Append(a) => AppendSpelledOut(s, a);
    case SnapshotCheckpoint(c) => CheckpointLoads(c);
    case _ =>
  }

  /** A fold fails exactly when some record is refused by what the records before it amount to. */
  lemma {:induction false} FoldFails(st: State, rs: seq<Record>)
    ensures Fold(st, rs).None? <==>
            exists k :: 0 <= k < |rs| && Fold(st, rs[..k]).Some? && Refused(Fold(st, rs[..k]).value, rs[k])
    decreases |rs|
  {
    hide Fold, ApplyRecord, Refused;
    if rs == [] {
      FoldNothing(st);
    } else {
      var n := |rs| - 1;
      FoldLast(st, rs);
      FoldFails(st, rs[..n]);
      assert forall k :: 0 <= k < n ==> rs[..n][..k] == rs[..k];
      if Fold(st, rs[..n]).Some? {
        RefusedFails(Fold(st, rs[..n]).value, rs[n]);
      } else {
        var k :| 0 <= k < n && Fold(st, rs[..n][..k]).Some? && Refused(Fold(st, rs[..n][..k]).value, rs[..n][k]);
        assert Fold(st, rs[..k]).Some? && Refused(Fold(st, rs[..k]).value, rs[k]);
      }
    }
  }

  // ---- from the last checkpoint on is enough ---------------------------------------------------------

  lemma {:induction false} FoundIfAny(rs: seq<Record>)
    ensures LastCheckpointIn(rs).Some? <==> HasCheckpoint(rs)
    decreases |rs|
  {
    if rs != [] {
      FoundIfAny(rs[..|rs| - 1]);
    }
  }

  /** A search that meets a checkpoint in the tail of a list has the same result in the whole. */
  lemma {:induction false} DropFirst(rs: seq<Record>, term: Term, vote: Option<NodeId>, i: int)
    requires rs != [] && LastCheckpointIn(rs[1..]).Some?
    ensures LastTerm(rs[1..], term) == LastTerm(rs, term) && LastVote(rs[1..], vote) == LastVote(rs, vote)
    ensures LastCheckpointIn(rs[1..]) == LastCheckpointIn(rs) && LastWrite(rs[1..], i) == LastWrite(rs, i)
    decreases |rs|
  {
    var n := |rs| - 1;
    assert rs[1..][|rs[1..]| - 1] == rs[n];
    if !rs[n].SnapshotCheckpoint? {
      assert rs[1..][..n - 1] == rs[..n][1..];
      DropFirst(rs[..n], term, vote, i);
    }
  }

  lemma {:induction false} SearchesStop(rs: seq<Record>, term: Term, vote: Option<NodeId>, i: int)
    ensures var from := FromLastCheckpoint(rs);
            && LastTerm(from, term) == LastTerm(rs, term) && LastVote(from, vote) == LastVote(rs, vote)
            && LastCheckpointIn(from) == LastCheckpointIn(rs) && LastWrite(from, i) == LastWrite(rs, i)
    decreases |rs|
  {
    hide LastTerm, LastVote, LastCheckpointIn, LastWrite, HasCheckpoint;
    if rs != [] && HasCheckpoint(rs[1..]) {
      FoundIfAny(rs[1..]);
      SearchesStop(rs[1..], term, vote, i);
      DropFirst(rs, term, vote, i);
    }
  }

  /** A state is what searching a node's records for each of its fields gives. */
  ghost predicate FoundIn(s: State, own: seq<Record>) {
    && s.currentTerm == LastTerm(own, 0)
    && s.votedFor == LastVote(own, None)
    && (match LastCheckpointIn(own)
        case None => s.log.entries.prev == LogPosition(0, 0) && s.log.config == Config({}, {}, {}) && s.snapshot == None
        case Some(c) =>
          && s.log.entries.prev == c.snapshot.lastIncluded && s.log.config == c.snapshot.config
          && s.snapshot == Some(c.snapshot))
    && (forall i: LogIndex :: s.log.entries.prev.index < i ==> FoundAt(s, own, i))
    && (forall i: LogIndex :: i <= s.log.entries.prev.index ==> PayloadAt(s.payloads, i) == None)
  }

  ghost predicate FoundAt(s: State, own: seq<Record>, i: LogIndex) {
    match LastWrite(own, i)
    case None => EntryAt(s.log.entries, i) == None && PayloadAt(s.payloads, i) == None
    case Some(a) =>
      EntryAt(s.log.entries, i) == EntryAt(a.entries, i) && PayloadAt(s.payloads, i) == PayloadAt(a.payloads, i)
  }

  /** The reference meaning of a stream for a node is what searching the node's records gives. */
  lemma NaiveIsFound(rs: seq<NodeRecord>, node: NodeId)
    requires Naive(rs, node).Some?
    ensures FoundIn(Naive(rs, node).value, OwnRecords(rs, node))
  {
    hide Fold, LastTerm, LastVote, LastCheckpointIn, LastWrite, FromLastCheckpoint, StateInv;
    var own := OwnRecords(rs, node);
    var from := FromLastCheckpoint(own);
    var s := Fold(DEFAULT_STATE, from).value;
    SearchesStop(own, 0, None, 0);
    TermAndVote(DEFAULT_STATE, from);
    StartAndSnapshot(DEFAULT_STATE, from);
    forall i: LogIndex | s.log.entries.prev.index < i ensures FoundAt(s, own, i) {
      SearchesStop(own, 0, None, i);
      EntryAndPayload(DEFAULT_STATE, from, i);
    }
    DefaultInv(0, None);
    FoldKeepsInv(DEFAULT_STATE, from);
    NoPayloadBelow(s);
  }

  lemma NoPayloadBelow(s: State)
    requires StateInv(s)
    ensures forall i: LogIndex :: i <= s.log.entries.prev.index ==> PayloadAt(s.payloads, i) == None
  {
    forall i: LogIndex | i <= s.log.entries.prev.index ensures PayloadAt(s.payloads, i) == None {
      CommandAt(s.log.entries, i);
    }
  }
}
