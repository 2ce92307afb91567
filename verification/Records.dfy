/** The values the storage engine persists.

    A node set and a payload map appear in two representations: as the set and
    map the program holds in memory, and as the lists in which they are written
    to disk. The record types are generic in both, `S` being the representation
    of a node set and `M` that of a payload map. */
module Records {
  import opened Words

  datatype Option<+T> = None | Some(value: T)

  type NodeId = u64
  type Term = u64
  type LogIndex = u64

  datatype LogPosition = LogPosition(term: Term, index: LogIndex)

  datatype ConfigOf<S> = Config(voters: S, newVoters: S, nonVoters: S)

  datatype EntryOf<S> =
    | TermEntry(term: Term)
    | ConfigEntry(config: ConfigOf<S>)
    | Command

  datatype EntriesOf<S> = Entries(prev: LogPosition, list: seq<EntryOf<S>>)

  datatype Payload = Payload(tag: byte, bytes: seq<byte>)

  datatype AppendOf<S, M> = LogAppend(entries: EntriesOf<S>, payloads: M)

  datatype SnapshotOf<S> = Snapshot(lastIncluded: LogPosition, config: ConfigOf<S>, data: seq<byte>)

  datatype CheckpointOf<S, M> =
    Checkpoint(currentTerm: Term, votedFor: Option<NodeId>, snapshot: SnapshotOf<S>, suffix: AppendOf<S, M>)

  datatype RecordOf<S, M> =
    | CurrentTerm(term: Term)
    | VotedFor(votedFor: Option<NodeId>)
    | Append(append: AppendOf<S, M>)
    | SnapshotCheckpoint(checkpoint: CheckpointOf<S, M>)

  datatype NodeRecordOf<S, M> = NodeRecord(node: NodeId, record: RecordOf<S, M>)

  // In memory.
  type NodeSet = set<NodeId>
  type PayloadMap = map<LogIndex, Payload>
  type ClusterConfig = ConfigOf<NodeSet>
  type LogEntry = EntryOf<NodeSet>
  type LogEntries = EntriesOf<NodeSet>
  type Append = AppendOf<NodeSet, PayloadMap>
  type SnapshotData = SnapshotOf<NodeSet>
  type Checkpoint = CheckpointOf<NodeSet, PayloadMap>
  type Record = RecordOf<NodeSet, PayloadMap>
  type NodeRecord = NodeRecordOf<NodeSet, PayloadMap>

  const EMPTY_CONFIG: ClusterConfig := Config({}, {}, {})
  const ZERO_POSITION: LogPosition := LogPosition(0, 0)

  /** The index space bound every `noraft` log keeps. */
  predicate InIndexSpace<S>(e: EntriesOf<S>) {
    e.prev.index + |e.list| < U64_LIMIT
  }

  /** The indexes of the command entries. */
  ghost function CommandIndexes<S(!new)>(e: EntriesOf<S>): set<int> {
    set k | 0 <= k < |e.list| && e.list[k].Command? :: e.prev.index + 1 + k
  }

  /** The same for the logs inside a record. */
  predicate RecordInIndexSpace(r: Record) {
    match r
    case Append(a) => InIndexSpace(a.entries)
    case SnapshotCheckpoint(c) => InIndexSpace(c.suffix.entries)
    case _ => true
  }

  /** Every command entry has one payload and no other index has any. */
  ghost predicate ValidAppend<S(!new)>(a: AppendOf<S, PayloadMap>) {
    && InIndexSpace(a.entries)
    && a.payloads.Keys == CommandIndexes(a.entries)
  }

  ghost predicate ValidCheckpoint<S(!new)>(c: CheckpointOf<S, PayloadMap>) {
    && ValidAppend(c.suffix)
    && c.suffix.entries.prev == c.snapshot.lastIncluded
  }

  ghost predicate ValidRecord<S(!new)>(r: RecordOf<S, PayloadMap>) {
    match r
    case Append(a) => ValidAppend(a)
    case SnapshotCheckpoint(c) => ValidCheckpoint(c)
    case _ => true
  }

  /** `LogAppend::validate`: the two passes over entries and payload keys. */
  method ValidateAppend(a: Append) returns (ok: bool)
    requires InIndexSpace(a.entries)
    ensures ok <==> ValidAppend(a)
  {
    var e := a.entries;
    for k := 0 to |e.list|
      invariant forall j :: 0 <= j < k && e.list[j].Command? ==> e.prev.index + 1 + j in a.payloads
    {
      if e.list[k].Command? && e.prev.index + 1 + k !in a.payloads {
        assert e.prev.index + 1 + k in CommandIndexes(e);
        return false;
      }
    }
    var rest := a.payloads.Keys;
    while rest != {}
      invariant rest <= a.payloads.Keys
      invariant forall i :: i in a.payloads.Keys - rest ==> i in CommandIndexes(e)
      decreases rest
    {
      var i :| i in rest;
      if !HasCommandAt(e, i) {
        return false;
      }
      rest := rest - {i};
    }
    return true;
  }

  /** `entries.get_entry(index) == Some(Command)`. */
  predicate HasCommandAt<S(!new)>(e: EntriesOf<S>, index: LogIndex)
    ensures HasCommandAt(e, index) <==> index in CommandIndexes(e)
  {
    var k := index - e.prev.index - 1;
    assert index in CommandIndexes(e) ==> 0 <= k < |e.list| && e.list[k].Command?;
    0 <= k < |e.list| && e.list[k].Command?
  }

  /** `SnapshotCheckpoint::validate`. */
  method ValidateCheckpoint(c: Checkpoint) returns (ok: bool)
    requires InIndexSpace(c.suffix.entries)
    ensures ok <==> ValidCheckpoint(c)
  {
    ok := ValidateAppend(c.suffix);
    if ok && c.suffix.entries.prev != c.snapshot.lastIncluded {
      ok := false;
    }
  }

  /** The empty checkpoint `create_node` writes. */
  const INITIAL_CHECKPOINT: Checkpoint :=
    Checkpoint(0, None, Snapshot(ZERO_POSITION, EMPTY_CONFIG, []), LogAppend(Entries(ZERO_POSITION, []), map[]))
}
