/** Two limits of what the engine promises, each with a reachable state that shows
    it and the exact condition under which the promise holds: a checkpoint that is
    saved but cannot be loaded, and a reader that fails on a store that loads. */
module Limits {
  import opened Words
  import opened Records
  import opened Codec
  import opened NodeStates
  import opened Replay
  import opened ReplayProofs
  import opened Disks
  import opened DurableSteps
  import opened Protocol
  import opened Runs
  import opened Consequences
  import opened Durability
  import opened Readers

  // ---- checkpoints that cannot be loaded -------------------------------------------------------

  lemma LastIsCheckpoint(before: seq<NodeRecord>, node: NodeId, c: Checkpoint)
    ensures Naive(before + [NodeRecord(node, SnapshotCheckpoint(c))], node) == IntoState(c)
  {
    hide IntoState, ApplyAppend;
    var r := NodeRecord(node, SnapshotCheckpoint(c));
    assert [r][1..] == [];
    assert OwnRecords([r], node) == [r.record];
    var own := [r.record];
    assert own[0].SnapshotCheckpoint? && own[1..] == [];
    assert FromLastCheckpoint(own) == own;
    FoldOne(DEFAULT_STATE, r.record);
    NaiveSuffix(before, [r], node);
  }

  lemma FoldOne(st: State, x: Record)
    ensures Fold(st, [x]) == ApplyRecord(st, x)
  {
    hide ApplyRecord;
    assert [x][1..] == [];
  }

  lemma FoldTwo(st: State, x: Record, y: Record)
    ensures Fold(st, [x, y]) == match ApplyRecord(st, x) case None => None case Some(mid) => ApplyRecord(mid, y)
  {
    hide ApplyRecord;
    assert [x, y][1..] == [y];
    match ApplyRecord(st, x)
    case None =>
    case Some(mid) => FoldOne(mid, y);
  }

  lemma Squeezed(a: seq<NodeRecord>, b: seq<NodeRecord>)
    requires a <= b <= a
    ensures b == a
  {
  }

  lemma SnapshotKeepsNode(d: Disk, m: Memory, node: NodeId, c: Checkpoint)
    requires PlanOf(d, m, SaveSnapshot(node, c)).ok
    ensures ValidCheckpoint(c) && IsActive(m.registry, node) && AppendPlan(m, NodeRecord(node, SnapshotCheckpoint(c))).ok
    ensures PlanOf(d, m, SaveSnapshot(node, c)).memory.registry == m.registry
  {
    hide AppendPlan, SyncPlan, AppendPosition, CollectPlan, DiskAfter, ValidCheckpoint;
    AppendKeepsMetadata(m, NodeRecord(node, SnapshotCheckpoint(c)));
    var r := NodeRecord(node, SnapshotCheckpoint(c));
    AppendKeepsMetadata(AppendPlan(m, r).memory, r);
    var p := SnapshotPlan(m, node, c);
    CollectSucceeds(DiskAfter(d, p.steps), p.memory);
  }

  /** After a `save_snapshot` that succeeded, from any reachable state, `load` of the node succeeds,
      and with the checkpoint's own content, exactly when the checkpoint does not claim a term at
      index 0; otherwise it fails, and so does `load_all`. */
  lemma SavedSnapshotLoads(w: World, node: NodeId, c: Checkpoint)
    requires Reachable(w) && w.engine.Some? && w.engine.value.Idle?
    requires PlanOf(w.at.disk, w.engine.value.memory, SaveSnapshot(node, c)).ok
    ensures var s := Done(w, SaveSnapshot(node, c));
            var r := Load(s.at.disk, s.engine.value.memory, node);
            && Reachable(s) && IsActive(s.engine.value.memory.registry, node)
            && (r.Some? <==> !(c.snapshot.lastIncluded.index == 0 && c.snapshot.lastIncluded.term != 0))
            && (r.Some? ==> r == Some(CheckpointState(c)))
            && (r.None? ==> LoadAllNodes(s.at.disk, s.engine.value.memory) == None)
  {
    hide Reachable, SegmentsFit, DiskInv, MemoryFits, RunSteps, StepsOk, PlanOf, Flat, Durable, Load, LoadAllNodes, Naive,
         IntoState, ValidCheckpoint;
    var op, m := SaveSnapshot(node, c), w.engine.value.memory;
    ReachInv(w);
    ReachDone(w, op);
    PlanOk(w.at, m, op);
    SnapshotKeepsNode(w.at.disk, m, node, c);
    var s := Done(w, op);
    LastIsCheckpoint(Flat(w.at.hist), node, c);
    CheckpointLoads(c);
    LoadIsNaive(s.at, s.engine.value.memory, node);
    LoadAllIsHistory(s.at, s.engine.value.memory);
    assert node in ActiveNodes(s.engine.value.memory.registry);
  }

  /** A checkpoint at index 0 of term 5. */
  const ZERO_INDEX_CHECKPOINT: Checkpoint :=
    Checkpoint(5, None, Snapshot(LogPosition(5, 0), EMPTY_CONFIG, []), LogAppend(Entries(LogPosition(5, 0), []), map[]))

  lemma ZeroIndexEncodable(node: NodeId)
    ensures ValidCheckpoint(ZERO_INDEX_CHECKPOINT)
    ensures Encodable(NodeRecord(node, SnapshotCheckpoint(ZERO_INDEX_CHECKPOINT)))
  {
    assert CommandIndexes(ZERO_INDEX_CHECKPOINT.suffix.entries) == {};
  }

  lemma SnapshotSucceeds(d: Disk, m: Memory, node: NodeId, c: Checkpoint)
    requires IsActive(m.registry, node) && ValidCheckpoint(c) && m.active + 1 < U64_LIMIT
    requires Encodable(NodeRecord(node, SnapshotCheckpoint(c)))
    ensures PlanOf(d, m, SaveSnapshot(node, c)).ok
  {
    hide Encodable, Encoding.Frame, ValidCheckpoint, DeleteSteps, DiskAfter;
  }

  /** In a new store with one node, `save_snapshot` accepts a checkpoint that no load of the node
      and no load of the store can read any more. */
  lemma CheckpointThatNeverLoads(node: NodeId) returns (w: World)
    ensures Reachable(w) && w.engine.Some? && w.engine.value.Idle?
    ensures PlanOf(w.at.disk, w.engine.value.memory, SaveSnapshot(node, ZERO_INDEX_CHECKPOINT)).ok
    ensures var s := Done(w, SaveSnapshot(node, ZERO_INDEX_CHECKPOINT));
            && Reachable(s) && IsActive(s.engine.value.memory.registry, node)
            && Load(s.at.disk, s.engine.value.memory, node) == None
            && LoadAllNodes(s.at.disk, s.engine.value.memory) == None
  {
    hide Reachable, PlanOf, Flat, Encodable, Load, LoadAllNodes, ValidCheckpoint, Finished;
    w := NewNode(node);
    ZeroIndexEncodable(node);
    SnapshotSucceeds(w.at.disk, w.engine.value.memory, node, ZERO_INDEX_CHECKPOINT);
    SavedSnapshotLoads(w, node, ZERO_INDEX_CHECKPOINT);
  }

  // ---- a reader that misses a checkpoint -----------------------------------------------------------

  lemma {:induction false} ReachSteps(w: World, done: seq<Micro>, rest: seq<Micro>)
    requires Reachable(w) && w.engine.Some? && w.engine.value.Busy? && w.engine.value.todo == done + rest
    ensures Reachable(w.(at := RunSteps(w.at, done), engine := Some(w.engine.value.(todo := rest))))
    decreases |done|
  {
    hide Reachable, NextPoint;
    var e := w.engine.value;
    if done == [] {
      assert done + rest == rest;
    } else {
      var w' := w.(at := NextPoint(w.at, e.todo[0]), engine := Some(e.(todo := e.todo[1..])));
      assert (done + rest)[1..] == done[1..] + rest;
      assert TakesStep(w, w');
      ReachNext(w, w');
      ReachSteps(w', done[1..], rest);
    }
  }

  /** The world after `save_snapshot` has written its record, but nothing else yet. */
  ghost function RecordWritten(w: World, node: NodeId, c: Checkpoint): World
    requires w.engine.Some? && w.engine.value.Idle?
  {
    var m := w.engine.value.memory;
    var first := AppendPlan(m, NodeRecord(node, SnapshotCheckpoint(c))).steps;
    var pl := PlanOf(w.at.disk, m, SaveSnapshot(node, c));
    var rest := if |first| <= |pl.steps| then pl.steps[|first|..] else [];
    w.(at := RunSteps(w.at, first), engine := Some(Busy(rest, pl.memory, pl.ok)))
  }

  lemma AppendFirst(d: Disk, m: Memory, node: NodeId, c: Checkpoint)
    requires PlanOf(d, m, SaveSnapshot(node, c)).ok
    ensures AppendPlan(m, NodeRecord(node, SnapshotCheckpoint(c))).steps <= PlanOf(d, m, SaveSnapshot(node, c)).steps
  {
    hide AppendPlan, SyncPlan, AppendPosition, CollectPlan, DiskAfter, ValidCheckpoint;
  }

  lemma ReachRecordWritten(w: World, node: NodeId, c: Checkpoint)
    requires Reachable(w) && w.engine.Some? && w.engine.value.Idle?
    requires PlanOf(w.at.disk, w.engine.value.memory, SaveSnapshot(node, c)).ok
    ensures Reachable(RecordWritten(w, node, c))
  {
    hide Reachable, PlanOf, AppendPlan, RunSteps;
    var op, m := SaveSnapshot(node, c), w.engine.value.memory;
    var first, pl := AppendPlan(m, NodeRecord(node, SnapshotCheckpoint(c))).steps, PlanOf(w.at.disk, m, op);
    AppendFirst(w.at.disk, m, node, c);
    var busy := w.(engine := Some(Busy(pl.steps, pl.memory, pl.ok && Acknowledges(op))));
    assert Begins(w, busy, op);
    ReachNext(w, busy);
    assert pl.steps == first + pl.steps[|first|..];
    ReachSteps(busy, first, pl.steps[|first|..]);
  }

  lemma AppendOnlyAppends(m: Memory, r: NodeRecord)
    ensures forall i :: 0 <= i < |AppendPlan(m, r).steps| ==> Appends(AppendPlan(m, r).steps[i])
  {
    hide Encodable, Encoding.Frame;
  }

  lemma {:induction false} StepsExtend(p: Point, steps: seq<Micro>)
    requires DiskInv(p.disk, p.hist) && StepsOk(p, steps)
    requires forall i :: 0 <= i < |steps| ==> Appends(steps[i])
    ensures Extends(p, RunSteps(p, steps)) && DiskInv(RunSteps(p, steps).disk, RunSteps(p, steps).hist)
    decreases |steps|
  {
    hide SegmentsFit, DiskInv, MicroOk, Extends, ApplyMicro, ApplyHistory, Survives;
    IndexFitsIs(p.disk, p.hist);
    if steps == [] {
      ExtendsItself(p);
    } else {
      var q := NextPoint(p, steps[0]);
      StepKeeps(p.disk, p.hist, steps[0]);
      SurvivesInv(p.disk, p.hist, q.disk, q.hist);
      StepExtends(p, steps[0]);
      StepsExtend(q, steps[1..]);
      ExtendsOn(p, q, RunSteps(q, steps[1..]));
    }
  }

  lemma SeenAll(p: Point, q: Point)
    requires Extends(p, q) && p.hist != []
    ensures SeenBetween(p, q, Contents(p.disk))
  {
    hide SegmentsFit;
  }

  /** A reader that lists the directory before and after the record is written, and reads everything
      that is there both times. */
  ghost function ReadAcross(w: World, node: NodeId, c: Checkpoint): Readers.Reading
    requires w.engine.Some? && w.engine.value.Idle?
  {
    var q := RecordWritten(w, node, c).at;
    Readers.Reading(w.at, q, q, Contents(w.at.disk), Contents(q.disk))
  }

  lemma AcrossReads(w: World, node: NodeId, c: Checkpoint)
    requires Reachable(w) && w.engine.Some? && w.engine.value.Idle?
    requires PlanOf(w.at.disk, w.engine.value.memory, SaveSnapshot(node, c)).ok
    ensures var q := RecordWritten(w, node, c).at;
            && ReadsThrough(ReadAcross(w, node, c)) && IsActive(w.at.disk.registry, node)
            && Flat(q.hist) == Flat(w.at.hist) + [NodeRecord(node, SnapshotCheckpoint(c))]
  {
    hide Reachable, SegmentsFit, DiskInv, MemoryFits, RunSteps, StepsOk, PlanOf, Flat, Durable, AppendPlan, Extends,
         SeenBetween, Contents;
    var m, r := w.engine.value.memory, NodeRecord(node, SnapshotCheckpoint(c));
    ReachInv(w);
    SnapshotKeepsNode(w.at.disk, m, node, c);
    AppendOk(w.at, m, r);
    AppendOnlyAppends(m, r);
    var first := AppendPlan(m, r).steps;
    var q := RunSteps(w.at, first);
    StepsExtend(w.at, first);
    FitsShape(w.at, m);
    ExtendsParts(w.at, q);
    ExtendsItself(q);
    SeenAll(w.at, q);
    SeenAll(q, q);
  }

  lemma ExtendsParts(p: Point, q: Point)
    requires Extends(p, q)
    ensures SegmentsFit(q.disk, q.hist)
    ensures forall id :: id in Contents(p.disk) && id in Contents(q.disk) ==> Contents(p.disk)[id] <= Contents(q.disk)[id]
  {
    hide SegmentsFit;
  }

  /** While a node's stored records do not fold, writing a new checkpoint of it mends the store at
      once, but a reader that was already under way still fails, from every reachable state. */
  lemma ReaderStaysBehind(w: World, node: NodeId, c: Checkpoint)
    requires Reachable(w) && w.engine.Some? && w.engine.value.Idle?
    requires PlanOf(w.at.disk, w.engine.value.memory, SaveSnapshot(node, c)).ok
    requires Naive(Flat(w.at.hist), node) == None
    ensures var r := ReadAcross(w, node, c);
            && Reachable(RecordWritten(w, node, c)) && r.second == RecordWritten(w, node, c).at
            && ReadsThrough(r) && IsActive(r.first.disk.registry, node)
            && LoadOf(r, node) == None && Naive(Flat(SeenRecords(r)), node) == IntoState(c)
  {
    hide Reachable, SegmentsFit, DiskInv, PlanOf, Flat, Naive, IntoState, LoadOf, ReadsThrough, SeenRecords, Contents,
         RecordWritten, BetweenFolds, FirstHistory;
    var r := ReadAcross(w, node, c);
    ReachRecordWritten(w, node, c);
    AcrossReads(w, node, c);
    LastIsCheckpoint(Flat(w.at.hist), node, c);
    SeenIsPrefix(r);
    Squeezed(Flat(r.end.hist), Flat(SeenRecords(r)));
    FirstIsHistory(r, node);
    ReaderLoads(r, node);
  }

  /** A first pass that reads all there is sees the records of the history it started from. */
  lemma FirstIsHistory(r: Readers.Reading, n: NodeId)
    requires ReadsThrough(r) && IsActive(r.first.disk.registry, n) && r.seenFirst == Contents(r.first.disk)
    ensures Naive(Flat(FirstHistory(r)), n) == Naive(Flat(r.first.hist), n)
  {
    hide SegmentsFit, DiskInv, Naive, Flat, SeenBetween, SeenHistory, Contents, ReplayNode, WellFormed, StoredRecords,
         ValidHint, Extends;
    PassNaive(r.first, r.end, r.seenFirst, n);
    ActiveNodeReads(r.first.disk, r.first.hist, n);
  }

  /** An append behind position 5, where a new node has nothing. */
  const UNANCHORED: Append := LogAppend(Entries(LogPosition(1, 5), []), map[])

  lemma UnanchoredFails(node: NodeId)
    ensures Encodable(NodeRecord(node, Record.Append(UNANCHORED)))
    ensures Naive([NodeRecord(node, SnapshotCheckpoint(INITIAL_CHECKPOINT)), NodeRecord(node, Record.Append(UNANCHORED))], node)
         == None
  {
    UnanchoredEncodable(node);
    hide Encodable, ApplyRecord, Fold;
    var a, b := NodeRecord(node, SnapshotCheckpoint(INITIAL_CHECKPOINT)), NodeRecord(node, Record.Append(UNANCHORED));
    assert [a, b][1..] == [b] && [b][1..] == [];
    assert OwnRecords([b], node) == [b.record];
    assert OwnRecords([a, b], node) == [a.record, b.record];
    assert [a.record, b.record][1..] == [b.record] && !HasCheckpoint([b.record]);
    assert FromLastCheckpoint([a.record, b.record]) == [a.record, b.record];
    InitialState();
    FoldTwo(DEFAULT_STATE, a.record, b.record);
  }

  lemma InitialState()
    ensures IntoState(INITIAL_CHECKPOINT).Some? && ValidCheckpoint(INITIAL_CHECKPOINT)
    ensures ApplyRecord(DEFAULT_STATE, SnapshotCheckpoint(INITIAL_CHECKPOINT)) == IntoState(INITIAL_CHECKPOINT)
    ensures ApplyRecord(IntoState(INITIAL_CHECKPOINT).value, Record.Append(UNANCHORED)) == None
  {
    assert CommandIndexes(INITIAL_CHECKPOINT.suffix.entries) == {};
    CheckpointLoads(INITIAL_CHECKPOINT);
  }

  lemma UnanchoredEncodable(node: NodeId)
    ensures Encodable(NodeRecord(node, Record.Append(UNANCHORED)))
  {
    assert CommandIndexes(UNANCHORED.entries) == {};
  }

  /** A concrete instance: a new store, a node, an append whose anchor is not in the log, and a
      reader that lists the directory, waits for the record of a new checkpoint, and lists it again.
      It fails, although what it saw folds to a state. */
  lemma ReaderMissesCheckpoint(node: NodeId) returns (w: World)
    ensures Reachable(w) && w.engine.Some? && w.engine.value.Idle?
    ensures var r := ReadAcross(w, node, INITIAL_CHECKPOINT);
            && Reachable(RecordWritten(w, node, INITIAL_CHECKPOINT))
            && r.second == RecordWritten(w, node, INITIAL_CHECKPOINT).at
            && ReadsThrough(r) && IsActive(r.first.disk.registry, node)
            && LoadOf(r, node) == None && Naive(Flat(SeenRecords(r)), node).Some?
  {
    hide Reachable, PlanOf, Flat, Naive, IntoState, LoadOf, ReadsThrough, SeenRecords, RecordWritten, Encodable, SegmentsFit,
         DiskInv, MemoryFits, RunSteps, StepsOk, Durable, ReadAcross;
    var start := NewNode(node);
    var record := Record.Append(UNANCHORED);
    UnanchoredFails(node);
    var m := start.engine.value.memory;
    SaveSucceeds(start.at.disk, m, node, record);
    ReachInv(start);
    PlanOk(start.at, m, SaveRecord(node, record));
    w := Done(start, SaveRecord(node, record));
    ReachDone(start, SaveRecord(node, record));
    InitialState();
    InitialEncodable(node);
    SnapshotSucceeds(w.at.disk, w.engine.value.memory, node, INITIAL_CHECKPOINT);
    TwoRecords(NodeRecord(node, SnapshotCheckpoint(INITIAL_CHECKPOINT)), NodeRecord(node, record));
    ReaderStaysBehind(w, node, INITIAL_CHECKPOINT);
  }

  lemma TwoRecords(a: NodeRecord, b: NodeRecord)
    ensures [a] + [b] == [a, b]
  {
  }
}
