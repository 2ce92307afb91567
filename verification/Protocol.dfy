/** Each storage operation as its list of durable sub-steps, in the order the
    engine takes them, and the proof that every step of every operation is taken
    where it is allowed and leaves memory and directory in step at the end. */
module Protocol {
  import opened Words
  import opened Records
  import opened Sorted
  import opened Codec
  import opened Replay
  import opened ReplayProofs
  import opened Disks
  import opened DurableSteps

  /** What the engine holds in memory. */
  datatype Memory = Memory(
    registry: Registry,
    index: Checkpoints,
    active: SegmentId,
    segmentLen: nat,
    maxSegmentLen: nat,
    unsyncedRecords: nat,
    unsyncedBytes: nat)

  datatype Operation =
    | CreateNode(node: NodeId)
    | SaveRecord(node: NodeId, record: Record)
    | SaveSnapshot(node: NodeId, checkpoint: Checkpoint)
    | RemoveNode(node: NodeId)
    | Sync

  /** The steps of an operation, the memory it leaves, and whether it succeeds. */
  datatype Plan = Plan(ok: bool, steps: seq<Micro>, memory: Memory)

  function SaturatingAdd(a: nat, b: nat): nat {
    Min(a + b, U64_LIMIT - 1)
  }

  function Unsynced(m: Memory): bool {
    m.unsyncedRecords != 0 || m.unsyncedBytes != 0
  }

  function Synced(m: Memory): Memory {
    m.(unsyncedRecords := 0, unsyncedBytes := 0)
  }

  // ---- plans ------------------------------------------------------------------------------

  predicate ShouldRotate(m: Memory, writtenBytes: nat) {
    if m.segmentLen <= SEGMENT_HEADER_LEN then false
    else U64_LIMIT <= m.segmentLen + writtenBytes || m.maxSegmentLen < m.segmentLen + writtenBytes
  }

  function RotatePlan(m: Memory): Plan {
    if m.active + 1 == U64_LIMIT then Plan(false, [SyncData(m.active)], Synced(m))
    else
      Plan(true, [SyncData(m.active), CreateSegment(m.active + 1), WriteHeader(m.active + 1)],
           Synced(m).(active := m.active + 1, segmentLen := SEGMENT_HEADER_LEN))
  }

  function WroteFrame(m: Memory, len: nat): Memory {
    m.(segmentLen := m.segmentLen + len,
       unsyncedRecords := SaturatingAdd(m.unsyncedRecords, 1),
       unsyncedBytes := SaturatingAdd(m.unsyncedBytes, len))
  }

  ghost function AppendPlan(m: Memory, r: NodeRecord): Plan {
    if !Encodable(r) then Plan(false, [], m)
    else
      var len := |Encoding.Frame(r)|;
      var rotation := if ShouldRotate(m, len) then RotatePlan(m) else Plan(true, [], m);
      if !rotation.ok then rotation
      else
        Plan(true, rotation.steps + [WriteFrame(rotation.memory.active, r)], WroteFrame(rotation.memory, len))
  }

  /** Where an append puts its record. */
  ghost function AppendPosition(m: Memory, r: NodeRecord): RecordPosition
    requires Encodable(r)
  {
    var len := |Encoding.Frame(r)|;
    if ShouldRotate(m, len) && m.active + 1 < U64_LIMIT then RecordPosition(m.active + 1, SEGMENT_HEADER_LEN)
    else RecordPosition(m.active, m.segmentLen)
  }

  function SyncPlan(m: Memory): Plan {
    if Unsynced(m) then Plan(true, [SyncData(m.active)], Synced(m)) else Plan(true, [], m)
  }

  /** One plan after another; the second only if the first succeeds. */
  ghost function Then(a: Plan, next: Memory -> Plan): Plan {
    if !a.ok then a else var b := next(a.memory); Plan(b.ok, a.steps + b.steps, b.memory)
  }

  datatype Barrier = AllInactive | BeforeSegment(segment: SegmentId)

  ghost predicate LeastCheckpointSegment(index: Checkpoints, nodes: set<NodeId>, s: SegmentId)
    requires nodes <= index.Keys
  {
    (exists n :: n in nodes && index[n].segment == s) && forall n :: n in nodes ==> s <= index[n].segment
  }

  /** `gc_barrier`: none if an active node has no checkpoint. */
  ghost predicate IsBarrier(index: Checkpoints, nodes: set<NodeId>, b: Option<Barrier>) {
    match b
    case None => !(nodes <= index.Keys)
    case Some(AllInactive) => nodes == {}
    case Some(BeforeSegment(s)) => nodes != {} && nodes <= index.Keys && LeastCheckpointSegment(index, nodes, s)
  }

  predicate AllowsDelete(b: Barrier, s: SegmentId) {
    match b
    case AllInactive => true
    case BeforeSegment(checkpointSegment) => s < checkpointSegment
  }

  /** What the barrier amounts to: every active node has a checkpoint and none of them is
      in the segment or before it. */
  ghost predicate Collectable(m: Memory, id: SegmentId) {
    forall n :: IsActive(m.registry, n) ==> n in m.index && id < m.index[n].segment
  }

  /** Deleting, in order, every listed segment that is not active and that the barrier allows. */
  ghost function DeleteSteps(m: Memory, ids: seq<SegmentId>): seq<Micro> {
    if ids == [] then []
    else
      (if ids[0] != m.active && Collectable(m, ids[0]) then [DeleteSegment(ids[0])] else []) + DeleteSteps(m, ids[1..])
  }

  /** The segment files after a list of steps. */
  ghost function DiskAfter(d: Disk, steps: seq<Micro>): Disk
    decreases |steps|
  {
    if steps == [] then d else DiskAfter(ApplyMicro(d, steps[0]), steps[1..])
  }

  ghost function CollectPlan(d: Disk, m: Memory): Plan {
    Plan(true, DeleteSteps(m, Ascending(d.segs.Keys)), m)
  }

  ghost function CreatePlan(m: Memory, node: NodeId): Plan {
    if node in m.registry then Plan(false, [], m)
    else
      var r := NodeRecord(node, SnapshotCheckpoint(INITIAL_CHECKPOINT));
      var a := Then(AppendPlan(m, r), SyncPlan);
      if !a.ok then a
      else
        var index := m.index[node := AppendPosition(m, r)];
        var registry := m.registry[node := false];
        Plan(true, a.steps + [SaveIndex(index), SaveRegistry(registry)],
            a.memory.(index := index, registry := registry))
  }

  /** The part of `save_snapshot` before garbage collection. */
  ghost function SnapshotPlan(m: Memory, node: NodeId, c: Checkpoint): Plan {
    if !IsActive(m.registry, node) || !ValidCheckpoint(c) then Plan(false, [], m)
    else
      var r := NodeRecord(node, SnapshotCheckpoint(c));
      var a := Then(AppendPlan(m, r), SyncPlan);
      if !a.ok then a
      else
        var index := m.index[node := AppendPosition(m, r)];
        Plan(true, a.steps + [SaveIndex(index)], a.memory.(index := index))
  }

  /** The part of `remove_node` before garbage collection. */
  ghost function RemovePlan(m: Memory, node: NodeId): Plan {
    if !IsActive(m.registry, node) then Plan(false, [], m)
    else
      var registry, index := m.registry[node := true], m.index - {node};
      Plan(true, [SaveRegistry(registry), SaveIndex(index)], m.(registry := registry, index := index))
  }

  ghost function PlanOf(d: Disk, m: Memory, op: Operation): Plan {
    match op
    case CreateNode(node) => CreatePlan(m, node)
    case SaveRecord(node, record) =>
      if IsActive(m.registry, node) then AppendPlan(m, NodeRecord(node, record)) else Plan(false, [], m)
    case SaveSnapshot(node, c) =>
      var p := SnapshotPlan(m, node, c);
      Then(p, mem => CollectPlan(DiskAfter(d, p.steps), mem))
    case RemoveNode(node) =>
      var p := RemovePlan(m, node);
      Then(p, mem => CollectPlan(DiskAfter(d, p.steps), mem))
    case Sync => SyncPlan(m)
  }

  // ---- running steps -----------------------------------------------------------------------

  /** A directory, its history, and how much of the history this engine instance has seen
      through its own last write. */
  datatype Point = Point(disk: Disk, hist: History, own: nat)

  ghost function NextPoint(p: Point, m: Micro): Point {
    var hist := ApplyHistory(p.hist, m);
    Point(ApplyMicro(p.disk, m), hist, if m.WriteFrame? then |Flat(hist)| else p.own)
  }

  ghost function RunSteps(p: Point, steps: seq<Micro>): Point
    decreases |steps|
  {
    if steps == [] then p else RunSteps(NextPoint(p, steps[0]), steps[1..])
  }

  ghost predicate StepsOk(p: Point, steps: seq<Micro>)
    decreases |steps|
  {
    steps != [] ==> MicroOk(p.disk, p.hist, steps[0]) && StepsOk(NextPoint(p, steps[0]), steps[1..])
  }

  lemma {:induction false} RunConcat(p: Point, a: seq<Micro>, b: seq<Micro>)
    ensures RunSteps(p, a + b) == RunSteps(RunSteps(p, a), b)
    ensures StepsOk(p, a) && StepsOk(RunSteps(p, a), b) ==> StepsOk(p, a + b)
    decreases |a|
  {
    hide MicroOk, NextPoint;
    if a == [] {
      assert a + b == b;
    } else {
      assert (a + b)[1..] == a[1..] + b;
      RunConcat(NextPoint(p, a[0]), a[1..], b);
    }
  }

  lemma {:induction false} RunDisk(p: Point, steps: seq<Micro>)
    ensures RunSteps(p, steps).disk == DiskAfter(p.disk, steps)
    decreases |steps|
  {
    hide ApplyMicro, ApplyHistory;
    if steps != [] {
      RunDisk(NextPoint(p, steps[0]), steps[1..]);
    }
  }

  lemma {:induction false} StepsKeep(p: Point, steps: seq<Micro>)
    requires DiskInv(p.disk, p.hist) && StepsOk(p, steps)
    ensures DiskInv(RunSteps(p, steps).disk, RunSteps(p, steps).hist)
    decreases |steps|
  {
    hide MicroOk, DiskInv, ApplyMicro, ApplyHistory, Survives;
    if steps != [] {
      StepKeeps(p.disk, p.hist, steps[0]);
      SurvivesInv(p.disk, p.hist, ApplyMicro(p.disk, steps[0]), ApplyHistory(p.hist, steps[0]));
      StepsKeep(NextPoint(p, steps[0]), steps[1..]);
    }
  }

  lemma SurvivesInv(d: Disk, hist: History, d': Disk, hist': History)
    requires Survives(d, hist, d', hist')
    ensures DiskInv(d', hist') && SegmentsFit(d, hist)
  {
    hide SegmentsFit, IndexFits, Durable;
  }

  // ---- memory in step with the directory --------------------------------------------------------

  /** The writer stands at the end of the last file, which holds complete records only. */
  ghost predicate WriterFits(p: Point, m: Memory) {
    && SegmentsFit(p.disk, p.hist)
    && p.hist != [] && m.active == Last(p.hist)
    && Settled(p.disk, p.hist) && m.segmentLen == |p.disk.segs[m.active].bytes|
  }

  /** Registry and index are those on disk; entries of nodes that are not active do not count. */
  predicate MetadataFits(d: Disk, m: Memory) {
    && m.registry == d.registry
    && (forall n :: n in m.index ==> IsActive(m.registry, n))
    && (forall n :: IsActive(m.registry, n) ==> n in m.index && n in d.index && m.index[n] == d.index[n])
    && 0 < m.maxSegmentLen < U64_LIMIT
  }

  /** With nothing counted as unsynced, everything this instance wrote is durable. */
  ghost predicate OwnFits(p: Point, m: Memory)
    requires SegmentsFit(p.disk, p.hist)
  {
    && p.own <= |Flat(p.hist)|
    && (m.unsyncedRecords == 0 ==> Durable(p.disk, p.hist, p.own))
  }

  /** Memory agrees with the directory. */
  ghost predicate MemoryFits(p: Point, m: Memory) {
    WriterFits(p, m) && MetadataFits(p.disk, m) && OwnFits(p, m)
  }

  /** The record at a position of the history. */
  ghost predicate RecordAt(hist: History, r: NodeRecord, at: RecordPosition, k: nat)
    requires HistoryOk(hist)
  {
    at.segment < |hist| && k < |hist[at.segment]| && hist[at.segment][k] == r &&
        at.offset == OffsetOf(hist[at.segment], k)
  }

  lemma OneStep(p: Point, m: Micro)
    ensures RunSteps(p, [m]) == NextPoint(p, m)
    ensures StepsOk(p, [m]) <==> MicroOk(p.disk, p.hist, m)
  {
    hide MicroOk, NextPoint;
    assert [m][1..] == [];
  }

  lemma FitsParts(p: Point, m: Memory)
    requires WriterFits(p, m)
    ensures SegmentsFit(p.disk, p.hist) && p.hist != [] && m.active == Last(p.hist) && Settled(p.disk, p.hist)
    ensures m.active in p.disk.segs && AllEncodable(p.hist[m.active])
    ensures p.disk.segs[m.active].bytes == FileOf(p.hist[m.active])
    ensures m.segmentLen == |p.disk.segs[m.active].bytes|
  {
    hide FileOf, Holds, Encodable;
  }

  lemma OffsetBound(rs: seq<NodeRecord>, j: nat)
    requires AllEncodable(rs) && j <= |rs|
    ensures OffsetOf(rs, j) <= |FileOf(rs)|
  {
    hide Encodable, Layout;
    FilePrefix(rs, j);
  }

  /** Once everything is synced, everything is durable. */
  lemma AllDurable(d: Disk, hist: History, c: nat)
    requires SegmentsFit(d, hist) && Settled(d, hist) && c <= |Flat(hist)|
    requires Last(hist) in d.segs && d.segs[Last(hist)].durable == |d.segs[Last(hist)].bytes|
    ensures Durable(d, hist, c)
  {
    hide SegmentsFit, Flat, FileOf, OffsetOf, Encodable;
    FlatOfLast(hist);
    LastEncodable(d, hist);
    var base, rs := |Flat(hist[..Last(hist)])|, hist[Last(hist)];
    if c > base {
      OffsetBound(rs, c - base);
    }
  }

  lemma SyncStepOk(p: Point, m: Memory)
    requires MemoryFits(p, m)
    ensures MicroOk(p.disk, p.hist, SyncData(m.active))
    ensures MemoryFits(NextPoint(p, SyncData(m.active)), Synced(m))
    ensures var q := NextPoint(p, SyncData(m.active));
            && q.hist == p.hist && q.own == p.own
            && q.disk == p.disk.(segs := q.disk.segs) && q.disk.segs.Keys == p.disk.segs.Keys
            && m.active in q.disk.segs && q.disk.segs[m.active].durable == |q.disk.segs[m.active].bytes|
  {
    hide SegmentsFit, FileOf, Flat, Durable, MicroOk, WriterFits, Settled, Encodable;
    FitsParts(p, m);
    var q := NextPoint(p, SyncData(m.active));
    SyncAllowed(p.disk, p.hist, m.active);
    StepFits(p.disk, p.hist, SyncData(m.active));
    SyncWriter(p, m);
    SettledIs(q.disk, q.hist, Synced(m), q.own);
    AllDurable(q.disk, q.hist, q.own);
  }

  lemma SyncAllowed(d: Disk, hist: History, id: SegmentId)
    requires SegmentsFit(d, hist) && hist != [] && id == Last(hist)
    ensures MicroOk(d, hist, SyncData(id))
  {
    hide SegmentsFit;
  }

  lemma SettledIs(d: Disk, hist: History, m: Memory, own: nat)
    requires WriterFits(Point(d, hist, own), m)
    ensures SegmentsFit(d, hist) && Settled(d, hist) && m.active == Last(hist)
  {
  }

  lemma SyncWriter(p: Point, m: Memory)
    requires WriterFits(p, m) && SegmentsFit(NextPoint(p, SyncData(m.active)).disk, p.hist)
    ensures WriterFits(NextPoint(p, SyncData(m.active)), Synced(m))
  {
    FitsParts(p, m);
    hide SegmentsFit, FileOf, Flat;
  }

  lemma RotateOk(p: Point, m: Memory)
    requires MemoryFits(p, m)
    ensures var pl, q := RotatePlan(m), RunSteps(p, RotatePlan(m).steps);
            && StepsOk(p, pl.steps) && MemoryFits(q, pl.memory)
            && Flat(q.hist) == Flat(p.hist) && q.own == p.own
            && q.disk == p.disk.(segs := q.disk.segs) && p.disk.segs.Keys <= q.disk.segs.Keys
            && (pl.ok ==> q.hist == p.hist + [[]])
  {
    hide MicroOk, MemoryFits;
    SyncStepOk(p, m);
    var p1 := NextPoint(p, SyncData(m.active));
    OneStep(p, SyncData(m.active));
    if m.active + 1 < U64_LIMIT {
      NewSegmentOk(p1, Synced(m));
      var create, header := CreateSegment(m.active + 1), WriteHeader(m.active + 1);
      assert [SyncData(m.active), create, header][1..] == [create, header];
      assert [create, header][1..] == [header];
      OneStep(NextPoint(p1, create), header);
    }
  }

  /** A segment just created behind a synced one. */
  lemma CreateStepOk(p: Point, m: Memory)
    requires WriterFits(p, m) && m.active + 1 < U64_LIMIT
    requires m.active in p.disk.segs && p.disk.segs[m.active].durable == |p.disk.segs[m.active].bytes|
    ensures var create := CreateSegment(m.active + 1);
            var q := NextPoint(p, create);
            && MicroOk(p.disk, p.hist, create) && MicroOk(q.disk, q.hist, WriteHeader(m.active + 1))
            && q.hist == p.hist + [[]] && q.own == p.own
            && q.disk == p.disk.(segs := p.disk.segs[m.active + 1 := SegmentFile([], 0)])
  {
    FitsParts(p, m);
    var create := CreateSegment(m.active + 1);
    CreateFits(p.disk, p.hist, create);
  }

  lemma HeaderStepOk(p: Point, id: SegmentId)
    requires MicroOk(p.disk, p.hist, WriteHeader(id))
    ensures var q := NextPoint(p, WriteHeader(id));
            && q.hist == p.hist && q.own == p.own && p.hist != [] && id == Last(p.hist) && p.hist[id] == []
            && q.disk == p.disk.(segs := p.disk.segs[id := p.disk.segs[id].(bytes := SEGMENT_MAGIC)])
            && SegmentsFit(q.disk, q.hist) && Settled(q.disk, q.hist)
  {
    StepFits(p.disk, p.hist, WriteHeader(id));
    LastBound(p.disk, p.hist);
    HeldLength(p.disk.segs[id].bytes, p.hist[id]);
    EmptyFileHolds();
    assert [] + SEGMENT_MAGIC == SEGMENT_MAGIC;
    hide SegmentsFit, FileOf, Holds;
  }

  /** Opening a new segment behind a synced one. */
  lemma NewSegmentOk(p: Point, m: Memory)
    requires MemoryFits(p, m) && m.active + 1 < U64_LIMIT
    requires m.active in p.disk.segs && p.disk.segs[m.active].durable == |p.disk.segs[m.active].bytes|
    ensures var create, header := CreateSegment(m.active + 1), WriteHeader(m.active + 1);
            var p1 := NextPoint(p, create);
            var p2 := NextPoint(p1, header);
            && MicroOk(p.disk, p.hist, create) && MicroOk(p1.disk, p1.hist, header)
            && MemoryFits(p2, m.(active := m.active + 1, segmentLen := SEGMENT_HEADER_LEN))
            && p2.hist == p.hist + [[]] && Flat(p2.hist) == Flat(p.hist) && p2.own == p.own
            && p2.disk == p.disk.(segs := p2.disk.segs) && p.disk.segs.Keys <= p2.disk.segs.Keys
  {
    hide SegmentsFit, FileOf, Flat, Durable, MicroOk, Settled, ApplyMicro, Encodable;
    CreateStepOk(p, m);
    var p1 := NextPoint(p, CreateSegment(m.active + 1));
    HeaderStepOk(p1, m.active + 1);
    var p2 := NextPoint(p1, WriteHeader(m.active + 1));
    StepHistory(p.hist, CreateSegment(m.active + 1));
    assert Flat(p.hist) + [] == Flat(p.hist);
    assert p2.hist[..Last(p2.hist)] == p.hist;
    BaseDurable(p2.disk, p2.hist, p2.own);
  }

  lemma BaseDurable(d: Disk, hist: History, c: nat)
    requires SegmentsFit(d, hist) && hist != [] && c <= |Flat(hist[..Last(hist)])|
    ensures Durable(d, hist, c)
  {
  }

  lemma WriteAllowed(p: Point, m: Memory, r: NodeRecord)
    requires WriterFits(p, m) && Encodable(r)
    ensures MicroOk(p.disk, p.hist, WriteFrame(m.active, r))
  {
    hide SegmentsFit, Settled, Encodable;
  }

  lemma WrittenWriter(p: Point, m: Memory, r: NodeRecord)
    requires WriterFits(p, m) && Encodable(r)
    requires SegmentsFit(NextPoint(p, WriteFrame(m.active, r)).disk, NextPoint(p, WriteFrame(m.active, r)).hist)
    ensures var q := NextPoint(p, WriteFrame(m.active, r));
            && WriterFits(q, WroteFrame(m, |Encoding.Frame(r)|))
            && q.disk == p.disk.(segs := q.disk.segs) && q.disk.segs.Keys == p.disk.segs.Keys
            && q.hist == p.hist[m.active := p.hist[m.active] + [r]]
  {
    hide SegmentsFit, FileOf, Flat, Encodable, Encoding.Frame, WriterFits;
    FitsParts(p, m);
    FileAppend(p.hist[m.active], r);
    var q := NextPoint(p, WriteFrame(m.active, r));
    EndOfFile(q, WroteFrame(m, |Encoding.Frame(r)|));
  }

  lemma EndOfFile(p: Point, m: Memory)
    requires SegmentsFit(p.disk, p.hist) && p.hist != [] && m.active == Last(p.hist) && m.active in p.disk.segs
    requires AllEncodable(p.hist[m.active]) && p.disk.segs[m.active].bytes == FileOf(p.hist[m.active])
    requires m.segmentLen == |p.disk.segs[m.active].bytes|
    ensures WriterFits(p, m)
  {
    hide SegmentsFit, FileOf;
  }

  /** Writing one frame behind the records already there. */
  lemma WriteStepOk(p: Point, m: Memory, r: NodeRecord)
    requires WriterFits(p, m) && Encodable(r)
    ensures var q := NextPoint(p, WriteFrame(m.active, r));
            && MicroOk(p.disk, p.hist, WriteFrame(m.active, r))
            && WriterFits(q, WroteFrame(m, |Encoding.Frame(r)|))
            && Flat(q.hist) == Flat(p.hist) + [r] && q.own == |Flat(q.hist)|
            && q.disk == p.disk.(segs := q.disk.segs) && q.disk.segs.Keys == p.disk.segs.Keys
            && q.hist == p.hist[m.active := p.hist[m.active] + [r]]
  {
    hide SegmentsFit, FileOf, Flat, Encodable, Encoding.Frame, MicroOk, WriterFits, ApplyMicro, ApplyHistory;
    var step := WriteFrame(m.active, r);
    WriteAllowed(p, m, r);
    WriterHistory(p, m);
    StepFits(p.disk, p.hist, step);
    StepHistory(p.hist, step);
    WrittenWriter(p, m, r);
  }

  lemma WriterHistory(p: Point, m: Memory)
    requires WriterFits(p, m)
    ensures p.hist != [] && m.active == Last(p.hist)
  {
    hide SegmentsFit, Settled;
  }

  lemma WriteOk(p: Point, m: Memory, r: NodeRecord)
    requires MemoryFits(p, m) && Encodable(r)
    ensures var q := NextPoint(p, WriteFrame(m.active, r));
            && MicroOk(p.disk, p.hist, WriteFrame(m.active, r))
            && MemoryFits(q, WroteFrame(m, |Encoding.Frame(r)|))
            && Flat(q.hist) == Flat(p.hist) + [r] && q.own == |Flat(q.hist)|
            && q.disk == p.disk.(segs := q.disk.segs) && q.disk.segs.Keys == p.disk.segs.Keys
            && HistoryOk(q.hist) && q.hist != [] && m.active == Last(q.hist) && q.hist[Last(q.hist)] != []
            && RecordAt(q.hist, r, RecordPosition(m.active, m.segmentLen), |q.hist[Last(q.hist)]| - 1)
  {
    hide SegmentsFit, FileOf, Flat, Durable, Encodable, Encoding.Frame, NextPoint, WriterFits, MicroOk, Settled;
    FitsParts(p, m);
    WriteStepOk(p, m, r);
    var q := NextPoint(p, WriteFrame(m.active, r));
    SettledIs(q.disk, q.hist, WroteFrame(m, |Encoding.Frame(r)|), q.own);
    HistoryIsOk(q.disk, q.hist);
    var rs := p.hist[m.active];
    assert (rs + [r])[..|rs|] == rs;
  }

  lemma HistoryIsOk(d: Disk, hist: History)
    requires SegmentsFit(d, hist)
    ensures HistoryOk(hist)
  {
  }

  /** What an operation's steps promise. */
  ghost predicate PlanFits(p: Point, pl: Plan) {
    StepsOk(p, pl.steps) && MemoryFits(RunSteps(p, pl.steps), pl.memory)
  }

  lemma NoSteps(p: Point, m: Memory, ok: bool)
    requires MemoryFits(p, m)
    ensures PlanFits(p, Plan(ok, [], m)) && RunSteps(p, []) == p
  {
  }

  /** Appending: every step allowed, the record at the end of the history, at the position returned. */
  lemma AppendOk(p: Point, m: Memory, r: NodeRecord)
    requires MemoryFits(p, m)
    ensures PlanFits(p, AppendPlan(m, r))
    ensures var pl, q := AppendPlan(m, r), RunSteps(p, AppendPlan(m, r).steps);
            && q.disk == p.disk.(segs := q.disk.segs) && p.disk.segs.Keys <= q.disk.segs.Keys
            && (pl.ok <==> Encodable(r) && (ShouldRotate(m, |Encoding.Frame(r)|) ==> m.active + 1 < U64_LIMIT))
            && (!pl.ok ==> Flat(q.hist) == Flat(p.hist) && q.own == p.own)
            && (pl.ok ==>
                  && Flat(q.hist) == Flat(p.hist) + [r] && q.own == |Flat(q.hist)|
                  && HistoryOk(q.hist) && q.hist != [] && AppendPosition(m, r).segment == Last(q.hist)
                  && q.hist[Last(q.hist)] != []
                  && RecordAt(q.hist, r, AppendPosition(m, r), |q.hist[Last(q.hist)]| - 1))
  {
    hide MicroOk, MemoryFits, Encodable, Encoding.Frame, StepsOk, RunSteps, Flat, RecordAt;
    if !Encodable(r) {
      NoSteps(p, m, false);
    } else {
      var len := |Encoding.Frame(r)|;
      var rotation := if ShouldRotate(m, len) then RotatePlan(m) else Plan(true, [], m);
      NoSteps(p, m, true);
      if ShouldRotate(m, len) {
        RotateOk(p, m);
      }
      if rotation.ok {
        var p1 := RunSteps(p, rotation.steps);
        var write := WriteFrame(rotation.memory.active, r);
        WriteOk(p1, rotation.memory, r);
        OneStep(p1, write);
        RunConcat(p, rotation.steps, [write]);
      }
    }
  }

  lemma RecordsDurable(p: Point, m: Memory)
    requires MemoryFits(p, m) && m.unsyncedRecords == 0
    ensures SegmentsFit(p.disk, p.hist) && Durable(p.disk, p.hist, p.own)
  {
    hide Durable, MetadataFits, Settled, Flat, FileOf;
  }

  /** Syncing: afterwards everything this instance wrote is durable. */
  lemma SyncPlanOk(p: Point, m: Memory)
    requires MemoryFits(p, m)
    ensures PlanFits(p, SyncPlan(m)) && SyncPlan(m).ok
    ensures var q := RunSteps(p, SyncPlan(m).steps);
            && q.hist == p.hist && q.own == p.own
            && q.disk == p.disk.(segs := q.disk.segs) && q.disk.segs.Keys == p.disk.segs.Keys
            && SegmentsFit(q.disk, q.hist) && Durable(q.disk, q.hist, q.own)
  {
    hide MemoryFits, SegmentsFit, Durable, MicroOk;
    NoSteps(p, m, true);
    if Unsynced(m) {
      SyncStepOk(p, m);
      OneStep(p, SyncData(m.active));
      RecordsDurable(NextPoint(p, SyncData(m.active)), Synced(m));
    } else {
      RecordsDurable(p, m);
    }
  }

  lemma {:induction false} ThenOk(p: Point, a: Plan, b: Plan)
    requires PlanFits(p, a) && a.ok && PlanFits(RunSteps(p, a.steps), b)
    ensures PlanFits(p, Plan(b.ok, a.steps + b.steps, b.memory))
    ensures RunSteps(p, a.steps + b.steps) == RunSteps(RunSteps(p, a.steps), b.steps)
  {
    hide MemoryFits, StepsOk, RunSteps;
    RunConcat(p, a.steps, b.steps);
  }

  /** A record at the end of a fully durable history is a durable checkpoint entry. */
  lemma EndEntry(d: Disk, hist: History, r: NodeRecord, at: RecordPosition, k: nat)
    requires SegmentsFit(d, hist) && hist != [] && HistoryOk(hist) && RecordAt(hist, r, at, k)
    requires at.segment == Last(hist) && k == |hist[Last(hist)]| - 1
    requires r.record.SnapshotCheckpoint? && Durable(d, hist, |Flat(hist)|)
    ensures PointsAt(d, hist, r.node, at, k)
  {
    hide Flat, FileOf, OffsetOf, Encodable, Holds;
    FlatOfLast(hist);
  }

  lemma AppendKeepsMetadata(m: Memory, r: NodeRecord)
    ensures AppendPlan(m, r).memory.registry == m.registry && AppendPlan(m, r).memory.index == m.index
    ensures SyncPlan(m).memory.registry == m.registry && SyncPlan(m).memory.index == m.index
  {
    hide Encodable, Encoding.Frame;
  }

  /** `append` and then `sync`, for a checkpoint. */
  lemma AppendSyncOk(p: Point, m: Memory, r: NodeRecord)
    requires MemoryFits(p, m) && r.record.SnapshotCheckpoint?
    ensures var pl := Then(AppendPlan(m, r), SyncPlan);
            var q := RunSteps(p, pl.steps);
            && PlanFits(p, pl)
            && q.disk == p.disk.(segs := q.disk.segs) && p.disk.segs.Keys <= q.disk.segs.Keys
            && SegmentsFit(q.disk, q.hist)
            && pl.ok == AppendPlan(m, r).ok
            && pl.memory.registry == m.registry && pl.memory.index == m.index
            && (!pl.ok ==> Flat(q.hist) == Flat(p.hist) && q.own == p.own)
            && (pl.ok ==>
                  && Encodable(r) && Flat(q.hist) == Flat(p.hist) + [r] && q.own == |Flat(q.hist)|
                  && Durable(q.disk, q.hist, q.own)
                  && exists k :: PointsAt(q.disk, q.hist, r.node, AppendPosition(m, r), k))
  {
    hide MemoryFits, SegmentsFit, Durable, MicroOk, Encodable, Encoding.Frame, StepsOk, RunSteps, Flat, RecordAt,
         PointsAt, AppendPosition;
    AppendOk(p, m, r);
    AppendKeepsMetadata(m, r);
    var a := AppendPlan(m, r);
    var q := RunSteps(p, a.steps);
    if a.ok {
      SyncPlanOk(q, a.memory);
      ThenOk(p, a, SyncPlan(a.memory));
      var s := RunSteps(q, SyncPlan(a.memory).steps);
      EndEntry(s.disk, s.hist, r, AppendPosition(m, r), |s.hist[Last(s.hist)]| - 1);
    } else {
      FitsShape(q, a.memory);
    }
  }

  lemma FitsShape(p: Point, m: Memory)
    requires MemoryFits(p, m)
    ensures WriterFits(p, m) && MetadataFits(p.disk, m) && SegmentsFit(p.disk, p.hist) && OwnFits(p, m)
  {
    hide SegmentsFit, Settled, Durable, Flat;
  }

  lemma SameSegments(d: Disk, d': Disk, hist: History)
    requires SegmentsFit(d, hist) && d'.segs == d.segs
    ensures SegmentsFit(d', hist)
    ensures forall n, p, k :: PointsAt(d, hist, n, p, k) ==> PointsAt(d', hist, n, p, k)
    ensures forall c: nat :: Durable(d, hist, c) ==> Durable(d', hist, c)
    ensures Settled(d, hist) ==> Settled(d', hist)
  {
    hide FileOf, Holds, Encodable, HistoryOk, Flat, OffsetOf;
  }

  /** Only the metadata changes: memory that fits still fits, given its new metadata. */
  lemma MetadataChange(p: Point, m: Memory, d': Disk, m': Memory)
    requires MemoryFits(p, m) && d'.segs == p.disk.segs
    requires m' == m.(registry := m'.registry, index := m'.index) && MetadataFits(d', m')
    ensures MemoryFits(Point(d', p.hist, p.own), m')
  {
    hide SegmentsFit, Settled, Durable, Flat, MetadataFits;
    FitsShape(p, m);
    SameSegments(p.disk, d', p.hist);
  }

  lemma IndexStep(p: Point, m: Memory, index: Checkpoints)
    requires MemoryFits(p, m) && SegmentsFit(p.disk, p.hist) && Covers(p.disk, p.hist, p.disk.registry, index)
    requires forall n :: n in index ==> IsActive(m.registry, n)
    requires forall n :: IsActive(m.registry, n) ==> n in index
    ensures PlanFits(p, Plan(true, [SaveIndex(index)], m.(index := index)))
    ensures RunSteps(p, [SaveIndex(index)]) == p.(disk := p.disk.(index := index))
  {
    hide SegmentsFit, Settled, Durable, Flat, PointsAt, Covers, MemoryFits;
    OneStep(p, SaveIndex(index));
    FitsShape(p, m);
    MetadataChange(p, m, p.disk.(index := index), m.(index := index));
  }

  lemma {:induction false} RegistryAndIndex(p: Point, m: Memory, first: Micro, second: Micro, m': Memory)
    requires MemoryFits(p, m)
    requires (first.SaveIndex? && second.SaveRegistry?) || (first.SaveRegistry? && second.SaveIndex?)
    requires MicroOk(p.disk, p.hist, first)
    requires MicroOk(ApplyMicro(p.disk, first), p.hist, second)
    requires m' == m.(registry := m'.registry, index := m'.index)
    requires MetadataFits(ApplyMicro(ApplyMicro(p.disk, first), second), m')
    ensures PlanFits(p, Plan(true, [first, second], m'))
    ensures RunSteps(p, [first, second]) == p.(disk := ApplyMicro(ApplyMicro(p.disk, first), second))
  {
    hide SegmentsFit, Settled, Durable, Flat, PointsAt, Covers, MemoryFits, MicroOk, MetadataFits;
    var p1 := NextPoint(p, first);
    assert [first, second][1..] == [second];
    OneStep(p1, second);
    MetadataChange(p, m, ApplyMicro(ApplyMicro(p.disk, first), second), m');
  }

  lemma IndexFitsIs(d: Disk, hist: History)
    requires DiskInv(d, hist)
    ensures SegmentsFit(d, hist) && Covers(d, hist, d.registry, d.index)
  {
    hide SegmentsFit, PointsAt;
  }

  /** `create_node`. */
  lemma CreateOk(p: Point, m: Memory, node: NodeId)
    requires MemoryFits(p, m) && DiskInv(p.disk, p.hist)
    ensures var pl := CreatePlan(m, node);
            var q := RunSteps(p, pl.steps);
            && PlanFits(p, pl) && SegmentsFit(q.disk, q.hist)
            && (pl.ok ==> node !in m.registry)
            && (!pl.ok ==> Flat(q.hist) == Flat(p.hist) && q.own == p.own)
            && (pl.ok ==>
                  && Flat(q.hist) == Flat(p.hist) + [NodeRecord(node, SnapshotCheckpoint(INITIAL_CHECKPOINT))]
                  && q.own == |Flat(q.hist)| && Durable(q.disk, q.hist, q.own))
  {
    hide SegmentsFit, Durable, Encodable, Flat, PointsAt, MemoryFits, StepsOk, RunSteps, AppendPlan, AppendPosition,
         MicroOk, DiskInv, MetadataFits, ApplyMicro;
    FitsShape(p, m);
    if node in m.registry {
      NoSteps(p, m, false);
    } else {
      var r := NodeRecord(node, SnapshotCheckpoint(INITIAL_CHECKPOINT));
      var a := Then(AppendPlan(m, r), SyncPlan);
      AppendSyncOk(p, m, r);
      if a.ok {
        var q := RunSteps(p, a.steps);
        StepsKeep(p, a.steps);
        var index := m.index[node := AppendPosition(m, r)];
        var registry := m.registry[node := false];
        var m' := a.memory.(index := index, registry := registry);
        CreateMetadata(p, m, q, a.memory, node, AppendPosition(m, r));
        RegistryAndIndex(q, a.memory, SaveIndex(index), SaveRegistry(registry), m');
        ThenOk(p, a, Plan(true, [SaveIndex(index), SaveRegistry(registry)], m'));
        MetadataOnly(q, SaveIndex(index), SaveRegistry(registry));
      }
    }
  }

  lemma MetadataOnly(p: Point, first: Micro, second: Micro)
    requires (first.SaveIndex? && second.SaveRegistry?) || (first.SaveRegistry? && second.SaveIndex?)
    requires SegmentsFit(p.disk, p.hist)
    ensures var d := ApplyMicro(ApplyMicro(p.disk, first), second);
            && SegmentsFit(d, p.hist)
            && forall c: nat :: Durable(p.disk, p.hist, c) ==> Durable(d, p.hist, c)
  {
    hide SegmentsFit, Durable;
    SameSegments(p.disk, ApplyMicro(ApplyMicro(p.disk, first), second), p.hist);
  }

  /** The metadata steps of `create_node` are allowed and leave matching metadata. */
  lemma CreateMetadata(p: Point, m: Memory, q: Point, mem: Memory, node: NodeId, at: RecordPosition)
    requires MemoryFits(p, m) && MemoryFits(q, mem) && DiskInv(q.disk, q.hist) && node !in m.registry
    requires mem.registry == m.registry && mem.index == m.index
    requires SegmentsFit(q.disk, q.hist) && exists k :: PointsAt(q.disk, q.hist, node, at, k)
    ensures var index, registry := m.index[node := at], m.registry[node := false];
            var d1 := ApplyMicro(q.disk, SaveIndex(index));
            && MicroOk(q.disk, q.hist, SaveIndex(index))
            && MicroOk(d1, q.hist, SaveRegistry(registry))
            && MetadataFits(ApplyMicro(d1, SaveRegistry(registry)), mem.(index := index, registry := registry))
  {
    hide SegmentsFit, Durable, Flat, PointsAt, MemoryFits, DiskInv;
    FitsShape(p, m);
    FitsShape(q, mem);
    IndexFitsIs(q.disk, q.hist);
    var index, registry := m.index[node := at], m.registry[node := false];
    IndexWithEntry(q, mem, node, at);
    var d1 := q.disk.(index := index);
    SameSegments(q.disk, d1, q.hist);
    forall n | IsActive(registry, n) ensures n in d1.index && exists k :: PointsAt(d1, q.hist, n, d1.index[n], k) {
      assert n == node || IsActive(m.registry, n);
      var k :| PointsAt(q.disk, q.hist, n, index[n], k);
      assert PointsAt(d1, q.hist, n, index[n], k);
    }
  }

  /** The index with one more good entry still covers every active node. */
  lemma IndexWithEntry(q: Point, mem: Memory, node: NodeId, at: RecordPosition)
    requires SegmentsFit(q.disk, q.hist) && MetadataFits(q.disk, mem)
    requires Covers(q.disk, q.hist, q.disk.registry, q.disk.index)
    requires exists k :: PointsAt(q.disk, q.hist, node, at, k)
    ensures Covers(q.disk, q.hist, q.disk.registry, mem.index[node := at])
  {
    hide SegmentsFit, PointsAt;
    var index := mem.index[node := at];
    forall n | IsActive(q.disk.registry, n)
      ensures n in index && exists k :: PointsAt(q.disk, q.hist, n, index[n], k)
    {
      if n != node {
        assert mem.index[n] == q.disk.index[n];
      }
    }
  }

  /** The rest of `save_snapshot` up to garbage collection. */
  lemma SnapshotOk(p: Point, m: Memory, node: NodeId, c: Checkpoint)
    requires MemoryFits(p, m) && DiskInv(p.disk, p.hist)
    ensures var pl := SnapshotPlan(m, node, c);
            var q := RunSteps(p, pl.steps);
            && PlanFits(p, pl) && SegmentsFit(q.disk, q.hist)
            && (!pl.ok ==> Flat(q.hist) == Flat(p.hist) && q.own == p.own)
            && (pl.ok ==>
                  && Flat(q.hist) == Flat(p.hist) + [NodeRecord(node, SnapshotCheckpoint(c))]
                  && q.own == |Flat(q.hist)| && Durable(q.disk, q.hist, q.own))
  {
    hide SegmentsFit, Durable, Encodable, Flat, PointsAt, MemoryFits, StepsOk, RunSteps, AppendPlan, AppendPosition,
         MicroOk, DiskInv, MetadataFits, ApplyMicro, ValidCheckpoint;
    FitsShape(p, m);
    if !IsActive(m.registry, node) || !ValidCheckpoint(c) {
      NoSteps(p, m, false);
    } else {
      var r := NodeRecord(node, SnapshotCheckpoint(c));
      var a := Then(AppendPlan(m, r), SyncPlan);
      AppendSyncOk(p, m, r);
      if a.ok {
        var q := RunSteps(p, a.steps);
        StepsKeep(p, a.steps);
        var index := m.index[node := AppendPosition(m, r)];
        SnapshotMetadata(p, m, q, a.memory, node, AppendPosition(m, r));
        IndexStep(q, a.memory, index);
        ThenOk(p, a, Plan(true, [SaveIndex(index)], a.memory.(index := index)));
        SameSegments(q.disk, q.disk.(index := index), q.hist);
      }
    }
  }

  lemma SnapshotMetadata(p: Point, m: Memory, q: Point, mem: Memory, node: NodeId, at: RecordPosition)
    requires MemoryFits(p, m) && MemoryFits(q, mem) && DiskInv(q.disk, q.hist) && IsActive(m.registry, node)
    requires mem.registry == m.registry && mem.index == m.index
    requires SegmentsFit(q.disk, q.hist) && exists k :: PointsAt(q.disk, q.hist, node, at, k)
    ensures var index := m.index[node := at];
            && Covers(q.disk, q.hist, q.disk.registry, index)
            && (forall n :: n in index ==> IsActive(mem.registry, n))
            && (forall n :: IsActive(mem.registry, n) ==> n in index)
  {
    hide SegmentsFit, Durable, Flat, PointsAt, MemoryFits, DiskInv;
    FitsShape(q, mem);
    IndexFitsIs(q.disk, q.hist);
    IndexWithEntry(q, mem, node, at);
  }

  /** The rest of `remove_node` up to garbage collection. */
  lemma RemoveOk(p: Point, m: Memory, node: NodeId)
    requires MemoryFits(p, m) && DiskInv(p.disk, p.hist)
    ensures var pl := RemovePlan(m, node);
            var q := RunSteps(p, pl.steps);
            PlanFits(p, pl) && SegmentsFit(q.disk, q.hist) && q.hist == p.hist && q.own == p.own
  {
    hide SegmentsFit, Durable, Flat, PointsAt, MemoryFits, StepsOk, RunSteps, DiskInv, MetadataFits;
    FitsShape(p, m);
    if !IsActive(m.registry, node) {
      NoSteps(p, m, false);
    } else {
      var registry, index := m.registry[node := true], m.index - {node};
      RemoveMetadata(p, m, node);
      RegistryAndIndex(p, m, SaveRegistry(registry), SaveIndex(index), m.(registry := registry, index := index));
      MetadataOnly(p, SaveRegistry(registry), SaveIndex(index));
    }
  }

  lemma RemoveMetadata(p: Point, m: Memory, node: NodeId)
    requires MemoryFits(p, m) && DiskInv(p.disk, p.hist) && SegmentsFit(p.disk, p.hist)
    ensures var registry, index := m.registry[node := true], m.index - {node};
            var d1 := ApplyMicro(p.disk, SaveRegistry(registry));
            && MicroOk(p.disk, p.hist, SaveRegistry(registry))
            && MicroOk(d1, p.hist, SaveIndex(index))
            && MetadataFits(ApplyMicro(d1, SaveIndex(index)), m.(registry := registry, index := index))
  {
    hide SegmentsFit, Durable, Flat, PointsAt, MemoryFits, DiskInv;
    FitsShape(p, m);
    IndexFitsIs(p.disk, p.hist);
    var registry, index := m.registry[node := true], m.index - {node};
    var d1 := p.disk.(registry := registry);
    SameSegments(p.disk, d1, p.hist);
    forall n | IsActive(registry, n)
      ensures n in p.disk.index && exists k :: PointsAt(p.disk, p.hist, n, p.disk.index[n], k)
      ensures n in index && exists k :: PointsAt(d1, p.hist, n, index[n], k)
    {
      assert IsActive(m.registry, n) && n != node;
      var k :| PointsAt(p.disk, p.hist, n, p.disk.index[n], k);
      assert PointsAt(d1, p.hist, n, index[n], k);
    }
  }

  // ---- garbage collection --------------------------------------------------------------------

  /** A barrier allows exactly the segments before every active node's checkpoint. */
  lemma BarrierMeaning(m: Memory, b: Option<Barrier>, id: SegmentId)
    requires IsBarrier(m.index, ActiveNodes(m.registry), b)
    ensures Collectable(m, id) <==> b.Some? && AllowsDelete(b.value, id)
  {
    match b
    case Some(BeforeSegment(s)) =>
      var n :| n in ActiveNodes(m.registry) && m.index[n].segment == s;
      assert IsActive(m.registry, n);
      forall k | IsActive(m.registry, k) ensures k in m.index && s <= m.index[k].segment {
        assert k in ActiveNodes(m.registry);
      }
    case Some(AllInactive) =>
      assert forall k :: IsActive(m.registry, k) ==> k in ActiveNodes(m.registry);
    case None =>
      var n :| n in ActiveNodes(m.registry) && n !in m.index;
      assert IsActive(m.registry, n);
  }

  lemma DeleteStepOk(p: Point, m: Memory, id: SegmentId)
    requires MemoryFits(p, m) && DiskInv(p.disk, p.hist)
    requires id in p.disk.segs && id != m.active && Collectable(m, id)
    ensures MicroOk(p.disk, p.hist, DeleteSegment(id))
    ensures MemoryFits(NextPoint(p, DeleteSegment(id)), m)
    ensures NextPoint(p, DeleteSegment(id)) == p.(disk := p.disk.(segs := p.disk.segs - {id}))
    ensures DiskInv(NextPoint(p, DeleteSegment(id)).disk, p.hist)
  {
    hide SegmentsFit, Settled, Durable, Flat, PointsAt, FileOf, MemoryFits, DiskInv, Survives;
    FitsShape(p, m);
    var q := NextPoint(p, DeleteSegment(id));
    KeyBound(p.disk, p.hist, id);
    assert MicroOk(p.disk, p.hist, DeleteSegment(id));
    StepKeeps(p.disk, p.hist, DeleteSegment(id));
    SurvivesInv(p.disk, p.hist, q.disk, q.hist);
    StepFits(p.disk, p.hist, DeleteSegment(id));
    DeletedFits(p, q, m, id);
  }

  lemma KeyBound(d: Disk, hist: History, id: SegmentId)
    requires SegmentsFit(d, hist) && id in d.segs
    ensures hist != [] && id <= Last(hist)
  {
    hide FileOf, Holds, HistoryOk;
  }

  lemma DeletedFits(p: Point, q: Point, m: Memory, id: SegmentId)
    requires MemoryFits(p, m) && id != m.active
    requires q == p.(disk := p.disk.(segs := p.disk.segs - {id})) && SegmentsFit(q.disk, q.hist)
    ensures MemoryFits(q, m)
  {
    hide SegmentsFit, FileOf, Flat, MemoryFits, MetadataFits, OffsetOf;
    FitsShape(p, m);
    FitsParts(p, m);
    hide MemoryFits;
    assert WriterFits(q, m);
    assert MetadataFits(q.disk, m) by {
      SameMetadata(p.disk, q.disk, m);
    }
    assert OwnFits(q, m);
    FitsWhole(q, m);
  }

  lemma SameMetadata(d: Disk, d': Disk, m: Memory)
    requires MetadataFits(d, m) && d'.registry == d.registry && d'.index == d.index
    ensures MetadataFits(d', m)
  {
  }

  lemma FitsWhole(p: Point, m: Memory)
    requires WriterFits(p, m) && MetadataFits(p.disk, m) && SegmentsFit(p.disk, p.hist) && OwnFits(p, m)
    ensures MemoryFits(p, m)
  {
    hide SegmentsFit, Settled, Durable, Flat, WriterFits, MetadataFits, OwnFits;
  }

  /** Garbage collection: every deletion is allowed, and only segment files change. */
  lemma {:induction false} CollectOk(p: Point, m: Memory, ids: seq<SegmentId>)
    requires MemoryFits(p, m) && DiskInv(p.disk, p.hist) && Increasing(ids)
    requires forall id :: id in ids ==> id in p.disk.segs
    ensures var steps := DeleteSteps(m, ids);
            var q := RunSteps(p, steps);
            && PlanFits(p, Plan(true, steps, m)) && DiskInv(q.disk, q.hist)
            && q.hist == p.hist && q.own == p.own && q.disk == p.disk.(segs := q.disk.segs)
    decreases |ids|
  {
    hide SegmentsFit, MemoryFits, DiskInv, MicroOk, Collectable, NextPoint;
    NoSteps(p, m, true);
    if ids != [] {
      IncreasingTail(ids);
      var id, rest := ids[0], DeleteSteps(m, ids[1..]);
      if id != m.active && Collectable(m, id) {
        DeleteStepOk(p, m, id);
        CollectOk(NextPoint(p, DeleteSegment(id)), m, ids[1..]);
        assert ([DeleteSegment(id)] + rest)[1..] == rest;
      } else {
        assert [] + rest == rest;
        CollectOk(p, m, ids[1..]);
      }
    }
  }

  lemma CollectPlanOk(p: Point, m: Memory)
    requires MemoryFits(p, m) && DiskInv(p.disk, p.hist)
    ensures var pl := CollectPlan(p.disk, m);
            var q := RunSteps(p, pl.steps);
            && PlanFits(p, pl) && DiskInv(q.disk, q.hist)
            && q.hist == p.hist && q.own == p.own && q.disk == p.disk.(segs := q.disk.segs)
  {
    hide SegmentsFit, MemoryFits, DiskInv, MicroOk, Ascending, Collectable, StepsOk, RunSteps;
    AscendingIs(p.disk.segs.Keys);
    CollectOk(p, m, Ascending(p.disk.segs.Keys));
  }

  // ---- whole operations ---------------------------------------------------------------------------

  /** The record an operation that succeeds appends. */
  function Appended(op: Operation): seq<NodeRecord> {
    match op
    case CreateNode(node) => [NodeRecord(node, SnapshotCheckpoint(INITIAL_CHECKPOINT))]
    case SaveRecord(node, record) => [NodeRecord(node, record)]
    case SaveSnapshot(node, c) => [NodeRecord(node, SnapshotCheckpoint(c))]
    case _ => []
  }

  /** Operations that return only once everything this engine instance wrote is durable. */
  predicate Acknowledges(op: Operation) {
    op.CreateNode? || op.SaveSnapshot? || op.Sync?
  }

  /** Every step of every operation is allowed; at the end memory and directory agree, a
      successful operation has appended its record and nothing else, a failed one nothing,
      and an acknowledging one has made everything this instance wrote durable. */
  lemma PlanOk(p: Point, m: Memory, op: Operation)
    requires MemoryFits(p, m) && DiskInv(p.disk, p.hist)
    ensures var pl := PlanOf(p.disk, m, op);
            var q := RunSteps(p, pl.steps);
            && PlanFits(p, pl) && DiskInv(q.disk, q.hist) && SegmentsFit(q.disk, q.hist)
            && Flat(q.hist) == Flat(p.hist) + (if pl.ok then Appended(op) else [])
            && (pl.ok && Acknowledges(op) ==> Durable(q.disk, q.hist, q.own))
            && q.own == (if pl.ok && Appended(op) != [] then |Flat(q.hist)| else p.own)
  {
    hide SegmentsFit, MemoryFits, DiskInv, MicroOk, Durable, Flat, StepsOk, RunSteps, CreatePlan, SnapshotPlan,
         RemovePlan, CollectPlan, SyncPlan, AppendPlan, Encodable;
    assert Flat(p.hist) + [] == Flat(p.hist);
    NoSteps(p, m, false);
    FitsShape(p, m);
    match op
    case CreateNode(node) =>
      CreateOk(p, m, node);
      PlanKeeps(p, CreatePlan(m, node));
    case SaveRecord(node, record) =>
      if IsActive(m.registry, node) {
        AppendOk(p, m, NodeRecord(node, record));
        PlanKeeps(p, AppendPlan(m, NodeRecord(node, record)));
      }
    case SaveSnapshot(node, c) =>
      SnapshotOk(p, m, node, c);
      PlanKeeps(p, SnapshotPlan(m, node, c));
      CollectAfter(p, SnapshotPlan(m, node, c));
    case RemoveNode(node) =>
      RemoveOk(p, m, node);
      PlanKeeps(p, RemovePlan(m, node));
      CollectAfter(p, RemovePlan(m, node));
    case Sync =>
      SyncPlanOk(p, m);
      PlanKeeps(p, SyncPlan(m));
  }

  lemma PlanKeeps(p: Point, pl: Plan)
    requires PlanFits(p, pl) && DiskInv(p.disk, p.hist)
    ensures DiskInv(RunSteps(p, pl.steps).disk, RunSteps(p, pl.steps).hist)
    ensures SegmentsFit(RunSteps(p, pl.steps).disk, RunSteps(p, pl.steps).hist)
  {
    hide MemoryFits, DiskInv, SegmentsFit, StepsOk, RunSteps;
    StepsKeep(p, pl.steps);
    IndexFitsIs(RunSteps(p, pl.steps).disk, RunSteps(p, pl.steps).hist);
  }

  lemma CollectAfter(p: Point, pl: Plan)
    requires PlanFits(p, pl) && DiskInv(p.disk, p.hist)
    ensures var whole := Then(pl, mem => CollectPlan(DiskAfter(p.disk, pl.steps), mem));
            var q, r := RunSteps(p, pl.steps), RunSteps(p, whole.steps);
            && PlanFits(p, whole) && whole.ok == pl.ok && SegmentsFit(q.disk, q.hist)
            && DiskInv(r.disk, r.hist) && SegmentsFit(r.disk, r.hist) && r.hist == q.hist && r.own == q.own
            && (Durable(q.disk, q.hist, q.own) ==> Durable(r.disk, r.hist, r.own))
  {
    hide SegmentsFit, MemoryFits, DiskInv, MicroOk, Durable, StepsOk, RunSteps, CollectPlan, DiskAfter;
    PlanKeeps(p, pl);
    if pl.ok {
      var q := RunSteps(p, pl.steps);
      RunDisk(p, pl.steps);
      CollectPlanOk(q, pl.memory);
      var gc := CollectPlan(q.disk, pl.memory);
      CollectSucceeds(q.disk, pl.memory);
      ThenOk(p, pl, gc);
      PlanKeeps(q, gc);
      DurableThrough(q, gc.steps, q.own);
    }
  }

  lemma CollectSucceeds(d: Disk, m: Memory)
    ensures CollectPlan(d, m).ok && CollectPlan(d, m).memory == m
  {
  }

  lemma {:induction false} DurableThrough(p: Point, steps: seq<Micro>, c: nat)
    requires DiskInv(p.disk, p.hist) && StepsOk(p, steps)
    requires SegmentsFit(p.disk, p.hist) && SegmentsFit(RunSteps(p, steps).disk, RunSteps(p, steps).hist)
    ensures Durable(p.disk, p.hist, c) ==> Durable(RunSteps(p, steps).disk, RunSteps(p, steps).hist, c)
    decreases |steps|
  {
    hide SegmentsFit, DiskInv, MicroOk, Durable, ApplyMicro, ApplyHistory, Flat;
    if steps != [] {
      var d', hist' := ApplyMicro(p.disk, steps[0]), ApplyHistory(p.hist, steps[0]);
      StepKeeps(p.disk, p.hist, steps[0]);
      SurvivesDurable(p.disk, p.hist, d', hist', c);
      DurableThrough(NextPoint(p, steps[0]), steps[1..], c);
    }
  }

  lemma SurvivesDurable(d: Disk, hist: History, d': Disk, hist': History, c: nat)
    requires Survives(d, hist, d', hist')
    ensures SegmentsFit(d, hist) && SegmentsFit(d', hist') && DiskInv(d', hist')
    ensures Durable(d, hist, c) ==> c <= |Flat(hist')| && Durable(d', hist', c)
  {
    hide SegmentsFit, IndexFits, Durable, Flat;
  }
}
