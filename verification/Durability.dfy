/** How far the durability of `sync` reaches. It covers what the engine instance
    wrote itself; records that an earlier instance wrote without syncing are not
    made durable by it, although they were recovered and are loaded. */
module Durability {
  import opened Words
  import opened Records
  import opened Codec
  import opened Frames
  import opened Replay
  import opened Recovery
  import opened Disks
  import opened DurableSteps
  import opened Protocol
  import opened Runs

  // ---- reachable worlds ----------------------------------------------------------------------

  ghost predicate EndsIn(run: seq<World>, w: World) {
    IsRun(run) && run[|run| - 1] == w
  }

  ghost predicate Reachable(w: World) {
    exists run :: EndsIn(run, w)
  }

  lemma ReachNext(w: World, w': World)
    requires Reachable(w) && Next(w, w')
    ensures Reachable(w')
  {
    hide Next;
    var run :| EndsIn(run, w);
    assert EndsIn(run + [w'], w');
  }

  lemma ReachInv(w: World)
    requires Reachable(w)
    ensures WorldInv(w)
  {
    hide WorldInv, Next;
    var run :| EndsIn(run, w);
    RunKeeps(run, |run| - 1);
  }

  lemma ReachEmpty()
    ensures Reachable(EMPTY_WORLD)
  {
    hide Next;
    assert EndsIn([EMPTY_WORLD], EMPTY_WORLD);
  }

  ghost function Finished(w: World): World
    requires w.engine.Some? && w.engine.value.Busy?
  {
    var e := w.engine.value;
    var end := RunSteps(w.at, e.todo);
    World(end, if e.acknowledge && w.acknowledged < end.own then end.own else w.acknowledged, Some(Idle(e.next)))
  }

  lemma {:induction false} ReachFinished(w: World)
    requires Reachable(w) && w.engine.Some? && w.engine.value.Busy?
    ensures Reachable(Finished(w))
    decreases |w.engine.value.todo|
  {
    hide Reachable, NextPoint;
    var e := w.engine.value;
    if e.todo == [] {
      assert Returns(w, Finished(w));
      ReachNext(w, Finished(w));
    } else {
      var w' := w.(at := NextPoint(w.at, e.todo[0]), engine := Some(e.(todo := e.todo[1..])));
      assert TakesStep(w, w');
      ReachNext(w, w');
      ReachFinished(w');
    }
  }

  /** The world after a whole operation. */
  ghost function Done(w: World, op: Operation): World
    requires w.engine.Some? && w.engine.value.Idle?
  {
    var pl := PlanOf(w.at.disk, w.engine.value.memory, op);
    Finished(w.(engine := Some(Busy(pl.steps, pl.memory, pl.ok && Acknowledges(op)))))
  }

  lemma ReachDone(w: World, op: Operation)
    requires Reachable(w) && w.engine.Some? && w.engine.value.Idle? && IsCallable(op)
    ensures Reachable(Done(w, op))
  {
    hide Reachable, PlanOf, Finished;
    var pl := PlanOf(w.at.disk, w.engine.value.memory, op);
    var busy := w.(engine := Some(Busy(pl.steps, pl.memory, pl.ok && Acknowledges(op))));
    assert Begins(w, busy, op);
    ReachNext(w, busy);
    ReachFinished(busy);
  }

  /** The world after an open. */
  ghost function Opened(w: World, maxSegmentLen: u64): World {
    var pl := OpenPlan(w.at.disk, maxSegmentLen);
    Finished(World(w.at.(own := 0), w.acknowledged, Some(Busy(pl.steps, pl.memory, false))))
  }

  lemma ReachOpened(w: World, maxSegmentLen: u64)
    requires Reachable(w) && w.engine.None? && maxSegmentLen > 0
    ensures Reachable(Opened(w, maxSegmentLen)) && OpenPlan(w.at.disk, maxSegmentLen).ok
  {
    hide Reachable, OpenPlan, Finished, DiskInv, SegmentsFit, Durable, RunSteps, StepsOk, MemoryFits, Flat;
    ReachInv(w);
    OpenOk(w.at.disk, w.at.hist, maxSegmentLen);
    var pl := OpenPlan(w.at.disk, maxSegmentLen);
    var busy := World(w.at.(own := 0), w.acknowledged, Some(Busy(pl.steps, pl.memory, false)));
    assert Opens(w, busy);
    ReachNext(w, busy);
    ReachFinished(busy);
  }

  // ---- an append is not durable yet ------------------------------------------------------------

  /** The last record of the history is not in the durable part of its file. */
  ghost predicate LastAtRisk(d: Disk, hist: History) {
    && SegmentsFit(d, hist) && hist != [] && hist[Last(hist)] != []
    && Last(hist) in d.segs && AllEncodable(hist[Last(hist)])
    && d.segs[Last(hist)].durable < |FileOf(hist[Last(hist)])|
    && d.segs[Last(hist)].bytes == FileOf(hist[Last(hist)])
  }

  lemma WriteAtRisk(p: Point, m: Memory, r: NodeRecord)
    requires MemoryFits(p, m) && Encodable(r)
    ensures var q := NextPoint(p, WriteFrame(m.active, r));
            LastAtRisk(q.disk, q.hist)
  {
    hide SegmentsFit, Encodable, FileOf, Encoding.Frame, MemoryFits, MicroOk, Flat, RecordAt, Durable;
    FitsShape(p, m);
    FitsParts(p, m);
    LastBound(p.disk, p.hist);
    WriteOk(p, m, r);
    var q := NextPoint(p, WriteFrame(m.active, r));
    FitsShape(q, WroteFrame(m, |Encoding.Frame(r)|));
    FitsParts(q, WroteFrame(m, |Encoding.Frame(r)|));
    LayoutOne(r);
  }

  lemma AppendAtRisk(p: Point, m: Memory, r: NodeRecord)
    requires MemoryFits(p, m) && AppendPlan(m, r).ok
    ensures var q := RunSteps(p, AppendPlan(m, r).steps);
            LastAtRisk(q.disk, q.hist)
  {
    hide MicroOk, MemoryFits, Encodable, Encoding.Frame, StepsOk, RunSteps, Flat, LastAtRisk, NextPoint;
    var len := |Encoding.Frame(r)|;
    var rotation := if ShouldRotate(m, len) then RotatePlan(m) else Plan(true, [], m);
    NoSteps(p, m, true);
    if ShouldRotate(m, len) {
      RotateOk(p, m);
    }
    var p1 := RunSteps(p, rotation.steps);
    var write := WriteFrame(rotation.memory.active, r);
    WriteAtRisk(p1, rotation.memory, r);
    OneStep(p1, write);
    RunConcat(p, rotation.steps, [write]);
  }

  // ---- reopening without a crash changes nothing -------------------------------------------------

  lemma {:induction false} WholeFile(rs: seq<NodeRecord>)
    requires AllEncodable(rs)
    ensures Whole(rs, |FileOf(rs)|) == |rs|
  {
    hide Encodable, Body, FrameRun, WholeFrames;
    LayoutIs(rs);
    WholeOfAll(Bodies(rs), |FileOf(rs)| - SEGMENT_HEADER_LEN);
  }

  /** A process stop: everything written is still there. */
  lemma ProcessStop(w: World)
    requires LastAtRisk(w.at.disk, w.at.hist)
    ensures Crashes(w, World(Point(w.at.disk, w.at.hist, 0), w.acknowledged, None))
  {
    hide SegmentsFit, FileOf, Encodable, Whole;
    var last := Last(w.at.hist);
    var f := w.at.disk.segs[last];
    WholeFile(w.at.hist[last]);
    var none: seq<byte> := [];
    assert (f.bytes + none)[..|f.bytes|] == f.bytes;
    assert CutShort(w, none);
    assert w.at.hist[last][..|w.at.hist[last]|] == w.at.hist[last];
    assert CrashDisk(w.at.disk, last, none, |f.bytes|) == w.at.disk;
    assert CrashHistory(w.at.hist, |f.bytes|) == w.at.hist;
    NothingBack(w.at.disk, w.at.hist);
    assert CrashPoint(w, none, |f.bytes|, {}) == Point(w.at.disk, w.at.hist, 0);
  }

  /** A power loss: the record at risk is gone. */
  lemma PowerLoss(w: World) returns (w': World)
    requires LastAtRisk(w.at.disk, w.at.hist)
    ensures Crashes(w, w')
    ensures w.at.hist != [] && |w'.at.hist| == |w.at.hist|
    ensures w'.at.hist == w.at.hist[Last(w.at.hist) := w'.at.hist[Last(w.at.hist)]]
    ensures w'.at.hist[Last(w.at.hist)] < w.at.hist[Last(w.at.hist)]
  {
    hide SegmentsFit, FileOf, Encodable, Whole;
    var last := Last(w.at.hist);
    var f := w.at.disk.segs[last];
    var none: seq<byte> := [];
    assert CutShort(w, none);
    w' := World(CrashPoint(w, none, f.durable, {}), w.acknowledged, None);
    NotWhole(w.at.hist[last], f.durable);
  }

  lemma NotWhole(rs: seq<NodeRecord>, len: nat)
    requires AllEncodable(rs) && rs != [] && len < |FileOf(rs)|
    ensures Whole(rs, len) < |rs|
  {
    hide Encodable, Body, FrameRun, WholeFrames;
    LayoutIs(rs);
    if SEGMENT_HEADER_LEN <= len {
      WholeFramesIs(Bodies(rs), len - SEGMENT_HEADER_LEN, |rs|);
      assert Bodies(rs)[..|rs|] == Bodies(rs);
    }
  }

  /** Opening a directory whose files are all complete takes no step. */
  lemma OpenDoesNothing(d: Disk, hist: History, maxSegmentLen: nat)
    requires LastAtRisk(d, hist) && OpenPlan(d, maxSegmentLen).ok
    ensures OpenPlan(d, maxSegmentLen).steps == []
    ensures !Unsynced(OpenPlan(d, maxSegmentLen).memory)
  {
    hide SegmentsFit, FileOf, Encodable, Recovered, SelectActive, ValidPosition, Retained;
    ActiveIsLast(d, hist);
    FileHolds(hist[Last(hist)]);
    RecoveredHeld(d.segs[Last(hist)].bytes, hist[Last(hist)], true);
    FileLength(hist[Last(hist)]);
  }

  lemma FileLength(rs: seq<NodeRecord>)
    requires AllEncodable(rs)
    ensures SEGMENT_HEADER_LEN <= |FileOf(rs)|
  {
    hide Encodable, Layout;
  }

  // ---- main result ---------------------------------------------------------------------------------

  /** Any record saved without a sync, from any reachable state: if the process stops, the store
      is reopened and `sync` is called, that call succeeds, and a power loss afterwards can still
      lose the record. */
  lemma SyncMissesEarlierInstance(w: World, node: NodeId, record: Record) returns (reopened: World, lost: World)
    requires Reachable(w) && w.engine.Some? && w.engine.value.Idle? && IsCallable(SaveRecord(node, record))
    requires PlanOf(w.at.disk, w.engine.value.memory, SaveRecord(node, record)).ok
    ensures Reachable(reopened) && reopened.engine.Some? && reopened.engine.value.Idle?
    ensures Flat(reopened.at.hist) == Flat(w.at.hist) + [NodeRecord(node, record)]
    ensures PlanOf(reopened.at.disk, reopened.engine.value.memory, Sync).ok
    ensures Reachable(Done(reopened, Sync)) && Crashes(Done(reopened, Sync), lost)
    ensures Flat(lost.at.hist) <= Flat(w.at.hist)
  {
    hide Reachable, SegmentsFit, DiskInv, MemoryFits, RunSteps, StepsOk, PlanOf, OpenPlan, LastAtRisk, Flat, Durable,
         Crashes;
    var op, m := SaveRecord(node, record), w.engine.value.memory;
    ReachInv(w);
    SaveIsAppend(w.at.disk, m, node, record);
    PlanOk(w.at, m, op);
    AppendAtRisk(w.at, m, NodeRecord(node, record));
    var saved := Done(w, op);
    ReachDone(w, op);
    var stopped := World(Point(saved.at.disk, saved.at.hist, 0), saved.acknowledged, None);
    ProcessStop(saved);
    ReachNext(saved, stopped);
    reopened := Opened(stopped, 1);
    ReachOpened(stopped, 1);
    OpenDoesNothing(stopped.at.disk, stopped.at.hist, 1);
    Unmoved(stopped.at);
    SyncDoesNothing(reopened.at.disk, reopened.engine.value.memory);
    ReachDone(reopened, Sync);
    lost := PowerLoss(Done(reopened, Sync));
    LostLast(saved.at.hist, lost.at.hist, Flat(w.at.hist), NodeRecord(node, record));
  }

  lemma SaveIsAppend(d: Disk, m: Memory, node: NodeId, record: Record)
    requires PlanOf(d, m, SaveRecord(node, record)).ok
    ensures PlanOf(d, m, SaveRecord(node, record)) == AppendPlan(m, NodeRecord(node, record))
  {
    hide AppendPlan;
  }

  lemma Unmoved(p: Point)
    ensures RunSteps(p, []) == p
  {
  }

  lemma SyncDoesNothing(d: Disk, m: Memory)
    requires !Unsynced(m)
    ensures PlanOf(d, m, Sync) == Plan(true, [], m)
  {
  }

  lemma LostLast(hist: History, hist': History, before: seq<NodeRecord>, r: NodeRecord)
    requires hist != [] && |hist'| == |hist| && Flat(hist) == before + [r]
    requires hist' == hist[Last(hist) := hist'[Last(hist)]] && hist'[Last(hist)] < hist[Last(hist)]
    ensures Flat(hist') <= before
  {
    hide Flat;
    var k := |hist'[Last(hist)]|;
    assert hist'[Last(hist)] == hist[Last(hist)][..k];
    FlatPrefix(hist, k);
    FlatOfLast(hist);
  }

  // ---- a concrete run ------------------------------------------------------------------------------

  /** The record `create_node` writes can always be encoded. */
  lemma InitialEncodable(node: NodeId)
    ensures Encodable(NodeRecord(node, SnapshotCheckpoint(INITIAL_CHECKPOINT)))
  {
  }

  lemma TermEncodable(node: NodeId, term: Term)
    ensures Encodable(NodeRecord(node, CurrentTerm(term)))
  {
  }

  /** A new store with one node. */
  lemma NewNode(node: NodeId) returns (w: World)
    ensures Reachable(w) && w.engine.Some? && w.engine.value.Idle?
    ensures IsActive(w.engine.value.memory.registry, node) && w.engine.value.memory.active <= 1
    ensures Flat(w.at.hist) == [NodeRecord(node, SnapshotCheckpoint(INITIAL_CHECKPOINT))]
  {
    hide Reachable, OpenPlan, PlanOf, RunSteps, SegmentsFit, DiskInv, MemoryFits, StepsOk, Durable;
    ReachEmpty();
    var o := Opened(EMPTY_WORLD, 1000);
    ReachOpened(EMPTY_WORLD, 1000);
    NewMemory(1000);
    OpenedEmpty(1000);
    ReachInv(o);
    w := Done(o, CreateNode(node));
    ReachDone(o, CreateNode(node));
    CreateSucceeds(o.at.disk, o.engine.value.memory, node);
    PlanOk(o.at, o.engine.value.memory, CreateNode(node));
  }

  lemma OpenedEmpty(max: nat)
    requires 0 < max < U64_LIMIT
    ensures Flat(RunSteps(Point(EMPTY_DISK, [], 0), OpenPlan(EMPTY_DISK, max).steps).hist) == []
  {
    hide MemoryFits, DiskInv, RunSteps, StepsOk, OpenPlan;
    EmptyWorldInv();
    OpenOk(EMPTY_DISK, [], max);
  }

  lemma NewMemory(max: nat)
    requires OpenPlan(EMPTY_DISK, max).ok
    ensures OpenPlan(EMPTY_DISK, max).memory.registry == map[] && OpenPlan(EMPTY_DISK, max).memory.active == 0
  {
  }

  lemma CreateSucceeds(d: Disk, m: Memory, node: NodeId)
    requires m.registry == map[] && m.active == 0
    ensures var pl := PlanOf(d, m, CreateNode(node));
            pl.ok && IsActive(pl.memory.registry, node) && pl.memory.active <= 1
  {
    hide Encodable, Encoding.Frame;
    InitialEncodable(node);
  }

  /** With segment IDs to spare an active node can save any record that can be encoded. */
  lemma SaveSucceeds(d: Disk, m: Memory, node: NodeId, record: Record)
    requires IsActive(m.registry, node) && Encodable(NodeRecord(node, record)) && m.active + 1 < U64_LIMIT
    ensures var pl := PlanOf(d, m, SaveRecord(node, record));
            && pl.ok && pl.memory.active <= m.active + 1
            && pl.memory.registry == m.registry && pl.memory.index == m.index
  {
    hide Encodable, Encoding.Frame;
  }

  /** A concrete instance: a new store, a node, a term saved, and the term lost after a `sync`. */
  lemma TermLost(node: NodeId, term: Term) returns (reopened: World, lost: World)
    ensures Reachable(reopened) && reopened.engine.Some? && reopened.engine.value.Idle?
    ensures NodeRecord(node, CurrentTerm(term)) in Flat(reopened.at.hist)
    ensures PlanOf(reopened.at.disk, reopened.engine.value.memory, Sync).ok
    ensures Reachable(Done(reopened, Sync)) && Crashes(Done(reopened, Sync), lost)
    ensures NodeRecord(node, CurrentTerm(term)) !in Flat(lost.at.hist)
  {
    hide Reachable, PlanOf, Crashes, Flat, Encodable, Done;
    var w := NewNode(node);
    TermEncodable(node, term);
    SaveSucceeds(w.at.disk, w.engine.value.memory, node, CurrentTerm(term));
    reopened, lost := SyncMissesEarlierInstance(w, node, CurrentTerm(term));
    var r := NodeRecord(node, CurrentTerm(term));
    assert Flat(reopened.at.hist)[1] == r;
    NotInPrefix(Flat(lost.at.hist), NodeRecord(node, SnapshotCheckpoint(INITIAL_CHECKPOINT)), r);
  }

  lemma NotInPrefix(rs: seq<NodeRecord>, only: NodeRecord, r: NodeRecord)
    requires rs <= [only] && r != only
    ensures r !in rs
  {
  }
}
