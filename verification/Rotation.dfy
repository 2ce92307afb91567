/** The rotation bound: in a crash-free run under one threshold, segments fill up
    before new ones are opened. */
module Rotation {
  import opened Words
  import opened Records
  import opened Sorted
  import opened Codec
  import opened Replay
  import opened Recovery
  import opened Disks
  import opened DurableSteps
  import opened Protocol
  import opened Runs

  /** No segment is empty, but for the first while it is the only one; any two consecutive ones
      together exceed the threshold and a header; and one longer than the threshold holds exactly
      one record, unless it is that empty one and the threshold is below a header. */
  ghost predicate Rotated(hist: History, max: nat) {
    && HistoryOk(hist)
    && (forall i :: 0 <= i < |hist| && hist[i] == [] ==> |hist| == 1)
    && (forall i :: 0 <= i < |hist| - 1 ==> |FileOf(hist[i])| + |FileOf(hist[i + 1])| > max + SEGMENT_HEADER_LEN)
    && (forall i :: 0 <= i < |hist| && |FileOf(hist[i])| > max ==>
          |hist[i]| == 1 || (hist[i] == [] && max < SEGMENT_HEADER_LEN))
  }

  /** Every segment longer than the threshold holds exactly one record. */
  ghost predicate LongHoldOne(hist: History, max: nat) {
    HistoryOk(hist) && forall i :: 0 <= i < |hist| && |FileOf(hist[i])| > max ==> |hist[i]| == 1
  }

  lemma FileSize(rs: seq<NodeRecord>)
    requires AllEncodable(rs)
    ensures SEGMENT_HEADER_LEN <= |FileOf(rs)|
    ensures rs == [] <==> |FileOf(rs)| == SEGMENT_HEADER_LEN
  {
    hide Encodable, Layout, Body;
    if rs == [] {
      EmptyLayout();
    } else {
      OffsetStep(rs, |rs| - 1);
      assert rs[..|rs|] == rs;
      OffsetBound(rs, |rs| - 1);
      FileStarts(rs[..|rs| - 1]);
    }
  }

  lemma FileStarts(rs: seq<NodeRecord>)
    requires AllEncodable(rs)
    ensures SEGMENT_HEADER_LEN <= |FileOf(rs)|
  {
    hide Encodable, Layout;
  }

  /** One record more in the last segment, where the threshold allows it. */
  lemma GrowLast(hist: History, max: nat, r: NodeRecord)
    requires Rotated(hist, max) && hist != [] && Encodable(r)
    requires hist[Last(hist)] == [] || |FileOf(hist[Last(hist)])| + |Encoding.Frame(r)| <= max
    ensures Rotated(hist[Last(hist) := hist[Last(hist)] + [r]], max)
  {
    hide Encodable, FileOf, Encoding.Frame;
    FileAppend(hist[Last(hist)], r);
    FileSize(hist[Last(hist)]);
  }

  /** A new segment with one record, where the threshold demands it. */
  lemma OpenNext(hist: History, max: nat, r: NodeRecord)
    requires Rotated(hist, max) && hist != [] && Encodable(r) && |hist| < U64_LIMIT
    requires hist[Last(hist)] != [] && |FileOf(hist[Last(hist)])| + |Encoding.Frame(r)| > max
    ensures Rotated(hist + [[r]], max)
  {
    hide Encodable, FileOf, Encoding.Frame;
    FileAppend([], r);
    EmptyFile();
    assert [] + [r] == [r];
  }

  lemma EmptyFile()
    ensures AllEncodable([]) && |FileOf([])| == SEGMENT_HEADER_LEN
  {
    EmptyLayout();
  }

  // ---- which steps change the history ------------------------------------------------------

  predicate Quiet(m: Micro) {
    !m.CreateSegment? && !m.WriteFrame?
  }

  lemma {:induction false} QuietRun(p: Point, steps: seq<Micro>)
    requires forall i :: 0 <= i < |steps| ==> Quiet(steps[i])
    ensures RunSteps(p, steps).hist == p.hist
    decreases |steps|
  {
    hide ApplyMicro;
    if steps != [] {
      QuietRun(NextPoint(p, steps[0]), steps[1..]);
    }
  }

  lemma {:induction false} DeletesQuiet(m: Memory, ids: seq<SegmentId>)
    ensures forall i :: 0 <= i < |DeleteSteps(m, ids)| ==> Quiet(DeleteSteps(m, ids)[i])
    decreases |ids|
  {
    hide Collectable;
    if ids != [] {
      DeletesQuiet(m, ids[1..]);
    }
  }

  lemma ActiveFile(p: Point, m: Memory)
    requires MemoryFits(p, m)
    ensures p.hist != [] && m.active == Last(p.hist) && AllEncodable(p.hist[m.active])
    ensures m.segmentLen == |FileOf(p.hist[m.active])|
    ensures p.hist[m.active] == [] <==> m.segmentLen == SEGMENT_HEADER_LEN
    ensures SEGMENT_HEADER_LEN <= m.segmentLen && m.maxSegmentLen < U64_LIMIT
  {
    hide MemoryFits, FileOf, SegmentsFit, Encodable;
    FitsShape(p, m);
    FitsParts(p, m);
    FileSize(p.hist[m.active]);
  }

  /** An append that fits the active segment. */
  lemma AppendInPlace(p: Point, m: Memory, r: NodeRecord)
    requires MemoryFits(p, m) && Rotated(p.hist, m.maxSegmentLen) && Encodable(r)
    requires !ShouldRotate(m, |Encoding.Frame(r)|)
    ensures Rotated(RunSteps(p, [WriteFrame(m.active, r)]).hist, m.maxSegmentLen)
  {
    hide Encodable, FileOf, Encoding.Frame, MemoryFits, RunSteps, Rotated;
    ActiveFile(p, m);
    WriteOnly(p, m, r);
    GrowLast(p.hist, m.maxSegmentLen, r);
  }

  lemma InNewSegment(hist: History, r: NodeRecord)
    ensures var longer := hist + [[]];
            longer[Last(longer) := longer[Last(longer)] + [r]] == hist + [[r]]
  {
    var none: seq<NodeRecord> := [];
    assert none + [r] == [r];
  }

  /** An append behind a rotation. */
  lemma AppendRotated(p: Point, m: Memory, r: NodeRecord)
    requires MemoryFits(p, m) && Rotated(p.hist, m.maxSegmentLen) && Encodable(r)
    requires ShouldRotate(m, |Encoding.Frame(r)|) && m.active + 1 < U64_LIMIT
    ensures Rotated(RunSteps(p, RotatePlan(m).steps + [WriteFrame(m.active + 1, r)]).hist, m.maxSegmentLen)
  {
    hide Encodable, FileOf, Encoding.Frame, MemoryFits, RunSteps, Rotated, StepsOk, Flat, AllEncodable;
    ActiveFile(p, m);
    RotateOk(p, m);
    var q := RunSteps(p, RotatePlan(m).steps);
    RunConcat(p, RotatePlan(m).steps, [WriteFrame(m.active + 1, r)]);
    WriteOnly(q, RotatePlan(m).memory, r);
    InNewSegment(p.hist, r);
    OpenNext(p.hist, m.maxSegmentLen, r);
  }

  /** The history after an append. */
  lemma AppendHistory(p: Point, m: Memory, r: NodeRecord)
    requires MemoryFits(p, m) && Rotated(p.hist, m.maxSegmentLen)
    ensures Rotated(RunSteps(p, AppendPlan(m, r).steps).hist, m.maxSegmentLen)
    ensures AppendPlan(m, r).memory.maxSegmentLen == m.maxSegmentLen
  {
    hide Encodable, Encoding.Frame, MemoryFits, RunSteps, Rotated;
    NoSteps(p, m, true);
    if Encodable(r) {
      if !ShouldRotate(m, |Encoding.Frame(r)|) {
        AppendInPlace(p, m, r);
        assert [] + [WriteFrame(m.active, r)] == [WriteFrame(m.active, r)];
      } else if RotatePlan(m).ok {
        AppendRotated(p, m, r);
      } else {
        QuietRun(p, RotatePlan(m).steps);
      }
    }
  }

  lemma WriteOnly(p: Point, m: Memory, r: NodeRecord)
    requires MemoryFits(p, m) && Encodable(r)
    ensures p.hist != [] && m.active == Last(p.hist)
    ensures RunSteps(p, [WriteFrame(m.active, r)]).hist == p.hist[Last(p.hist) := p.hist[Last(p.hist)] + [r]]
  {
    hide MemoryFits, Encodable, ApplyMicro;
    FitsShape(p, m);
    FitsParts(p, m);
    OneStep(p, WriteFrame(m.active, r));
  }

  lemma QuietOnly(p: Point, steps: seq<Micro>, max: nat)
    requires Rotated(p.hist, max) && forall i :: 0 <= i < |steps| ==> Quiet(steps[i])
    ensures Rotated(RunSteps(p, steps).hist, max)
  {
    hide Rotated, RunSteps;
    QuietRun(p, steps);
  }

  /** A plan that appends a record and then leaves the history alone. */
  ghost predicate AppendsOnce(m: Memory, r: NodeRecord, pl: Plan) {
    var a := AppendPlan(m, r);
    && a.steps <= pl.steps
    && (forall i :: |a.steps| <= i < |pl.steps| ==> Quiet(pl.steps[i]))
    && pl.memory.maxSegmentLen == a.memory.maxSegmentLen
  }

  lemma AppendsOnceRotates(p: Point, m: Memory, r: NodeRecord, pl: Plan)
    requires MemoryFits(p, m) && Rotated(p.hist, m.maxSegmentLen) && AppendsOnce(m, r, pl)
    ensures Rotated(RunSteps(p, pl.steps).hist, m.maxSegmentLen)
    ensures pl.memory.maxSegmentLen == m.maxSegmentLen
  {
    hide MemoryFits, RunSteps, StepsOk, Rotated, AppendPlan;
    var first := AppendPlan(m, r).steps;
    var rest := pl.steps[|first|..];
    AppendHistory(p, m, r);
    assert pl.steps == first + rest;
    RunConcat(p, first, rest);
    QuietRun(RunSteps(p, first), rest);
  }

  lemma CreateOnce(m: Memory, node: NodeId)
    requires node !in m.registry
    ensures AppendsOnce(m, NodeRecord(node, SnapshotCheckpoint(INITIAL_CHECKPOINT)), CreatePlan(m, node))
  {
    hide AppendPlan, AppendPosition;
  }

  lemma SnapshotOnce(p: Point, m: Memory, node: NodeId, c: Checkpoint)
    requires IsActive(m.registry, node) && ValidCheckpoint(c)
    ensures AppendsOnce(m, NodeRecord(node, SnapshotCheckpoint(c)), PlanOf(p.disk, m, SaveSnapshot(node, c)))
  {
    hide AppendPlan, AppendPosition, DeleteSteps, DiskAfter, ValidCheckpoint, Ascending;
    var sp := SnapshotPlan(m, node, c);
    DeletesQuiet(sp.memory, Ascending(DiskAfter(p.disk, sp.steps).segs.Keys));
  }

  /** Every operation keeps the rotation bound. */
  lemma OperationRotates(p: Point, m: Memory, op: Operation)
    requires MemoryFits(p, m) && Rotated(p.hist, m.maxSegmentLen)
    ensures Rotated(RunSteps(p, PlanOf(p.disk, m, op).steps).hist, m.maxSegmentLen)
    ensures PlanOf(p.disk, m, op).memory.maxSegmentLen == m.maxSegmentLen
  {
    hide MemoryFits, RunSteps, Rotated, AppendPlan, AppendPosition, DeleteSteps, DiskAfter, ValidCheckpoint,
         AppendsOnce, Ascending;
    var pl := PlanOf(p.disk, m, op);
    match op
    case CreateNode(node) =>
      if node in m.registry {
        QuietOnly(p, pl.steps, m.maxSegmentLen);
      } else {
        CreateOnce(m, node);
        AppendsOnceRotates(p, m, NodeRecord(node, SnapshotCheckpoint(INITIAL_CHECKPOINT)), pl);
      }
    case SaveRecord(node, record) =>
      if IsActive(m.registry, node) {
        AppendHistory(p, m, NodeRecord(node, record));
      } else {
        QuietOnly(p, pl.steps, m.maxSegmentLen);
      }
    case SaveSnapshot(node, c) =>
      if IsActive(m.registry, node) && ValidCheckpoint(c) {
        SnapshotOnce(p, m, node, c);
        AppendsOnceRotates(p, m, NodeRecord(node, SnapshotCheckpoint(c)), pl);
      } else {
        QuietOnly(p, pl.steps, m.maxSegmentLen);
      }
    case RemoveNode(node) =>
      var d := DiskAfter(p.disk, RemovePlan(m, node).steps);
      DeletesQuiet(RemovePlan(m, node).memory, Ascending(d.segs.Keys));
      QuietOnly(p, pl.steps, m.maxSegmentLen);
    case Sync =>
      QuietOnly(p, pl.steps, m.maxSegmentLen);
  }

  // ---- crash-free runs under one threshold -----------------------------------------------------

  datatype Event = Do(op: Operation) | Reopen

  /** The directory and the memory after a list of events without a crash. */
  ghost function After(p: Point, m: Memory, events: seq<Event>): (Point, Memory)
    decreases |events|
  {
    if events == [] then (p, m)
    else
      var start := if events[0].Reopen? then p.(own := 0) else p;
      var pl := if events[0].Reopen? then OpenPlan(p.disk, m.maxSegmentLen) else PlanOf(p.disk, m, events[0].op);
      After(RunSteps(start, pl.steps), pl.memory, events[1..])
  }

  /** What a store holds between operations of a crash-free run. */
  ghost predicate CrashFree(p: Point, m: Memory) {
    MemoryFits(p, m) && DiskInv(p.disk, p.hist) && Rotated(p.hist, m.maxSegmentLen)
  }

  lemma OpenKeepsThreshold(d: Disk, max: nat)
    ensures OpenPlan(d, max).memory.maxSegmentLen == max
  {
    hide Recovered, SelectActive, ValidPosition, RecoverSteps, WriterSteps, DiskAfter, Retained;
  }

  /** Opening a directory that has a last segment adds none. */
  lemma OpenQuiet(d: Disk, max: nat)
    requires SelectActive(d.segs.Keys) in d.segs
    ensures var steps := OpenPlan(d, max).steps;
            forall i :: 0 <= i < |steps| ==> Quiet(steps[i])
  {
    hide Recovered, SelectActive, ValidPosition, Retained;
    var active := SelectActive(d.segs.Keys);
    var recover := RecoverSteps(d, active);
    assert active in DiskAfter(d, recover).segs by {
      if recover != [] {
        assert recover[1..] == [];
      }
    }
  }

  lemma ReopenKeeps(p: Point, m: Memory)
    requires CrashFree(p, m)
    ensures var pl := OpenPlan(p.disk, m.maxSegmentLen);
            pl.ok && CrashFree(RunSteps(p.(own := 0), pl.steps), pl.memory) &&
                pl.memory.maxSegmentLen == m.maxSegmentLen
  {
    hide MemoryFits, DiskInv, Rotated, RunSteps, StepsOk, OpenPlan, SelectActive, SegmentsFit, Flat;
    var max := m.maxSegmentLen;
    FitsShape(p, m);
    ActiveIsLast(p.disk, p.hist);
    OpenKeepsThreshold(p.disk, max);
    OpenOk(p.disk, p.hist, max);
    var q := Point(p.disk, p.hist, 0);
    StepsKeep(q, OpenPlan(p.disk, max).steps);
    OpenQuiet(p.disk, max);
    QuietOnly(q, OpenPlan(p.disk, max).steps, max);
  }

  lemma OperationKeeps(p: Point, m: Memory, op: Operation)
    requires CrashFree(p, m)
    ensures var pl := PlanOf(p.disk, m, op);
            CrashFree(RunSteps(p, pl.steps), pl.memory) && pl.memory.maxSegmentLen == m.maxSegmentLen
  {
    hide MemoryFits, DiskInv, Rotated, RunSteps, StepsOk, PlanOf, SegmentsFit, Flat, Durable;
    PlanOk(p, m, op);
    OperationRotates(p, m, op);
  }

  lemma {:induction false} EventsKeep(p: Point, m: Memory, events: seq<Event>)
    requires CrashFree(p, m)
    ensures CrashFree(After(p, m, events).0, After(p, m, events).1)
    ensures After(p, m, events).1.maxSegmentLen == m.maxSegmentLen
    decreases |events|
  {
    hide CrashFree, RunSteps, OpenPlan, PlanOf;
    if events != [] {
      match events[0]
      case Reopen =>
        ReopenKeeps(p, m);
        var pl := OpenPlan(p.disk, m.maxSegmentLen);
        EventsKeep(RunSteps(p.(own := 0), pl.steps), pl.memory, events[1..]);
      case Do(op) =>
        OperationKeeps(p, m, op);
        var pl := PlanOf(p.disk, m, op);
        EventsKeep(RunSteps(p, pl.steps), pl.memory, events[1..]);
    }
  }

  /** A new store holds one empty segment. */
  lemma NewStore(max: nat)
    requires 0 < max < U64_LIMIT
    ensures var pl := OpenPlan(EMPTY_DISK, max);
            CrashFree(RunSteps(Point(EMPTY_DISK, [], 0), pl.steps), pl.memory) && pl.memory.maxSegmentLen == max
  {
    hide MemoryFits, DiskInv, RunSteps, StepsOk, OpenPlan, Flat;
    var pl := OpenPlan(EMPTY_DISK, max);
    EmptyWorldInv();
    OpenOk(EMPTY_DISK, [], max);
    StepsKeep(Point(EMPTY_DISK, [], 0), pl.steps);
    OpenKeepsThreshold(EMPTY_DISK, max);
    NewHistory(max);
  }

  lemma NewHistory(max: nat)
    requires OpenPlan(EMPTY_DISK, max).ok
    ensures RunSteps(Point(EMPTY_DISK, [], 0), OpenPlan(EMPTY_DISK, max).steps).hist == [[]]
    ensures Rotated([[]], max)
  {
    EmptyFile();
    var p := Point(EMPTY_DISK, [], 0);
    var steps := OpenPlan(EMPTY_DISK, max).steps;
    assert steps == [CreateSegment(0), WriteHeader(0)];
    assert steps[1..] == [WriteHeader(0)];
    OneStep(NextPoint(p, CreateSegment(0)), WriteHeader(0));
    var none: History := [];
    assert none + [[]] == [[]];
  }

  ghost function TotalBytes(hist: History): nat
    requires HistoryOk(hist)
  {
    if hist == [] then 0 else TotalBytes(hist[..Last(hist)]) + |FileOf(hist[Last(hist)])|
  }

  lemma LastTwo(hist: History)
    requires HistoryOk(hist) && 2 <= |hist|
    ensures var n := |hist|;
            TotalBytes(hist) == TotalBytes(hist[..n - 2]) + |FileOf(hist[n - 2])| + |FileOf(hist[n - 1])|
  {
    hide FileOf, AllEncodable;
    var front := hist[..|hist| - 1];
    assert front[..|hist| - 2] == hist[..|hist| - 2];
  }

  lemma OneMore(n: nat, unit: nat, total: nat)
    requires n / 2 * unit <= total
    ensures (n + 2) / 2 * unit <= total + unit
  {
    assert (n + 2) / 2 == n / 2 + 1;
  }

  /** The number of segments ever opened is bounded by the bytes ever written. */
  lemma {:induction false} SegmentCount(hist: History, max: nat)
    requires Rotated(hist, max)
    ensures |hist| / 2 * (max + SEGMENT_HEADER_LEN + 1) <= TotalBytes(hist)
    decreases |hist|
  {
    hide FileOf, AllEncodable, TotalBytes;
    if 2 <= |hist| {
      var n := |hist|;
      LastTwo(hist);
      SegmentCount(hist[..n - 2], max);
      OneMore(n - 2, max + SEGMENT_HEADER_LEN + 1, TotalBytes(hist[..n - 2]));
      assert |FileOf(hist[n - 2])| + |FileOf(hist[n - 2 + 1])| > max + SEGMENT_HEADER_LEN;
    } else {
      assert |hist| / 2 == 0;
    }
  }

  /** A store under one threshold after a list of events without a crash. */
  ghost function StoreAfter(max: nat, events: seq<Event>): Point {
    var pl := OpenPlan(EMPTY_DISK, max);
    After(RunSteps(Point(EMPTY_DISK, [], 0), pl.steps), pl.memory, events).0
  }

  /** The rotation bound: whatever operations run on a new store, and however often it is
      reopened under the same threshold, no segment but a new store's only one is empty, two
      consecutive segments together exceed the threshold and a header, the bytes written bound
      the number of segments, and every segment longer than the threshold holds exactly one
      record, unless the store is still empty and the threshold is below a header. */
  lemma RotationBound(max: nat, events: seq<Event>)
    requires 0 < max < U64_LIMIT
    ensures var q := StoreAfter(max, events);
            && Rotated(q.hist, max)
            && (LongHoldOne(q.hist, max) <==> !(max < SEGMENT_HEADER_LEN && q.hist == [[]]))
            && |q.hist| / 2 * (max + SEGMENT_HEADER_LEN + 1) <= TotalBytes(q.hist)
            && forall id :: id in q.disk.segs ==>
                 id < |q.hist| && q.disk.segs[id].bytes == FileOf(q.hist[id])
  {
    hide Rotated, RunSteps, OpenPlan, PlanOf, After, FileOf, MemoryFits, DiskInv, LongHoldOne;
    NewStore(max);
    var pl := OpenPlan(EMPTY_DISK, max);
    var p := RunSteps(Point(EMPTY_DISK, [], 0), pl.steps);
    EventsKeep(p, pl.memory, events);
    var (q, m) := After(p, pl.memory, events);
    SegmentCount(q.hist, max);
    FilesAre(q, m);
    ExactlyOne(q.hist, max);
  }

  lemma ExactlyOne(hist: History, max: nat)
    requires Rotated(hist, max)
    ensures LongHoldOne(hist, max) <==> !(max < SEGMENT_HEADER_LEN && hist == [[]])
  {
    hide FileOf, Encodable;
    EmptyFile();
    if hist == [[]] {
      assert hist[0] == [];
    }
  }

  /** The thresholds for which a long segment always holds exactly one record are those that a
      header does not exceed; below, an empty store is the exception. */
  lemma OneRecordExactly(max: nat)
    requires 0 < max < U64_LIMIT
    ensures (forall events :: LongHoldOne(StoreAfter(max, events).hist, max)) <==> SEGMENT_HEADER_LEN <= max
    ensures StoreAfter(max, []).hist == [[]]
  {
    hide Rotated, RunSteps, OpenPlan, LongHoldOne, FileOf;
    NewStore(max);
    OpenSucceeds(max);
    NewHistory(max);
    forall events ensures LongHoldOne(StoreAfter(max, events).hist, max) <==>
                          !(max < SEGMENT_HEADER_LEN && StoreAfter(max, events).hist == [[]])
    {
      RotationBound(max, events);
    }
    assert LongHoldOne(StoreAfter(max, []).hist, max) <==> SEGMENT_HEADER_LEN <= max;
  }

  lemma OpenSucceeds(max: nat)
    requires 0 < max < U64_LIMIT
    ensures OpenPlan(EMPTY_DISK, max).ok
  {
    hide MemoryFits, DiskInv, RunSteps, StepsOk, OpenPlan, Flat;
    EmptyWorldInv();
    OpenOk(EMPTY_DISK, [], max);
  }

  lemma FilesAre(p: Point, m: Memory)
    requires MemoryFits(p, m)
    ensures SegmentsFit(p.disk, p.hist) && HistoryOk(p.hist)
    ensures forall id :: id in p.disk.segs ==> id < |p.hist| && p.disk.segs[id].bytes == FileOf(p.hist[id])
  {
    hide FileOf, Holds, Encodable;
    FitsShape(p, m);
    FitsParts(p, m);
  }
}
