/** Whole runs of the store: engines opening, operating and crashing, one after
    another on the same directory. Every reachable state can be opened, and then
    loads exactly what was not lost; nothing acknowledged is ever lost. */
module Runs {
  import opened Words
  import opened Records
  import opened Sorted
  import opened Wire
  import opened Codec
  import opened Encoding
  import opened Frames
  import opened NodeStates
  import opened Replay
  import opened Recovery
  import opened ReplayProofs
  import opened Disks
  import opened DurableSteps
  import opened Protocol

  // ---- opening ----------------------------------------------------------------------------

  /** `select_active_append_segment`: the greatest segment ID, or the first. */
  ghost function SelectActive(segs: set<SegmentId>): SegmentId {
    if segs == {} then 0 else AscendingIs(segs); Ascending(segs)[|segs| - 1]
  }

  /** A complete checkpoint of the node is at an offset of a segment file. */
  ghost predicate ValidAt(bytes: seq<byte>, n: NodeId, offset: nat) {
    && SEGMENT_HEADER_LEN <= |bytes| && bytes[..SEGMENT_HEADER_LEN] == SEGMENT_MAGIC
    && SEGMENT_HEADER_LEN <= offset <= |bytes|
    && match ReadFrame(bytes, offset)
       case Complete(body, _) =>
         (match Decode(body)
          case None => false
          case Some(r) => r.node == n && r.record.SnapshotCheckpoint?)
       case _ => false
  }

  ghost predicate CheckpointFrameAt(bytes: seq<byte>, n: NodeId, offset: nat, body: seq<byte>, c: Checkpoint) {
    && |body| <= 1024 * 1024 * 1024 && offset + 8 + |body| <= |bytes|
    && bytes[offset..offset + 8 + |body|] == FrameOf(body)
    && Decode(body) == Some(NodeRecord(n, SnapshotCheckpoint(c)))
  }

  /** An index entry is accepted exactly where the whole frame of a checkpoint of the node is. */
  lemma ValidExactly(bytes: seq<byte>, n: NodeId, offset: nat)
    ensures ValidAt(bytes, n, offset) <==>
              && 4 <= |bytes| && bytes[..4] == [0x53, 0x4B, 0x52, 0x31] && 4 <= offset <= |bytes|
              && exists body: seq<byte>, c: Checkpoint :: CheckpointFrameAt(bytes, n, offset, body, c)
  {
    hide ReadFrame, FrameOf, Decode;
    if 4 <= offset <= |bytes| {
      forall body: seq<byte>, c: Checkpoint | CheckpointFrameAt(bytes, n, offset, body, c)
        ensures ReadFrame(bytes, offset) == Complete(body, offset + 8 + |body|)
      {
        FrameExactly(bytes, offset, body, offset + 8 + |body|);
      }
      if ValidAt(bytes, n, offset) {
        var read := ReadFrame(bytes, offset);
        FrameExactly(bytes, offset, read.body, read.next);
        assert CheckpointFrameAt(bytes, n, offset, read.body, Decode(read.body).value.record.checkpoint);
      }
    }
  }

  /** `validate_checkpoint_position`. */
  ghost predicate ValidPosition(segs: Segments, n: NodeId, p: RecordPosition) {
    p.segment in segs && ValidAt(segs[p.segment], n, p.offset)
  }

  function Retained(index: Checkpoints, registry: Registry): Checkpoints {
    map n | n in index && IsActive(registry, n) :: index[n]
  }

  ghost function RecoverSteps(d: Disk, active: SegmentId): seq<Micro> {
    if active in d.segs && Recovered(d.segs[active].bytes, true).Some?
       && Recovered(d.segs[active].bytes, true).value != d.segs[active].bytes
    then [Truncate(active, |Recovered(d.segs[active].bytes, true).value|)]
    else []
  }

  ghost function WriterSteps(d: Disk, active: SegmentId): seq<Micro> {
    if active !in d.segs then [CreateSegment(active), WriteHeader(active)]
    else if d.segs[active].bytes == [] then [WriteHeader(active)]
    else []
  }

  /** `with_max_segment_len`. */
  ghost function OpenPlan(d: Disk, maxSegmentLen: nat): Plan {
    var active := SelectActive(d.segs.Keys);
    var none := Memory(map[], map[], active, 0, maxSegmentLen, 0, 0);
    if maxSegmentLen == 0 then Plan(false, [], none)
    else if exists id :: id in d.segs && Recovered(d.segs[id].bytes, id == active).None? then Plan(false, [], none)
    else
      var recover := RecoverSteps(d, active);
      var d1 := DiskAfter(d, recover);
      var index := Retained(d1.index, d1.registry);
      if exists n :: n in index && !ValidPosition(Contents(d1), n, index[n]) then Plan(false, recover, none)
      else
        var open := WriterSteps(d1, active);
        var d2 := DiskAfter(d1, open);
        var len := if active in d2.segs then |d2.segs[active].bytes| else 0;
        Plan(true, recover + open, Memory(d1.registry, index, active, len, maxSegmentLen, 0, 0))
  }

  // ---- opening always succeeds ---------------------------------------------------------------

  lemma ActiveIsLast(d: Disk, hist: History)
    requires SegmentsFit(d, hist)
    ensures hist != [] ==> SelectActive(d.segs.Keys) == Last(hist) && Last(hist) in d.segs
    ensures hist == [] ==> SelectActive(d.segs.Keys) == 0 && d.segs == map[]
  {
    hide FileOf, Holds, HistoryOk;
    if hist != [] {
      AscendingIs(d.segs.Keys);
      var ids := Ascending(d.segs.Keys);
      assert Last(hist) in ids;
      assert ids[|ids| - 1] in ids;
    }
  }

  /** Recovery of a file in use keeps exactly its whole records. */
  lemma RecoveredHeld(bytes: seq<byte>, rs: seq<NodeRecord>, allowPartial: bool)
    requires AllEncodable(rs) && Holds(bytes, rs) && (allowPartial || bytes == FileOf(rs))
    ensures Recovered(bytes, allowPartial)
         == Some(if |bytes| < SEGMENT_HEADER_LEN then [] else FileOf(rs))
    ensures SEGMENT_HEADER_LEN <= |bytes| ==> FileOf(rs) <= bytes
  {
    hide Encodable, Layout, PartOfFrame, ScanFrom;
    if FileOf(rs) <= bytes && PartOfFrame(bytes[|FileOf(rs)|..]) {
      ScanHeld(bytes, rs);
      assert bytes[..|FileOf(rs)|] == FileOf(rs);
    }
  }

  lemma RecoverAll(d: Disk, hist: History)
    requires SegmentsFit(d, hist) && hist != []
    ensures forall id :: id in d.segs ==> Recovered(d.segs[id].bytes, id == Last(hist)).Some?
  {
    hide Encodable, FileOf, Holds, Recovered, HistoryOk;
    forall id | id in d.segs ensures Recovered(d.segs[id].bytes, id == Last(hist)).Some? {
      KeyBound(d, hist, id);
      LastEncodable(d, hist);
      if id < Last(hist) {
        FileHolds(hist[id]);
      }
      RecoveredHeld(d.segs[id].bytes, hist[id], id == Last(hist));
    }
  }

  /** Every active node's index entry passes validation, at any crash point. */
  lemma EntryValidates(d: Disk, hist: History, n: NodeId, p: RecordPosition, k: nat)
    requires SegmentsFit(d, hist) && hist != [] && PointsAt(d, hist, n, p, k)
    ensures ValidPosition(Contents(d), n, p)
  {
    hide SegmentsFit, PointsAt, ValidAt;
    EntryPresent(d, hist, n, p, k);
    EntryStaysValid(d, hist, n, p, k, d.segs[p.segment].bytes);
  }

  lemma EntryPresent(d: Disk, hist: History, n: NodeId, p: RecordPosition, k: nat)
    requires SegmentsFit(d, hist) && PointsAt(d, hist, n, p, k)
    ensures p.segment in d.segs
  {
    hide SegmentsFit, OffsetOf;
  }

  /** It passes as well when the file has grown since. */
  lemma EntryStaysValid(d: Disk, hist: History, n: NodeId, p: RecordPosition, k: nat, seen: seq<byte>)
    requires SegmentsFit(d, hist) && hist != [] && PointsAt(d, hist, n, p, k)
    requires p.segment in d.segs && d.segs[p.segment].bytes <= seen
    ensures ValidAt(seen, n, p.offset)
  {
    hide Encodable, FileOf, Holds, Decode, Body, HistoryOk, OffsetOf, ReadFrame;
    LastEncodable(d, hist);
    var rs := hist[p.segment];
    FileBytes(d, hist, p.segment, k + 1, p);
    FrameAtOffset(seen, rs, k);
    DecodeBody(rs[k]);
  }

  lemma FileBytes(d: Disk, hist: History, id: SegmentId, k: nat, p: RecordPosition)
    requires SegmentsFit(d, hist) && id < |hist| && id in d.segs && k <= |hist[id]| && AllEncodable(hist[id])
    requires OffsetOf(hist[id], k) <= d.segs[id].durable
    ensures FileOf(hist[id]) <= d.segs[id].bytes
  {
    hide Encodable, Layout, Body, HistoryOk;
    if id == Last(hist) {
      LastBound(d, hist);
      HeldLength(d.segs[id].bytes, hist[id]);
    }
  }

  /** Record `k` of a file reads back at its offset. */
  lemma FrameAtOffset(bytes: seq<byte>, rs: seq<NodeRecord>, k: nat)
    requires AllEncodable(rs) && k < |rs| && FileOf(rs) <= bytes
    ensures ReadFrame(bytes, OffsetOf(rs, k)) == Complete(Body(rs[k]), OffsetOf(rs, k + 1))
    ensures SEGMENT_HEADER_LEN <= OffsetOf(rs, k) <= |bytes| && bytes[..SEGMENT_HEADER_LEN] == SEGMENT_MAGIC
  {
    hide Encodable, Layout, Body, FrameOf, ReadFrame;
    FilePrefix(rs, k);
    FilePrefix(rs, k + 1);
    assert rs[..k + 1] == rs[..k] + [rs[k]];
    FileAppend(rs[..k], rs[k]);
    EncodableSmall(rs[k]);
    FrameIsOf(rs[k]);
    var pre, post := FileOf(rs[..k]), bytes[|FileOf(rs[..k + 1])|..];
    assert bytes == FileOf(rs[..k + 1]) + post;
    FrameReadsBack(pre, Body(rs[k]), post);
  }

  lemma FrameIsOf(r: NodeRecord)
    requires Encodable(r)
    ensures |Body(r)| <= MAX_RECORD_BODY_LEN && Encoding.Frame(r) == FrameOf(Body(r))
  {
  }

  /** After recovery the last file is empty or holds complete records only. */
  ghost predicate Repaired(d: Disk, hist: History)
    requires SegmentsFit(d, hist)
  {
    hist != [] ==> d.segs[Last(hist)].bytes == [] || Settled(d, hist)
  }

  lemma RecoverOk(p: Point)
    requires DiskInv(p.disk, p.hist) && SegmentsFit(p.disk, p.hist)
    ensures var steps := RecoverSteps(p.disk, SelectActive(p.disk.segs.Keys));
            var q := RunSteps(p, steps);
            && StepsOk(p, steps) && DiskInv(q.disk, q.hist) && SegmentsFit(q.disk, q.hist) && Repaired(q.disk, q.hist)
            && q.hist == p.hist && q.own == p.own
            && q.disk == p.disk.(segs := q.disk.segs) && q.disk.segs.Keys == p.disk.segs.Keys
  {
    hide SegmentsFit, DiskInv, FileOf, Holds, Encodable, SelectActive, Recovered;
    ActiveIsLast(p.disk, p.hist);
    if p.hist != [] {
      LastBound(p.disk, p.hist);
      var id, f := Last(p.hist), p.disk.segs[Last(p.hist)];
      RecoveredHeld(f.bytes, p.hist[id], true);
      var steps := RecoverSteps(p.disk, id);
      if steps != [] {
        var step := Truncate(id, |Recovered(f.bytes, true).value|);
        TruncateOk(p, step);
        OneStep(p, step);
      }
    }
  }

  lemma TruncateOk(p: Point, step: Micro)
    requires DiskInv(p.disk, p.hist) && SegmentsFit(p.disk, p.hist) && p.hist != [] && step.Truncate? &&
        step.id == Last(p.hist)
    requires Last(p.hist) in p.disk.segs && AllEncodable(p.hist[step.id])
    requires var bytes := p.disk.segs[step.id].bytes;
             step.len == |if |bytes| < SEGMENT_HEADER_LEN then [] else FileOf(p.hist[step.id])|
    ensures var q := NextPoint(p, step);
            && MicroOk(p.disk, p.hist, step) && DiskInv(q.disk, q.hist) && SegmentsFit(q.disk, q.hist) &&
                Repaired(q.disk, q.hist)
            && q.hist == p.hist && q.own == p.own
            && q.disk == p.disk.(segs := q.disk.segs) && q.disk.segs.Keys == p.disk.segs.Keys
  {
    hide SegmentsFit, DiskInv, FileOf, Holds, Encodable, Survives;
    var q := NextPoint(p, step);
    assert MicroOk(p.disk, p.hist, step);
    StepKeeps(p.disk, p.hist, step);
    SurvivesInv(p.disk, p.hist, q.disk, q.hist);
    StepFits(p.disk, p.hist, step);
    LastBound(p.disk, p.hist);
    HeldLength(p.disk.segs[step.id].bytes, p.hist[step.id]);
    var bytes := p.disk.segs[step.id].bytes;
    if |bytes| < SEGMENT_HEADER_LEN {
      assert bytes[..0] == [];
    } else {
      assert bytes[..|FileOf(p.hist[step.id])|] == FileOf(p.hist[step.id]);
    }
  }

  lemma OpenWriterOk(p: Point)
    requires DiskInv(p.disk, p.hist) && SegmentsFit(p.disk, p.hist) && Repaired(p.disk, p.hist) && p.own == 0
    ensures var active := SelectActive(p.disk.segs.Keys);
            var steps := WriterSteps(p.disk, active);
            var q := RunSteps(p, steps);
            && StepsOk(p, steps) && SegmentsFit(q.disk, q.hist) && q.hist != [] && active == Last(q.hist)
            && active in q.disk.segs && Settled(q.disk, q.hist) && Flat(q.hist) == Flat(p.hist) && q.own == 0
            && q.disk == p.disk.(segs := q.disk.segs)
  {
    hide SegmentsFit, DiskInv, FileOf, Holds, Encodable, SelectActive, Flat, MicroOk, ApplyMicro, Settled;
    ActiveIsLast(p.disk, p.hist);
    var active := SelectActive(p.disk.segs.Keys);
    var header := WriteHeader(active);
    if p.hist == [] {
      var create := CreateSegment(active);
      FirstSegmentOk(p);
      var p1 := NextPoint(p, create);
      HeaderStepOk(p1, active);
      OneStep(p1, header);
      assert [create, header][1..] == [header];
      StepHistory(p.hist, create);
      assert Flat(p.hist) + [] == Flat(p.hist);
    } else if p.disk.segs[active].bytes == [] {
      HeaderAllowed(p, active);
      HeaderStepOk(p, active);
      OneStep(p, header);
    }
  }

  lemma HeaderAllowed(p: Point, id: SegmentId)
    requires SegmentsFit(p.disk, p.hist) && p.hist != [] && id == Last(p.hist) && id in p.disk.segs
    requires p.disk.segs[id].bytes == []
    ensures MicroOk(p.disk, p.hist, WriteHeader(id))
  {
    hide SegmentsFit, FileOf, Holds;
  }

  /** The very first segment of a store. */
  lemma FirstSegmentOk(p: Point)
    requires SegmentsFit(p.disk, p.hist) && p.hist == []
    ensures var q := NextPoint(p, CreateSegment(0));
            && MicroOk(p.disk, p.hist, CreateSegment(0)) && MicroOk(q.disk, q.hist, WriteHeader(0))
            && q.hist == [[]] && q.own == p.own && q.disk == p.disk.(segs := q.disk.segs)
  {
    hide FileOf, Holds, Encodable;
    assert MicroOk(p.disk, p.hist, CreateSegment(0));
    CreateFits(p.disk, p.hist, CreateSegment(0));
  }

  lemma EmptyHistoryDurable(d: Disk, hist: History)
    requires SegmentsFit(d, hist)
    ensures Durable(d, hist, 0)
  {
    hide SegmentsFit, FileOf;
  }

  lemma IndexValidates(d: Disk, hist: History)
    requires DiskInv(d, hist) && SegmentsFit(d, hist)
    ensures forall n :: n in Retained(d.index, d.registry) ==>
        ValidPosition(Contents(d), n, Retained(d.index, d.registry)[n])
    ensures forall n :: IsActive(d.registry, n) ==> n in d.index
  {
    hide SegmentsFit, PointsAt, ValidPosition;
    IndexFitsIs(d, hist);
    forall n | IsActive(d.registry, n) ensures n in d.index && ValidPosition(Contents(d), n, d.index[n]) {
      var k :| PointsAt(d, hist, n, d.index[n], k);
      EntryHistory(d, hist, n, d.index[n], k);
      EntryValidates(d, hist, n, d.index[n], k);
    }
  }

  lemma EntryHistory(d: Disk, hist: History, n: NodeId, p: RecordPosition, k: nat)
    requires SegmentsFit(d, hist) && PointsAt(d, hist, n, p, k)
    ensures hist != []
  {
    hide SegmentsFit, OffsetOf;
  }

  /** Opening succeeds at every point a crash can leave, keeps every record, and leaves an
      engine whose memory agrees with the directory. */
  lemma OpenOk(d: Disk, hist: History, maxSegmentLen: nat)
    requires DiskInv(d, hist) && 0 < maxSegmentLen < U64_LIMIT
    ensures var pl := OpenPlan(d, maxSegmentLen);
            var p := Point(d, hist, 0);
            var q := RunSteps(p, pl.steps);
            pl.ok && PlanFits(p, pl) && Flat(q.hist) == Flat(hist) && q.own == 0
  {
    hide SegmentsFit, DiskInv, FileOf, Holds, Encodable, SelectActive, Flat, MicroOk, StepsOk, RunSteps, RecoverSteps,
         WriterSteps, Recovered, Repaired, Settled, Retained, ValidPosition, DiskAfter, Durable, MetadataFits;
    IndexFitsIs(d, hist);
    ActiveIsLast(d, hist);
    var p := Point(d, hist, 0);
    var active := SelectActive(d.segs.Keys);
    if hist != [] {
      RecoverAll(d, hist);
    }
    var recover := RecoverSteps(d, active);
    var p1 := RunSteps(p, recover);
    RecoverOk(p);
    RunDisk(p, recover);
    IndexValidates(p1.disk, p1.hist);
    var open := WriterSteps(p1.disk, active);
    OpenWriterOk(p1);
    RunDisk(p1, open);
    RunConcat(p, recover, open);
    var q := RunSteps(p1, open);
    EmptyHistoryDurable(q.disk, q.hist);
    RetainedFits(p1.disk, p1.hist, q.disk, OpenPlan(d, maxSegmentLen).memory);
    OpenedFits(q, OpenPlan(d, maxSegmentLen).memory);
  }

  lemma RetainedFits(d: Disk, hist: History, d': Disk, m: Memory)
    requires DiskInv(d, hist) && SegmentsFit(d, hist) && d' == d.(segs := d'.segs)
    requires m.registry == d.registry && m.index == Retained(d.index, d.registry) && 0 < m.maxSegmentLen < U64_LIMIT
    ensures MetadataFits(d', m)
  {
    hide DiskInv, SegmentsFit, ValidPosition;
    IndexValidates(d, hist);
  }

  lemma OpenedFits(q: Point, m: Memory)
    requires SegmentsFit(q.disk, q.hist) && q.hist != [] && m.active == Last(q.hist) && m.active in q.disk.segs
    requires Settled(q.disk, q.hist) && m.segmentLen == |q.disk.segs[m.active].bytes|
    requires MetadataFits(q.disk, m) && q.own == 0 && Durable(q.disk, q.hist, 0)
    ensures MemoryFits(q, m)
  {
    hide SegmentsFit, Settled, MetadataFits, Durable, Flat;
  }

  // ---- runs ------------------------------------------------------------------------------------

  /** An engine between operations, or with the rest of one still to do. */
  datatype Engine =
    | Idle(memory: Memory)
    | Busy(todo: seq<Micro>, next: Memory, acknowledge: bool)

  /** The directory, its history, the number of records acknowledged as durable so far, and
      the engine that has it open, if any. */
  datatype World = World(at: Point, acknowledged: nat, engine: Option<Engine>)

  const EMPTY_WORLD: World := World(Point(EMPTY_DISK, [], 0), 0, None)

  ghost predicate Opens(w: World, w': World) {
    && w.engine.None?
    && exists maxSegmentLen: u64 ::
         var pl := OpenPlan(w.at.disk, maxSegmentLen);
         pl.ok && w' == World(w.at.(own := 0), w.acknowledged, Some(Busy(pl.steps, pl.memory, false)))
  }

  /** Checkpoints are saved with `save_snapshot` only. */
  predicate IsCallable(op: Operation) {
    op.SaveRecord? ==> !op.record.SnapshotCheckpoint?
  }

  ghost predicate Begins(w: World, w': World, op: Operation) {
    && w.engine.Some? && w.engine.value.Idle? && IsCallable(op)
    && var pl := PlanOf(w.at.disk, w.engine.value.memory, op);
       w' == w.(engine := Some(Busy(pl.steps, pl.memory, pl.ok && Acknowledges(op))))
  }

  ghost predicate TakesStep(w: World, w': World) {
    && w.engine.Some? && w.engine.value.Busy? && w.engine.value.todo != []
    && var e := w.engine.value;
       w' == w.(at := NextPoint(w.at, e.todo[0]), engine := Some(e.(todo := e.todo[1..])))
  }

  ghost predicate Returns(w: World, w': World) {
    && w.engine.Some? && w.engine.value.Busy? && w.engine.value.todo == []
    && var e := w.engine.value;
       w' == World(w.at, if e.acknowledge &&
           w.acknowledged < w.at.own then w.at.own else w.acknowledged, Some(Idle(e.next)))
  }

  /** The step a crash may cut short. */
  ghost predicate CutShort(w: World, t: seq<byte>) {
    t == [] || (w.engine.Some? && w.engine.value.Busy? && w.engine.value.todo != [] &&
        PartWritten(w.engine.value.todo[0], t))
  }

  /** What a crash leaves: the last file with the first `len` bytes of what was written to it, and
      any of the deleted files again. */
  ghost function CrashPoint(w: World, t: seq<byte>, len: nat, back: set<SegmentId>): Point
    requires w.at.hist != [] && Last(w.at.hist) in w.at.disk.segs && len <= |w.at.disk.segs[Last(w.at.hist)].bytes + t|
  {
    var hist := CrashHistory(w.at.hist, len);
    Point(BroughtBack(CrashDisk(w.at.disk, Last(w.at.hist), t, len), hist, back), hist, 0)
  }

  /** A crash with the last file kept up to some length: all of it when only the process
      stops, any part from the durable length on when power is lost. Files whose deletion is not
      durable yet may be back; any deleted file is allowed to be. */
  ghost predicate Crashes(w: World, w': World) {
    if w.at.hist == [] then w' == w.(engine := None)
    else
      var last := Last(w.at.hist);
      && last in w.at.disk.segs
      && exists t: seq<byte>, len: nat, back: set<SegmentId> ::
           && CutShort(w, t)
           && w.at.disk.segs[last].durable <= len <= |w.at.disk.segs[last].bytes + t|
           && w' == World(CrashPoint(w, t, len, back), w.acknowledged, None)
  }

  ghost predicate Next(w: World, w': World) {
    Opens(w, w') || (exists op :: Begins(w, w', op)) || TakesStep(w, w') || Returns(w, w') || Crashes(w, w')
  }

  ghost predicate IsRun(run: seq<World>) {
    && run != [] && run[0] == EMPTY_WORLD
    && forall i :: 0 <= i < |run| - 1 ==> Next(run[i], run[i + 1])
  }

  // ---- what every run keeps ---------------------------------------------------------------------

  ghost predicate EngineInv(w: World) {
    match w.engine
    case None => true
    case Some(Idle(m)) => MemoryFits(w.at, m)
    case Some(Busy(todo, m, acknowledge)) =>
      var end := RunSteps(w.at, todo);
      && StepsOk(w.at, todo) && MemoryFits(end, m) && SegmentsFit(end.disk, end.hist)
      && (acknowledge ==> Durable(end.disk, end.hist, end.own))
  }

  ghost predicate WorldInv(w: World) {
    && SegmentsFit(w.at.disk, w.at.hist) && DiskInv(w.at.disk, w.at.hist)
    && Durable(w.at.disk, w.at.hist, w.acknowledged)
    && EngineInv(w)
  }

  lemma EmptyWorldInv()
    ensures WorldInv(EMPTY_WORLD)
  {
  }

  lemma OpensKeeps(w: World, w': World)
    requires WorldInv(w) && Opens(w, w')
    ensures WorldInv(w')
  {
    hide SegmentsFit, DiskInv, Durable, MemoryFits, StepsOk, RunSteps, OpenPlan;
    var maxSegmentLen: u64 :| var pl := OpenPlan(w.at.disk, maxSegmentLen);
         pl.ok && w' == World(w.at.(own := 0), w.acknowledged, Some(Busy(pl.steps, pl.memory, false)));
    ZeroLength(w.at.disk);
    OpenOk(w.at.disk, w.at.hist, maxSegmentLen);
    FitsShape(RunSteps(w'.at, OpenPlan(w.at.disk, maxSegmentLen).steps), OpenPlan(w.at.disk, maxSegmentLen).memory);
  }

  /** A store cannot be opened with a maximum segment length of zero. */
  lemma ZeroLength(d: Disk)
    ensures !OpenPlan(d, 0).ok
  {
    hide Recovered, ValidPosition, RecoverSteps, WriterSteps, DiskAfter, SelectActive;
  }

  lemma BeginsKeeps(w: World, w': World, op: Operation)
    requires WorldInv(w) && Begins(w, w', op)
    ensures WorldInv(w')
  {
    hide SegmentsFit, DiskInv, Durable, MemoryFits, StepsOk, RunSteps, PlanOf, Flat;
    PlanOk(w.at, w.engine.value.memory, op);
  }

  lemma TakesStepKeeps(w: World, w': World)
    requires WorldInv(w) && TakesStep(w, w')
    ensures WorldInv(w')
    ensures Flat(w.at.hist) <= Flat(w'.at.hist)
  {
    hide SegmentsFit, DiskInv, Durable, MemoryFits, MicroOk, Flat, ApplyMicro, ApplyHistory;
    var step := w.engine.value.todo[0];
    StepKeeps(w.at.disk, w.at.hist, step);
    SurvivesDurable(w.at.disk, w.at.hist, w'.at.disk, w'.at.hist, w.acknowledged);
  }

  lemma ReturnsKeeps(w: World, w': World)
    requires WorldInv(w) && Returns(w, w')
    ensures WorldInv(w')
  {
    hide SegmentsFit, DiskInv, Durable, MemoryFits, Flat;
  }

  lemma CrashesKeeps(w: World, w': World)
    requires WorldInv(w) && Crashes(w, w')
    ensures WorldInv(w') && w'.engine.None?
    ensures Flat(w'.at.hist) <= Flat(w.at.hist) && w.acknowledged <= |Flat(w'.at.hist)|
  {
    hide SegmentsFit, DiskInv, Durable, MemoryFits, Flat, MicroOk, PartWritten, InFlight, CrashHistory, BroughtBack;
    if w.at.hist == [] {
      DurableBound(w.at.disk, w.at.hist, w.acknowledged);
    } else {
      var last := Last(w.at.hist);
      var t: seq<byte>, len: nat, back: set<SegmentId> :|
           && CutShort(w, t)
           && w.at.disk.segs[last].durable <= len <= |w.at.disk.segs[last].bytes + t|
           && w' == World(CrashPoint(w, t, len, back), w.acknowledged, None);
      LastEncodable(w.at.disk, w.at.hist);
      if t == [] {
        NothingInFlight(w.at.disk.segs[last].bytes, w.at.hist[last]);
      } else {
        PartIsInFlight(w.at.disk, w.at.hist, w.engine.value.todo[0], t);
      }
      var d, hist := CrashDisk(w.at.disk, last, t, len), CrashHistory(w.at.hist, len);
      CrashKeeps(w.at.disk, w.at.hist, t, len);
      SurvivesDurable(w.at.disk, w.at.hist, d, hist, w.acknowledged);
      StillThere(w.at.hist, len);
      BackKeeps(d, hist, back);
      IndexFitsIs(w'.at.disk, w'.at.hist);
    }
  }

  lemma StillThere(hist: History, len: nat)
    requires hist != []
    ensures CrashHistory(hist, len) != []
  {
  }

  lemma NothingInFlight(bytes: seq<byte>, rs: seq<NodeRecord>)
    requires AllEncodable(rs)
    ensures InFlight(bytes, rs, [])
  {
  }

  /** One step of a run keeps the invariant. The history only grows, except that a crash may
      drop records at its end; acknowledged records are never dropped. */
  lemma NextKeeps(w: World, w': World)
    requires WorldInv(w) && Next(w, w')
    ensures WorldInv(w')
    ensures Flat(w.at.hist) <= Flat(w'.at.hist)
            || (Crashes(w, w') && Flat(w'.at.hist) <= Flat(w.at.hist) && w.acknowledged <= |Flat(w'.at.hist)|)
    ensures w.acknowledged <= w'.acknowledged <= |Flat(w'.at.hist)|
  {
    hide SegmentsFit, DiskInv, Durable, Flat, EngineInv, Opens, Begins, TakesStep, Returns, Crashes;
    if Opens(w, w') {
      OpensKeeps(w, w');
      SameHistory(w, w');
    } else if exists op :: Begins(w, w', op) {
      var op :| Begins(w, w', op);
      BeginsKeeps(w, w', op);
      SameHistory(w, w');
    } else if TakesStep(w, w') {
      TakesStepKeeps(w, w');
      SameHistory(w, w');
    } else if Returns(w, w') {
      ReturnsKeeps(w, w');
      SameHistory(w, w');
    } else {
      CrashesKeeps(w, w');
      SameHistory(w, w');
    }
    DurableBound(w'.at.disk, w'.at.hist, w'.acknowledged);
  }

  lemma SameHistory(w: World, w': World)
    requires Next(w, w')
    ensures w.acknowledged <= w'.acknowledged
    ensures Opens(w, w') || (exists op :: Begins(w, w', op)) || Returns(w, w') ==> w'.at.hist == w.at.hist
  {
    hide OpenPlan, PlanOf, CrashPoint, ApplyMicro, ApplyHistory;
  }

  lemma {:induction false} RunKeeps(run: seq<World>, i: nat)
    requires IsRun(run) && i < |run|
    ensures WorldInv(run[i])
    decreases i
  {
    hide WorldInv, Next;
    if i == 0 {
      EmptyWorldInv();
    } else {
      RunKeeps(run, i - 1);
      NextKeeps(run[i - 1], run[i]);
    }
  }

  // ---- main results -------------------------------------------------------------------------------

  /** What `load` returns for an active node of an engine. */
  ghost function Load(d: Disk, m: Memory, n: NodeId): Option<State> {
    ReplayNode(Contents(d), m.active, n, PositionFor(m.index, n))
  }

  /** What `load_all` returns. */
  ghost function LoadAllNodes(d: Disk, m: Memory): Option<States> {
    LoadAll(Contents(d), m.active, ActiveNodes(m.registry), HintsFor(m.index, ActiveNodes(m.registry)))
  }

  /** In every state of every run, crash points included, every active node of the registry
      file has an index entry that points at a durable checkpoint record of its own, and
      validation of the index accepts the directory. */
  lemma IndexAlwaysValid(run: seq<World>, i: nat)
    requires IsRun(run) && i < |run|
    ensures var d, hist := run[i].at.disk, run[i].at.hist;
            && SegmentsFit(d, hist)
            && (forall n :: IsActive(d.registry, n) ==> n in d.index && exists k :: PointsAt(d, hist, n, d.index[n], k))
            && (forall n :: n in Retained(d.index, d.registry) ==> ValidPosition(Contents(d), n, d.index[n]))
  {
    hide SegmentsFit, PointsAt, ValidPosition, EngineInv, Durable;
    RunKeeps(run, i);
    IndexFitsIs(run[i].at.disk, run[i].at.hist);
    IndexValidates(run[i].at.disk, run[i].at.hist);
  }

  /** Every state of every run can be opened, whatever the segment length. */
  lemma AlwaysOpens(run: seq<World>, i: nat, maxSegmentLen: u64)
    requires IsRun(run) && i < |run| && maxSegmentLen > 0
    ensures OpenPlan(run[i].at.disk, maxSegmentLen).ok
  {
    hide DiskInv, SegmentsFit, EngineInv, Durable, OpenPlan, StepsOk, RunSteps, MemoryFits, Flat;
    RunKeeps(run, i);
    OpenOk(run[i].at.disk, run[i].at.hist, maxSegmentLen);
  }

  lemma LoadIsNaive(p: Point, m: Memory, n: NodeId)
    requires MemoryFits(p, m) && DiskInv(p.disk, p.hist) && IsActive(m.registry, n)
    ensures Load(p.disk, m, n) == Naive(Flat(p.hist), n)
  {
    hide DiskInv, SegmentsFit, Durable, Flat, ReplayNode, Naive, Settled, MemoryFits, ValidHint, WellFormed,
         StoredRecords;
    FitsShape(p, m);
    ActiveNodeReads(p.disk, p.hist, n);
  }

  /** An engine between operations loads, for every active node, exactly the fold of its records
      in the history, from its last checkpoint: state or error. */
  lemma LoadsHistory(run: seq<World>, i: nat, n: NodeId)
    requires IsRun(run) && i < |run| && run[i].engine.Some? && run[i].engine.value.Idle?
    requires IsActive(run[i].engine.value.memory.registry, n)
    ensures Load(run[i].at.disk, run[i].engine.value.memory, n) == Naive(Flat(run[i].at.hist), n)
  {
    hide DiskInv, SegmentsFit, Durable, Flat, Load, Naive, MemoryFits;
    RunKeeps(run, i);
    LoadIsNaive(run[i].at, run[i].engine.value.memory, n);
  }

  /** Reopening after a crash gives an engine that loads exactly the fold of what survived, which
      is a prefix of the history that holds every acknowledged record. */
  lemma CrashRecovers(run: seq<World>, i: nat, w: World, maxSegmentLen: u64, n: NodeId)
    requires IsRun(run) && i < |run| && Crashes(run[i], w) && maxSegmentLen > 0
    ensures Flat(w.at.hist) <= Flat(run[i].at.hist) && run[i].acknowledged <= |Flat(w.at.hist)|
    ensures var pl := OpenPlan(w.at.disk, maxSegmentLen);
            var reopened := RunSteps(Point(w.at.disk, w.at.hist, 0), pl.steps);
            && pl.ok
            && (IsActive(pl.memory.registry, n) ==> Load(reopened.disk, pl.memory, n) == Naive(Flat(w.at.hist), n))
  {
    hide DiskInv, SegmentsFit, Durable, Flat, Load, Naive, MemoryFits, EngineInv, OpenPlan, StepsOk, RunSteps, Crashes;
    RunKeeps(run, i);
    CrashesKeeps(run[i], w);
    OpenOk(w.at.disk, w.at.hist, maxSegmentLen);
    var pl := OpenPlan(w.at.disk, maxSegmentLen);
    var p := Point(w.at.disk, w.at.hist, 0);
    StepsKeep(p, pl.steps);
    if IsActive(pl.memory.registry, n) {
      LoadIsNaive(RunSteps(p, pl.steps), pl.memory, n);
    }
  }
}
