/** What follows from the directory invariant for callers: loading all nodes,
    garbage collection that cannot be observed, the exact strength of `sync`,
    and the order and stability of record positions. */
module Consequences {
  import opened Words
  import opened Records
  import opened Codec
  import opened Frames
  import opened NodeStates
  import opened Replay
  import opened ReplayProofs
  import opened Disks
  import opened DurableSteps
  import opened Protocol
  import opened Runs

  // ---- loading ---------------------------------------------------------------------------

  lemma HintsValid(p: Point, m: Memory)
    requires MemoryFits(p, m) && DiskInv(p.disk, p.hist)
    ensures ValidHints(Contents(p.disk), m.active, ActiveNodes(m.registry), HintsFor(m.index, ActiveNodes(m.registry)))
    ensures m.active == Last(p.hist) && p.hist != []
    ensures forall n :: n in ActiveNodes(m.registry) ==>
              WellFormed(Contents(p.disk), m.active) &&
                  Naive(StoredRecords(Contents(p.disk), m.active), n) == Naive(Flat(p.hist), n)
  {
    hide DiskInv, SegmentsFit, Durable, Flat, ReplayNode, Naive, Settled, MemoryFits, ValidHint, WellFormed,
         StoredRecords;
    FitsShape(p, m);
    forall n | n in ActiveNodes(m.registry)
      ensures n in m.index && ValidHint(Contents(p.disk), m.active, n, m.index[n])
      ensures WellFormed(Contents(p.disk), m.active) &&
          Naive(StoredRecords(Contents(p.disk), m.active), n) == Naive(Flat(p.hist), n)
    {
      assert IsActive(m.registry, n);
      ActiveNodeReads(p.disk, p.hist, n);
    }
  }

  /** `load_all` succeeds iff every active node's history folds without error, and then returns
      exactly those states. */
  lemma LoadAllIsHistory(p: Point, m: Memory)
    requires MemoryFits(p, m) && DiskInv(p.disk, p.hist)
    ensures var r := LoadAllNodes(p.disk, m);
            var nodes := ActiveNodes(m.registry);
            && (r.Some? <==> forall n :: n in nodes ==> Naive(Flat(p.hist), n).Some?)
            && (r.Some? ==> r.value.Keys == nodes && forall n :: n in nodes ==>
                Naive(Flat(p.hist), n) == Some(r.value[n]))
  {
    hide DiskInv, Flat, LoadAll, Naive, MemoryFits, ValidHints, WellFormed, StoredRecords;
    HintsValid(p, m);
    var nodes := ActiveNodes(m.registry);
    if nodes == {} {
      NoNodes(Contents(p.disk), m.active, HintsFor(m.index, ActiveNodes(m.registry)));
    } else {
      var n :| n in nodes;
      LoadAllIsNaive(Contents(p.disk), m.active, nodes, HintsFor(m.index, ActiveNodes(m.registry)));
    }
  }

  lemma NoNodes(segs: Segments, active: SegmentId, hints: Option<Checkpoints>)
    ensures LoadAll(segs, active, {}, hints) == Some(map[])
  {
  }

  /** Whatever a load returns satisfies the state invariant: its payloads are those of the
      command entries in its log, and its log starts where its snapshot ends. */
  lemma LoadedState(p: Point, m: Memory, n: NodeId)
    requires MemoryFits(p, m) && DiskInv(p.disk, p.hist) && IsActive(m.registry, n) && Load(p.disk, m, n).Some?
    ensures StateInv(Load(p.disk, m, n).value)
  {
    hide DiskInv, Flat, Load, MemoryFits, Fold, StateInv;
    LoadIsNaive(p, m, n);
    DefaultInv(0, None);
    FoldKeepsInv(DEFAULT_STATE, FromLastCheckpoint(OwnRecords(Flat(p.hist), n)));
  }

  // ---- garbage collection cannot be observed -------------------------------------------------

  function Without(d: Disk, ids: set<SegmentId>): Disk {
    d.(segs := d.segs - ids)
  }

  lemma {:induction false} DeleteSome(p: Point, m: Memory, ids: set<SegmentId>)
    requires MemoryFits(p, m) && DiskInv(p.disk, p.hist)
    requires forall id :: id in ids ==> id != m.active && Collectable(m, id)
    ensures MemoryFits(p.(disk := Without(p.disk, ids)), m) && DiskInv(Without(p.disk, ids), p.hist)
    decreases ids
  {
    hide DiskInv, MemoryFits, Collectable;
    if ids == {} {
      assert Without(p.disk, ids) == p.disk;
    } else {
      var id :| id in ids;
      var q := p;
      if id in p.disk.segs {
        DeleteStepOk(p, m, id);
        q := NextPoint(p, DeleteSegment(id));
      }
      DeleteSome(q, m, ids - {id});
      assert Without(q.disk, ids - {id}).segs == Without(p.disk, ids).segs;
    }
  }

  /** Deleting any of the segments the barrier allows, all or only some of them, changes neither
      what any active node loads nor which segment is active on the next open. */
  lemma CollectionInvisible(p: Point, m: Memory, ids: set<SegmentId>, n: NodeId)
    requires MemoryFits(p, m) && DiskInv(p.disk, p.hist)
    requires forall id :: id in ids ==> id != m.active && Collectable(m, id)
    ensures IsActive(m.registry, n) ==> Load(Without(p.disk, ids), m, n) == Load(p.disk, m, n)
    ensures LoadAllNodes(Without(p.disk, ids), m) == LoadAllNodes(p.disk, m)
    ensures SelectActive(Without(p.disk, ids).segs.Keys) == SelectActive(p.disk.segs.Keys) == m.active
  {
    hide DiskInv, MemoryFits, Collectable, Load, LoadAllNodes, SegmentsFit, Naive, Flat, SelectActive, Durable;
    var q := p.(disk := Without(p.disk, ids));
    DeleteSome(p, m, ids);
    FitsShape(p, m);
    FitsShape(q, m);
    if IsActive(m.registry, n) {
      LoadIsNaive(p, m, n);
      LoadIsNaive(q, m, n);
    }
    LoadAllIsHistory(p, m);
    LoadAllIsHistory(q, m);
    var a, b := LoadAllNodes(p.disk, m), LoadAllNodes(q.disk, m);
    if a.Some? {
      assert a.value == b.value;
    }
    ActiveIsLast(p.disk, p.hist);
    ActiveIsLast(q.disk, q.hist);
  }

  // ---- what `sync` makes durable ----------------------------------------------------------------

  /** Everything in the history is durable. */
  ghost predicate AllIsDurable(p: Point)
    requires SegmentsFit(p.disk, p.hist)
  {
    Durable(p.disk, p.hist, |Flat(p.hist)|)
  }

  /** After `sync` everything is durable exactly when it had something of its own to write back,
      or everything was durable before: it does not reach records left by an earlier instance. */
  lemma SyncReaches(p: Point, m: Memory)
    requires MemoryFits(p, m)
    ensures var q := RunSteps(p, SyncPlan(m).steps);
            && SegmentsFit(p.disk, p.hist) && SegmentsFit(q.disk, q.hist)
            && (AllIsDurable(q) <==> Unsynced(m) || AllIsDurable(p))
            && Durable(q.disk, q.hist, q.own)
  {
    hide MemoryFits, SegmentsFit, Durable, Flat, MicroOk, Settled;
    FitsShape(p, m);
    SyncPlanOk(p, m);
    NoSteps(p, m, true);
    if Unsynced(m) {
      SyncStepOk(p, m);
      OneStep(p, SyncData(m.active));
      var q := NextPoint(p, SyncData(m.active));
      FitsShape(q, Synced(m));
      SettledIs(q.disk, q.hist, Synced(m), q.own);
      AllDurable(q.disk, q.hist, |Flat(q.hist)|);
    }
  }

  // ---- positions ------------------------------------------------------------------------------------

  lemma {:induction false} OffsetsIncrease(rs: seq<NodeRecord>, j: nat, k: nat)
    requires AllEncodable(rs) && j < k <= |rs|
    ensures OffsetOf(rs, j) < OffsetOf(rs, k)
    decreases k
  {
    hide Encodable, FileOf, Body;
    OffsetStep(rs, k - 1);
    if j < k - 1 {
      OffsetsIncrease(rs, j, k - 1);
    }
  }

  /** Positions are ordered as the records are in the history. */
  lemma PositionsInOrder(hist: History, r: NodeRecord, at: RecordPosition, k: nat, r': NodeRecord,
      at': RecordPosition, k': nat)
    requires HistoryOk(hist) && RecordAt(hist, r, at, k) && RecordAt(hist, r', at', k')
    ensures Before(at, at') <==> at.segment < at'.segment || (at.segment == at'.segment && k < k')
  {
    hide Encodable, OffsetOf;
    if at.segment == at'.segment {
      if k < k' {
        OffsetsIncrease(hist[at.segment], k, k');
      } else if k' < k {
        OffsetsIncrease(hist[at.segment], k', k);
      }
    }
  }

  lemma EarlierRecords(hist: History, at: RecordPosition, r: NodeRecord)
    requires HistoryOk(hist) && hist != [] && hist[Last(hist)] != []
    requires at.segment == Last(hist) && RecordAt(hist, r, at, |hist[Last(hist)]| - 1)
    ensures forall r', at', k' :: RecordAt(hist, r', at', k') && at' != at ==> Before(at', at)
  {
    hide Encodable, OffsetOf;
    forall r', at', k' | RecordAt(hist, r', at', k') && at' != at ensures Before(at', at) {
      PositionsInOrder(hist, r', at', k', r, at, |hist[Last(hist)]| - 1);
    }
  }

  /** The position an append returns is after that of every other record of the history, across
      rotations, reopenings and crashes. */
  lemma AppendIsLast(p: Point, m: Memory, r: NodeRecord)
    requires MemoryFits(p, m) && AppendPlan(m, r).ok
    ensures var q := RunSteps(p, AppendPlan(m, r).steps);
            && Encodable(r) && HistoryOk(q.hist)
            && (exists k :: RecordAt(q.hist, r, AppendPosition(m, r), k))
            && forall r', at', k' :: RecordAt(q.hist, r', at', k') && at' != AppendPosition(m, r) ==>
                Before(at', AppendPosition(m, r))
  {
    hide MemoryFits, Encodable, AppendPlan, AppendPosition, RunSteps, StepsOk, OffsetOf, Flat, RecordAt;
    AppendOk(p, m, r);
    EarlierRecords(RunSteps(p, AppendPlan(m, r).steps).hist, AppendPosition(m, r), r);
  }

  /** Every record of the history reads back at its position for as long as its segment exists. */
  lemma RecordReadsBack(d: Disk, hist: History, r: NodeRecord, at: RecordPosition, k: nat)
    requires SegmentsFit(d, hist) && HistoryOk(hist) && RecordAt(hist, r, at, k) && at.segment in d.segs
    ensures exists next :: ReadFrame(d.segs[at.segment].bytes, at.offset) == Complete(Body(r), next)
    ensures Decode(Body(r)) == Some(r)
  {
    hide Encodable, FileOf, Holds, Decode, Body, ReadFrame, HistoryOk, OffsetOf;
    LastEncodable(d, hist);
    RecordHeld(d, hist, at.segment);
    FrameAtOffset(d.segs[at.segment].bytes, hist[at.segment], k);
    DecodeBody(r);
  }

  lemma RecordHeld(d: Disk, hist: History, id: SegmentId)
    requires SegmentsFit(d, hist) && id in d.segs && id < |hist| && hist[id] != [] && AllEncodable(hist[id])
    ensures FileOf(hist[id]) <= d.segs[id].bytes
  {
    hide Encodable, Layout, HistoryOk;
    if id == Last(hist) {
      LastBound(d, hist);
      HeldLength(d.segs[id].bytes, hist[id]);
    }
  }

  /** In every state of every run, a segment that is not the last is complete: it ends at the end
      of a record. */
  lemma InactiveComplete(run: seq<World>, i: nat, id: SegmentId)
    requires IsRun(run) && i < |run| && id in run[i].at.disk.segs
    requires id != SelectActive(run[i].at.disk.segs.Keys)
    ensures var bytes := run[i].at.disk.segs[id].bytes;
            && SegmentFrames(bytes, false, SEGMENT_HEADER_LEN).Some?
            && run[i].at.disk.segs[id].durable == |bytes|
  {
    hide Encodable, FileOf, Holds, HistoryOk, SegmentFrames, DiskInv, EngineInv, Durable, SelectActive;
    RunKeeps(run, i);
    var d, hist := run[i].at.disk, run[i].at.hist;
    ActiveIsLast(d, hist);
    KeyBound(d, hist, id);
    LastEncodable(d, hist);
    FileHolds(hist[id]);
    HeldFrames(d.segs[id].bytes, hist[id], id, false);
  }

  // ---- the same over whole runs ------------------------------------------------------------------------

  /** Between operations of any run, `load_all` is exactly, states or error, the fold of every active
      node's records in the history. */
  lemma LoadsAllHistory(run: seq<World>, i: nat)
    requires IsRun(run) && i < |run| && run[i].engine.Some? && run[i].engine.value.Idle?
    ensures var m := run[i].engine.value.memory;
            LoadAllNodes(run[i].at.disk, m) == NaiveAll(Flat(run[i].at.hist), ActiveNodes(m.registry))
  {
    hide DiskInv, SegmentsFit, Durable, Flat, LoadAllNodes, Naive, MemoryFits;
    var m := run[i].engine.value.memory;
    RunKeeps(run, i);
    LoadAllIsHistory(run[i].at, m);
    var r, naive := LoadAllNodes(run[i].at.disk, m), NaiveAll(Flat(run[i].at.hist), ActiveNodes(m.registry));
    if r.Some? {
      assert r.value == naive.value;
    }
  }

  /** In any run, however many rotations, reopenings and crashes came before: the position the next
      append returns is after that of every record of the history, and of every record there will
      be right after it. */
  lemma PositionsIncrease(run: seq<World>, i: nat, r: NodeRecord)
    requires IsRun(run) && i < |run| && run[i].engine.Some? && run[i].engine.value.Idle?
    requires AppendPlan(run[i].engine.value.memory, r).ok
    ensures var m := run[i].engine.value.memory;
            var q := RunSteps(run[i].at, AppendPlan(m, r).steps);
            && Encodable(r) && HistoryOk(q.hist) && Flat(q.hist) == Flat(run[i].at.hist) + [r]
            && (exists k :: RecordAt(q.hist, r, AppendPosition(m, r), k))
            && forall r', at', k' :: RecordAt(q.hist, r', at', k') && at' != AppendPosition(m, r) ==>
                 Before(at', AppendPosition(m, r))
  {
    hide WorldInv, MemoryFits, Encodable, AppendPlan, AppendPosition, RunSteps, StepsOk, Flat, RecordAt, SegmentsFit;
    var m := run[i].engine.value.memory;
    RunKeeps(run, i);
    IdleFits(run[i]);
    AppendOk(run[i].at, m, r);
    AppendIsLast(run[i].at, m, r);
  }

  lemma IdleFits(w: World)
    requires WorldInv(w) && w.engine.Some? && w.engine.value.Idle?
    ensures MemoryFits(w.at, w.engine.value.memory) && DiskInv(w.at.disk, w.at.hist)
  {
    hide SegmentsFit, DiskInv, Durable, MemoryFits;
  }

  /** In every state of every run, every record of the history reads back as itself at its position,
      as long as its segment exists. */
  lemma RecordsReadBack(run: seq<World>, i: nat, r: NodeRecord, at: RecordPosition, k: nat)
    requires IsRun(run) && i < |run| && HistoryOk(run[i].at.hist) && RecordAt(run[i].at.hist, r, at, k)
    requires at.segment in run[i].at.disk.segs
    ensures exists next :: ReadFrame(run[i].at.disk.segs[at.segment].bytes, at.offset) == Complete(Body(r), next)
    ensures Decode(Body(r)) == Some(r)
  {
    hide DiskInv, EngineInv, Durable, SegmentsFit, HistoryOk, RecordAt, ReadFrame, Decode, Body;
    RunKeeps(run, i);
    RecordReadsBack(run[i].at.disk, run[i].at.hist, r, at, k);
  }

  /** Between operations of any run, deleting any of the segments the barrier allows changes neither
      what any active node loads nor `load_all` nor the segment chosen on the next open. */
  lemma CollectionNeverSeen(run: seq<World>, i: nat, ids: set<SegmentId>, n: NodeId)
    requires IsRun(run) && i < |run| && run[i].engine.Some? && run[i].engine.value.Idle?
    requires forall id :: id in ids ==>
               id != run[i].engine.value.memory.active && Collectable(run[i].engine.value.memory, id)
    ensures var d, m := run[i].at.disk, run[i].engine.value.memory;
            && (IsActive(m.registry, n) ==> Load(Without(d, ids), m, n) == Load(d, m, n))
            && LoadAllNodes(Without(d, ids), m) == LoadAllNodes(d, m)
            && SelectActive(Without(d, ids).segs.Keys) == SelectActive(d.segs.Keys) == m.active
  {
    hide WorldInv, MemoryFits, DiskInv, Collectable, Load, LoadAllNodes, SelectActive;
    RunKeeps(run, i);
    IdleFits(run[i]);
    CollectionInvisible(run[i].at, run[i].engine.value.memory, ids, n);
  }

  // ---- loading leaves the files alone ----------------------------------------------------------------------

  /** A pass over a file from `start` on has nothing to cut: no short header and no torn tail. */
  ghost predicate NothingToCut(bytes: seq<byte>, start: nat) {
    && SEGMENT_HEADER_LEN <= |bytes| && bytes[..SEGMENT_HEADER_LEN] == SEGMENT_MAGIC
    && SEGMENT_HEADER_LEN <= start <= |bytes|
    && ScanFrom(bytes, start).tail == Clean && ScanFrom(bytes, start).end == |bytes|
  }

  /** In any run, whenever an engine may load, its active file ends with its last record, seen from
      the header and from any record of it, index entries included: the truncation that loading
      performs on a torn file never happens. */
  lemma LoadCutsNothing(run: seq<World>, i: nat, k: nat)
    requires IsRun(run) && i < |run| && run[i].engine.Some? && run[i].engine.value.Idle?
    ensures var w, m := run[i], run[i].engine.value.memory;
            && m.active in w.at.disk.segs && m.active < |w.at.hist| && AllEncodable(w.at.hist[m.active])
            && NothingToCut(w.at.disk.segs[m.active].bytes, SEGMENT_HEADER_LEN)
            && (k < |w.at.hist[m.active]| ==>
                  NothingToCut(w.at.disk.segs[m.active].bytes, OffsetOf(w.at.hist[m.active], k)))
  {
    hide WorldInv, MemoryFits, DiskInv, SegmentsFit, FileOf, Encodable, ScanFrom, OffsetOf, AllEncodable;
    var w, m := run[i], run[i].engine.value.memory;
    RunKeeps(run, i);
    IdleFits(w);
    FitsShape(w.at, m);
    FitsParts(w.at, m);
    WholeFileScans(w.at.hist[m.active], k);
  }

  lemma WholeFileScans(rs: seq<NodeRecord>, k: nat)
    requires AllEncodable(rs)
    ensures NothingToCut(FileOf(rs), SEGMENT_HEADER_LEN)
    ensures k < |rs| ==> NothingToCut(FileOf(rs), OffsetOf(rs, k))
  {
    hide Encodable, Layout, Body, ScanFrom, PartOfFrame, Located;
    var bytes := FileOf(rs);
    EmptyIsPart();
    assert bytes[|bytes|..] == [];
    ScanHeld(bytes, rs);
    if k < |rs| {
      LocatedFrames(rs, 0);
      var fs := Located(Bodies(rs), SEGMENT_HEADER_LEN);
      assert Placed(0, fs)[k] == IndexedFrames(0, rs)[k];
      ScanSuffix(bytes, SEGMENT_HEADER_LEN, k);
      FileHolds(rs);
      FrameAtOffset(bytes, rs, k);
    }
  }
}
