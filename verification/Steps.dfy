/** The durable sub-steps every storage operation is made of, and the proof that
    each, taken where the protocol allows it, keeps the directory invariant and
    every durable record: a crash between any two of them is harmless. */
module DurableSteps {
  import opened Words
  import opened Records
  import opened Codec
  import opened Encoding
  import opened Frames
  import opened Replay
  import opened Disks

  datatype Micro =
    | CreateSegment(id: SegmentId)                       // empty file, directory synced
    | WriteHeader(id: SegmentId)
    | WriteFrame(id: SegmentId, record: NodeRecord)
    | SyncData(id: SegmentId)
    | Truncate(id: SegmentId, len: nat)
    | SaveIndex(index: Checkpoints)                      // atomic replacement, directory synced
    | SaveRegistry(registry: Registry)                   // atomic replacement, directory synced
    | DeleteSegment(id: SegmentId)

  function Min(a: nat, b: nat): nat {
    if a < b then a else b
  }

  ghost function Written(r: NodeRecord): seq<byte> {
    if Encodable(r) then Encoding.Frame(r) else []
  }

  ghost function ApplyMicro(d: Disk, m: Micro): Disk {
    match m
    case CreateSegment(id) => d.(segs := d.segs[id := SegmentFile([], 0)])
    case WriteHeader(id) =>
      if id in d.segs then d.(segs := d.segs[id := d.segs[id].(bytes := d.segs[id].bytes + SEGMENT_MAGIC)]) else d
    case WriteFrame(id, r) =>
      if id in d.segs then d.(segs := d.segs[id := d.segs[id].(bytes := d.segs[id].bytes + Written(r))]) else d
    case SyncData(id) =>
      if id in d.segs then d.(segs := d.segs[id := d.segs[id].(durable := |d.segs[id].bytes|)]) else d
    case Truncate(id, len) =>
      if id in d.segs && len <= |d.segs[id].bytes|
      then d.(segs := d.segs[id := SegmentFile(d.segs[id].bytes[..len], Min(d.segs[id].durable, len))])
      else d
    case SaveIndex(index) => d.(index := index)
    case SaveRegistry(registry) => d.(registry := registry)
    case DeleteSegment(id) => d.(segs := d.segs - {id})
  }

  function ApplyHistory(hist: History, m: Micro): History {
    match m
    case CreateSegment(_) => hist + [[]]
    case WriteFrame(_, r) => if hist == [] then hist else hist[Last(hist) := hist[Last(hist)] + [r]]
    case _ => hist
  }

  /** The last file holds complete records only. */
  ghost predicate Settled(d: Disk, hist: History)
    requires SegmentsFit(d, hist)
  {
    hist != [] && d.segs[Last(hist)].bytes == FileOf(hist[Last(hist)])
  }

  /** Every active node of a registry has a good entry in an index. */
  ghost predicate Covers(d: Disk, hist: History, registry: Registry, index: Checkpoints)
    requires SegmentsFit(d, hist)
  {
    forall n :: IsActive(registry, n) ==> n in index && exists k :: PointsAt(d, hist, n, index[n], k)
  }

  /** When the protocol allows a step. */
  ghost predicate MicroOk(d: Disk, hist: History, m: Micro) {
    && SegmentsFit(d, hist)
    && match m
       case CreateSegment(id) =>
         && id == |hist|
         && (hist != [] ==> Settled(d, hist) && d.segs[Last(hist)].durable == |d.segs[Last(hist)].bytes|)
       case WriteHeader(id) => hist != [] && id == Last(hist) && d.segs[id].bytes == []
       case WriteFrame(id, r) => hist != [] && id == Last(hist) && Settled(d, hist) && Encodable(r)
       case SyncData(id) => hist != [] && id == Last(hist)
       case Truncate(id, len) =>
         && hist != [] && id == Last(hist)
         && len == if |d.segs[id].bytes| < SEGMENT_HEADER_LEN then 0 else |FileOf(hist[id])|
       case SaveIndex(index) => Covers(d, hist, d.registry, index)
       case SaveRegistry(registry) => Covers(d, hist, registry, d.index)
       case DeleteSegment(id) =>
         && hist != [] && id < Last(hist)
         && forall n :: IsActive(d.registry, n) && n in d.index ==> id < d.index[n].segment
  }

  // ---- each step keeps the files in order --------------------------------------------------

  lemma EmptyFileHolds()
    ensures AllEncodable([]) && Holds([], []) && FileOf([]) == SEGMENT_MAGIC && Holds(SEGMENT_MAGIC, [])
  {
    EmptyLayout();
    FileHolds([]);
  }

  lemma HeldLength(bytes: seq<byte>, rs: seq<NodeRecord>)
    requires AllEncodable(rs) && Holds(bytes, rs)
    ensures |bytes| < SEGMENT_HEADER_LEN ==> rs == []
    ensures SEGMENT_HEADER_LEN <= |bytes| ==> FileOf(rs) <= bytes
  {
    hide Encodable, Layout, PartOfFrame;
  }

  /** Giving the last file another content that fits its (possibly longer) history. */
  ghost function WithLast(d: Disk, hist: History, f: SegmentFile): Disk
    requires hist != [] && |hist| <= U64_LIMIT
  {
    d.(segs := d.segs[Last(hist) := f])
  }

  lemma ReplaceLast(d: Disk, hist: History, f: SegmentFile, rs: seq<NodeRecord>)
    requires SegmentsFit(d, hist) && hist != []
    requires AllEncodable(rs) && Holds(f.bytes, rs) && f.durable <= |f.bytes|
    ensures SegmentsFit(WithLast(d, hist, f), hist[Last(hist) := rs])
  {
    hide Encodable, FileOf, Holds;
  }

  lemma StepFits(d: Disk, hist: History, m: Micro)
    requires MicroOk(d, hist, m)
    ensures SegmentsFit(ApplyMicro(d, m), ApplyHistory(hist, m))
  {
    hide MicroOk, SegmentsFit, ApplyMicro, ApplyHistory;
    if hist != [] {
      match m
      case CreateSegment(_) => CreateFits(d, hist, m);
      case DeleteSegment(_) => DeleteFits(d, hist, m);
      case SaveIndex(_) => MetadataStepFits(d, hist, m);
      case SaveRegistry(_) => MetadataStepFits(d, hist, m);
      case _ => LastFits(d, hist, m);
    } else {
      CreateFits(d, hist, m);
    }
  }

  lemma MetadataStepFits(d: Disk, hist: History, m: Micro)
    requires MicroOk(d, hist, m) && (m.SaveIndex? || m.SaveRegistry?)
    ensures SegmentsFit(ApplyMicro(d, m), ApplyHistory(hist, m))
  {
    hide Encodable, FileOf, Holds, PointsAt, Covers;
  }

  lemma DeleteFits(d: Disk, hist: History, m: Micro)
    requires MicroOk(d, hist, m) && m.DeleteSegment?
    ensures SegmentsFit(ApplyMicro(d, m), ApplyHistory(hist, m))
  {
    hide Encodable, FileOf, Holds, PointsAt, Covers;
  }

  lemma CreateFits(d: Disk, hist: History, m: Micro)
    requires MicroOk(d, hist, m) && (m.CreateSegment? || hist == [])
    ensures SegmentsFit(ApplyMicro(d, m), ApplyHistory(hist, m))
  {
    hide Encodable, FileOf, Holds, PointsAt, Covers;
    EmptyFileHolds();
  }

  /** What the steps on the last file make of it. */
  lemma LastFits(d: Disk, hist: History, m: Micro)
    requires MicroOk(d, hist, m) && hist != []
    requires m.WriteHeader? || m.WriteFrame? || m.SyncData? || m.Truncate?
    ensures var d', hist' := ApplyMicro(d, m), ApplyHistory(hist, m);
            && SegmentsFit(d', hist')
            && Last(hist') == Last(hist) && hist'[..Last(hist)] == hist[..Last(hist)]
            && d' == WithLast(d, hist, d'.segs[Last(hist)])
            && hist[Last(hist)] <= hist'[Last(hist)]
            && (hist[Last(hist)] == []
                || Min(d.segs[Last(hist)].durable, |FileOf(hist[Last(hist)])|) <= d'.segs[Last(hist)].durable)
  {
    hide Encodable, Layout, Holds, PointsAt, Covers, PartOfFrame;
    EmptyFileHolds();
    LastBound(d, hist);
    var id, rs, f := Last(hist), hist[Last(hist)], d.segs[Last(hist)];
    assert hist[id := rs] == hist;
    HeldLength(f.bytes, rs);
    FileHolds(rs);
    match m
    case WriteHeader(_) =>
      assert [] + SEGMENT_MAGIC == SEGMENT_MAGIC;
      ReplaceLast(d, hist, f.(bytes := SEGMENT_MAGIC), rs);
    case WriteFrame(_, r) =>
      FileAppend(rs, r);
      FileHolds(rs + [r]);
      ReplaceLast(d, hist, f.(bytes := FileOf(rs + [r])), rs + [r]);
    case SyncData(_) =>
      ReplaceLast(d, hist, f.(durable := |f.bytes|), rs);
      HeldSynced(f.bytes, rs);
    case Truncate(_, len) =>
      if |f.bytes| < SEGMENT_HEADER_LEN {
        assert f.bytes[..0] == [];
      } else {
        assert f.bytes[..|FileOf(rs)|] == FileOf(rs);
      }
      ReplaceLast(d, hist, SegmentFile(f.bytes[..len], Min(f.durable, len)), rs);
      HeldSynced(f.bytes, rs);
  }

  lemma HeldSynced(bytes: seq<byte>, rs: seq<NodeRecord>)
    requires AllEncodable(rs) && Holds(bytes, rs)
    ensures |bytes| < SEGMENT_HEADER_LEN || |FileOf(rs)| <= |bytes|
    ensures |FileOf(rs)| >= SEGMENT_HEADER_LEN
  {
    hide Encodable, Layout, PartOfFrame;
  }

  /** A checkpoint entry stays good when its file keeps its records and its durable part. */
  lemma EntryKept(d: Disk, hist: History, d': Disk, hist': History, n: NodeId, p: RecordPosition, k: nat)
    requires SegmentsFit(d, hist) && SegmentsFit(d', hist') && PointsAt(d, hist, n, p, k)
    requires |hist| <= |hist'| && hist[p.segment] <= hist'[p.segment]
    requires forall id :: p.segment <= id < |hist'| ==> id in d'.segs
    requires Min(d.segs[p.segment].durable, |FileOf(hist[p.segment])|) <= d'.segs[p.segment].durable
    ensures PointsAt(d', hist', n, p, k)
  {
    hide Encodable, FileOf, Holds, SegmentsFit;
    LastEncodable(d, hist);
    LastEncodable(d', hist');
    var rs, rs' := hist[p.segment], hist'[p.segment];
    assert rs'[..k] == rs[..k] && rs'[..k + 1] == rs[..k + 1];
    FilePrefix(rs, k + 1);
  }

  /** A checkpoint entry stays good through every step that does not delete its segment or a later one. */
  lemma EntryStays(d: Disk, hist: History, m: Micro, n: NodeId, p: RecordPosition, k: nat)
    requires MicroOk(d, hist, m) && PointsAt(d, hist, n, p, k)
    requires m.DeleteSegment? ==> m.id < p.segment
    requires SegmentsFit(ApplyMicro(d, m), ApplyHistory(hist, m))
    ensures PointsAt(ApplyMicro(d, m), ApplyHistory(hist, m), n, p, k)
  {
    hide Encodable, FileOf, Holds, Covers, SegmentsFit, Settled, Written;
    var d', hist' := ApplyMicro(d, m), ApplyHistory(hist, m);
    LastEncodable(d, hist);
    if m.WriteHeader? || m.WriteFrame? || m.SyncData? || m.Truncate? {
      LastOnly(d, hist, m);
      LastFits(d, hist, m);
    }
    EntryKept(d, hist, d', hist', n, p, k);
  }

  lemma LastBound(d: Disk, hist: History)
    requires SegmentsFit(d, hist) && hist != []
    ensures Last(hist) in d.segs && d.segs[Last(hist)].durable <= |d.segs[Last(hist)].bytes|
    ensures AllEncodable(hist[Last(hist)]) && Holds(d.segs[Last(hist)].bytes, hist[Last(hist)])
  {
  }

  lemma CoversStays(d: Disk, hist: History, m: Micro, registry: Registry, index: Checkpoints)
    requires MicroOk(d, hist, m) && SegmentsFit(d, hist) && Covers(d, hist, registry, index)
    requires m.DeleteSegment? ==> forall n :: IsActive(registry, n) ==> m.id < index[n].segment
    requires SegmentsFit(ApplyMicro(d, m), ApplyHistory(hist, m))
    ensures Covers(ApplyMicro(d, m), ApplyHistory(hist, m), registry, index)
  {
    hide MicroOk, PointsAt, SegmentsFit, ApplyMicro, ApplyHistory;
    forall n | IsActive(registry, n)
      ensures n in index && exists k :: PointsAt(ApplyMicro(d, m), ApplyHistory(hist, m), n, index[n], k)
    {
      var k :| PointsAt(d, hist, n, index[n], k);
      EntryStays(d, hist, m, n, index[n], k);
    }
  }

  lemma StepIndex(d: Disk, hist: History, m: Micro)
    requires MicroOk(d, hist, m) && IndexFits(d, hist)
    requires SegmentsFit(ApplyMicro(d, m), ApplyHistory(hist, m))
    ensures IndexFits(ApplyMicro(d, m), ApplyHistory(hist, m))
  {
    hide PointsAt, SegmentsFit, Settled, Encodable, FileOf;
    var d' := ApplyMicro(d, m);
    CoversStays(d, hist, m, d'.registry, d'.index);
  }

  lemma {:induction false} FlatOfLast(hist: History)
    requires hist != []
    ensures Flat(hist) == Flat(hist[..Last(hist)]) + hist[Last(hist)]
  {
    FlatLast(hist, 0);
  }

  /** Steps only ever add to the history. */
  lemma StepHistory(hist: History, m: Micro)
    ensures Flat(ApplyHistory(hist, m))
         == Flat(hist) + if m.WriteFrame? && hist != [] then [m.record] else []
    ensures m.CreateSegment? ==> ApplyHistory(hist, m)[..Last(ApplyHistory(hist, m))] == hist
  {
    var hist' := ApplyHistory(hist, m);
    match m
    case CreateSegment(_) =>
      assert hist'[..Last(hist')] == hist;
      FlatOfLast(hist');
    case WriteFrame(_, r) =>
      if hist != [] {
        assert hist'[..Last(hist')] == hist[..Last(hist)];
        FlatOfLast(hist);
        FlatOfLast(hist');
        var a, b := Flat(hist[..Last(hist)]), hist[Last(hist)];
        assert a + (b + [r]) == a + b + [r];
      } else {
        assert Flat(hist) + [] == Flat(hist);
      }
    case _ =>
      assert Flat(hist) + [] == Flat(hist);
  }

  lemma DurableBound(d: Disk, hist: History, c: nat)
    requires SegmentsFit(d, hist) && Durable(d, hist, c)
    ensures c <= |Flat(hist)|
  {
    hide SegmentsFit, FileOf;
    if hist != [] {
      FlatOfLast(hist);
    }
  }

  lemma StepDurable(d: Disk, hist: History, m: Micro, c: nat)
    requires MicroOk(d, hist, m) && Durable(d, hist, c)
    requires SegmentsFit(ApplyMicro(d, m), ApplyHistory(hist, m))
    ensures c <= |Flat(ApplyHistory(hist, m))| && Durable(ApplyMicro(d, m), ApplyHistory(hist, m), c)
  {
    DurableBound(d, hist, c);
    StepHistory(hist, m);
    hide MicroOk, SegmentsFit, ApplyMicro, ApplyHistory, Durable, Flat;
    if m.WriteHeader? || m.WriteFrame? || m.SyncData? || m.Truncate? {
      LastOnly(d, hist, m);
      LastFits(d, hist, m);
      LastDurable(d, hist, ApplyMicro(d, m), ApplyHistory(hist, m), c);
    } else {
      OtherDurable(d, hist, m, c);
    }
  }

  lemma LastOnly(d: Disk, hist: History, m: Micro)
    requires MicroOk(d, hist, m) && !m.CreateSegment? && !m.SaveIndex? && !m.SaveRegistry?
    ensures hist != [] && ApplyHistory(hist, m) != [] && Last(hist) in d.segs && Last(hist) in ApplyMicro(d, m).segs
  {
    hide Encodable, FileOf, Holds, PointsAt, Covers;
  }

  lemma OtherDurable(d: Disk, hist: History, m: Micro, c: nat)
    requires MicroOk(d, hist, m) && Durable(d, hist, c) && c <= |Flat(hist)|
    requires m.CreateSegment? || m.SaveIndex? || m.SaveRegistry? || m.DeleteSegment?
    requires SegmentsFit(ApplyMicro(d, m), ApplyHistory(hist, m))
    ensures Durable(ApplyMicro(d, m), ApplyHistory(hist, m), c)
  {
    StepHistory(hist, m);
    hide Encodable, FileOf, Holds, PointsAt, Covers, Flat;
  }

  lemma LastDurable(d: Disk, hist: History, d': Disk, hist': History, c: nat)
    requires SegmentsFit(d, hist) && SegmentsFit(d', hist') && hist != [] && hist' != []
    requires Last(hist') == Last(hist) && hist'[..Last(hist)] == hist[..Last(hist)]
    requires Last(hist) in d.segs && Last(hist) in d'.segs
    requires hist[Last(hist)] <= hist'[Last(hist)]
    requires hist[Last(hist)] == []
             || Min(d.segs[Last(hist)].durable, |FileOf(hist[Last(hist)])|) <= d'.segs[Last(hist)].durable
    requires Durable(d, hist, c)
    ensures Durable(d', hist', c)
  {
    hide SegmentsFit, FileOf, Encodable, Flat;
    LastEncodable(d, hist);
    LastEncodable(d', hist');
    var base, rs, rs' := |Flat(hist[..Last(hist)])|, hist[Last(hist)], hist'[Last(hist)];
    if c > base {
      FilePrefix(rs, c - base);
      assert rs'[..c - base] == rs[..c - base];
    }
  }

  /** Every step the protocol allows keeps the invariant, every durable record and every record. */
  lemma StepKeeps(d: Disk, hist: History, m: Micro)
    requires DiskInv(d, hist) && MicroOk(d, hist, m)
    ensures Survives(d, hist, ApplyMicro(d, m), ApplyHistory(hist, m))
    ensures Flat(hist) <= Flat(ApplyHistory(hist, m))
  {
    hide SegmentsFit, IndexFits, MicroOk, ApplyMicro, ApplyHistory, Durable, Flat;
    StepFits(d, hist, m);
    StepIndex(d, hist, m);
    forall c: nat | Durable(d, hist, c)
      ensures c <= |Flat(ApplyHistory(hist, m))| && Durable(ApplyMicro(d, m), ApplyHistory(hist, m), c)
    {
      StepDurable(d, hist, m, c);
    }
    StepHistory(hist, m);
  }

  /** The bytes a step may have written when it is cut short. */
  ghost predicate PartWritten(m: Micro, t: seq<byte>) {
    || t == []
    || (m.WriteHeader? && t < SEGMENT_MAGIC)
    || (m.WriteFrame? && t < Written(m.record))
  }

  /** A step cut short leaves what a crash may leave. */
  lemma PartIsInFlight(d: Disk, hist: History, m: Micro, t: seq<byte>)
    requires MicroOk(d, hist, m) && hist != [] && PartWritten(m, t)
    ensures InFlight(d.segs[Last(hist)].bytes, hist[Last(hist)], t)
  {
    hide FileOf, Holds, Encodable, Covers, PartOfFrame;
    LastEncodable(d, hist);
    match m
    case WriteFrame(id, r) =>
      if t != [] {
        FramePart(r, t);
      }
    case WriteHeader(id) =>
      HeldLength(d.segs[id].bytes, hist[id]);
    case _ =>
  }

  lemma FramePart(r: NodeRecord, t: seq<byte>)
    requires Encodable(r) && t < Written(r)
    ensures PartOfFrame(t)
  {
    hide Body;
    EncodableSmall(r);
    assert t < FrameOf(Body(r));
  }
}
