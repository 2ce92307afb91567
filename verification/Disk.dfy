/** The storage directory as a crash can leave it: segment files with the part
    of each that is known to be durable, and the two metadata files, which are
    replaced atomically. `History` is the stream of records appended and not
    lost, segment by segment; the directory invariant says how the files and the
    history fit together. */
module Disks {
  import opened Words
  import opened Records
  import opened Wire
  import opened Sorted
  import opened Codec
  import opened Encoding
  import opened Frames
  import opened NodeStates
  import opened Replay
  import opened ReplayProofs

  datatype SegmentFile = SegmentFile(bytes: seq<byte>, durable: nat)

  /** Node IDs ever created, and whether each has been removed. */
  type Registry = map<NodeId, bool>

  predicate IsActive(r: Registry, n: NodeId) {
    n in r && !r[n]
  }

  function ActiveNodes(r: Registry): set<NodeId> {
    set n | n in r && !r[n]
  }

  datatype Disk = Disk(segs: map<SegmentId, SegmentFile>, registry: Registry, index: Checkpoints)

  const EMPTY_DISK: Disk := Disk(map[], map[], map[])

  function Contents(d: Disk): Segments {
    map id | id in d.segs :: d.segs[id].bytes
  }

  // ---- history --------------------------------------------------------------------------

  /** The records of each segment since the store was created, deleted segments included. */
  type History = seq<seq<NodeRecord>>

  ghost predicate AllEncodable(rs: seq<NodeRecord>) {
    forall i :: 0 <= i < |rs| ==> Encodable(rs[i])
  }

  ghost predicate HistoryOk(hist: History) {
    |hist| <= U64_LIMIT && forall i :: 0 <= i < |hist| ==> AllEncodable(hist[i])
  }

  function Last(hist: History): nat
    requires hist != []
  {
    |hist| - 1
  }

  /** The records from segment `p` on. */
  function FlatFrom(hist: History, p: nat): seq<NodeRecord>
    decreases |hist| - p
  {
    if |hist| <= p then [] else hist[p] + FlatFrom(hist, p + 1)
  }

  function Flat(hist: History): seq<NodeRecord> {
    FlatFrom(hist, 0)
  }

  lemma {:induction false} FlatLast(hist: History, p: nat)
    requires hist != [] && p <= Last(hist)
    ensures FlatFrom(hist, p) == FlatFrom(hist[..Last(hist)], p) + hist[Last(hist)]
    decreases |hist| - p
  {
    if p < Last(hist) {
      FlatLast(hist, p + 1);
      assert hist[p] + (FlatFrom(hist[..Last(hist)], p + 1) + hist[Last(hist)])
          == hist[p] + FlatFrom(hist[..Last(hist)], p + 1) + hist[Last(hist)];
    } else {
      assert FlatFrom(hist, p + 1) == [];
      assert hist[p] + [] == [] + hist[p];
    }
  }

  // ---- file layout --------------------------------------------------------------------------

  ghost function Bodies(rs: seq<NodeRecord>): (bs: seq<seq<byte>>)
    ensures |bs| == |rs|
  {
    seq(|rs|, i requires 0 <= i < |rs| => Body(rs[i]))
  }

  lemma BodiesSmall(rs: seq<NodeRecord>)
    requires AllEncodable(rs)
    ensures forall b :: b in Bodies(rs) ==> |b| <= MAX_RECORD_BODY_LEN
  {
  }

  ghost function Layout(rs: seq<NodeRecord>): seq<byte>
    requires AllEncodable(rs)
  {
    BodiesSmall(rs);
    FrameRun(Bodies(rs))
  }

  /** A complete segment file. */
  ghost function FileOf(rs: seq<NodeRecord>): seq<byte>
    requires AllEncodable(rs)
  {
    SEGMENT_MAGIC + Layout(rs)
  }

  /** Where record `k` of a segment starts. */
  ghost function OffsetOf(rs: seq<NodeRecord>, k: nat): nat
    requires AllEncodable(rs) && k <= |rs|
  {
    |FileOf(rs[..k])|
  }

  lemma BytesConcat(a: seq<byte>, b: seq<byte>, c: seq<byte>)
    ensures a + (b + c) == a + b + c
  {
  }

  lemma {:induction false} FrameRunConcat(a: seq<seq<byte>>, b: seq<seq<byte>>)
    requires forall x :: x in a + b ==> |x| <= MAX_RECORD_BODY_LEN
    ensures forall x :: x in a ==> x in a + b
    ensures forall x :: x in b ==> x in a + b
    ensures FrameRun(a + b) == FrameRun(a) + FrameRun(b)
    decreases |a|
  {
    hide FrameOf;
    assert forall x :: x in a ==> x in a + b;
    assert forall x :: x in b ==> x in a + b;
    if a == [] {
      assert a + b == b;
      assert FrameRun(a) == [];
      assert [] + FrameRun(b) == FrameRun(b);
    } else {
      assert (a + b)[1..] == a[1..] + b;
      assert forall x :: x in a[1..] + b ==> x in a + b;
      FrameRunConcat(a[1..], b);
      assert FrameRun(a + b) == FrameOf(a[0]) + FrameRun((a + b)[1..]);
      BytesConcat(FrameOf(a[0]), FrameRun(a[1..]), FrameRun(b));
    }
  }

  lemma LayoutConcat(a: seq<NodeRecord>, b: seq<NodeRecord>)
    requires AllEncodable(a) && AllEncodable(b)
    ensures AllEncodable(a + b) && Layout(a + b) == Layout(a) + Layout(b)
  {
    hide Encodable, Body, FrameRun;
    assert AllEncodable(a + b);
    BodiesSmall(a + b);
    assert Bodies(a + b) == Bodies(a) + Bodies(b);
    FrameRunConcat(Bodies(a), Bodies(b));
  }

  lemma LayoutOne(r: NodeRecord)
    requires Encodable(r)
    ensures AllEncodable([r]) && Layout([r]) == Encoding.Frame(r)
    ensures |Encoding.Frame(r)| >= FRAME_HEADER_LEN
  {
    hide Encodable, Body, FrameOf;
    assert AllEncodable([r]);
    EncodableSmall(r);
    FrameLength(Body(r));
    assert Bodies([r])[1..] == [];
    assert FrameOf(Body(r)) + FrameRun([]) == FrameOf(Body(r));
  }

  lemma EncodableSmall(r: NodeRecord)
    requires Encodable(r)
    ensures |Body(r)| <= MAX_RECORD_BODY_LEN
  {
  }

  lemma FileAppend(rs: seq<NodeRecord>, r: NodeRecord)
    requires AllEncodable(rs) && Encodable(r)
    ensures AllEncodable(rs + [r]) && FileOf(rs + [r]) == FileOf(rs) + Encoding.Frame(r)
  {
    hide Encodable, Layout, Encoding.Frame;
    LayoutOne(r);
    LayoutConcat(rs, [r]);
  }

  lemma FilePrefix(rs: seq<NodeRecord>, k: nat)
    requires AllEncodable(rs) && k <= |rs|
    ensures AllEncodable(rs[..k]) && AllEncodable(rs[k..])
    ensures FileOf(rs) == FileOf(rs[..k]) + Layout(rs[k..])
  {
    hide Encodable, Layout;
    assert rs == rs[..k] + rs[k..];
    LayoutConcat(rs[..k], rs[k..]);
  }

  lemma OffsetStep(rs: seq<NodeRecord>, k: nat)
    requires AllEncodable(rs) && k < |rs|
    ensures OffsetOf(rs, k + 1) == OffsetOf(rs, k) + FRAME_HEADER_LEN + |Body(rs[k])|
  {
    hide Encodable, Layout, Body, Encoding.Frame;
    FilePrefix(rs, k);
    FilePrefix(rs, k + 1);
    assert rs[..k + 1] == rs[..k] + [rs[k]];
    FileAppend(rs[..k], rs[k]);
    FrameIs(rs[k]);
  }

  lemma FrameIs(r: NodeRecord)
    requires Encodable(r)
    ensures |Encoding.Frame(r)| == FRAME_HEADER_LEN + |Body(r)|
  {
    hide Encodable, Body;
  }

  // ---- what a file in use may hold -----------------------------------------------------------

  /** The active file: its records and then a part of a record that was being written,
      or a part of the header. */
  ghost predicate Holds(bytes: seq<byte>, rs: seq<NodeRecord>)
    requires AllEncodable(rs)
  {
    || (rs == [] && bytes < SEGMENT_MAGIC)
    || (FileOf(rs) <= bytes && PartOfFrame(bytes[|FileOf(rs)|..]))
  }

  ghost function IndexedFrames(id: SegmentId, rs: seq<NodeRecord>): (fs: seq<StoredFrame>)
    requires AllEncodable(rs)
    ensures |fs| == |rs|
    ensures forall k :: 0 <= k < |rs| ==> fs[k] == StoredFrame(RecordPosition(id, OffsetOf(rs, k)), Body(rs[k]))
  {
    seq(|rs|, k requires 0 <= k < |rs| => StoredFrame(RecordPosition(id, OffsetOf(rs, k)), Body(rs[k])))
  }

  lemma {:induction false} LocatedAt(rs: seq<NodeRecord>, k: nat, off: nat, j: nat)
    requires AllEncodable(rs) && k + j < |rs| && off == OffsetOf(rs, k)
    ensures Located(Bodies(rs)[k..], off)[j] == RawFrame(OffsetOf(rs, k + j), Body(rs[k + j]))
    decreases j
  {
    hide Encodable, Layout, Body;
    if j > 0 {
      OffsetStep(rs, k);
      assert Bodies(rs)[k..][1..] == Bodies(rs)[k + 1..];
      LocatedAt(rs, k + 1, off + FRAME_HEADER_LEN + |Body(rs[k])|, j - 1);
    }
  }

  lemma LocatedFrames(rs: seq<NodeRecord>, id: SegmentId)
    requires AllEncodable(rs)
    ensures Placed(id, Located(Bodies(rs), SEGMENT_HEADER_LEN)) == IndexedFrames(id, rs)
  {
    hide Encodable, Layout, Body;
    EmptyLayout();
    assert Bodies(rs)[0..] == Bodies(rs) && rs[..0] == [];
    forall j | 0 <= j < |rs| ensures Located(Bodies(rs), SEGMENT_HEADER_LEN)[j]
        == RawFrame(OffsetOf(rs, j), Body(rs[j])) {
      LocatedAt(rs, 0, SEGMENT_HEADER_LEN, j);
    }
  }

  /** A scan of a complete file with a part of a frame after it finds the file's records. */
  lemma ScanHeld(bytes: seq<byte>, rs: seq<NodeRecord>)
    requires AllEncodable(rs) && FileOf(rs) <= bytes && PartOfFrame(bytes[|FileOf(rs)|..])
    ensures bytes[..SEGMENT_HEADER_LEN] == SEGMENT_MAGIC
    ensures ScanFrom(bytes, SEGMENT_HEADER_LEN)
         == Scan(Located(Bodies(rs), SEGMENT_HEADER_LEN), |FileOf(rs)|, if bytes == FileOf(rs) then Clean else Torn)
  {
    hide Encodable, Layout, Body, PartOfFrame, ScanFrom, FrameRun;
    var tail := bytes[|FileOf(rs)|..];
    LayoutIs(rs);
    ScanRun(SEGMENT_MAGIC, Bodies(rs), tail);
    assert bytes == FileOf(rs) + tail;
    assert tail == [] <==> bytes == FileOf(rs);
  }

  /** Reading a file in use gives exactly its records, at their offsets. */
  lemma HeldFrames(bytes: seq<byte>, rs: seq<NodeRecord>, id: SegmentId, allowPartial: bool)
    requires AllEncodable(rs) && Holds(bytes, rs)
    requires allowPartial || bytes == FileOf(rs)
    ensures SegmentFrames(bytes, allowPartial, SEGMENT_HEADER_LEN).Some?
    ensures Placed(id, SegmentFrames(bytes, allowPartial, SEGMENT_HEADER_LEN).value) == IndexedFrames(id, rs)
  {
    hide Encodable, Layout, Body, PartOfFrame, ScanFrom;
    if FileOf(rs) <= bytes && PartOfFrame(bytes[|FileOf(rs)|..]) {
      ScanHeld(bytes, rs);
      LocatedFrames(rs, id);
    } else {
      EmptyLayout();
      assert Placed(id, []) == IndexedFrames(id, []);
    }
  }

  lemma EmptyLayout()
    ensures AllEncodable([]) && Layout([]) == [] && FileOf([]) == SEGMENT_MAGIC
  {
  }

  lemma LayoutIs(rs: seq<NodeRecord>)
    requires AllEncodable(rs)
    ensures forall b :: b in Bodies(rs) ==> |b| <= MAX_RECORD_BODY_LEN
    ensures FileOf(rs) == SEGMENT_MAGIC + FrameRun(Bodies(rs))
  {
    BodiesSmall(rs);
  }

  // ---- the directory invariant ------------------------------------------------------------------

  /** Every file holds its segment's history: complete and durable, except the last. */
  ghost predicate SegmentsFit(d: Disk, hist: History) {
    && HistoryOk(hist)
    && (hist == [] ==> d.segs == map[])
    && (hist != [] ==>
          && Last(hist) in d.segs
          && (forall id :: id in d.segs ==> id <= Last(hist))
          && (forall id :: id in d.segs && id < Last(hist) ==>
                d.segs[id].bytes == FileOf(hist[id]) && d.segs[id].durable == |d.segs[id].bytes|)
          && Holds(d.segs[Last(hist)].bytes, hist[Last(hist)])
          && d.segs[Last(hist)].durable <= |d.segs[Last(hist)].bytes|)
  }

  /** `p` is where record `k` of its segment is: a durable checkpoint of node `n`, with
      every later segment still there. */
  ghost predicate PointsAt(d: Disk, hist: History, n: NodeId, p: RecordPosition, k: nat)
    requires SegmentsFit(d, hist)
  {
    && p.segment < |hist| && k < |hist[p.segment]|
    && hist[p.segment][k].node == n && hist[p.segment][k].record.SnapshotCheckpoint?
    && p.offset == OffsetOf(hist[p.segment], k)
    && (forall id :: p.segment <= id < |hist| ==> id in d.segs)
    && OffsetOf(hist[p.segment], k + 1) <= d.segs[p.segment].durable
  }

  /** Every active node of the registry file has such an index entry. */
  ghost predicate IndexFits(d: Disk, hist: History)
    requires SegmentsFit(d, hist)
  {
    forall n :: IsActive(d.registry, n) ==> n in d.index && exists k :: PointsAt(d, hist, n, d.index[n], k)
  }

  /** What every crash point keeps. */
  ghost predicate DiskInv(d: Disk, hist: History) {
    SegmentsFit(d, hist) && IndexFits(d, hist)
  }

  /** The first `c` records of the history survive any crash. */
  ghost predicate Durable(d: Disk, hist: History, c: nat)
    requires SegmentsFit(d, hist)
  {
    if hist == [] then c == 0
    else
      var base, rs := |Flat(hist[..Last(hist)])|, hist[Last(hist)];
      c <= base || (c - base <= |rs| && OffsetOf(rs, c - base) <= d.segs[Last(hist)].durable)
  }

  // ---- what reading the directory gives ----------------------------------------------------------

  predicate InRange(ids: seq<SegmentId>, lo: nat, hi: nat) {
    forall i :: 0 <= i < |ids| ==> lo <= ids[i] < hi
  }

  function Surviving(hist: History, ids: seq<SegmentId>): seq<NodeRecord>
    requires InRange(ids, 0, |hist|)
  {
    if ids == [] then [] else hist[ids[0]] + Surviving(hist, ids[1..])
  }

  ghost function SurvivingFrames(hist: History, ids: seq<SegmentId>): seq<StoredFrame>
    requires HistoryOk(hist) && InRange(ids, 0, |hist|)
  {
    if ids == [] then [] else IndexedFrames(ids[0], hist[ids[0]]) + SurvivingFrames(hist, ids[1..])
  }

  lemma {:induction false} StreamOfDisk(d: Disk, hist: History, ids: seq<SegmentId>)
    requires SegmentsFit(d, hist) && hist != [] && forall id :: id in ids ==> id in d.segs
    ensures InRange(ids, 0, |hist|)
    ensures Stream(Contents(d), ids, Last(hist), Everywhere) == Some(SurvivingFrames(hist, ids))
    decreases |ids|
  {
    hide SegmentFrames, FileOf, Holds, Encodable, IndexedFrames;
    if ids != [] {
      var id := ids[0];
      assert id in ids;
      StreamOfDisk(d, hist, ids[1..]);
      FileHolds(hist[id]);
      HeldFrames(d.segs[id].bytes, hist[id], id, id == Last(hist));
    }
  }

  lemma FileHolds(rs: seq<NodeRecord>)
    requires AllEncodable(rs)
    ensures Holds(FileOf(rs), rs)
  {
    EmptyIsPart();
    assert FileOf(rs)[|FileOf(rs)|..] == [];
  }

  lemma DecodableConcat(a: seq<StoredFrame>, b: seq<StoredFrame>)
    requires Decodable(a) && Decodable(b)
    ensures Decodable(a + b) && RecordsOf(a + b) == RecordsOf(a) + RecordsOf(b)
  {
    hide Decode;
    assert Decodable(a + b);
  }

  lemma IndexedDecode(id: SegmentId, rs: seq<NodeRecord>)
    requires AllEncodable(rs)
    ensures Decodable(IndexedFrames(id, rs)) && RecordsOf(IndexedFrames(id, rs)) == rs
  {
    hide Decode, Body, Encodable, OffsetOf;
    forall k | 0 <= k < |rs| ensures Decode(IndexedFrames(id, rs)[k].body) == Some(rs[k]) {
      DecodeBody(rs[k]);
    }
  }

  lemma {:induction false} SurvivingDecode(hist: History, ids: seq<SegmentId>)
    requires HistoryOk(hist) && InRange(ids, 0, |hist|)
    ensures Decodable(SurvivingFrames(hist, ids)) && RecordsOf(SurvivingFrames(hist, ids)) == Surviving(hist, ids)
    decreases |ids|
  {
    hide Decode, IndexedFrames, Encodable;
    if ids != [] {
      assert ids[0] in ids;
      SurvivingDecode(hist, ids[1..]);
      IndexedDecode(ids[0], hist[ids[0]]);
      DecodableConcat(IndexedFrames(ids[0], hist[ids[0]]), SurvivingFrames(hist, ids[1..]));
    }
  }

  /** The directory reads as the history of its surviving segments. */
  lemma DiskReads(d: Disk, hist: History)
    requires SegmentsFit(d, hist) && hist != []
    ensures InRange(Ascending(d.segs.Keys), 0, |hist|)
    ensures WholeStream(Contents(d), Last(hist)) == Some(SurvivingFrames(hist, Ascending(d.segs.Keys)))
    ensures WellFormed(Contents(d), Last(hist))
    ensures StoredRecords(Contents(d), Last(hist)) == Surviving(hist, Ascending(d.segs.Keys))
  {
    hide Decode, Encodable, Holds, FileOf, Stream, SurvivingFrames, Surviving;
    var ids := Ascending(d.segs.Keys);
    AscendingIs(d.segs.Keys);
    assert Contents(d).Keys == d.segs.Keys;
    StreamOfDisk(d, hist, ids);
    SurvivingDecode(hist, ids);
  }

  /** Segments from `p` on, all of them. */
  lemma {:induction false} SurvivingAll(hist: History, ids: seq<SegmentId>, p: nat)
    requires Increasing(ids) && p <= |hist|
    requires InRange(ids, p, |hist|)
    requires forall id :: p <= id < |hist| ==> id in ids
    ensures Surviving(hist, ids) == FlatFrom(hist, p)
    decreases |ids|
  {
    if p == |hist| {
      assert ids == [];
    } else {
      assert p in ids;
      var i :| 0 <= i < |ids| && ids[i] == p;
      assert ids[0] == p;
      IncreasingTail(ids);
      forall id | p + 1 <= id < |hist| ensures id in ids[1..] {
        TailElements(ids, id);
      }
      SurvivingAll(hist, ids[1..], p + 1);
    }
  }

  /** The surviving records end with everything from `p` on, if no segment from `p` on is gone. */
  lemma {:induction false} SurvivingSuffix(hist: History, ids: seq<SegmentId>, p: nat) returns (x: seq<NodeRecord>)
    requires Increasing(ids) && p < |hist|
    requires InRange(ids, 0, |hist|)
    requires forall id :: p <= id < |hist| ==> id in ids
    ensures Surviving(hist, ids) == x + FlatFrom(hist, p)
    decreases |ids|
  {
    assert p in ids;
    assert ids[0] in ids;
    IncreasingTail(ids);
    if ids[0] < p {
      forall id | p <= id < |hist| ensures id in ids[1..] {
        TailElements(ids, id);
      }
      var y := SurvivingSuffix(hist, ids[1..], p);
      x := hist[ids[0]] + y;
      assert hist[ids[0]] + (y + FlatFrom(hist, p)) == x + FlatFrom(hist, p);
    } else {
      SurvivingAll(hist, ids, p);
      x := [];
      assert [] + FlatFrom(hist, p) == FlatFrom(hist, p);
    }
  }

  lemma {:induction false} FlatSuffix(hist: History, p: nat, q: nat) returns (x: seq<NodeRecord>)
    requires p <= q
    ensures FlatFrom(hist, p) == x + FlatFrom(hist, q)
    decreases q - p
  {
    if p == q || |hist| <= p {
      x := [];
      assert [] + FlatFrom(hist, q) == FlatFrom(hist, q);
    } else {
      var y := FlatSuffix(hist, p + 1, q);
      x := hist[p] + y;
      assert hist[p] + (y + FlatFrom(hist, q)) == x + FlatFrom(hist, q);
    }
  }

  /** Records before a suffix that holds a checkpoint of the node do not matter. */
  lemma NaiveSuffix(x: seq<NodeRecord>, s: seq<NodeRecord>, n: NodeId)
    requires HasCheckpoint(OwnRecords(s, n))
    ensures Naive(x + s, n) == Naive(s, n)
  {
    hide Fold;
    OwnConcat(x, s, n);
    LastCheckpointConcat(OwnRecords(x, n), OwnRecords(s, n));
  }

  lemma {:induction false} OwnHas(rs: seq<NodeRecord>, k: nat)
    requires k < |rs| && rs[k].record.SnapshotCheckpoint?
    ensures HasCheckpoint(OwnRecords(rs, rs[k].node))
    decreases k
  {
    var n := rs[k].node;
    if k == 0 {
      assert OwnRecords(rs, n)[0].SnapshotCheckpoint?;
    } else {
      OwnHas(rs[1..], k - 1);
      var i :| 0 <= i < |OwnRecords(rs[1..], n)| && OwnRecords(rs[1..], n)[i].SnapshotCheckpoint?;
      var h := if rs[0].node == n then 1 else 0;
      assert OwnRecords(rs, n)[h + i] == OwnRecords(rs[1..], n)[i];
    }
  }

  /** Deleted segments do not matter to a node whose checkpoint segment is still there. */
  lemma SurvivingNaive(d: Disk, hist: History, n: NodeId, p: RecordPosition, k: nat)
    requires SegmentsFit(d, hist) && hist != [] && PointsAt(d, hist, n, p, k)
    ensures InRange(Ascending(d.segs.Keys), 0, |hist|)
    ensures Naive(Surviving(hist, Ascending(d.segs.Keys)), n) == Naive(Flat(hist), n)
  {
    hide SegmentsFit, Encodable, OffsetOf, Naive, Surviving, Ascending, OwnRecords, HasCheckpoint;
    KeysInRange(d, hist, p.segment);
    SuffixNaive(hist, Ascending(d.segs.Keys), p.segment, k, n);
  }

  lemma SuffixNaive(hist: History, ids: seq<SegmentId>, p: nat, k: nat, n: NodeId)
    requires Increasing(ids) && InRange(ids, 0, |hist|) && p < |hist|
    requires forall id :: p <= id < |hist| ==> id in ids
    requires k < |hist[p]| && hist[p][k].node == n && hist[p][k].record.SnapshotCheckpoint?
    ensures Naive(Surviving(hist, ids), n) == Naive(Flat(hist), n)
  {
    hide Naive, Surviving, OwnRecords, HasCheckpoint;
    var x := SurvivingSuffix(hist, ids, p);
    var y := FlatSuffix(hist, 0, p);
    var s := FlatFrom(hist, p);
    assert s[k] == hist[p][k];
    OwnHas(s, k);
    NaiveSuffix(x, s, n);
    NaiveSuffix(y, s, n);
  }

  lemma KeysInRange(d: Disk, hist: History, p: nat)
    requires SegmentsFit(d, hist) && hist != [] && forall id :: p <= id < |hist| ==> id in d.segs
    ensures Increasing(Ascending(d.segs.Keys)) && InRange(Ascending(d.segs.Keys), 0, |hist|)
    ensures forall id :: p <= id < |hist| ==> id in Ascending(d.segs.Keys)
  {
    hide Holds, FileOf, HistoryOk;
    AscendingIs(d.segs.Keys);
    var ids := Ascending(d.segs.Keys);
    forall i | 0 <= i < |ids| ensures 0 <= ids[i] < |hist| {
      assert ids[i] in ids;
    }
  }

  lemma {:induction false} FrameIsThere(hist: History, ids: seq<SegmentId>, id: SegmentId, k: nat) returns (i: nat)
    requires HistoryOk(hist) && InRange(ids, 0, |hist|) && id in ids && k < |hist[id]|
    ensures i < |SurvivingFrames(hist, ids)| && SurvivingFrames(hist, ids)[i] == IndexedFrames(id, hist[id])[k]
    decreases |ids|
  {
    hide IndexedFrames, Encodable;
    IndexedLength(ids[0], hist[ids[0]]);
    IndexedLength(id, hist[id]);
    if ids[0] == id {
      i := k;
    } else {
      assert id in ids[1..];
      var j := FrameIsThere(hist, ids[1..], id, k);
      i := |hist[ids[0]]| + j;
    }
  }

  lemma IndexedLength(id: SegmentId, rs: seq<NodeRecord>)
    requires AllEncodable(rs)
    ensures |IndexedFrames(id, rs)| == |rs|
  {
  }

  /** An index entry is a valid replay hint. */
  lemma EntryIsHint(d: Disk, hist: History, n: NodeId, p: RecordPosition, k: nat)
    requires SegmentsFit(d, hist) && hist != [] && PointsAt(d, hist, n, p, k)
    ensures ValidHint(Contents(d), Last(hist), n, p)
  {
    hide Decode, Body, Encodable, Holds, FileOf, WholeStream, Surviving;
    DiskReads(d, hist);
    AscendingIs(d.segs.Keys);
    var i := FrameIsThere(hist, Ascending(d.segs.Keys), p.segment, k);
    DecodeBody(hist[p.segment][k]);
  }

  /** Reading an active node, from its index entry, gives the fold of its whole history from
      its last checkpoint, deleted segments notwithstanding. */
  lemma ActiveNodeReads(d: Disk, hist: History, n: NodeId)
    requires DiskInv(d, hist) && hist != [] && IsActive(d.registry, n)
    ensures n in d.index && ValidHint(Contents(d), Last(hist), n, d.index[n])
    ensures WellFormed(Contents(d), Last(hist))
    ensures Naive(StoredRecords(Contents(d), Last(hist)), n) == Naive(Flat(hist), n)
    ensures ReplayNode(Contents(d), Last(hist), n, Some(d.index[n])) == Naive(Flat(hist), n)
  {
    hide SegmentsFit, PointsAt, WellFormed, StoredRecords, ReplayNode, Naive, ValidHint, Surviving;
    var k :| PointsAt(d, hist, n, d.index[n], k);
    DiskReads(d, hist);
    LastInSpace(d, hist);
    SurvivingNaive(d, hist, n, d.index[n], k);
    EntryIsHint(d, hist, n, d.index[n], k);
    HintIndependence(Contents(d), Last(hist), n, Some(d.index[n]));
  }

  // ---- crashes ----------------------------------------------------------------------------------

  /** How many records of a file lie wholly within its first `len` bytes. */
  ghost function Whole(rs: seq<NodeRecord>, len: nat): (k: nat)
    ensures k <= |rs|
  {
    if len < SEGMENT_HEADER_LEN then 0 else WholeFrames(Bodies(rs), len - SEGMENT_HEADER_LEN)
  }

  lemma {:induction false} WholeOfAll(bodies: seq<seq<byte>>, room: nat)
    requires forall b :: b in bodies ==> |b| <= MAX_RECORD_BODY_LEN
    requires |FrameRun(bodies)| <= room
    ensures WholeFrames(bodies, room) == |bodies|
    decreases |bodies|
  {
    hide FrameOf;
    if bodies != [] {
      assert bodies[0] in bodies;
      FrameLength(bodies[0]);
      WholeOfAll(bodies[1..], room - FRAME_HEADER_LEN - |bodies[0]|);
    }
  }

  lemma {:induction false} WholeMonotone(bodies: seq<seq<byte>>, j: nat, room: nat)
    requires forall b :: b in bodies ==> |b| <= MAX_RECORD_BODY_LEN
    requires j <= |bodies| && |FrameRun(bodies[..j])| <= room
    ensures j <= WholeFrames(bodies, room)
    decreases |bodies|
  {
    hide FrameOf;
    if j > 0 {
      assert bodies[..j][1..] == bodies[1..][..j - 1];
      FrameLength(bodies[0]);
      WholeMonotone(bodies[1..], j - 1, room - FRAME_HEADER_LEN - |bodies[0]|);
    }
  }

  /** Records that end within the first `len` bytes are among the whole ones. */
  lemma WholeCovers(rs: seq<NodeRecord>, j: nat, len: nat)
    requires AllEncodable(rs) && j <= |rs| && OffsetOf(rs, j) <= len
    ensures j <= Whole(rs, len)
  {
    hide Encodable, Body, FrameRun;
    LayoutIs(rs);
    LayoutIs(rs[..j]);
    assert Bodies(rs[..j]) == Bodies(rs)[..j];
    WholeMonotone(Bodies(rs), j, len - SEGMENT_HEADER_LEN);
  }

  lemma PartShrinks(t: seq<byte>, u: seq<byte>)
    requires PartOfFrame(t) && u <= t
    ensures PartOfFrame(u)
  {
    hide FrameOf;
    var body: seq<byte> :| |body| <= MAX_RECORD_BODY_LEN && t < FrameOf(body);
    assert u < FrameOf(body);
  }

  /** A file in use that is cut anywhere is a file in use with the records wholly before the cut. */
  lemma CutHolds(bytes: seq<byte>, rs: seq<NodeRecord>, len: nat)
    requires AllEncodable(rs) && Holds(bytes, rs) && len <= |bytes|
    ensures AllEncodable(rs[..Whole(rs, len)]) && Holds(bytes[..len], rs[..Whole(rs, len)])
  {
    hide Encodable, Body, PartOfFrame, FrameRun, WholeFrames;
    var k := Whole(rs, len);
    EmptyLayout();
    if FileOf(rs) <= bytes && PartOfFrame(bytes[|FileOf(rs)|..]) {
      if len < SEGMENT_HEADER_LEN {
        assert rs[..0] == [];
        assert bytes[..len] == SEGMENT_MAGIC[..len];
      } else if |FileOf(rs)| <= len {
        LayoutIs(rs);
        WholeOfAll(Bodies(rs), len - SEGMENT_HEADER_LEN);
        assert rs[..k] == rs;
        PartShrinks(bytes[|FileOf(rs)|..], bytes[..len][|FileOf(rs)|..]);
      } else {
        CutInside(rs, len);
        assert bytes[..len] == FileOf(rs)[..len];
      }
    } else {
      assert rs[..k] == [];
    }
  }

  lemma CutInside(rs: seq<NodeRecord>, len: nat)
    requires AllEncodable(rs) && SEGMENT_HEADER_LEN <= len <= |FileOf(rs)|
    ensures var k := Whole(rs, len);
            && AllEncodable(rs[..k]) && FileOf(rs[..k]) <= FileOf(rs)[..len]
            && PartOfFrame(FileOf(rs)[..len][|FileOf(rs[..k])|..])
  {
    hide Encodable, Body, PartOfFrame, FrameRun, WholeFrames;
    var k := Whole(rs, len);
    LayoutIs(rs);
    LayoutIs(rs[..k]);
    var run, cut := FrameRun(Bodies(rs)), len - SEGMENT_HEADER_LEN;
    CutRun(Bodies(rs), cut);
    assert Bodies(rs[..k]) == Bodies(rs)[..k];
    assert FileOf(rs)[..len] == SEGMENT_MAGIC + run[..cut];
    var kept := FrameRun(Bodies(rs[..k]));
    assert FileOf(rs)[..len][|FileOf(rs[..k])|..] == run[|kept|..cut];
  }

  /** The bytes a write in progress adds: part of a record behind a complete file, or part
      of the header of a new one. */
  ghost predicate InFlight(bytes: seq<byte>, rs: seq<NodeRecord>, t: seq<byte>)
    requires AllEncodable(rs)
  {
    || t == []
    || (bytes == FileOf(rs) && PartOfFrame(t))
    || (bytes == [] && rs == [] && t < SEGMENT_MAGIC)
  }

  /** A crash: the last file keeps some prefix of what was written to it, at least the durable part. */
  function CrashDisk(d: Disk, last: SegmentId, t: seq<byte>, len: nat): Disk
    requires last in d.segs && len <= |d.segs[last].bytes + t|
  {
    d.(segs := d.segs[last := d.segs[last].(bytes := (d.segs[last].bytes + t)[..len])])
  }

  /** The history a crash leaves. */
  ghost function CrashHistory(hist: History, len: nat): History
    requires hist != []
  {
    hist[Last(hist) := hist[Last(hist)][..Whole(hist[Last(hist)], len)]]
  }

  lemma InFlightHolds(bytes: seq<byte>, rs: seq<NodeRecord>, t: seq<byte>)
    requires AllEncodable(rs) && Holds(bytes, rs) && InFlight(bytes, rs, t)
    ensures Holds(bytes + t, rs)
  {
    hide Encodable, PartOfFrame, Layout;
    if t == [] {
      assert bytes + t == bytes;
    } else if bytes == FileOf(rs) && PartOfFrame(t) {
      assert (bytes + t)[|FileOf(rs)|..] == t;
    } else {
      assert bytes + t == t;
    }
  }

  lemma FlatPrefix(hist: History, k: nat)
    requires hist != [] && k <= |hist[Last(hist)]|
    ensures var hist' := hist[Last(hist) := hist[Last(hist)][..k]];
            && Flat(hist') <= Flat(hist)
            && |Flat(hist')| == |Flat(hist[..Last(hist)])| + k
            && hist'[..Last(hist')] == hist[..Last(hist)]
  {
    var hist' := hist[Last(hist) := hist[Last(hist)][..k]];
    assert hist'[..Last(hist')] == hist[..Last(hist)];
    FlatLast(hist, 0);
    FlatLast(hist', 0);
  }

  lemma CrashFits(d: Disk, hist: History, t: seq<byte>, len: nat)
    requires SegmentsFit(d, hist) && hist != [] && InFlight(d.segs[Last(hist)].bytes, hist[Last(hist)], t)
    requires d.segs[Last(hist)].durable <= len <= |d.segs[Last(hist)].bytes + t|
    ensures SegmentsFit(CrashDisk(d, Last(hist), t, len), CrashHistory(hist, len))
  {
    hide Encodable, FileOf, Holds, InFlight, Whole;
    var last := Last(hist);
    InFlightHolds(d.segs[last].bytes, hist[last], t);
    CutHolds(d.segs[last].bytes + t, hist[last], len);
  }

  lemma PrefixOffset(rs: seq<NodeRecord>, w: nat, j: nat)
    requires AllEncodable(rs) && j <= w <= |rs|
    ensures AllEncodable(rs[..w]) && OffsetOf(rs[..w], j) == OffsetOf(rs, j)
  {
    hide Encodable, FileOf;
    assert rs[..w][..j] == rs[..j];
  }

  /** A change of the directory that keeps the invariant and loses no durable record. */
  ghost predicate Survives(d: Disk, hist: History, d': Disk, hist': History) {
    && SegmentsFit(d, hist)
    && SegmentsFit(d', hist') && IndexFits(d', hist')
    && forall c: nat :: Durable(d, hist, c) ==> c <= |Flat(hist')| && Durable(d', hist', c)
  }

  lemma CrashIndex(d: Disk, hist: History, t: seq<byte>, len: nat)
    requires SegmentsFit(d, hist) && IndexFits(d, hist) && hist != [] && Last(hist) in d.segs
    requires d.segs[Last(hist)].durable <= len <= |d.segs[Last(hist)].bytes + t|
    requires SegmentsFit(CrashDisk(d, Last(hist), t, len), CrashHistory(hist, len))
    ensures IndexFits(CrashDisk(d, Last(hist), t, len), CrashHistory(hist, len))
  {
    hide SegmentsFit, PointsAt, Whole;
    var d', hist' := CrashDisk(d, Last(hist), t, len), CrashHistory(hist, len);
    forall n | IsActive(d'.registry, n) ensures n in d'.index && exists k :: PointsAt(d', hist', n, d'.index[n], k) {
      var k :| PointsAt(d, hist, n, d.index[n], k);
      CrashEntry(d, hist, t, len, n, d.index[n], k);
    }
  }

  lemma CrashDurable(d: Disk, hist: History, t: seq<byte>, len: nat, c: nat)
    requires SegmentsFit(d, hist) && hist != [] && Last(hist) in d.segs
    requires d.segs[Last(hist)].durable <= len <= |d.segs[Last(hist)].bytes + t|
    requires SegmentsFit(CrashDisk(d, Last(hist), t, len), CrashHistory(hist, len))
    requires Durable(d, hist, c)
    ensures c <= |Flat(CrashHistory(hist, len))| &&
        Durable(CrashDisk(d, Last(hist), t, len), CrashHistory(hist, len), c)
  {
    hide Encodable, FileOf, Whole, SegmentsFit, Flat;
    var last := Last(hist);
    var rs, w := hist[last], Whole(hist[last], len);
    LastEncodable(d, hist);
    FlatPrefix(hist, w);
    var base := |Flat(hist[..last])|;
    if c > base {
      WholeCovers(rs, c - base, len);
      PrefixOffset(rs, w, c - base);
    }
  }

  /** Every crash keeps the directory invariant and every durable record, and loses only a
      suffix of the history. */
  lemma CrashKeeps(d: Disk, hist: History, t: seq<byte>, len: nat)
    requires DiskInv(d, hist) && hist != [] && InFlight(d.segs[Last(hist)].bytes, hist[Last(hist)], t)
    requires d.segs[Last(hist)].durable <= len <= |d.segs[Last(hist)].bytes + t|
    ensures Survives(d, hist, CrashDisk(d, Last(hist), t, len), CrashHistory(hist, len))
    ensures Flat(CrashHistory(hist, len)) <= Flat(hist)
  {
    CrashFits(d, hist, t, len);
    hide SegmentsFit, IndexFits, Durable, Whole, Flat;
    var d', hist' := CrashDisk(d, Last(hist), t, len), CrashHistory(hist, len);
    CrashIndex(d, hist, t, len);
    forall c: nat | Durable(d, hist, c) ensures c <= |Flat(hist')| && Durable(d', hist', c) {
      CrashDurable(d, hist, t, len, c);
    }
    FlatPrefix(hist, Whole(hist[Last(hist)], len));
  }

  /** The file of a segment whose records are all there. */
  ghost function CompleteFile(rs: seq<NodeRecord>): SegmentFile {
    if AllEncodable(rs) then SegmentFile(FileOf(rs), |FileOf(rs)|) else SegmentFile([], 0)
  }

  /** A power loss before the directory was synced can bring deleted files back, as they were. */
  ghost function BroughtBack(d: Disk, hist: History, back: set<SegmentId>): Disk {
    d.(segs := (map id | id in back && id < |hist| - 1 :: CompleteFile(hist[id])) + d.segs)
  }

  lemma NothingBack(d: Disk, hist: History)
    ensures BroughtBack(d, hist, {}) == d
  {
    assert BroughtBack(d, hist, {}).segs == d.segs;
  }

  lemma BackFits(d: Disk, hist: History, back: set<SegmentId>)
    requires SegmentsFit(d, hist) && hist != []
    ensures SegmentsFit(BroughtBack(d, hist, back), hist)
    ensures forall n, p, k :: PointsAt(d, hist, n, p, k) ==> PointsAt(BroughtBack(d, hist, back), hist, n, p, k)
    ensures forall c: nat :: Durable(d, hist, c) ==> Durable(BroughtBack(d, hist, back), hist, c)
  {
    hide Encodable, FileOf, Holds, Flat, OffsetOf;
  }

  /** Files coming back do no harm: the directory stays in order and nothing durable is lost. */
  lemma BackKeeps(d: Disk, hist: History, back: set<SegmentId>)
    requires DiskInv(d, hist) && hist != []
    ensures DiskInv(BroughtBack(d, hist, back), hist) && SegmentsFit(d, hist)
    ensures forall c: nat :: Durable(d, hist, c) ==> Durable(BroughtBack(d, hist, back), hist, c)
  {
    hide SegmentsFit, PointsAt, Durable, CompleteFile;
    BackFits(d, hist, back);
    var d' := BroughtBack(d, hist, back);
    forall n | IsActive(d'.registry, n) ensures n in d'.index && exists k :: PointsAt(d', hist, n, d'.index[n], k) {
      var k :| PointsAt(d, hist, n, d.index[n], k);
      assert PointsAt(d', hist, n, d'.index[n], k);
    }
  }

  lemma LastInSpace(d: Disk, hist: History)
    requires SegmentsFit(d, hist) && hist != []
    ensures Last(hist) < U64_LIMIT && Last(hist) in d.segs
  {
  }

  lemma LastEncodable(d: Disk, hist: History)
    requires SegmentsFit(d, hist)
    ensures forall i :: 0 <= i < |hist| ==> AllEncodable(hist[i])
  {
  }

  lemma CrashEntry(d: Disk, hist: History, t: seq<byte>, len: nat, n: NodeId, p: RecordPosition, k: nat)
    requires SegmentsFit(d, hist) && hist != [] && Last(hist) in d.segs
    requires d.segs[Last(hist)].durable <= len <= |d.segs[Last(hist)].bytes + t|
    requires SegmentsFit(CrashDisk(d, Last(hist), t, len), CrashHistory(hist, len))
    requires PointsAt(d, hist, n, p, k)
    ensures PointsAt(CrashDisk(d, Last(hist), t, len), CrashHistory(hist, len), n, p, k)
  {
    hide Encodable, FileOf, Holds, Whole, SegmentsFit;
    LastEncodable(d, hist);
    if p.segment == Last(hist) {
      var rs, w := hist[Last(hist)], Whole(hist[Last(hist)], len);
      WholeCovers(rs, k + 1, len);
      PrefixOffset(rs, w, k + 1);
      PrefixOffset(rs, w, k);
    }
  }
}
