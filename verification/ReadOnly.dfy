/** Read-only loads beside a running writer. The reader takes no lock; while it
    lists and reads the directory twice, the writer appends and rotates. Whatever
    state it returns is that of one prefix of the record stream. */
module Readers {
  import opened Words
  import opened Records
  import opened Sorted
  import opened Codec
  import opened Frames
  import opened NodeStates
  import opened Replay
  import opened ReplayProofs
  import opened Replayer
  import opened Disks
  import opened DurableSteps
  import opened Protocol
  import opened Runs

  // ---- what a writer does meanwhile -----------------------------------------------------------

  /** The steps of appending, rotating and syncing. */
  predicate Appends(m: Micro) {
    m.CreateSegment? || m.WriteHeader? || m.WriteFrame? || m.SyncData?
  }

  ghost predicate HistoryGrows(a: History, b: History) {
    && |a| <= |b|
    && (forall i :: 0 <= i < |a| - 1 ==> b[i] == a[i])
    && (a != [] ==> a[Last(a)] <= b[Last(a)])
  }

  ghost predicate FilesGrow(a: Disk, b: Disk) {
    && b.registry == a.registry && b.index == a.index
    && forall id :: id in a.segs ==> id in b.segs && a.segs[id].bytes <= b.segs[id].bytes
  }

  /** `q` is `p` after more appends and rotations. */
  ghost predicate Extends(p: Point, q: Point) {
    && SegmentsFit(p.disk, p.hist) && SegmentsFit(q.disk, q.hist)
    && HistoryGrows(p.hist, q.hist) && FilesGrow(p.disk, q.disk)
    && forall id :: id in q.disk.segs ==> id in p.disk.segs || |p.hist| <= id
  }

  lemma ExtendsItself(p: Point)
    requires SegmentsFit(p.disk, p.hist)
    ensures Extends(p, p)
  {
    hide SegmentsFit;
  }

  lemma GrowsOn(a: History, b: History, c: History)
    requires HistoryGrows(a, b) && HistoryGrows(b, c)
    ensures HistoryGrows(a, c)
  {
    forall i | 0 <= i < |a| - 1 ensures c[i] == a[i] {
      assert b[i] == a[i];
    }
    if a != [] {
      var l := Last(a);
      if l < |b| - 1 {
        assert c[l] == b[l];
      } else {
        assert b[l] <= c[l];
      }
    }
  }

  lemma ExtendsOn(p: Point, q: Point, r: Point)
    requires Extends(p, q) && Extends(q, r)
    ensures Extends(p, r)
  {
    hide SegmentsFit;
    GrowsOn(p.hist, q.hist, r.hist);
    forall id | id in p.disk.segs ensures id in r.disk.segs && p.disk.segs[id].bytes <= r.disk.segs[id].bytes {
      assert p.disk.segs[id].bytes <= q.disk.segs[id].bytes <= r.disk.segs[id].bytes;
    }
  }

  lemma StepExtends(p: Point, m: Micro)
    requires SegmentsFit(p.disk, p.hist) && MicroOk(p.disk, p.hist, m) && Appends(m)
    ensures Extends(p, NextPoint(p, m))
  {
    hide SegmentsFit, MicroOk, Flat, ApplyMicro, ApplyHistory;
    StepFits(p.disk, p.hist, m);
    if m.CreateSegment? {
      CreateExtends(p, m);
    } else {
      LastExtends(p, m);
    }
  }

  lemma CreateExtends(p: Point, m: Micro)
    requires SegmentsFit(p.disk, p.hist) && MicroOk(p.disk, p.hist, m) && m.CreateSegment?
    ensures var d, hist := ApplyMicro(p.disk, m), ApplyHistory(p.hist, m);
            && HistoryGrows(p.hist, hist) && FilesGrow(p.disk, d)
            && forall id :: id in d.segs ==> id in p.disk.segs || |p.hist| <= id
  {
    hide SegmentsFit, MicroOk;
    FreshName(p.disk, p.hist, m);
  }

  /** Steps on the last file only add to it. */
  lemma LastExtends(p: Point, m: Micro)
    requires SegmentsFit(p.disk, p.hist) && MicroOk(p.disk, p.hist, m) && Appends(m) && !m.CreateSegment?
    ensures var d, hist := ApplyMicro(p.disk, m), ApplyHistory(p.hist, m);
            && HistoryGrows(p.hist, hist) && FilesGrow(p.disk, d)
            && forall id :: id in d.segs ==> id in p.disk.segs || |p.hist| <= id
  {
    hide SegmentsFit, MicroOk, Written;
    LastOnly(p.disk, p.hist, m);
  }

  lemma FreshName(d: Disk, hist: History, m: Micro)
    requires SegmentsFit(d, hist) && MicroOk(d, hist, m)
    ensures m.CreateSegment? ==> m.id !in d.segs && m.id == |hist|
  {
    hide FileOf, Holds, HistoryOk, Settled;
  }

  /** Step `i` of a run appends, or leaves the directory alone. */
  ghost predicate AppendsAt(run: seq<World>, i: nat)
    requires i + 1 < |run|
  {
    || (run[i + 1].at.disk == run[i].at.disk && run[i + 1].at.hist == run[i].at.hist)
    || (TakesStep(run[i], run[i + 1]) && Appends(run[i].engine.value.todo[0]))
  }

  /** Over any stretch of a run in which the writer only appends and rotates, the directory grows. */
  lemma {:induction false} RunExtends(run: seq<World>, i: nat, j: nat)
    requires IsRun(run) && i <= j < |run|
    requires forall k :: i <= k < j ==> AppendsAt(run, k)
    ensures Extends(run[i].at, run[j].at) && DiskInv(run[i].at.disk, run[i].at.hist)
    decreases j
  {
    hide WorldInv, Extends, Next, NextPoint, SegmentsFit, DiskInv, IsRun;
    RunKeeps(run, i);
    WorldParts(run[i]);
    if i == j {
      ExtendsItself(run[i].at);
    } else {
      RunExtends(run, i, j - 1);
      RunKeeps(run, j - 1);
      WorldParts(run[j - 1]);
      assert AppendsAt(run, j - 1);
      AppendExtends(run, j - 1);
      ExtendsOn(run[i].at, run[j - 1].at, run[j].at);
    }
  }

  lemma WorldParts(w: World)
    requires WorldInv(w)
    ensures SegmentsFit(w.at.disk, w.at.hist) && DiskInv(w.at.disk, w.at.hist)
    ensures w.engine.Some? && w.engine.value.Busy? && w.engine.value.todo != [] ==>
              MicroOk(w.at.disk, w.at.hist, w.engine.value.todo[0])
  {
    hide SegmentsFit, DiskInv, MicroOk, Durable, RunSteps, MemoryFits;
  }

  lemma AppendExtends(run: seq<World>, i: nat)
    requires i + 1 < |run| && WorldInv(run[i]) && AppendsAt(run, i)
    ensures Extends(run[i].at, run[i + 1].at)
  {
    hide WorldInv, Extends, NextPoint, SegmentsFit, DiskInv, MicroOk;
    WorldParts(run[i]);
    if run[i + 1].at.disk == run[i].at.disk && run[i + 1].at.hist == run[i].at.hist {
      ExtendsItself(run[i].at);
      SameExtends(run[i].at, run[i + 1].at);
    } else {
      StepExtends(run[i].at, run[i].engine.value.todo[0]);
    }
  }

  lemma SameExtends(p: Point, q: Point)
    requires Extends(p, p) && q.disk == p.disk && q.hist == p.hist
    ensures Extends(p, q)
  {
    hide SegmentsFit;
  }

  // ---- what a pass reads is a directory in order ------------------------------------------------

  /** A pass that listed the directory at `p` and had read every file by `q`. A write in progress
      at `q` is counted as done: the reader may see any part of it. */
  ghost predicate SeenBetween(p: Point, q: Point, seen: Segments) {
    && Extends(p, q) && p.hist != []
    && seen.Keys == p.disk.segs.Keys
    && forall id :: id in seen ==> p.disk.segs[id].bytes <= seen[id] <= q.disk.segs[id].bytes
  }

  ghost function SeenDisk(p: Point, seen: Segments): Disk {
    Disk(map id | id in seen :: SegmentFile(seen[id], |seen[id]|), p.disk.registry, p.disk.index)
  }

  /** The records a pass sees: everything in the files before the last it listed, and the whole
      records of what it saw of that one. */
  ghost function SeenHistory(p: Point, q: Point, seen: Segments): History
    requires p.hist != [] && |p.hist| <= |q.hist| && Last(p.hist) in seen
  {
    var last := Last(p.hist);
    q.hist[..last] + [q.hist[last][..Whole(q.hist[last], |seen[last]|)]]
  }

  lemma ContentsOfSeen(p: Point, seen: Segments)
    ensures Contents(SeenDisk(p, seen)) == seen
  {
  }

  /** The bytes of a file that a later point has complete, or in use as its last. */
  lemma FileAtEnd(d: Disk, hist: History, id: SegmentId)
    requires SegmentsFit(d, hist) && id in d.segs && id < |hist|
    ensures AllEncodable(hist[id]) && Holds(d.segs[id].bytes, hist[id])
    ensures id < Last(hist) ==> d.segs[id].bytes == FileOf(hist[id])
  {
    hide Encodable, Layout, Holds;
    if id < Last(hist) {
      FileHolds(hist[id]);
    }
  }

  lemma LastListed(p: Point, q: Point, seen: Segments)
    requires SeenBetween(p, q, seen)
    ensures Last(p.hist) in seen && Last(p.hist) in q.disk.segs && Last(p.hist) < |q.hist|
    ensures SegmentsFit(p.disk, p.hist) && SegmentsFit(q.disk, q.hist)
  {
    hide Holds, FileOf, HistoryOk;
  }

  lemma BetweenEqual(a: seq<byte>, b: seq<byte>, c: seq<byte>)
    requires a <= b <= c && a == c
    ensures b == a
  {
  }

  /** Before the last listed file a pass reads complete files. */
  lemma InactiveSeen(p: Point, q: Point, seen: Segments, id: SegmentId)
    requires SeenBetween(p, q, seen) && id in seen && id != Last(p.hist)
    ensures id < Last(p.hist) && id < |q.hist| && q.hist[id] == p.hist[id]
    ensures AllEncodable(q.hist[id]) && seen[id] == FileOf(q.hist[id])
  {
    hide Holds, FileOf, SegmentsFit, Encodable;
    LastListed(p, q, seen);
    KeyBound(p.disk, p.hist, id);
    FileAtEnd(p.disk, p.hist, id);
    FileAtEnd(q.disk, q.hist, id);
    BetweenEqual(p.disk.segs[id].bytes, seen[id], q.disk.segs[id].bytes);
  }

  /** Of the last listed file it reads some part that was there. */
  lemma LastSeen(p: Point, q: Point, seen: Segments)
    requires SeenBetween(p, q, seen)
    ensures var last := Last(p.hist);
            && last in seen && last < |q.hist|
            && var w := Whole(q.hist[last], |seen[last]|);
               AllEncodable(q.hist[last][..w]) && Holds(seen[last], q.hist[last][..w])
  {
    hide Holds, FileOf, SegmentsFit, Encodable, Whole;
    LastListed(p, q, seen);
    var last := Last(p.hist);
    FileAtEnd(q.disk, q.hist, last);
    CutHolds(q.disk.segs[last].bytes, q.hist[last], |seen[last]|);
    assert q.disk.segs[last].bytes[..|seen[last]|] == seen[last];
  }

  lemma SeenFits(p: Point, q: Point, seen: Segments)
    requires SeenBetween(p, q, seen)
    ensures Last(p.hist) in seen
    ensures SegmentsFit(SeenDisk(p, seen), SeenHistory(p, q, seen))
  {
    hide Holds, FileOf, Encodable, Whole, Extends, AllEncodable;
    LastSeen(p, q, seen);
    var d, hist, last := SeenDisk(p, seen), SeenHistory(p, q, seen), Last(p.hist);
    SizesSeen(p, q, seen);
    forall id | id in d.segs && id < last ensures d.segs[id].bytes == FileOf(hist[id]) {
      InactiveSeen(p, q, seen, id);
    }
    forall id | id in d.segs ensures id <= last {
      if id != last {
        InactiveSeen(p, q, seen, id);
      }
    }
  }

  lemma SeenSizes(p: Point, q: Point, seen: Segments)
    requires SeenBetween(p, q, seen)
    ensures p.hist != [] && |p.hist| <= |q.hist| && Last(p.hist) in seen && SegmentsFit(p.disk, p.hist)
  {
    hide SegmentsFit;
    LastListed(p, q, seen);
  }

  lemma SizesSeen(p: Point, q: Point, seen: Segments)
    requires SeenBetween(p, q, seen)
    ensures Last(p.hist) in seen && HistoryOk(SeenHistory(p, q, seen))
  {
    hide Holds, FileOf, Encodable, Whole, SegmentsFit;
    LastSeen(p, q, seen);
    LastListed(p, q, seen);
    LastEncodable(q.disk, q.hist);
    HistoryIsOk(p.disk, p.hist);
  }

  /** The index still points at checkpoints in what a pass saw. */
  lemma SeenEntry(p: Point, q: Point, seen: Segments, n: NodeId, at: RecordPosition, k: nat)
    requires SeenBetween(p, q, seen) && SegmentsFit(p.disk, p.hist) && PointsAt(p.disk, p.hist, n, at, k)
    requires Last(p.hist) in seen && SegmentsFit(SeenDisk(p, seen), SeenHistory(p, q, seen))
    ensures PointsAt(SeenDisk(p, seen), SeenHistory(p, q, seen), n, at, k)
  {
    hide SegmentsFit, FileOf, Whole, Encodable;
    LastListed(p, q, seen);
    LastEncodable(p.disk, p.hist);
    LastEncodable(q.disk, q.hist);
    var last := Last(p.hist);
    var rs, rs' := p.hist[at.segment], q.hist[at.segment];
    assert rs'[..k] == rs[..k] && rs'[..k + 1] == rs[..k + 1];
    DurableBytes(p.disk, p.hist, at.segment);
    if at.segment == last {
      WholeCovers(rs', k + 1, |seen[last]|);
      PrefixOffset(rs', Whole(rs', |seen[last]|), k);
      PrefixOffset(rs', Whole(rs', |seen[last]|), k + 1);
    }
  }

  lemma DurableBytes(d: Disk, hist: History, id: SegmentId)
    requires SegmentsFit(d, hist) && id in d.segs
    ensures d.segs[id].durable <= |d.segs[id].bytes|
  {
    hide Holds, FileOf, HistoryOk;
  }

  lemma SeenInv(p: Point, q: Point, seen: Segments)
    requires SeenBetween(p, q, seen) && DiskInv(p.disk, p.hist)
    ensures Last(p.hist) in seen && DiskInv(SeenDisk(p, seen), SeenHistory(p, q, seen))
  {
    hide SegmentsFit, PointsAt, SeenBetween;
    SeenFits(p, q, seen);
    SeenSizes(p, q, seen);
    IndexFitsIs(p.disk, p.hist);
    var d, hist := SeenDisk(p, seen), SeenHistory(p, q, seen);
    forall n | IsActive(d.registry, n) ensures n in d.index && exists k :: PointsAt(d, hist, n, d.index[n], k) {
      var k :| PointsAt(p.disk, p.hist, n, p.disk.index[n], k);
      SeenEntry(p, q, seen, n, d.index[n], k);
    }
  }

  // ---- two passes --------------------------------------------------------------------------------

  /** Two passes, the second listing the directory after the first, both done by `end`. */
  datatype Reading = Reading(first: Point, second: Point, end: Point, seenFirst: Segments, seenSecond: Segments)

  ghost predicate ReadsThrough(r: Reading) {
    && DiskInv(r.first.disk, r.first.hist) && DiskInv(r.second.disk, r.second.hist)
    && Extends(r.first, r.second)
    && SeenBetween(r.first, r.end, r.seenFirst) && SeenBetween(r.second, r.end, r.seenSecond)
    && forall id :: id in r.seenFirst && id in r.seenSecond ==> r.seenFirst[id] <= r.seenSecond[id]
  }

  ghost function FirstHistory(r: Reading): History
    requires ReadsThrough(r)
  {
    LastListed(r.first, r.end, r.seenFirst);
    SeenHistory(r.first, r.end, r.seenFirst)
  }

  /** The records the second pass sees: the prefix that the result stands for. */
  ghost function SeenRecords(r: Reading): History
    requires ReadsThrough(r)
  {
    LastListed(r.second, r.end, r.seenSecond);
    SeenHistory(r.second, r.end, r.seenSecond)
  }

  ghost function FirstView(r: Reading): View
    requires ReadsThrough(r)
  {
    View(r.seenFirst, LastOf(r.first))
  }

  ghost function SecondView(r: Reading): View
    requires ReadsThrough(r)
  {
    View(r.seenSecond, LastOf(r.second))
  }

  ghost function LastOf(p: Point): SegmentId
    requires SegmentsFit(p.disk, p.hist) && p.hist != []
  {
    LastInSpace(p.disk, p.hist);
    Last(p.hist)
  }

  lemma WholeGrows(rs: seq<NodeRecord>, a: nat, b: nat)
    requires AllEncodable(rs) && a <= b
    ensures Whole(rs, a) <= Whole(rs, b)
  {
    hide Encodable, Body, WholeFrames;
    if SEGMENT_HEADER_LEN <= a {
      WholeFramesGrow(Bodies(rs), a - SEGMENT_HEADER_LEN, b - SEGMENT_HEADER_LEN);
    }
  }

  lemma {:induction false} WholeFramesGrow(bodies: seq<seq<byte>>, a: nat, b: nat)
    requires a <= b
    ensures WholeFrames(bodies, a) <= WholeFrames(bodies, b)
    decreases |bodies|
  {
    if bodies != [] && FRAME_HEADER_LEN + |bodies[0]| <= a {
      WholeFramesGrow(bodies[1..], a - FRAME_HEADER_LEN - |bodies[0]|, b - FRAME_HEADER_LEN - |bodies[0]|);
    }
  }

  /** The first pass sees no more than the second. */
  lemma SeenGrows(r: Reading)
    requires ReadsThrough(r)
    ensures HistoryGrows(FirstHistory(r), SeenRecords(r))
  {
    hide SegmentsFit, IndexFits, Whole, FileOf, Encodable;
    LastListed(r.first, r.end, r.seenFirst);
    LastListed(r.second, r.end, r.seenSecond);
    LastEncodable(r.end.disk, r.end.hist);
    var l := Last(r.first.hist);
    if l == Last(r.second.hist) {
      WholeGrows(r.end.hist[l], |r.seenFirst[l]|, |r.seenSecond[l]|);
    }
  }

  lemma {:induction false} FramesGrow(a: History, b: History, ids: seq<SegmentId>, more: seq<SegmentId>)
    requires HistoryOk(a) && HistoryOk(b) && HistoryGrows(a, b) && a != []
    requires Increasing(ids) && InRange(ids, 0, |a|) && InRange(ids + more, 0, |b|)
    requires ids != [] ==> ids[|ids| - 1] == Last(a)
    ensures SurvivingFrames(a, ids) <= SurvivingFrames(b, ids + more)
    decreases |ids|
  {
    hide IndexedFrames, Encodable;
    if ids != [] {
      var id := ids[0];
      assert (ids + more)[0] == id && (ids + more)[1..] == ids[1..] + more;
      assert forall i :: 0 <= i < |ids[1..] + more| ==> (ids[1..] + more)[i] == (ids + more)[i + 1];
      if |ids| == 1 {
        IndexedPrefix(id, a[id], b[id]);
        assert ids[1..] == [];
        assert IndexedFrames(id, a[id]) + [] == IndexedFrames(id, a[id]);
      } else {
        assert ids[0] < ids[|ids| - 1];
        FramesGrow(a, b, ids[1..], more);
      }
    }
  }

  lemma IndexedPrefix(id: SegmentId, a: seq<NodeRecord>, b: seq<NodeRecord>)
    requires AllEncodable(a) && AllEncodable(b) && a <= b
    ensures IndexedFrames(id, a) <= IndexedFrames(id, b)
  {
    hide Encodable, FileOf, Body;
    forall k | 0 <= k < |a| ensures IndexedFrames(id, a)[k] == IndexedFrames(id, b)[k] {
      assert a[..k] == b[..k];
    }
  }

  /** Listing later finds the same segments and then new ones. */
  lemma {:induction false} AscendingGrows(a: set<SegmentId>, b: set<SegmentId>)
    requires a <= b && forall x, y :: x in a && y in b && y !in a ==> x < y
    ensures Ascending(a) <= Ascending(b)
    decreases a
  {
    if a != {} {
      var m := MinOf(a);
      assert MinOf(b) == m by {
        assert IsMin(m, b);
      }
      AscendingGrows(a - {m}, b - {m});
    }
  }

  lemma LastOfAscending(d: Disk, hist: History)
    requires SegmentsFit(d, hist) && hist != []
    ensures var ids := Ascending(d.segs.Keys);
            ids != [] && ids[|ids| - 1] == Last(hist) && Increasing(ids) && InRange(ids, 0, |hist|)
  {
    hide SegmentsFit, SelectActive, Ascending;
    AscendingIs(d.segs.Keys);
    ActiveIsLast(d, hist);
    KeysAreIn(d, hist);
    SelectIs(d.segs.Keys);
  }

  lemma SelectIs(segs: set<SegmentId>)
    requires segs != {}
    ensures |Ascending(segs)| == |segs| && SelectActive(segs) == Ascending(segs)[|segs| - 1]
  {
    AscendingIs(segs);
  }

  lemma KeysAreIn(d: Disk, hist: History)
    requires SegmentsFit(d, hist) && hist != []
    ensures InRange(Ascending(d.segs.Keys), 0, |hist|) && d.segs.Keys != {}
  {
    hide Holds, FileOf, HistoryOk;
    AscendingIs(d.segs.Keys);
    var ids := Ascending(d.segs.Keys);
    forall i | 0 <= i < |ids| ensures 0 <= ids[i] < |hist| {
      assert ids[i] in ids;
    }
  }

  /** One pass reads a directory in order. */
  lemma PassReads(p: Point, q: Point, seen: Segments)
    requires SeenBetween(p, q, seen)
    ensures SegmentsFit(p.disk, p.hist) && Last(p.hist) in seen && |p.hist| <= |q.hist|
    ensures WellFormed(seen, LastOf(p))
    ensures var hist, ids := SeenHistory(p, q, seen), Ascending(seen.Keys);
            && HistoryOk(hist) && InRange(ids, 0, |hist|) && Increasing(ids)
            && ids != [] && ids[|ids| - 1] == Last(hist)
            && Shown(View(seen, LastOf(p))) == SurvivingFrames(hist, ids)
            && StoredRecords(seen, LastOf(p)) == Surviving(hist, ids)
  {
    hide SegmentsFit, SeenHistory, Surviving, SurvivingFrames, Ascending, InRange, Decodable, SeenBetween, Stream;
    SeenSizes(p, q, seen);
    SeenFits(p, q, seen);
    ContentsOfSeen(p, seen);
    SeenLast(p, q, seen);
    var d, hist := SeenDisk(p, seen), SeenHistory(p, q, seen);
    DiskReads(d, hist);
    HistoryIsOk(d, hist);
    LastOfAscending(d, hist);
  }

  /** The frames the first pass sees are a prefix of those the second sees. */
  lemma ViewsFollow(r: Reading)
    requires ReadsThrough(r)
    ensures Follows(FirstView(r), SecondView(r))
  {
    hide SegmentsFit, IndexFits, SeenHistory, SurvivingFrames, WholeStream, HistoryGrows, Ascending, InRange,
         Decodable, SeenBetween, StoredRecords, Surviving, Extends, HistoryOk;
    PassReads(r.first, r.end, r.seenFirst);
    PassReads(r.second, r.end, r.seenSecond);
    SeenGrows(r);
    ListingsGrow(r);
    var ids, ids' := Ascending(r.seenFirst.Keys), Ascending(r.seenSecond.Keys);
    assert ids' == ids + ids'[|ids|..];
    FramesGrow(FirstHistory(r), SeenRecords(r), ids, ids'[|ids|..]);
  }

  lemma SeenLast(p: Point, q: Point, seen: Segments)
    requires SeenBetween(p, q, seen) && Last(p.hist) in seen
    ensures SeenHistory(p, q, seen) != [] && Last(SeenHistory(p, q, seen)) == Last(p.hist)
    ensures SeenDisk(p, seen).segs.Keys == seen.Keys
  {
    hide SegmentsFit, Whole;
  }

  lemma ListingsGrow(r: Reading)
    requires ReadsThrough(r)
    ensures Ascending(r.seenFirst.Keys) <= Ascending(r.seenSecond.Keys)
  {
    hide SegmentsFit, IndexFits, Ascending;
    LastListed(r.first, r.end, r.seenFirst);
    var a, b := r.first.disk.segs.Keys, r.second.disk.segs.Keys;
    forall x, y | x in a && y in b && y !in a ensures x < y {
      KeyBound(r.first.disk, r.first.hist, x);
    }
    AscendingGrows(a, b);
  }

  // ---- main results --------------------------------------------------------------------------------

  /** What a read-only `load` returns. */
  ghost function LoadOf(r: Reading, n: NodeId): Option<State>
    requires ReadsThrough(r)
  {
    ReplayNodeViews(FirstView(r), SecondView(r), n, PositionFor(r.first.disk.index, n))
  }

  /** What a read-only `load_all` returns. */
  ghost function LoadAllOf(r: Reading): Option<States>
    requires ReadsThrough(r)
  {
    var nodes := ActiveNodes(r.first.disk.registry);
    LoadAllViews(FirstView(r), SecondView(r), nodes, HintsFor(r.first.disk.index, nodes))
  }

  /** The node's records fold without error from the last checkpoint the first pass saw up to the
      last one the second pass saw. */
  ghost predicate BetweenFolds(r: Reading, n: NodeId)
    requires ReadsThrough(r)
  {
    ViewsFollow(r);
    GapFolds(Shown(SecondView(r)), |Shown(FirstView(r))|, n)
  }

  /** A read-only `load` beside a writer that appends and rotates. Whenever it returns a state, that
      is the fold of the node's records, from its last checkpoint, in the records the second pass
      saw. State or error, it is that fold exactly when the fold is an error or the records between
      the checkpoints the two passes found fold; and it fails if what the first pass saw does. */
  lemma ReaderLoads(r: Reading, n: NodeId)
    requires ReadsThrough(r) && IsActive(r.first.disk.registry, n)
    ensures n in r.first.disk.index
    ensures LoadOf(r, n).Some? ==> LoadOf(r, n) == Naive(Flat(SeenRecords(r)), n)
    ensures LoadOf(r, n) == Naive(Flat(SeenRecords(r)), n)
            <==> Naive(Flat(SeenRecords(r)), n).None? || BetweenFolds(r, n)
    ensures Naive(Flat(FirstHistory(r)), n).None? ==> LoadOf(r, n).None?
  {
    hide SegmentsFit, DiskInv, SeenHistory, Surviving, WholeStream, Decodable, Naive, Flat, ReplayNodeViews, CaughtUp,
         SeenBetween, ValidHint, Extends, Ascending, GapFolds;
    ViewsFollow(r);
    PassNaive(r.first, r.end, r.seenFirst, n);
    SecondNaive(r, n);
    TwoPassesCatchUp(FirstView(r), SecondView(r), n, Some(r.first.disk.index[n]));
    var fs, seen := Shown(SecondView(r)), |Shown(FirstView(r))|;
    CaughtUpExactly(fs, seen, n);
    CaughtUpContinues(fs, seen, n);
    assert fs[..seen] == Shown(FirstView(r));
    if CaughtUp(fs, seen, n).Some? {
      CaughtUpIsNaive(fs, seen, n);
    }
  }

  /** The index entry a reader starts from is a hint for what a pass sees, and what it sees reads
      as the records it saw. */
  lemma PassNaive(p: Point, q: Point, seen: Segments, n: NodeId)
    requires SeenBetween(p, q, seen) && DiskInv(p.disk, p.hist) && IsActive(p.disk.registry, n)
    ensures p.hist != [] && |p.hist| <= |q.hist| && Last(p.hist) in seen && SegmentsFit(p.disk, p.hist)
    ensures WellFormed(seen, LastOf(p))
    ensures Naive(StoredRecords(seen, LastOf(p)), n) == Naive(Flat(SeenHistory(p, q, seen)), n)
    ensures n in p.disk.index && ValidHint(seen, LastOf(p), n, p.disk.index[n])
  {
    hide SegmentsFit, DiskInv, SeenHistory, Naive, Flat, SeenBetween, ValidHint, ReplayNode, WellFormed, StoredRecords;
    SeenSizes(p, q, seen);
    SeenInv(p, q, seen);
    SeenLast(p, q, seen);
    ContentsOfSeen(p, seen);
    ActiveNodeReads(SeenDisk(p, seen), SeenHistory(p, q, seen), n);
  }

  /** The same for the second pass; no node was created or removed in between. */
  lemma SecondNaive(r: Reading, n: NodeId)
    requires ReadsThrough(r) && IsActive(r.first.disk.registry, n)
    ensures WellFormed(r.seenSecond, LastOf(r.second))
    ensures Naive(StoredRecords(r.seenSecond, LastOf(r.second)), n) == Naive(Flat(SeenRecords(r)), n)
  {
    hide SegmentsFit, DiskInv, SeenHistory, Naive, Flat, SeenBetween, WellFormed, StoredRecords, HistoryGrows;
    PassNaive(r.second, r.end, r.seenSecond, n);
  }

  /** The same for `load_all`: all the states it returns are those of one and the same prefix, and
      it returns them, or an error, as the fold demands exactly when some node's fold is an error
      or every node's records in between fold. */
  lemma ReaderLoadsAll(r: Reading)
    requires ReadsThrough(r)
    ensures var nodes := ActiveNodes(r.first.disk.registry);
            nodes <= r.first.disk.index.Keys
    ensures LoadAllOf(r).Some? ==> LoadAllOf(r) == NaiveAll(Flat(SeenRecords(r)), ActiveNodes(r.first.disk.registry))
    ensures var nodes := ActiveNodes(r.first.disk.registry);
            LoadAllOf(r) == NaiveAll(Flat(SeenRecords(r)), nodes)
            <==> (exists n :: n in nodes && Naive(Flat(SeenRecords(r)), n).None?)
                 || forall n :: n in nodes ==> BetweenFolds(r, n)
  {
    hide SegmentsFit, DiskInv, SeenHistory, Surviving, WholeStream, Decodable, Naive, Flat, LoadAllViews, CaughtUp,
         SeenBetween, ValidHint, Extends, Ascending, GapFolds;
    ViewsFollow(r);
    SeenSizes(r.first, r.end, r.seenFirst);
    var nodes := ActiveNodes(r.first.disk.registry);
    var fs, seen := Shown(SecondView(r)), |Shown(FirstView(r))|;
    forall n | n in nodes
      ensures n in r.first.disk.index && ValidHint(r.seenFirst, LastOf(r.first), n, r.first.disk.index[n])
      ensures Naive(RecordsOf(fs), n) == Naive(Flat(SeenRecords(r)), n)
      ensures CaughtUp(fs, seen, n).Some? ==> CaughtUp(fs, seen, n) == Naive(RecordsOf(fs), n)
    {
      PassNaive(r.first, r.end, r.seenFirst, n);
      SecondNaive(r, n);
      if CaughtUp(fs, seen, n).Some? {
        CaughtUpIsNaive(fs, seen, n);
      }
    }
    var hints := map n | n in nodes :: r.first.disk.index[n];
    LoadAllCatchesUp(FirstView(r), SecondView(r), nodes, Some(hints));
    LoadAllExactly(FirstView(r), SecondView(r), nodes, Some(hints));
    SameNaive(RecordsOf(fs), Flat(SeenRecords(r)), nodes);
    if LoadAllOf(r).Some? {
      assert LoadAllOf(r).value == NaiveAll(RecordsOf(fs), nodes).value;
    }
  }

  lemma SameNaive(a: seq<NodeRecord>, b: seq<NodeRecord>, nodes: set<NodeId>)
    requires forall n :: n in nodes ==> Naive(a, n) == Naive(b, n)
    ensures NaiveAll(a, nodes) == NaiveAll(b, nodes)
  {
    hide Naive;
    if forall n :: n in nodes ==> Naive(a, n).Some? {
      assert NaiveAll(a, nodes).value == NaiveAll(b, nodes).value;
    }
  }

  // ---- no checkpoint meanwhile ---------------------------------------------------------------------

  /** None of the records that `b` has beyond `a` is a checkpoint of the node. */
  ghost predicate NoCheckpointBeyond(a: History, b: History, n: NodeId)
    requires a != []
  {
    forall id: nat, k: nat :: id < |b| && k < |b[id]| && (Last(a) < id || (id == Last(a) && |a[id]| <= k)) ==>
      !(b[id][k].node == n && b[id][k].record.SnapshotCheckpoint?)
  }

  /** Frame `x` of the frames of two runs of segments. */
  lemma FrameAt(head: seq<StoredFrame>, rest: seq<StoredFrame>, x: nat)
    requires x < |head + rest|
    ensures (head + rest)[x] == if x < |head| then head[x] else rest[x - |head|]
  {
  }

  lemma HeadFrames(hist: History, ids: seq<SegmentId>)
    requires HistoryOk(hist) && InRange(ids, 0, |hist|) && ids != []
    ensures InRange(ids[1..], 0, |hist|) && AllEncodable(hist[ids[0]])
    ensures SurvivingFrames(hist, ids) == IndexedFrames(ids[0], hist[ids[0]]) + SurvivingFrames(hist, ids[1..])
    ensures |IndexedFrames(ids[0], hist[ids[0]])| == |hist[ids[0]]|
  {
    hide IndexedFrames, Encodable;
  }

  lemma {:induction false} FrameOfSome(hist: History, ids: seq<SegmentId>, x: nat) returns (id: SegmentId, k: nat)
    requires HistoryOk(hist) && InRange(ids, 0, |hist|) && x < |SurvivingFrames(hist, ids)|
    ensures id in ids && id < |hist| && k < |hist[id]| && AllEncodable(hist[id])
    ensures SurvivingFrames(hist, ids)[x] == IndexedFrames(id, hist[id])[k]
    decreases |ids|
  {
    hide IndexedFrames, HistoryOk, AllEncodable, Body, OffsetOf, SurvivingFrames;
    SomeIds(hist, ids);
    HeadFrames(hist, ids);
    var head, rest := IndexedFrames(ids[0], hist[ids[0]]), SurvivingFrames(hist, ids[1..]);
    FrameAt(head, rest, x);
    if x < |head| {
      id, k := ids[0], x;
    } else {
      id, k := FrameOfSome(hist, ids[1..], x - |head|);
    }
  }

  lemma SomeIds(hist: History, ids: seq<SegmentId>)
    requires HistoryOk(hist) && InRange(ids, 0, |hist|) && SurvivingFrames(hist, ids) != []
    ensures ids != []
  {
    hide IndexedFrames, Encodable;
  }

  /** A frame that the second listing shows beyond the first is of a record beyond its history. */
  lemma {:induction false} FrameBeyond(a: History, b: History, ids: seq<SegmentId>, more: seq<SegmentId>, x: nat)
    returns (id: SegmentId, k: nat)
    requires HistoryOk(a) && HistoryOk(b) && HistoryGrows(a, b) && a != [] && ids != []
    requires Increasing(ids + more) && InRange(ids, 0, |a|) && InRange(ids + more, 0, |b|)
    requires ids[|ids| - 1] == Last(a)
    requires |SurvivingFrames(a, ids)| <= x < |SurvivingFrames(b, ids + more)|
    ensures id < |b| && k < |b[id]| && AllEncodable(b[id])
    ensures SurvivingFrames(b, ids + more)[x] == IndexedFrames(id, b[id])[k]
    ensures Last(a) < id || (id == Last(a) && |a[id]| <= k)
    decreases |ids|
  {
    hide IndexedFrames, HistoryOk, AllEncodable, Body, OffsetOf, SurvivingFrames;
    var head := ids[0];
    IdsTail(ids, more, |a|, |b|);
    HeadFrames(a, ids);
    HeadFrames(b, ids + more);
    FrameAt(IndexedFrames(head, b[head]), SurvivingFrames(b, ids[1..] + more), x);
    if |ids| == 1 {
      if x < |b[head]| {
        id, k := head, x;
      } else {
        id, k := FrameOfSome(b, more, x - |b[head]|);
      }
    } else {
      id, k := FrameBeyond(a, b, ids[1..], more, x - |b[head]|);
    }
  }

  lemma IdsTail(ids: seq<SegmentId>, more: seq<SegmentId>, m: nat, n: nat)
    requires ids != [] && Increasing(ids + more) && InRange(ids, 0, m) && InRange(ids + more, 0, n)
    ensures (ids + more)[0] == ids[0] && (ids + more)[1..] == ids[1..] + more && (ids + more) != []
    ensures Increasing(ids[1..] + more) && InRange(ids[1..], 0, m) && InRange(ids[1..] + more, 0, n)
    ensures |ids| == 1 ==> ids[1..] + more == more && InRange(more, 0, n) && forall id :: id in more ==> ids[0] < id
    ensures |ids| > 1 ==> ids[0] < ids[|ids| - 1] && ids[1..][|ids[1..]| - 1] == ids[|ids| - 1]
  {
    var all := ids + more;
    assert all[1..] == ids[1..] + more;
    assert forall i :: 0 <= i < |ids[1..]| ==> ids[1..][i] == ids[i + 1];
    assert forall i :: 0 <= i < |all[1..]| ==> all[1..][i] == all[i + 1];
    if |ids| == 1 {
      assert all[1..] == more;
      forall id | id in more ensures ids[0] < id {
        var i :| 0 <= i < |more| && more[i] == id;
        assert all[i + 1] == id && all[0] == ids[0];
      }
    } else {
      assert all[0] == ids[0] && all[|ids| - 1] == ids[|ids| - 1];
    }
  }

  lemma BeyondShrinks(a: History, a': History, b: History, b': History, n: NodeId)
    requires a != [] && HistoryGrows(a, a') && HistoryGrows(a', b) && HistoryGrows(b, b') && |a'| == |a|
    requires NoCheckpointBeyond(a, b', n)
    ensures NoCheckpointBeyond(a', b, n)
  {
    forall id: nat, k: nat | id < |b| && k < |b[id]| && (Last(a') < id || (id == Last(a') && |a'[id]| <= k))
      ensures !(b[id][k].node == n && b[id][k].record.SnapshotCheckpoint?)
    {
      assert b'[id][k] == b[id][k];
    }
  }

  lemma NoNewCheckpoint(r: Reading, n: NodeId)
    requires ReadsThrough(r) && NoCheckpointBeyond(FirstHistory(r), SeenRecords(r), n)
    ensures Follows(FirstView(r), SecondView(r))
    ensures NoCheckpointAfter(Shown(SecondView(r)), n, |Shown(FirstView(r))|)
  {
    hide SegmentsFit, IndexFits, SeenHistory, SurvivingFrames, WholeStream, HistoryGrows, Ascending, InRange, Decodable,
         SeenBetween, StoredRecords, Surviving, Extends, HistoryOk, Decode, Body, Encodable, OffsetOf;
    ViewsFollow(r);
    PassReads(r.first, r.end, r.seenFirst);
    PassReads(r.second, r.end, r.seenSecond);
    SeenGrows(r);
    ListingsGrow(r);
    var a, b, fs := FirstHistory(r), SeenRecords(r), Shown(SecondView(r));
    var ids, ids' := Ascending(r.seenFirst.Keys), Ascending(r.seenSecond.Keys);
    assert ids' == ids + ids'[|ids|..];
    forall x | |Shown(FirstView(r))| <= x < |fs| ensures !IsCheckpointOf(fs[x], n) {
      var id, k := FrameBeyond(a, b, ids, ids'[|ids|..], x);
      EncodedAt(b, id);
      IndexedDecode(id, b[id]);
      assert RecordsOf(IndexedFrames(id, b[id]))[k] == b[id][k];
    }
  }

  lemma EncodedAt(hist: History, id: SegmentId)
    requires HistoryOk(hist) && id < |hist|
    ensures AllEncodable(hist[id])
  {
  }

  /** While the writer appends no checkpoint of the node, there is nothing between the passes that
      could fail. */
  lemma NothingBetween(r: Reading, n: NodeId)
    requires ReadsThrough(r)
    requires r.first.hist != [] && NoCheckpointBeyond(r.first.hist, r.end.hist, n)
    ensures BetweenFolds(r, n)
  {
    hide SegmentsFit, DiskInv, SeenHistory, WholeStream, Decodable, Naive, Flat, CaughtUp, SeenBetween, Extends,
         GapFolds, NoCheckpointBeyond, HistoryGrows, IsCheckpointOf;
    SeenSizes(r.first, r.end, r.seenFirst);
    SeenGrows(r);
    SeenIsPrefix(r);
    FirstSeenGrows(r);
    SeenLast(r.first, r.end, r.seenFirst);
    BeyondShrinks(r.first.hist, FirstHistory(r), SeenRecords(r), r.end.hist, n);
    NoNewCheckpoint(r, n);
    NoCheckpointBetween(Shown(SecondView(r)), |Shown(FirstView(r))|, n);
  }

  /** While the writer appends no checkpoint of the node, a read-only `load` is exactly, state or
      error, the fold of the node's records in the records the second pass saw. */
  lemma ReaderLoadsExactly(r: Reading, n: NodeId)
    requires ReadsThrough(r) && IsActive(r.first.disk.registry, n)
    requires r.first.hist != [] && NoCheckpointBeyond(r.first.hist, r.end.hist, n)
    ensures LoadOf(r, n) == Naive(Flat(SeenRecords(r)), n)
  {
    hide ReadsThrough, Flat, Naive, LoadOf, BetweenFolds, SeenRecords, NoCheckpointBeyond;
    NothingBetween(r, n);
    ReaderLoads(r, n);
  }

  /** While the writer appends no checkpoint of any active node, so is a read-only `load_all`. */
  lemma ReaderLoadsAllExactly(r: Reading)
    requires ReadsThrough(r) && r.first.hist != []
    requires forall n :: n in ActiveNodes(r.first.disk.registry) ==> NoCheckpointBeyond(r.first.hist, r.end.hist, n)
    ensures LoadAllOf(r) == NaiveAll(Flat(SeenRecords(r)), ActiveNodes(r.first.disk.registry))
  {
    hide ReadsThrough, Flat, Naive, LoadAllOf, BetweenFolds, SeenRecords, NoCheckpointBeyond;
    forall n | n in ActiveNodes(r.first.disk.registry) ensures BetweenFolds(r, n) {
      NothingBetween(r, n);
    }
    ReaderLoadsAll(r);
  }

  /** What a pass saw holds every record that was complete when it listed the directory, and none
      that was not written by the end. */
  lemma PassIsPrefix(p: Point, q: Point, seen: Segments)
    requires SeenBetween(p, q, seen)
    ensures p.hist != [] && |p.hist| <= |q.hist| && Last(p.hist) in seen
    ensures HistoryGrows(p.hist, SeenHistory(p, q, seen)) && HistoryGrows(SeenHistory(p, q, seen), q.hist)
  {
    hide SegmentsFit, Whole, FileOf, Encodable, Holds;
    LastListed(p, q, seen);
    LastEncodable(p.disk, p.hist);
    LastEncodable(q.disk, q.hist);
    var last := Last(p.hist);
    LastBound(p.disk, p.hist);
    LastRecordsSeen(p.disk.segs[last].bytes, p.hist[last], q.hist[last], seen[last]);
  }

  lemma FirstSeenGrows(r: Reading)
    requires ReadsThrough(r)
    ensures r.first.hist != [] && HistoryGrows(r.first.hist, FirstHistory(r)) && |FirstHistory(r)| == |r.first.hist|
  {
    hide SegmentsFit, IndexFits, Whole, SeenBetween, HistoryGrows;
    PassIsPrefix(r.first, r.end, r.seenFirst);
  }

  /** The prefix a reader's result stands for holds every record that was complete when the second
      pass listed the directory, and none that was not written by the end. */
  lemma SeenIsPrefix(r: Reading)
    requires ReadsThrough(r)
    ensures HistoryGrows(r.second.hist, SeenRecords(r)) && HistoryGrows(SeenRecords(r), r.end.hist)
    ensures Flat(r.second.hist) <= Flat(SeenRecords(r)) <= Flat(r.end.hist)
  {
    hide SegmentsFit, IndexFits, SeenHistory, Flat, SeenBetween, HistoryGrows;
    PassIsPrefix(r.second, r.end, r.seenSecond);
    FlatGrows(r.second.hist, SeenRecords(r));
    FlatGrows(SeenRecords(r), r.end.hist);
  }

  lemma LastRecordsSeen(bytes: seq<byte>, rs: seq<NodeRecord>, more: seq<NodeRecord>, seen: seq<byte>)
    requires AllEncodable(rs) && AllEncodable(more) && rs <= more && Holds(bytes, rs) && bytes <= seen
    ensures |rs| <= Whole(more, |seen|)
  {
    hide Encodable, Layout, PartOfFrame, Whole;
    if rs != [] {
      HeldLength(bytes, rs);
      assert more[..|rs|] == rs;
      WholeCovers(more, |rs|, |seen|);
    }
  }

  lemma {:induction false} FlatGrows(a: History, b: History)
    requires HistoryGrows(a, b)
    ensures Flat(a) <= Flat(b)
  {
    if a == [] {
      assert Flat(a) == [];
    } else {
      FlatFromGrows(a, b, 0);
    }
  }

  lemma {:induction false} FlatFromGrows(a: History, b: History, p: nat)
    requires HistoryGrows(a, b) && a != [] && p <= Last(a)
    ensures FlatFrom(a, p) <= FlatFrom(b, p)
    decreases |a| - p
  {
    if p < Last(a) {
      FlatFromGrows(a, b, p + 1);
    } else {
      assert FlatFrom(a, p + 1) == [];
      assert a[p] + [] == a[p];
    }
  }

  /** A reading in a run: it lists the directory at state `i` and again at state `j` and is done by
      state `k`, and in between the writer only appends and rotates. */
  ghost predicate ReadsInRun(run: seq<World>, i: nat, j: nat, k: nat, seenFirst: Segments, seenSecond: Segments) {
    && IsRun(run) && i <= j <= k < |run| && (forall s :: i <= s < k ==> AppendsAt(run, s))
    && run[i].at.hist != []
    && SeenBetween(run[i].at, run[k].at, seenFirst) && SeenBetween(run[j].at, run[k].at, seenSecond)
    && forall id :: id in seenFirst && id in seenSecond ==> seenFirst[id] <= seenSecond[id]
  }

  lemma ReadingOfRun(run: seq<World>, i: nat, j: nat, k: nat, seenFirst: Segments, seenSecond: Segments)
    requires ReadsInRun(run, i, j, k, seenFirst, seenSecond)
    ensures var r := Reading(run[i].at, run[j].at, run[k].at, seenFirst, seenSecond);
            ReadsThrough(r) && Flat(run[j].at.hist) <= Flat(SeenRecords(r)) <= Flat(run[k].at.hist)
  {
    hide WorldInv, Extends, Next, SegmentsFit, DiskInv, IsRun, SeenBetween, Flat, AppendsAt;
    RunExtends(run, i, j);
    RunExtends(run, j, k);
    SeenIsPrefix(Reading(run[i].at, run[j].at, run[k].at, seenFirst, seenSecond));
  }

  /** The result of a `load` that reads in a run. */
  lemma ReaderInRun(run: seq<World>, i: nat, j: nat, k: nat, seenFirst: Segments, seenSecond: Segments, n: NodeId)
    requires ReadsInRun(run, i, j, k, seenFirst, seenSecond) && IsActive(run[i].at.disk.registry, n)
    ensures var r := Reading(run[i].at, run[j].at, run[k].at, seenFirst, seenSecond);
            && ReadsThrough(r) && n in run[i].at.disk.index
            && Flat(run[j].at.hist) <= Flat(SeenRecords(r)) <= Flat(run[k].at.hist)
            && var naive := Naive(Flat(SeenRecords(r)), n);
               && (LoadOf(r, n).Some? ==> LoadOf(r, n) == naive)
               && (LoadOf(r, n) == naive <==> naive.None? || BetweenFolds(r, n))
               && (NoCheckpointBeyond(run[i].at.hist, run[k].at.hist, n) ==> LoadOf(r, n) == naive)
  {
    hide ReadsThrough, Flat, Naive, LoadOf, BetweenFolds, SeenRecords, NoCheckpointBeyond;
    var r := Reading(run[i].at, run[j].at, run[k].at, seenFirst, seenSecond);
    ReadingOfRun(run, i, j, k, seenFirst, seenSecond);
    ReaderLoads(r, n);
    if NoCheckpointBeyond(r.first.hist, r.end.hist, n) {
      ReaderLoadsExactly(r, n);
    }
  }

  /** The result of a `load_all` that reads in a run. */
  lemma ReaderAllInRun(run: seq<World>, i: nat, j: nat, k: nat, seenFirst: Segments, seenSecond: Segments)
    requires ReadsInRun(run, i, j, k, seenFirst, seenSecond)
    ensures var r := Reading(run[i].at, run[j].at, run[k].at, seenFirst, seenSecond);
            var nodes := ActiveNodes(run[i].at.disk.registry);
            && ReadsThrough(r) && nodes <= run[i].at.disk.index.Keys
            && Flat(run[j].at.hist) <= Flat(SeenRecords(r)) <= Flat(run[k].at.hist)
            && var naive := NaiveAll(Flat(SeenRecords(r)), nodes);
               && (LoadAllOf(r).Some? ==> LoadAllOf(r) == naive)
               && (LoadAllOf(r) == naive <==>
                     naive.None? || forall n :: n in nodes ==> BetweenFolds(r, n))
               && ((forall n :: n in nodes ==> NoCheckpointBeyond(run[i].at.hist, run[k].at.hist, n)) ==>
                     LoadAllOf(r) == naive)
  {
    hide ReadsThrough, Flat, Naive, LoadAllOf, BetweenFolds, SeenRecords, SegmentsFit, DiskInv, NoCheckpointBeyond;
    var r := Reading(run[i].at, run[j].at, run[k].at, seenFirst, seenSecond);
    ReadingOfRun(run, i, j, k, seenFirst, seenSecond);
    ReaderLoadsAll(r);
    if forall n :: n in ActiveNodes(run[i].at.disk.registry) ==> NoCheckpointBeyond(r.first.hist, r.end.hist, n) {
      ReaderLoadsAllExactly(r);
    }
  }

  // ---- from the reader's listings ------------------------------------------------------------------

  /** What a pass finds when it lists the directory at `p`, opens every file later, and has read
      them all by `q`: each file has grown since, the last perhaps still grows. */
  ghost predicate ListedBetween(p: Point, q: Point, l: Listing) {
    && Extends(p, q) && p.hist != []
    && l.segs.Keys == p.disk.segs.Keys
    && forall id :: id in l.segs ==>
         && p.disk.segs[id].bytes <= l.segs[id] <= q.disk.segs[id].bytes
         && (id == Last(p.hist) ==> Final(l.segs[id], l.arriving) <= q.disk.segs[id].bytes)
  }

  /** The segment a reader takes for active is the last it listed, and what it reads is between
      what was there when it listed the directory and what is there in the end. */
  lemma ListingIsRead(p: Point, q: Point, l: Listing, active: SegmentId, seen: Segments)
    requires ListedBetween(p, q, l) && Sees(l, ActiveIn(l.segs, active, false), seen)
    ensures SeenBetween(p, q, seen)
    ensures ActiveIn(l.segs, active, false) == LastOf(p)
  {
    hide SegmentsFit, Ascending, Final, InRange;
    LastOfAscending(p.disk, p.hist);
    forall id | id in seen ensures p.disk.segs[id].bytes <= seen[id] <= q.disk.segs[id].bytes {
      assert p.disk.segs[id].bytes <= l.segs[id] <= seen[id];
    }
  }

  /** Two listings of a reader beside a writer that only appends and rotates, and what it read. */
  ghost predicate ReadsListings(r: Reading, first: Listing, second: Listing, active: SegmentId) {
    && DiskInv(r.first.disk, r.first.hist) && DiskInv(r.second.disk, r.second.hist) && Extends(r.first, r.second)
    && ListedBetween(r.first, r.end, first) && ListedBetween(r.second, r.end, second)
    && Sees(first, ActiveIn(first.segs, active, false), r.seenFirst)
    && Sees(second, ActiveIn(second.segs, active, false), r.seenSecond)
    && forall id :: id in r.seenFirst && id in r.seenSecond ==> r.seenFirst[id] <= r.seenSecond[id]
  }

  lemma ListingsAreRead(r: Reading, first: Listing, second: Listing, active: SegmentId)
    requires ReadsListings(r, first, second, active)
    ensures ReadsThrough(r) && r.first.hist != []
    ensures FirstView(r) == View(r.seenFirst, ActiveIn(first.segs, active, false))
    ensures SecondView(r) == View(r.seenSecond, ActiveIn(second.segs, active, false))
    ensures Flat(r.second.hist) <= Flat(SeenRecords(r)) <= Flat(r.end.hist)
  {
    hide SegmentsFit, DiskInv, SeenHistory, Flat, SeenBetween, Extends, ListedBetween, Sees, ActiveIn;
    ListingIsRead(r.first, r.end, first, active, r.seenFirst);
    ListingIsRead(r.second, r.end, second, active, r.seenSecond);
    SeenIsPrefix(r);
  }

  /** What `ReadOnlyStorage.Load` returns for an active node, beside a writer that only appends
      and rotates: whenever it is a state, the fold of the node's records, from its last checkpoint,
      in a prefix of the stream that holds everything complete when the second pass began; and
      exactly when it is that fold, state or error. */
  lemma LoadReturnsPrefix(r: Reading, first: Listing, second: Listing, active: SegmentId, n: NodeId,
                          result: Option<State>)
    requires ReadsListings(r, first, second, active) && IsActive(r.first.disk.registry, n)
    requires result == ReplayNodeViews(View(r.seenFirst, ActiveIn(first.segs, active, false)),
                                       View(r.seenSecond, ActiveIn(second.segs, active, false)),
                                       n, PositionFor(r.first.disk.index, n))
    ensures ReadsThrough(r) && Flat(r.second.hist) <= Flat(SeenRecords(r)) <= Flat(r.end.hist)
    ensures r.first.hist != []
    ensures var naive := Naive(Flat(SeenRecords(r)), n);
            && (result.Some? ==> result == naive)
            && (result == naive <==> naive.None? || BetweenFolds(r, n))
            && (NoCheckpointBeyond(r.first.hist, r.end.hist, n) ==> result == naive)
  {
    hide SegmentsFit, DiskInv, SeenHistory, Naive, Flat, ReplayNodeViews, Extends, ListedBetween, Sees, ActiveIn,
         ReadsThrough, BetweenFolds, SeenRecords, FirstView, SecondView, NoCheckpointBeyond;
    ListingsAreRead(r, first, second, active);
    ReaderLoads(r, n);
    if NoCheckpointBeyond(r.first.hist, r.end.hist, n) {
      ReaderLoadsExactly(r, n);
    }
  }

  /** The same for `ReadOnlyStorage.LoadAll`. */
  lemma LoadAllReturnsPrefix(r: Reading, first: Listing, second: Listing, active: SegmentId, result: Option<States>)
    requires ReadsListings(r, first, second, active)
    requires var nodes := ActiveNodes(r.first.disk.registry);
             result == LoadAllViews(View(r.seenFirst, ActiveIn(first.segs, active, false)),
                                    View(r.seenSecond, ActiveIn(second.segs, active, false)),
                                    nodes, HintsFor(r.first.disk.index, nodes))
    ensures ReadsThrough(r) && Flat(r.second.hist) <= Flat(SeenRecords(r)) <= Flat(r.end.hist)
    ensures r.first.hist != []
    ensures var nodes := ActiveNodes(r.first.disk.registry);
            var naive := NaiveAll(Flat(SeenRecords(r)), nodes);
            && (result.Some? ==> result == naive)
            && (result == naive <==> naive.None? || forall n :: n in nodes ==> BetweenFolds(r, n))
            && ((forall n :: n in nodes ==> NoCheckpointBeyond(r.first.hist, r.end.hist, n)) ==> result == naive)
  {
    hide SegmentsFit, DiskInv, SeenHistory, Naive, Flat, LoadAllViews, Extends, ListedBetween, Sees, ActiveIn,
         ReadsThrough, BetweenFolds, SeenRecords, FirstView, SecondView, NoCheckpointBeyond;
    ListingsAreRead(r, first, second, active);
    ReaderLoadsAll(r);
    if forall n :: n in ActiveNodes(r.first.disk.registry) ==> NoCheckpointBeyond(r.first.hist, r.end.hist, n) {
      ReaderLoadsAllExactly(r);
    }
  }
}
