/** Replay of a store's segments: what each pass over the files computes. */
module Replay {
  import opened Words
  import opened Records
  import opened Sorted
  import opened Codec
  import opened Frames
  import opened NodeStates

  const SEGMENT_MAGIC: seq<byte> := [0x53, 0x4B, 0x52, 0x31]
  const SEGMENT_HEADER_LEN: nat := 4

  type SegmentId = u64
  type Segments = map<SegmentId, seq<byte>>

  datatype RecordPosition = RecordPosition(segment: SegmentId, offset: nat)

  /** The order of positions: by segment, then by offset. */
  predicate Before(a: RecordPosition, b: RecordPosition) {
    a.segment < b.segment || (a.segment == b.segment && a.offset < b.offset)
  }

  datatype StoredFrame = StoredFrame(at: RecordPosition, body: seq<byte>)

  // ---- one segment ---------------------------------------------------------------------

  /** The frames of a segment from `start` on; None for a malformed file. */
  function SegmentFrames(bytes: seq<byte>, allowPartial: bool, start: nat): Option<seq<RawFrame>> {
    if |bytes| < SEGMENT_HEADER_LEN then
      if allowPartial then Some([]) else None
    else if bytes[..SEGMENT_HEADER_LEN] != SEGMENT_MAGIC then None
    else if start < SEGMENT_HEADER_LEN || |bytes| < start then None
    else
      var s := ScanFrom(bytes, start);
      if s.tail.Clean? || (s.tail.Torn? && allowPartial) then Some(s.frames) else None
  }

  function Placed(id: SegmentId, fs: seq<RawFrame>): (r: seq<StoredFrame>)
    ensures |r| == |fs|
    ensures forall i :: 0 <= i < |fs| ==> r[i] == StoredFrame(RecordPosition(id, fs[i].offset), fs[i].body)
  {
    seq(|fs|, i requires 0 <= i < |fs| => StoredFrame(RecordPosition(id, fs[i].offset), fs[i].body))
  }

  // ---- a pass over the segments -----------------------------------------------------------

  /** Where a pass starts: everywhere, at a segment, or at a record. */
  datatype Start = Everywhere | AtSegment(segment: SegmentId) | AtRecord(position: RecordPosition)

  predicate Skips(start: Start, id: SegmentId) {
    match start
    case Everywhere => false
    case AtSegment(s) => id < s
    case AtRecord(p) => id < p.segment
  }

  function StartOffset(start: Start, id: SegmentId): nat {
    if start.AtRecord? && id == start.position.segment then start.position.offset else SEGMENT_HEADER_LEN
  }

  /** The frames a pass over the listed segments sees, in order; None if a file is malformed. */
  function Stream(segs: Segments, ids: seq<SegmentId>, active: SegmentId, start: Start): Option<seq<StoredFrame>>
    requires forall id :: id in ids ==> id in segs
  {
    if ids == [] then Some([])
    else if Skips(start, ids[0]) then Stream(segs, ids[1..], active, start)
    else
      match SegmentFrames(segs[ids[0]], ids[0] == active, StartOffset(start, ids[0]))
      case None => None
      case Some(fs) =>
        match Stream(segs, ids[1..], active, start)
        case None => None
        case Some(rest) => Some(Placed(ids[0], fs) + rest)
  }

  /** A fold whose steps can fail. */
  ghost function FoldM<A>(step: (A, StoredFrame) -> Option<A>, fs: seq<StoredFrame>, acc: A): Option<A> {
    if fs == [] then Some(acc)
    else
      match step(acc, fs[0])
      case None => None
      case Some(next) => FoldM(step, fs[1..], next)
  }

  /** What a pass with a given step computes. */
  ghost function Pass<A>(segs: Segments, active: SegmentId, start: Start, step: (A, StoredFrame) -> Option<A>,
      acc: A): Option<A> {
    AscendingIs(segs.Keys);
    match Stream(segs, Ascending(segs.Keys), active, start)
    case None => None
    case Some(fs) => FoldM(step, fs, acc)
  }

  // ---- the steps of the three passes -----------------------------------------------------

  type Checkpoints = map<NodeId, RecordPosition>
  type States = map<NodeId, State>

  /** `scan_checkpoint_positions`: remember where each wanted node's checkpoints are. */
  ghost function CheckpointStep(nodes: set<NodeId>): (Checkpoints, StoredFrame) -> Option<Checkpoints> {
    (m: Checkpoints, f: StoredFrame) => CheckpointStepOf(nodes, m, f)
  }

  ghost function CheckpointStepOf(nodes: set<NodeId>, m: Checkpoints, f: StoredFrame): Option<Checkpoints> {
    match DecodeNode(f.body)
    case None => None
    case Some(node) =>
      if node !in nodes then Some(m)
      else
        match Decode(f.body)
        case None => None
        case Some(r) => Some(if r.record.SnapshotCheckpoint? then m[node := f.at] else m)
  }

  /** `replay_node_segment`: apply one node's records from its checkpoint on. */
  ghost function NodeStep(node: NodeId, from: Option<RecordPosition>): (State, StoredFrame) -> Option<State> {
    (st: State, f: StoredFrame) => NodeStepOf(node, from, st, f)
  }

  ghost function NodeStepOf(node: NodeId, from: Option<RecordPosition>, st: State, f: StoredFrame): Option<State> {
    match DecodeNode(f.body)
    case None => None
    case Some(n) =>
      if n != node || (from.Some? && Before(f.at, from.value)) then Some(st)
      else
        match Decode(f.body)
        case None => None
        case Some(r) => ApplyRecord(st, r.record)
  }

  /** `replay_segment`: the same for all wanted nodes at once. */
  ghost function AllStep(nodes: set<NodeId>, from: Checkpoints): (States, StoredFrame) -> Option<States> {
    (m: States, f: StoredFrame) => AllStepOf(nodes, from, m, f)
  }

  function StateOf(m: States, n: NodeId): State {
    if n in m then m[n] else DEFAULT_STATE
  }

  ghost function AllStepOf(nodes: set<NodeId>, from: Checkpoints, m: States, f: StoredFrame): Option<States> {
    match DecodeNode(f.body)
    case None => None
    case Some(n) =>
      if n !in nodes || (n in from && Before(f.at, from[n])) then Some(m)
      else
        match Decode(f.body)
        case None => None
        case Some(r) =>
          match ApplyRecord(StateOf(m, n), r.record)
          case None => None
          case Some(st) => Some(m[n := st])
  }

  // ---- the replays -----------------------------------------------------------------------

  function PositionFor(m: Checkpoints, n: NodeId): Option<RecordPosition> {
    if n in m then Some(m[n]) else None
  }

  /** `checkpoint_positions`: hints for all the given nodes, or none. */
  function HintsFor(m: Checkpoints, nodes: set<NodeId>): Option<Checkpoints> {
    if nodes <= m.Keys then Some(map n | n in nodes :: m[n]) else None
  }

  function StartAtHint(hint: Option<RecordPosition>): Start {
    if hint.Some? then AtRecord(hint.value) else Everywhere
  }

  function StartAtCheckpoint(from: Option<RecordPosition>): Start {
    if from.Some? then AtSegment(from.value.segment) else Everywhere
  }

  /** What one pass reads: the files, and which of them may end in a partial record. The two
      passes of a replay read at different times. */
  datatype View = View(segs: Segments, active: SegmentId)

  /** `replay_node_state`: find the node's last checkpoint, then replay from there. */
  ghost function ReplayNodeViews(first: View, second: View, node: NodeId, hint: Option<RecordPosition>): Option<State> {
    match Pass(first.segs, first.active, StartAtHint(hint), CheckpointStep({node}), map[])
    case None => None
    case Some(m) =>
      var from := PositionFor(m, node);
      Pass(second.segs, second.active, StartAtCheckpoint(from), NodeStep(node, from), DEFAULT_STATE)
  }

  /** The same when nobody writes in between. */
  ghost function ReplayNode(segs: Segments, active: SegmentId, node: NodeId,
      hint: Option<RecordPosition>): Option<State> {
    ReplayNodeViews(View(segs, active), View(segs, active), node, hint)
  }

  ghost predicate IsLeast(p: RecordPosition, hints: Checkpoints) {
    p in hints.Values && forall n :: n in hints ==> !Before(hints[n], p)
  }

  lemma {:induction false} LeastExists(hints: Checkpoints)
    requires hints != map[]
    ensures exists p :: IsLeast(p, hints)
    decreases |hints|
  {
    var n :| n in hints;
    var rest := hints - {n};
    assert hints[n] in hints.Values;
    if rest == map[] {
      assert forall k :: k in hints ==> k == n || k in rest;
      assert IsLeast(hints[n], hints);
    } else {
      assert rest.Keys == hints.Keys - {n};
      LeastExists(rest);
      var p :| IsLeast(p, rest);
      assert forall k :: k in hints ==> k == n || (k in rest && rest[k] == hints[k]);
      var k :| k in rest && rest[k] == p;
      assert hints[k] == p;
      assert IsLeast(if Before(hints[n], p) then hints[n] else p, hints);
    }
  }

  ghost function Least(hints: Checkpoints): (p: RecordPosition)
    requires hints != map[]
    ensures IsLeast(p, hints)
  {
    LeastExists(hints);
    var p :| IsLeast(p, hints);
    p
  }

  /** `replay_storage_dir`. */
  ghost function ReplayAllViews(first: View, second: View, nodes: set<NodeId>,
      hints: Option<Checkpoints>): Option<States> {
    match hints
    case None =>
      (match Pass(first.segs, first.active, Everywhere, CheckpointStep(nodes), map[])
       case None => None
       case Some(found) => Pass(second.segs, second.active, Everywhere, AllStep(nodes, found), map[]))
    case Some(h) =>
      if h == map[] then Pass(second.segs, second.active, Everywhere, AllStep(nodes, h), map[])
      else
        match Pass(first.segs, first.active, AtRecord(Least(h)), CheckpointStep(nodes), map[])
        case None => None
        case Some(found) => Pass(second.segs, second.active, AtSegment(Least(h).segment), AllStep(nodes, h + found),
            map[])
  }

  /** `load_all`. */
  ghost function LoadAllViews(first: View, second: View, nodes: set<NodeId>,
      hints: Option<Checkpoints>): Option<States> {
    if nodes == {} then Some(map[])
    else
      match ReplayAllViews(first, second, nodes, hints)
      case None => None
      case Some(m) => Some(map n | n in nodes :: StateOf(m, n))
  }

  /** The same when nobody writes in between. */
  ghost function LoadAll(segs: Segments, active: SegmentId, nodes: set<NodeId>,
      hints: Option<Checkpoints>): Option<States> {
    LoadAllViews(View(segs, active), View(segs, active), nodes, hints)
  }
}
