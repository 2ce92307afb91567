/** The replay passes as the program runs them: loops over segment files and
    over the frames in each, filling maps and states as they go. Each is proved
    to compute the pass it is specified by, on well-formed and malformed files
    alike. */
module Replayer {
  import opened Words
  import opened Records
  import opened Sorted
  import opened Codec
  import opened Checksum
  import opened Decoding
  import opened Frames
  import opened NodeStates
  import opened Replay
  import opened ReplayProofs

  // ---- segment headers -----------------------------------------------------------------

  datatype Header = BadHeader | NoRecords | HasRecords

  function HeaderOf(bytes: seq<byte>, allowPartial: bool): Header {
    if |bytes| < SEGMENT_HEADER_LEN then
      if allowPartial then NoRecords else BadHeader
    else if bytes[..SEGMENT_HEADER_LEN] != SEGMENT_MAGIC then BadHeader
    else HasRecords
  }

  /** Reads the file header; a partial one is dropped when recovering. */
  method ReadSegmentHeader(file: File, allowPartial: bool, recoverPartial: bool) returns (h: Header)
    requires recoverPartial ==> file.arriving == []
    modifies file
    ensures !(h.NoRecords? && recoverPartial) ==> file.Grows()
    ensures h == HeaderOf(if recoverPartial then old(file.bytes) else file.bytes, allowPartial)
    ensures h.HasRecords? ==> file.position == SEGMENT_HEADER_LEN
    ensures h.NoRecords? && recoverPartial ==> file.bytes == [] && file.arriving == []
  {
    file.Seek(0);
    if |file.bytes| == 0 {
      return if allowPartial then NoRecords else BadHeader;
    }
    if |file.bytes| < SEGMENT_HEADER_LEN {
      if allowPartial && recoverPartial {
        file.SetLen(0);
        file.Seek(0);
        return NoRecords;
      }
      return if allowPartial then NoRecords else BadHeader;
    }
    var magic := file.ReadExact(SEGMENT_HEADER_LEN);
    assert magic.value == file.bytes[..SEGMENT_HEADER_LEN];
    if magic.value != SEGMENT_MAGIC {
      return BadHeader;
    }
    return HasRecords;
  }

  // ---- loops over the frames of a segment --------------------------------------------------

  ghost function SegmentPass<A>(bytes: seq<byte>, allowPartial: bool, id: SegmentId, start: nat,
                                step: (A, StoredFrame) -> Option<A>, acc: A): Option<A> {
    match SegmentFrames(bytes, allowPartial, start)
    case None => None
    case Some(fs) => FoldM(step, Placed(id, fs), acc)
  }

  /** What a frame loop still has to compute when it stands at `off`. */
  ghost function Remaining<A>(bytes: seq<byte>, allowPartial: bool, id: SegmentId, off: nat,
                              step: (A, StoredFrame) -> Option<A>, acc: A): Option<A>
    requires off <= |bytes|
  {
    var s := ScanFrom(bytes, off);
    if s.tail.Clean? || (s.tail.Torn? && allowPartial) then FoldM(step, Placed(id, s.frames), acc) else None
  }

  lemma RemainingNext<A>(bytes: seq<byte>, allowPartial: bool, id: SegmentId, off: nat,
                         step: (A, StoredFrame) -> Option<A>, acc: A)
    requires off <= |bytes|
    ensures var rest := Remaining(bytes, allowPartial, id, off, step, acc);
            match ReadFrame(bytes, off)
            case End => rest == if off == |bytes| || allowPartial then Some(acc) else None
            case Corrupt => rest == None
            case Complete(body, next) =>
              rest == match step(acc, StoredFrame(RecordPosition(id, off), body))
                      case None => None
                      case Some(acc') => Remaining(bytes, allowPartial, id, next, step, acc')
  {
    hide ReadFrame;
    match ReadFrame(bytes, off)
    case Complete(body, next) =>
      var s, t := ScanFrom(bytes, off), ScanFrom(bytes, next);
      assert Placed(id, s.frames)[0] == StoredFrame(RecordPosition(id, off), body);
      assert Placed(id, s.frames)[1..] == Placed(id, t.frames);
    case _ =>
      assert Placed(id, []) == [];
  }

  /** A loop over the frames of one segment. */
  datatype FrameLoop<!A> = FrameLoop(allowPartial: bool, id: SegmentId, start: nat,
      step: (A, StoredFrame) -> Option<A>, from: A)

  /** The loop at `off`, with `acc` so far, is on its way to its result, however the file grows. */
  ghost predicate Stands<A>(l: FrameLoop<A>, bytes: seq<byte>, off: nat, acc: A) {
    && l.start <= |bytes| && off <= |bytes|
    && forall more :: bytes <= more ==>
         Remaining(more, l.allowPartial, l.id, off, l.step, acc)
             == Remaining(more, l.allowPartial, l.id, l.start, l.step, l.from)
  }

  /** What the loop does with the frame it reads next, the file having grown meanwhile. */
  lemma StandsNext<A>(l: FrameLoop<A>, bytes: seq<byte>, later: seq<byte>, off: nat, acc: A)
    requires Stands(l, bytes, off, acc) && bytes <= later
    ensures l.start <= |later|
    ensures var r := Remaining(later, l.allowPartial, l.id, l.start, l.step, l.from);
            match ReadFrame(later, off)
            case End => r == if off == |later| || l.allowPartial then Some(acc) else None
            case Corrupt => r == None
            case Complete(body, next) =>
              match l.step(acc, StoredFrame(RecordPosition(l.id, off), body))
              case None => r == None
              case Some(acc') => Stands(l, later, next, acc')
  {
    hide ReadFrame, Remaining;
    RemainingNext(later, l.allowPartial, l.id, off, l.step, acc);
    match ReadFrame(later, off)
    case Complete(body, next) =>
      forall more | later <= more
        ensures var stepped := l.step(acc, StoredFrame(RecordPosition(l.id, off), body));
                stepped.Some? ==>
                  Remaining(more, l.allowPartial, l.id, next, l.step, stepped.value)
                  == Remaining(more, l.allowPartial, l.id, l.start, l.step, l.from)
      {
        ReadFrameExtends(later, more, off);
        RemainingNext(more, l.allowPartial, l.id, off, l.step, acc);
        assert bytes <= more;
      }
    case _ =>
  }

  lemma LoopStarts<A>(l: FrameLoop<A>, bytes: seq<byte>)
    ensures SegmentPass(bytes, l.allowPartial, l.id, l.start, l.step, l.from)
         == match HeaderOf(bytes, l.allowPartial)
            case BadHeader => None
            case NoRecords => Some(l.from)
            case HasRecords =>
              if l.start < SEGMENT_HEADER_LEN || |bytes| < l.start then None
              else Remaining(bytes, l.allowPartial, l.id, l.start, l.step, l.from)
    ensures l.start <= |bytes| ==> Stands(l, bytes, l.start, l.from)
  {
    assert Placed(l.id, []) == [];
  }

  /** A segment file that is open to a writer only while it is the last one. */
  predicate StillGrows(arriving: seq<seq<byte>>, allowPartial: bool) {
    arriving != [] ==> allowPartial
  }

  method ScanCheckpointPositions(bytes: seq<byte>, arriving: seq<seq<byte>>, id: SegmentId, allowPartial: bool,
                                 nodes: set<NodeId>, start: nat, found: Checkpoints, table: array2<bv32>)
    returns (r: Option<Checkpoints>, ghost seen: seq<byte>)
    requires IsTable(table) && StillGrows(arriving, allowPartial)
    ensures bytes <= seen <= Final(bytes, arriving)
    ensures r == SegmentPass(seen, allowPartial, id, start, CheckpointStep(nodes), found)
  {
    hide Decode, DecodeNode, ReadFrame, Remaining, SegmentPass, IsTable, Stands, Final;
    ghost var l := FrameLoop(allowPartial, id, start, CheckpointStep(nodes), found);
    var file := new File(bytes, arriving);
    var header := ReadSegmentHeader(file, allowPartial, false);
    seen := file.bytes;
    LoopStarts(l, seen);
    if header.BadHeader? {
      return None, seen;
    } else if header.NoRecords? {
      return Some(found), seen;
    }
    var fileLen := |file.bytes|;
    if start < SEGMENT_HEADER_LEN || fileLen < start {
      return None, seen;
    }
    file.Seek(start);
    var checkpoints := found;
    while true
      invariant bytes <= file.bytes && Final(file.bytes, file.arriving) == Final(bytes, arriving)
      invariant arriving == [] ==> file.arriving == [] && file.bytes == bytes
      invariant file.position <= |file.bytes| && fileLen <= |file.bytes| && (arriving == [] ==> fileLen == |file.bytes|)
      invariant HeaderOf(file.bytes, allowPartial).HasRecords? && Stands(l, file.bytes, file.position, checkpoints)
      decreases |file.arriving|, |file.bytes| - file.position
    {
      var recordStart := file.position;
      ghost var before := file.bytes;
      var body := ReadRecordBody(file, table);
      seen := file.bytes;
      StandsNext(l, before, seen, recordStart, checkpoints);
      LoopStarts(l, seen);
      match body
      case Invalid => return None, seen;
      case EndOfFile => return if recordStart == fileLen || allowPartial then Some(checkpoints) else None, seen;
      case Read(b) =>
        var node := DecodeRecordNodeId(b);
        if node.None? {
          return None, seen;
        }
        if node.value in nodes {
          var record := DecodeNodeRecord(b);
          if record.None? {
            return None, seen;
          }
          if record.value.record.SnapshotCheckpoint? {
            checkpoints := checkpoints[node.value := RecordPosition(id, recordStart)];
          }
        }
    }
  }

  method ReplayNodeSegment(bytes: seq<byte>, arriving: seq<seq<byte>>, id: SegmentId, allowPartial: bool,
      target: NodeId,
                           from: Option<RecordPosition>, state: NodeState, table: array2<bv32>)
    returns (ok: bool, ghost seen: seq<byte>)
    requires IsTable(table) && StateInv(state.View()) && StillGrows(arriving, allowPartial)
    modifies state
    ensures StateInv(state.View())
    ensures bytes <= seen <= Final(bytes, arriving)
    ensures var r := SegmentPass(seen, allowPartial, id, SEGMENT_HEADER_LEN, NodeStep(target, from), old(state.View()));
            ok == r.Some? && (ok ==> state.View() == r.value)
  {
    hide Decode, DecodeNode, ReadFrame, Remaining, SegmentPass, IsTable, StateInv, ApplyRecord, Stands, Final;
    ghost var l := FrameLoop(allowPartial, id, SEGMENT_HEADER_LEN, NodeStep(target, from), state.View());
    var file := new File(bytes, arriving);
    var header := ReadSegmentHeader(file, allowPartial, false);
    seen := file.bytes;
    LoopStarts(l, seen);
    if header.BadHeader? {
      return false, seen;
    } else if header.NoRecords? {
      return true, seen;
    }
    var fileLen := |file.bytes|;
    while true
      invariant bytes <= file.bytes && Final(file.bytes, file.arriving) == Final(bytes, arriving)
      invariant arriving == [] ==> file.arriving == [] && file.bytes == bytes
      invariant file.position <= |file.bytes| && fileLen <= |file.bytes| && (arriving == [] ==> fileLen == |file.bytes|)
      invariant StateInv(state.View()) && HeaderOf(file.bytes, allowPartial).HasRecords?
      invariant Stands(l, file.bytes, file.position, state.View())
      decreases |file.arriving|, |file.bytes| - file.position
    {
      var recordStart := file.position;
      ghost var before := file.bytes;
      var body := ReadRecordBody(file, table);
      seen := file.bytes;
      StandsNext(l, before, seen, recordStart, state.View());
      LoopStarts(l, seen);
      match body
      case Invalid => return false, seen;
      case EndOfFile => return recordStart == fileLen || allowPartial, seen;
      case Read(b) =>
        var node := DecodeRecordNodeId(b);
        if node.None? {
          return false, seen;
        }
        if node.value == target {
          if from.None? || !Before(RecordPosition(id, recordStart), from.value) {
            var record := DecodeNodeRecord(b);
            if record.None? {
              return false, seen;
            }
            DecodedFits(b);
            ok := state.ApplyRecordToState(record.value.record);
            if !ok {
              return false, seen;
            }
          }
        }
    }
  }

  lemma DecodedFits(body: seq<byte>)
    requires Decode(body).Some?
    ensures RecordInIndexSpace(Decode(body).value.record)
  {
  }

  /** `ReplayState::apply`, through a state object for the one node concerned. */
  method ApplyToStates(states: States, node: NodeId, record: Record) returns (r: Option<States>)
    requires StateInv(StateOf(states, node)) && RecordInIndexSpace(record)
    ensures r
        == match ApplyRecord(StateOf(states, node), record) case None => None case Some(st) => Some(states[node := st])
    ensures r.Some? ==> StateInv(r.value[node])
  {
    hide ApplyRecord, StateInv;
    var state := new NodeState();
    var now := StateOf(states, node);
    state.currentTerm, state.votedFor, state.log := now.currentTerm, now.votedFor, now.log;
    state.commandPayloads, state.snapshot := now.payloads, now.snapshot;
    var ok := state.ApplyRecordToState(record);
    if !ok {
      return None;
    }
    return Some(states[node := state.View()]);
  }

  ghost predicate StatesInv(m: States) {
    forall n :: n in m ==> StateInv(m[n])
  }

  method ReplaySegment(bytes: seq<byte>, arriving: seq<seq<byte>>, id: SegmentId, allowPartial: bool,
      nodes: set<NodeId>,
                       from: Checkpoints, states: States, table: array2<bv32>)
    returns (r: Option<States>, ghost seen: seq<byte>)
    requires IsTable(table) && StatesInv(states) && StillGrows(arriving, allowPartial)
    ensures bytes <= seen <= Final(bytes, arriving)
    ensures r == SegmentPass(seen, allowPartial, id, SEGMENT_HEADER_LEN, AllStep(nodes, from), states)
    ensures r.Some? ==> StatesInv(r.value)
  {
    hide Decode, DecodeNode, ReadFrame, Remaining, SegmentPass, IsTable, StateInv, ApplyRecord, Stands, Final;
    DefaultInv(0, None);
    ghost var l := FrameLoop(allowPartial, id, SEGMENT_HEADER_LEN, AllStep(nodes, from), states);
    var file := new File(bytes, arriving);
    var header := ReadSegmentHeader(file, allowPartial, false);
    seen := file.bytes;
    LoopStarts(l, seen);
    if header.BadHeader? {
      return None, seen;
    } else if header.NoRecords? {
      return Some(states), seen;
    }
    var fileLen := |file.bytes|;
    var replay := states;
    while true
      invariant bytes <= file.bytes && Final(file.bytes, file.arriving) == Final(bytes, arriving)
      invariant arriving == [] ==> file.arriving == [] && file.bytes == bytes
      invariant file.position <= |file.bytes| && fileLen <= |file.bytes| && (arriving == [] ==> fileLen == |file.bytes|)
      invariant StatesInv(replay) && HeaderOf(file.bytes, allowPartial).HasRecords?
      invariant Stands(l, file.bytes, file.position, replay)
      decreases |file.arriving|, |file.bytes| - file.position
    {
      var recordStart := file.position;
      ghost var before := file.bytes;
      var body := ReadRecordBody(file, table);
      seen := file.bytes;
      StandsNext(l, before, seen, recordStart, replay);
      LoopStarts(l, seen);
      match body
      case Invalid => return None, seen;
      case EndOfFile => return if recordStart == fileLen || allowPartial then Some(replay) else None, seen;
      case Read(b) =>
        var node := DecodeRecordNodeId(b);
        if node.None? {
          return None, seen;
        }
        if node.value in nodes {
          if node.value !in from || !Before(RecordPosition(id, recordStart), from[node.value]) {
            var record := DecodeNodeRecord(b);
            if record.None? {
              return None, seen;
            }
            DecodedFits(b);
            DecodedNode(b);
            var next := ApplyToStates(replay, record.value.node, record.value.record);
            if next.None? {
              return None, seen;
            }
            replay := next.value;
          }
        }
    }
  }

  lemma DecodedNode(body: seq<byte>)
    requires Decode(body).Some?
    ensures DecodeNode(body) == Some(Decode(body).value.node)
  {
  }

  // ---- loops over the segments of a store ---------------------------------------------------

  /** What a pass finds when it lists the directory, and what a writer adds to the last file
      while the pass reads it. */
  datatype Listing = Listing(segs: Segments, arriving: seq<seq<byte>>)

  /** `discover_segment_paths`: the segment IDs in ascending order. */
  method DiscoverSegments(segs: Segments) returns (ids: seq<SegmentId>)
    ensures ids == Ascending(segs.Keys)
    ensures forall id :: id in ids ==> id in segs
    ensures Increasing(ids)
  {
    ids := [];
    var rest := segs.Keys;
    while rest != {}
      invariant ids + Ascending(rest) == Ascending(segs.Keys)
      decreases rest
    {
      MinExists(rest);
      var id :| id in rest && forall y :: y in rest ==> id <= y;
      assert IsMin(id, rest) && id == MinOf(rest);
      assert ids + Ascending(rest) == (ids + [id]) + Ascending(rest - {id});
      ids, rest := ids + [id], rest - {id};
    }
    assert ids + Ascending(rest) == ids;
    AscendingIs(segs.Keys);
  }

  /** `replay_active_segment`: the writer knows its active segment, a reader takes the last it sees. */
  function ReplayActive(ids: seq<SegmentId>, active: SegmentId, recoverPartial: bool): SegmentId {
    if recoverPartial || ids == [] then active else ids[|ids| - 1]
  }

  ghost function ActiveIn(segs: Segments, active: SegmentId, recoverPartial: bool): SegmentId {
    ReplayActive(Ascending(segs.Keys), active, recoverPartial)
  }

  /** What a pass over a listing may have read: each file as listed, except that the last one
      may have grown. */
  ghost predicate Sees(l: Listing, active: SegmentId, seen: Segments) {
    && seen.Keys == l.segs.Keys
    && forall id :: id in seen ==>
         l.segs[id] <= seen[id] <= (if id == active then Final(l.segs[id], l.arriving) else l.segs[id])
  }

  /** What a loop over the segments still has to compute. */
  ghost function PassFrom<A>(segs: Segments, ids: seq<SegmentId>, active: SegmentId, start: Start,
                             step: (A, StoredFrame) -> Option<A>, acc: A): Option<A>
    requires forall id :: id in ids ==> id in segs
  {
    match Stream(segs, ids, active, start)
    case None => None
    case Some(fs) => FoldM(step, fs, acc)
  }

  lemma PassNext<A>(segs: Segments, ids: seq<SegmentId>, active: SegmentId, start: Start,
                    step: (A, StoredFrame) -> Option<A>, acc: A)
    requires ids != [] && forall id :: id in ids ==> id in segs
    ensures PassFrom(segs, ids, active, start, step, acc)
         == if Skips(start, ids[0]) then PassFrom(segs, ids[1..], active, start, step, acc)
            else match SegmentPass(segs[ids[0]], ids[0] == active, ids[0], StartOffset(start, ids[0]), step, acc)
                 case None => None
                 case Some(acc') => PassFrom(segs, ids[1..], active, start, step, acc')
  {
    hide SegmentFrames;
    if !Skips(start, ids[0]) {
      match SegmentFrames(segs[ids[0]], ids[0] == active, StartOffset(start, ids[0]))
      case None =>
      case Some(fs) =>
        match Stream(segs, ids[1..], active, start)
        case None =>
        case Some(rest) => FoldMConcat(step, Placed(ids[0], fs), rest, acc);
    }
  }

  /** A loop over the segments of a listing. */
  datatype SegmentLoop<!A> = SegmentLoop(listing: Listing, ids: seq<SegmentId>, active: SegmentId, start: Start,
                                         step: (A, StoredFrame) -> Option<A>, from: A)

  ghost predicate ValidLoop<A>(l: SegmentLoop<A>) {
    l.ids == Ascending(l.listing.segs.Keys) && Increasing(l.ids) && forall id :: id in l.ids ==> id in l.listing.segs
  }

  /** What the files may turn out to be, given what was read of the growing one so far. */
  ghost predicate Could<A>(l: SegmentLoop<A>, read: Option<seq<byte>>, segs: Segments) {
    && segs.Keys == l.listing.segs.Keys
    && (forall id :: id in segs && id != l.active ==> segs[id] == l.listing.segs[id])
    && (read.Some? && l.active in segs ==> segs[l.active] == read.value)
  }

  /** The loop at segment `k`, with `acc` so far, is on its way to its result. */
  ghost predicate OnTrack<A>(l: SegmentLoop<A>, read: Option<seq<byte>>, k: nat, acc: A)
    requires ValidLoop(l)
  {
    && k <= |l.ids|
    && (read.Some? ==> l.active !in l.ids[k..])
    && forall segs :: Could(l, read, segs) ==>
         PassFrom(segs, l.ids[k..], l.active, l.start, l.step, acc) == Pass(segs, l.active, l.start, l.step, l.from)
  }

  /** What was read of the files in the end. */
  ghost function Taken<A>(l: SegmentLoop<A>, read: Option<seq<byte>>): Segments {
    if read.Some? && l.active in l.listing.segs then l.listing.segs[l.active := read.value] else l.listing.segs
  }

  lemma OnTrackStart<A>(l: SegmentLoop<A>)
    requires ValidLoop(l)
    ensures OnTrack(l, None, 0, l.from)
  {
    assert l.ids[0..] == l.ids;
  }

  ghost function ReadNext<A>(l: SegmentLoop<A>, read: Option<seq<byte>>, k: nat, bytes: seq<byte>): Option<seq<byte>>
    requires k < |l.ids|
  {
    if l.ids[k] == l.active then Some(bytes) else read
  }

  lemma OnTrackSkip<A>(l: SegmentLoop<A>, read: Option<seq<byte>>, k: nat, acc: A)
    requires ValidLoop(l) && OnTrack(l, read, k, acc) && k < |l.ids| && Skips(l.start, l.ids[k])
    ensures OnTrack(l, read, k + 1, acc)
  {
    hide PassFrom, Pass, Skips;
    assert l.ids[k..][1..] == l.ids[k + 1..];
    forall segs | Could(l, read, segs)
      ensures PassFrom(segs, l.ids[k + 1..], l.active, l.start, l.step, acc)
          == Pass(segs, l.active, l.start, l.step, l.from)
    {
      PassNext(segs, l.ids[k..], l.active, l.start, l.step, acc);
    }
  }

  /** Reading segment `k`: the loop fails for good, or goes on. */
  lemma OnTrackNext<A>(l: SegmentLoop<A>, read: Option<seq<byte>>, k: nat, acc: A, bytes: seq<byte>)
    requires ValidLoop(l) && OnTrack(l, read, k, acc) && k < |l.ids| && !Skips(l.start, l.ids[k])
    requires l.ids[k] != l.active ==> bytes == l.listing.segs[l.ids[k]]
    ensures var read' := ReadNext(l, read, k, bytes);
            match SegmentPass(bytes, l.ids[k] == l.active, l.ids[k], StartOffset(l.start, l.ids[k]), l.step, acc)
            case None => forall segs :: Could(l, read', segs) ==> Pass(segs, l.active, l.start, l.step, l.from) == None
            case Some(acc') => OnTrack(l, read', k + 1, acc')
  {
    hide PassFrom, Pass, Skips, SegmentPass, StartOffset;
    var read' := ReadNext(l, read, k, bytes);
    var r := SegmentPass(bytes, l.ids[k] == l.active, l.ids[k], StartOffset(l.start, l.ids[k]), l.step, acc);
    assert l.ids[k..][1..] == l.ids[k + 1..];
    assert l.ids[k] in l.ids[k..];
    forall segs | Could(l, read', segs)
      ensures Pass(segs, l.active, l.start, l.step, l.from)
           == match r case None => None case Some(acc') => PassFrom(segs, l.ids[k + 1..], l.active, l.start, l.step,
               acc')
    {
      assert l.ids[k] in l.ids;
      assert Could(l, read, segs);
      PassNext(segs, l.ids[k..], l.active, l.start, l.step, acc);
    }
  }

  lemma OnTrackEnd<A>(l: SegmentLoop<A>, read: Option<seq<byte>>, acc: A)
    requires ValidLoop(l) && OnTrack(l, read, |l.ids|, acc)
    ensures Pass(Taken(l, read), l.active, l.start, l.step, l.from) == Some(acc)
  {
    hide Pass;
    assert l.ids[|l.ids|..] == [];
    assert Could(l, read, Taken(l, read));
    assert PassFrom(Taken(l, read), [], l.active, l.start, l.step, acc) == Some(acc);
  }

  /** The bytes read so far agree with the listing. */
  ghost predicate ReadFits<A>(l: SegmentLoop<A>, read: Option<seq<byte>>) {
    read.Some? && l.active in l.listing.segs ==>
      l.listing.segs[l.active] <= read.value <= Final(l.listing.segs[l.active], l.listing.arriving)
  }

  lemma ReadIsSeen<A>(l: SegmentLoop<A>, read: Option<seq<byte>>)
    requires ReadFits(l, read)
    ensures Could(l, read, Taken(l, read)) && Sees(l.listing, l.active, Taken(l, read))
  {
  }

  /** Only the last segment of a listing may still grow, and only for a reader that takes the
      last for the active one; recovery runs alone. */
  predicate ReadableBy(recoverPartial: bool, listing: Listing) {
    recoverPartial ==> listing.arriving == []
  }

  method FindCheckpointPositionsFrom(listing: Listing, active: SegmentId, nodes: set<NodeId>,
      start: Option<RecordPosition>,
                                     recoverPartial: bool, table: array2<bv32>)
    returns (r: Option<Checkpoints>, ghost seen: Segments)
    requires IsTable(table) && ReadableBy(recoverPartial, listing)
    ensures Sees(listing, ActiveIn(listing.segs, active, recoverPartial), seen)
    ensures r
        == Pass(seen, ActiveIn(listing.segs, active, recoverPartial), StartAtHint(start), CheckpointStep(nodes), map[])
  {
    hide SegmentPass, PassFrom, Pass, CheckpointStep, Ascending, IsTable, OnTrack, Could, Taken, Sees;
    var checkpoints: Checkpoints := map[];
    var ids := DiscoverSegments(listing.segs);
    var act := ReplayActive(ids, active, recoverPartial);
    ghost var l := SegmentLoop(listing, ids, act, StartAtHint(start), CheckpointStep(nodes), checkpoints);
    ghost var read: Option<seq<byte>> := None;
    OnTrackStart(l);
    for k := 0 to |ids|
      invariant OnTrack(l, read, k, checkpoints) && ReadFits(l, read)
    {
      var id := ids[k];
      if start.None? || id >= start.value.segment {
        var startOffset := if start.Some? && id == start.value.segment then start.value.offset else SEGMENT_HEADER_LEN;
        var arriving := if id == act then listing.arriving else [];
        ghost var bytes;
        var found;
        found, bytes := ScanCheckpointPositions(listing.segs[id], arriving, id, id == act, nodes, startOffset,
            checkpoints, table);
        OnTrackNext(l, read, k, checkpoints, bytes);
        read := ReadNext(l, read, k, bytes);
        if found.None? {
          ReadIsSeen(l, read);
          return None, Taken(l, read);
        }
        checkpoints := found.value;
      } else {
        OnTrackSkip(l, read, k, checkpoints);
      }
    }
    OnTrackEnd(l, read, checkpoints);
    ReadIsSeen(l, read);
    return Some(checkpoints), Taken(l, read);
  }

  /** The pass that replays one node, into a state object. */
  method ReplayNodeSegments(listing: Listing, active: SegmentId, node: NodeId, from: Option<RecordPosition>,
                            recoverPartial: bool, table: array2<bv32>)
    returns (r: Option<State>, ghost seen: Segments)
    requires IsTable(table) && ReadableBy(recoverPartial, listing)
    ensures Sees(listing, ActiveIn(listing.segs, active, recoverPartial), seen)
    ensures r == Pass(seen, ActiveIn(listing.segs, active, recoverPartial), StartAtCheckpoint(from),
                      NodeStep(node, from), DEFAULT_STATE)
    ensures r.Some? ==> StateInv(r.value)
  {
    hide SegmentPass, PassFrom, Pass, NodeStep, Ascending, IsTable, OnTrack, Could, Taken, Sees, StateInv;
    var state := new NodeState();
    DefaultInv(0, None);
    var ids := DiscoverSegments(listing.segs);
    var act := ReplayActive(ids, active, recoverPartial);
    ghost var l := SegmentLoop(listing, ids, act, StartAtCheckpoint(from), NodeStep(node, from), DEFAULT_STATE);
    ghost var read: Option<seq<byte>> := None;
    OnTrackStart(l);
    for k := 0 to |ids|
      invariant StateInv(state.View())
      invariant OnTrack(l, read, k, state.View()) && ReadFits(l, read)
    {
      var id := ids[k];
      if from.None? || id >= from.value.segment {
        ghost var before := state.View();
        var arriving := if id == act then listing.arriving else [];
        ghost var bytes;
        var ok;
        ok, bytes := ReplayNodeSegment(listing.segs[id], arriving, id, id == act, node, from, state, table);
        OnTrackNext(l, read, k, before, bytes);
        read := ReadNext(l, read, k, bytes);
        if !ok {
          ReadIsSeen(l, read);
          return None, Taken(l, read);
        }
      } else {
        OnTrackSkip(l, read, k, state.View());
      }
    }
    OnTrackEnd(l, read, state.View());
    ReadIsSeen(l, read);
    return Some(state.View()), Taken(l, read);
  }

  /** `replay_node_state`: the directory is listed and read twice, a writer may append in between
      and meanwhile. */
  method ReplayNodeState(first: Listing, second: Listing, active: SegmentId, node: NodeId, hint: Option<RecordPosition>,
                         recoverPartial: bool, table: array2<bv32>)
    returns (r: Option<State>, ghost seenFirst: Segments, ghost seenSecond: Segments)
    requires IsTable(table) && ReadableBy(recoverPartial, first) && ReadableBy(recoverPartial, second)
    ensures var a, b := ActiveIn(first.segs, active, recoverPartial), ActiveIn(second.segs, active, recoverPartial);
            && Sees(first, a, seenFirst) && Sees(second, b, seenSecond)
            && r == ReplayNodeViews(View(seenFirst, a), View(seenSecond, b), node, hint)
    ensures r.Some? ==> StateInv(r.value)
  {
    hide Pass, CheckpointStep, NodeStep, ActiveIn, IsTable, StateInv, Sees;
    var positions;
    positions, seenFirst := FindCheckpointPositionsFrom(first, active, {node}, hint, recoverPartial, table);
    if positions.None? {
      ListingIsSeen(second, ActiveIn(second.segs, active, recoverPartial));
      return None, seenFirst, second.segs;
    }
    r, seenSecond := ReplayNodeSegments(second, active, node, PositionFor(positions.value, node), recoverPartial,
        table);
  }

  lemma ListingIsSeen(l: Listing, active: SegmentId)
    ensures Sees(l, active, l.segs)
  {
  }

  /** The least of the hinted positions. */
  method LeastHint(hints: Checkpoints) returns (p: RecordPosition)
    requires hints != map[]
    ensures p == Least(hints)
  {
    var rest := hints.Keys;
    var n :| n in rest;
    p, rest := hints[n], rest - {n};
    while rest != {}
      invariant rest <= hints.Keys && exists m :: m in hints && hints[m] == p
      invariant forall m :: m in hints && m !in rest ==> !Before(hints[m], p)
      decreases rest
    {
      var m :| m in rest;
      if Before(hints[m], p) {
        p := hints[m];
      }
      rest := rest - {m};
    }
    assert IsLeast(p, hints);
    LeastUnique(hints, p, Least(hints));
  }

  lemma LeastUnique(hints: Checkpoints, p: RecordPosition, q: RecordPosition)
    requires IsLeast(p, hints) && IsLeast(q, hints)
    ensures p == q
  {
    var n :| n in hints && hints[n] == p;
    var m :| m in hints && hints[m] == q;
  }

  /** `replay_storage_dir`. */
  method ReplayStorageDir(first: Listing, second: Listing, active: SegmentId, nodes: set<NodeId>,
      hints: Option<Checkpoints>,
                          recoverPartial: bool, table: array2<bv32>)
    returns (r: Option<States>, ghost seenFirst: Segments, ghost seenSecond: Segments)
    requires IsTable(table) && ReadableBy(recoverPartial, first) && ReadableBy(recoverPartial, second)
    ensures var a, b := ActiveIn(first.segs, active, recoverPartial), ActiveIn(second.segs, active, recoverPartial);
            && Sees(first, a, seenFirst) && Sees(second, b, seenSecond)
            && r == ReplayAllViews(View(seenFirst, a), View(seenSecond, b), nodes, hints)
    ensures r.Some? ==> StatesInv(r.value)
  {
    hide Pass, CheckpointStep, AllStep, ActiveIn, IsTable, StatesInv, Sees, Least;
    var positions: Checkpoints := map[];
    var startSegment: Option<SegmentId> := None;
    seenFirst := first.segs;
    ListingIsSeen(first, ActiveIn(first.segs, active, recoverPartial));
    ListingIsSeen(second, ActiveIn(second.segs, active, recoverPartial));
    match hints {
      case None =>
        var found;
        found, seenFirst := FindCheckpointPositionsFrom(first, active, nodes, None, recoverPartial, table);
        if found.None? {
          return None, seenFirst, second.segs;
        }
        positions := found.value;
      case Some(h) =>
        positions := h;
        if h != map[] {
          var least := LeastHint(h);
          var found;
          found, seenFirst := FindCheckpointPositionsFrom(first, active, nodes, Some(least), recoverPartial, table);
          if found.None? {
            return None, seenFirst, second.segs;
          }
          positions := h + found.value;
          startSegment := Some(least.segment);
        }
    }
    r, seenSecond := ReplaySegments(second, active, nodes, positions, startSegment, recoverPartial, table);
  }

  method ReplaySegments(listing: Listing, active: SegmentId, nodes: set<NodeId>, positions: Checkpoints,
                        startSegment: Option<SegmentId>, recoverPartial: bool, table: array2<bv32>)
    returns (r: Option<States>, ghost seen: Segments)
    requires IsTable(table) && ReadableBy(recoverPartial, listing)
    ensures Sees(listing, ActiveIn(listing.segs, active, recoverPartial), seen)
    ensures var start := if startSegment.Some? then AtSegment(startSegment.value) else Everywhere;
            r == Pass(seen, ActiveIn(listing.segs, active, recoverPartial), start, AllStep(nodes, positions), map[])
    ensures r.Some? ==> StatesInv(r.value)
  {
    hide SegmentPass, PassFrom, Pass, AllStep, Ascending, IsTable, OnTrack, Could, Taken, Sees, StateInv;
    ghost var start := if startSegment.Some? then AtSegment(startSegment.value) else Everywhere;
    var replay: States := map[];
    var ids := DiscoverSegments(listing.segs);
    var act := ReplayActive(ids, active, recoverPartial);
    ghost var l := SegmentLoop(listing, ids, act, start, AllStep(nodes, positions), replay);
    ghost var read: Option<seq<byte>> := None;
    OnTrackStart(l);
    for k := 0 to |ids|
      invariant StatesInv(replay)
      invariant OnTrack(l, read, k, replay) && ReadFits(l, read)
    {
      var id := ids[k];
      if startSegment.None? || id >= startSegment.value {
        var arriving := if id == act then listing.arriving else [];
        ghost var bytes;
        var next;
        next, bytes := ReplaySegment(listing.segs[id], arriving, id, id == act, nodes, positions, replay, table);
        OnTrackNext(l, read, k, replay, bytes);
        read := ReadNext(l, read, k, bytes);
        if next.None? {
          ReadIsSeen(l, read);
          return None, Taken(l, read);
        }
        replay := next.value;
      } else {
        OnTrackSkip(l, read, k, replay);
      }
    }
    OnTrackEnd(l, read, replay);
    ReadIsSeen(l, read);
    return Some(replay), Taken(l, read);
  }

  /** `load_all` over the segments: every wanted node, defaulting those without records. */
  method LoadAllNodes(first: Listing, second: Listing, active: SegmentId, nodes: set<NodeId>,
      hints: Option<Checkpoints>,
                      recoverPartial: bool, table: array2<bv32>)
    returns (r: Option<States>, ghost seenFirst: Segments, ghost seenSecond: Segments)
    requires IsTable(table) && ReadableBy(recoverPartial, first) && ReadableBy(recoverPartial, second)
    ensures var a, b := ActiveIn(first.segs, active, recoverPartial), ActiveIn(second.segs, active, recoverPartial);
            && Sees(first, a, seenFirst) && Sees(second, b, seenSecond)
            && r == LoadAllViews(View(seenFirst, a), View(seenSecond, b), nodes, hints)
    ensures r.Some? ==> StatesInv(r.value)
  {
    hide ReplayAllViews, StateInv, IsTable, ActiveIn, Sees;
    DefaultInv(0, None);
    ListingIsSeen(first, ActiveIn(first.segs, active, recoverPartial));
    ListingIsSeen(second, ActiveIn(second.segs, active, recoverPartial));
    if nodes == {} {
      return Some(map[]), first.segs, second.segs;
    }
    var replay;
    replay, seenFirst, seenSecond := ReplayStorageDir(first, second, active, nodes, hints, recoverPartial, table);
    if replay.None? {
      return None, seenFirst, seenSecond;
    }
    return Some(map n | n in nodes :: StateOf(replay.value, n)), seenFirst, seenSecond;
  }
}
