/** Recovery of segment files on open: the tail of the active file that a crash
    tore off is cut away, and nothing else. */
module Recovery {
  import opened Words
  import opened Records
  import opened Wire
  import opened Encoding
  import opened Checksum
  import opened Frames
  import opened Replay
  import opened Replayer

  /** `scan_segment`: the file after recovery, or None if it is corrupt. */
  function Recovered(bytes: seq<byte>, allowPartial: bool): Option<seq<byte>> {
    if |bytes| < SEGMENT_HEADER_LEN then (if allowPartial then Some([]) else None)
    else if bytes[..SEGMENT_HEADER_LEN] != SEGMENT_MAGIC then None
    else
      var s := ScanFrom(bytes, SEGMENT_HEADER_LEN);
      if s.tail.Clean? then Some(bytes)
      else if s.tail.Torn? && allowPartial then Some(bytes[..s.end])
      else None
  }

  /** Scans a segment frame by frame; a torn tail of the active file is cut off in place. */
  method ScanSegment(file: File, allowPartial: bool, table: array2<bv32>) returns (ok: bool)
    requires IsTable(table) && file.arriving == []
    modifies file
    ensures file.arriving == []
    ensures ok <==> Recovered(old(file.bytes), allowPartial).Some?
    ensures file.bytes == if ok then Recovered(old(file.bytes), allowPartial).value else old(file.bytes)
  {
    hide ReadFrame, IsTable;
    ghost var bytes := file.bytes;
    var header := ReadSegmentHeader(file, allowPartial, true);
    if header.BadHeader? {
      return false;
    } else if header.NoRecords? {
      return true;
    }
    var fileLen := |file.bytes|;
    ghost var whole := ScanFrom(bytes, SEGMENT_HEADER_LEN);
    while true
      invariant file.arriving == [] && file.bytes == bytes && file.position <= |bytes|
      invariant ScanFrom(bytes, file.position).end == whole.end && ScanFrom(bytes, file.position).tail == whole.tail
      decreases |bytes| - file.position
    {
      var recordStart := file.position;
      var frame := ScanRecordFrame(file, table);
      match frame
      case Invalid => return false;
      case Read(_) =>
      case EndOfFile =>
        if recordStart == fileLen {
          return true;
        }
        if allowPartial {
          file.SetLen(recordStart);
          file.Seek(recordStart);
          return true;
        }
        return false;
    }
  }

  // ---- what recovery keeps -------------------------------------------------------------------

  /** Bytes after a complete frame do not change how it reads, present or gone. */
  lemma ReadFramePrefix(bytes: seq<byte>, len: nat, off: nat)
    requires len <= |bytes| && ReadFrame(bytes, off).Complete? && ReadFrame(bytes, off).next <= len
    ensures ReadFrame(bytes[..len], off) == ReadFrame(bytes, off)
  {
    hide Crc;
    var less := bytes[..len];
    assert less[off..off + 4] == bytes[off..off + 4];
    assert less[off + 4..off + 8] == bytes[off + 4..off + 8];
    var n := LeU32(bytes[off..off + 4]);
    assert less[off + 8..off + 8 + n] == bytes[off + 8..off + 8 + n];
  }

  /** Cutting a file where its complete frames end leaves the same frames and a clean end. */
  lemma {:induction false} ScanTruncated(bytes: seq<byte>, off: nat)
    requires off <= |bytes|
    ensures var s := ScanFrom(bytes, off);
            ScanFrom(bytes[..s.end], off) == Scan(s.frames, s.end, Clean)
    decreases |bytes| - off
  {
    hide ReadFrame;
    match ReadFrame(bytes, off)
    case Complete(body, next) =>
      ScanTruncated(bytes, next);
      ReadFramePrefix(bytes, ScanFrom(bytes, off).end, off);
    case _ =>
      NothingLeft(bytes[..off]);
  }

  lemma NothingLeft(bytes: seq<byte>)
    ensures ReadFrame(bytes, |bytes|) == End
  {
  }

  /** Whatever is in a file: recovery keeps every complete frame up to the first one that is
      not, leaves a file that reads cleanly even where no partial record is tolerated, and has
      nothing to do the second time. */
  lemma RecoveryIsSafe(bytes: seq<byte>, allowPartial: bool)
    requires Recovered(bytes, allowPartial).Some?
    ensures var r := Recovered(bytes, allowPartial).value;
            && r <= bytes && Recovered(r, allowPartial) == Some(r)
            && (r != [] ==> Recovered(r, false) == Some(r))
            && SegmentFrames(bytes, allowPartial, SEGMENT_HEADER_LEN).Some?
            && SegmentFrames(r, allowPartial, SEGMENT_HEADER_LEN)
                == SegmentFrames(bytes, allowPartial, SEGMENT_HEADER_LEN)
  {
    hide ReadFrame;
    if SEGMENT_HEADER_LEN <= |bytes| {
      var s := ScanFrom(bytes, SEGMENT_HEADER_LEN);
      ScanTruncated(bytes, SEGMENT_HEADER_LEN);
      assert bytes[..s.end][..SEGMENT_HEADER_LEN] == bytes[..SEGMENT_HEADER_LEN];
      if s.tail.Clean? {
        CleanEnd(bytes, SEGMENT_HEADER_LEN);
      }
    }
  }

  lemma {:induction false} CleanEnd(bytes: seq<byte>, off: nat)
    requires off <= |bytes| && ScanFrom(bytes, off).tail.Clean?
    ensures ScanFrom(bytes, off).end == |bytes|
    decreases |bytes| - off
  {
    hide ReadFrame;
    match ReadFrame(bytes, off)
    case Complete(_, next) => CleanEnd(bytes, next);
    case _ =>
  }

  /** `WholeFrames` counts exactly the frames that end by the cut. */
  lemma {:induction false} WholeFramesIs(bodies: seq<seq<byte>>, room: nat, k: nat)
    requires (forall b :: b in bodies ==> |b| <= MAX_RECORD_BODY_LEN) && k <= |bodies|
    ensures |FrameRun(bodies[..k])| <= room <==> k <= WholeFrames(bodies, room)
    decreases |bodies|
  {
    hide FrameOf;
    if k > 0 {
      assert bodies[0] in bodies;
      FrameLength(bodies[0]);
      assert bodies[..k][1..] == bodies[1..][..k - 1];
      if FRAME_HEADER_LEN + |bodies[0]| <= room {
        WholeFramesIs(bodies[1..], room - FRAME_HEADER_LEN - |bodies[0]|, k - 1);
      }
    } else {
      assert bodies[..0] == [];
    }
  }

  /** Torn tail recovery: an active file cut anywhere recovers to the frames that were wholly
      before the cut, ending where the last of them ends. */
  lemma TornTail(bodies: seq<seq<byte>>, cut: nat)
    requires forall b :: b in bodies ==> |b| <= MAX_RECORD_BODY_LEN
    requires cut <= |SEGMENT_MAGIC + FrameRun(bodies)|
    ensures var file := SEGMENT_MAGIC + FrameRun(bodies);
            Recovered(file[..cut], true)
            == Some(if cut < SEGMENT_HEADER_LEN then []
                    else SEGMENT_MAGIC + FrameRun(bodies[..WholeFrames(bodies, cut - SEGMENT_HEADER_LEN)]))
  {
    hide FrameOf, ReadFrame, PartOfFrame, FrameRun, WholeFrames;
    if SEGMENT_HEADER_LEN <= cut {
      var room := cut - SEGMENT_HEADER_LEN;
      var run, kept := FrameRun(bodies), bodies[..WholeFrames(bodies, room)];
      assert forall b :: b in kept ==> b in bodies;
      CutRun(bodies, room);
      var tail := run[|FrameRun(kept)|..room];
      assert (SEGMENT_MAGIC + run)[..cut] == SEGMENT_MAGIC + run[..room];
      assert run[..room] == FrameRun(kept) + tail;
      assert SEGMENT_MAGIC + (FrameRun(kept) + tail) == SEGMENT_MAGIC + FrameRun(kept) + tail;
      RecoverRun(kept, tail);
    }
  }

  lemma RecoverRun(bodies: seq<seq<byte>>, tail: seq<byte>)
    requires (forall b :: b in bodies ==> |b| <= MAX_RECORD_BODY_LEN) && PartOfFrame(tail)
    ensures Recovered(SEGMENT_MAGIC + FrameRun(bodies) + tail, true) == Some(SEGMENT_MAGIC + FrameRun(bodies))
  {
    hide FrameOf, ReadFrame, PartOfFrame, FrameRun;
    var bytes := SEGMENT_MAGIC + FrameRun(bodies) + tail;
    ScanRun(SEGMENT_MAGIC, bodies, tail);
    assert bytes[..SEGMENT_HEADER_LEN] == SEGMENT_MAGIC;
    assert bytes[..|SEGMENT_MAGIC + FrameRun(bodies)|] == SEGMENT_MAGIC + FrameRun(bodies);
    if tail == [] {
      assert bytes == SEGMENT_MAGIC + FrameRun(bodies);
    }
  }

  // ---- exactly which files are accepted ----------------------------------------------------------

  /** The file is the magic, a run of whole frames and a tail: nothing, or in the active file an
      unfinished frame. */
  ghost predicate RunAndTail(bytes: seq<byte>, allowPartial: bool, kept: seq<byte>) {
    exists bodies: seq<seq<byte>>, tail: seq<byte> :: SplitsInto(bytes, allowPartial, kept, bodies, tail)
  }

  ghost predicate SplitsInto(bytes: seq<byte>, allowPartial: bool, kept: seq<byte>, bodies: seq<seq<byte>>,
      tail: seq<byte>) {
    && (forall b :: b in bodies ==> |b| <= 1024 * 1024 * 1024)
    && kept == [0x53, 0x4B, 0x52, 0x31] + FrameRun(bodies)
    && bytes == kept + tail
    && (tail == [] || (allowPartial && Unfinished(tail)))
  }

  /** Recovery accepts a file and keeps `kept` of it exactly when the file is a run of whole frames and
      an allowed tail, or the active file with no whole header, of which nothing is kept. Reading a
      segment accepts exactly the same files. */
  lemma RecoversExactly(bytes: seq<byte>, allowPartial: bool, kept: seq<byte>)
    ensures Recovered(bytes, allowPartial) == Some(kept) <==>
              (allowPartial && |bytes| < 4 && kept == []) || RunAndTail(bytes, allowPartial, kept)
    ensures SegmentFrames(bytes, allowPartial, 4).Some? <==> Recovered(bytes, allowPartial).Some?
  {
    hide ReadFrame, FrameOf, FrameRun, Unfinished, ScanFrom, SplitsInto;
    if Recovered(bytes, allowPartial) == Some(kept) && 4 <= |bytes| {
      AcceptedSplits(bytes, allowPartial, kept);
    }
    if RunAndTail(bytes, allowPartial, kept) {
      var bodies: seq<seq<byte>>, tail: seq<byte> :| SplitsInto(bytes, allowPartial, kept, bodies, tail);
      SplitAccepted(bytes, allowPartial, kept, bodies, tail);
    }
  }

  lemma AcceptedSplits(bytes: seq<byte>, allowPartial: bool, kept: seq<byte>)
    requires Recovered(bytes, allowPartial) == Some(kept) && 4 <= |bytes|
    ensures RunAndTail(bytes, allowPartial, kept)
  {
    hide ReadFrame, FrameOf, FrameRun, Unfinished;
    var s := ScanFrom(bytes, 4);
    var bodies := ScannedRun(bytes, 4);
    assert bytes == bytes[..4] + bytes[4..s.end] + bytes[s.end..];
    assert bytes[..s.end] == bytes[..4] + bytes[4..s.end];
    assert SplitsInto(bytes, allowPartial, kept, bodies, bytes[s.end..]);
  }

  /** What a scan passes over is a run of whole frames. */
  lemma {:induction false} ScannedRun(bytes: seq<byte>, off: nat) returns (bodies: seq<seq<byte>>)
    requires off <= |bytes|
    ensures forall b :: b in bodies ==> |b| <= MAX_RECORD_BODY_LEN
    ensures var s := ScanFrom(bytes, off);
            && bytes[off..s.end] == FrameRun(bodies)
            && (s.tail.Clean? ==> bytes[s.end..] == [])
            && (s.tail.Torn? ==> Unfinished(bytes[s.end..]))
    decreases |bytes| - off
  {
    hide ReadFrame, FrameOf, Unfinished;
    FrameExactly(bytes, off, [], 0);
    match ReadFrame(bytes, off)
    case Complete(body, next) =>
      FrameExactly(bytes, off, body, next);
      var rest := ScannedRun(bytes, next);
      bodies := [body] + rest;
      assert bodies[1..] == rest;
      var end := ScanFrom(bytes, next).end;
      assert bytes[off..end] == bytes[off..next] + bytes[next..end];
    case _ =>
      bodies := [];
  }

  lemma SplitAccepted(bytes: seq<byte>, allowPartial: bool, kept: seq<byte>, bodies: seq<seq<byte>>, tail: seq<byte>)
    requires SplitsInto(bytes, allowPartial, kept, bodies, tail)
    ensures Recovered(bytes, allowPartial) == Some(kept)
  {
    hide ReadFrame, FrameOf, FrameRun, Unfinished, ScanFrom;
    ScanUnfinished(SEGMENT_MAGIC, bodies, tail);
    assert bytes == SEGMENT_MAGIC + FrameRun(bodies) + tail;
    assert bytes[..4] == SEGMENT_MAGIC && bytes[..|kept|] == kept;
    if tail == [] {
      assert bytes == kept;
    }
  }

  lemma {:induction false} ScanUnfinished(pre: seq<byte>, bodies: seq<seq<byte>>, tail: seq<byte>)
    requires forall b :: b in bodies ==> |b| <= MAX_RECORD_BODY_LEN
    requires tail == [] || Unfinished(tail)
    ensures var s := ScanFrom(pre + FrameRun(bodies) + tail, |pre|);
            s.end == |pre + FrameRun(bodies)| && s.tail == if tail == [] then Clean else Torn
    decreases |bodies|
  {
    hide FrameOf, FrameRun, ReadFrame, ScanFrom, Unfinished;
    RunUnfold(bodies);
    if bodies == [] {
      assert pre + FrameRun(bodies) + tail == pre + tail;
      assert (pre + tail)[|pre|..] == tail;
      EndsUnfinished(pre + tail, |pre|);
      ScanNothing(pre + tail, |pre|);
    } else {
      var b, f, rest := bodies[0], FrameOf(bodies[0]), FrameRun(bodies[1..]);
      FrameLength(b);
      ScanUnfinished(pre + f, bodies[1..], tail);
      FrameReadsBack(pre, b, rest + tail);
      RunHead(pre, f, rest, tail);
      ScanStep(pre + FrameRun(bodies) + tail, |pre|, b, |pre + f|);
    }
  }

  lemma EndsUnfinished(bytes: seq<byte>, off: nat)
    requires off <= |bytes| && (bytes[off..] == [] || Unfinished(bytes[off..]))
    ensures ReadFrame(bytes, off) == End
  {
    FrameExactly(bytes, off, [], 0);
  }
}
