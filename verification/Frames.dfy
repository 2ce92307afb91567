/** Record frames in a segment file: the two frame readers, what they agree
    on, and which corruptions they notice. */
module Frames {
  import opened Words
  import opened Records
  import opened Wire
  import opened Codec
  import opened Checksum
  import opened Encoding
  import opened Bursts

  const FRAME_HEADER_LEN: nat := 8
  const SCAN_BUFFER_LEN: nat := 8192

  /** What reading a frame at an offset gives: nothing complete, corruption, or a body. */
  datatype FrameRead = End | Corrupt | Complete(body: seq<byte>, next: nat)

  function ReadFrame(bytes: seq<byte>, off: nat): (r: FrameRead)
    ensures r.Complete? ==> off + FRAME_HEADER_LEN <= r.next <= |bytes|
    ensures r.Complete? ==> |r.body| == r.next - off - FRAME_HEADER_LEN
  {
    if |bytes| < off + 4 then End
    else
      var len := LeU32(bytes[off..off + 4]);
      if MAX_RECORD_BODY_LEN < len then Corrupt
      else if |bytes| < off + 8 + len then End
      else
        var body := bytes[off + 8..off + 8 + len];
        if Crc(body) == LeU32(bytes[off + 4..off + 8]) then Complete(body, off + 8 + len) else Corrupt
  }

  // ---- the readers ------------------------------------------------------------------

  function Joined(chunks: seq<seq<byte>>): seq<byte> {
    if chunks == [] then [] else chunks[0] + Joined(chunks[1..])
  }

  /** What a file holds when everything has arrived. */
  function Final(bytes: seq<byte>, arriving: seq<seq<byte>>): (r: seq<byte>)
    ensures bytes <= r && (arriving == [] ==> r == bytes)
  {
    bytes + Joined(arriving)
  }

  lemma OneArrives(bytes: seq<byte>, arriving: seq<seq<byte>>)
    requires arriving != []
    ensures Final(bytes + arriving[0], arriving[1..]) == Final(bytes, arriving)
  {
    assert bytes + (arriving[0] + Joined(arriving[1..])) == bytes + arriving[0] + Joined(arriving[1..]);
  }

  /** An open file and its cursor. A file that a writer in another process still appends to
      grows by the next of the `arriving` chunks before each read. */
  class File {
    var bytes: seq<byte>
    var position: nat
    var arriving: seq<seq<byte>>

    constructor (bytes: seq<byte>, arriving: seq<seq<byte>>)
      ensures this.bytes == bytes && position == 0 && this.arriving == arriving
    {
      this.bytes, position, this.arriving := bytes, 0, arriving;
    }

    twostate predicate Grows()
      reads this
    {
      && old(bytes) <= bytes && Final(bytes, arriving) == old(Final(bytes, arriving))
      && (|arriving| < |old(arriving)| || (bytes == old(bytes) && arriving == old(arriving)))
    }

    method Grow()
      modifies `bytes, `arriving
      ensures Grows()
    {
      if arriving != [] {
        OneArrives(bytes, arriving);
        bytes, arriving := bytes + arriving[0], arriving[1..];
      }
    }

    /** `read_exact`: None stands for an unexpected end of file. */
    method ReadExact(n: nat) returns (r: Option<seq<byte>>)
      modifies this
      ensures Grows() && position >= old(position)
      ensures old(position) + n <= |bytes| ==>
                r == Some(bytes[old(position)..old(position) + n]) && position == old(position) + n
      ensures |bytes| < old(position) + n ==> r == None
    {
      Grow();
      if position + n <= |bytes| {
        r := Some(bytes[position..position + n]);
        position := position + n;
      } else {
        r := None;
        position := if position < |bytes| then |bytes| else position;
      }
    }

    /** `take(n)` and `read_to_end`: as many of the next `n` bytes as there are. */
    method ReadUpTo(n: nat) returns (data: seq<byte>)
      modifies this
      ensures Grows()
      ensures old(position) + n <= |bytes| ==>
                data == bytes[old(position)..old(position) + n] && position == old(position) + n
      ensures |bytes| < old(position) + n ==> |data| < n || n == 0
    {
      Grow();
      if position + n <= |bytes| {
        data := bytes[position..position + n];
        position := position + n;
      } else if position < |bytes| {
        data := bytes[position..];
        position := |bytes|;
      } else {
        data := [];
      }
    }

    method Seek(offset: nat)
      modifies `position
      ensures position == offset
    {
      position := offset;
    }

    /** `set_len` to a length not above the current one. */
    method SetLen(len: nat)
      requires len <= |bytes|
      modifies `bytes
      ensures bytes == old(bytes)[..len]
    {
      bytes := bytes[..len];
    }
  }

  datatype Reading<+T> = EndOfFile | Invalid | Read(value: T)

  ghost predicate AgreesOnOutcome<T>(r: Reading<T>, bytes: seq<byte>, off: nat, position: nat) {
    match ReadFrame(bytes, off)
    case End => r.EndOfFile?
    case Corrupt => r.Invalid?
    case Complete(_, next) => r.Read? && position == next
  }

  /** Reads a whole body into memory. What it returns is right for the file as it is afterwards,
      even if the file grew while it was read. */
  method ReadRecordBody(file: File, table: array2<bv32>) returns (r: Reading<seq<byte>>)
    requires IsTable(table)
    modifies file
    ensures file.Grows()
    ensures AgreesOnOutcome(r, file.bytes, old(file.position), file.position)
    ensures r.Read? ==> r.value == ReadFrame(file.bytes, old(file.position)).body
  {
    hide Crc, IsTable, Final, ReadFrame, LeU32;
    ghost var start := file.position;
    var header := file.ReadExact(4);
    ghost var first := file.bytes;
    if header.None? {
      ReadFrameShort(first, start);
      return EndOfFile;
    }
    ReadFrameIs(first, start, header.value);
    var bodyLen := LeU32(header.value);
    if MAX_RECORD_BODY_LEN < bodyLen {
      return Invalid;
    }
    var checksum := file.ReadExact(4);
    ghost var second := file.bytes;
    SliceKept(first, second, start, start + 4);
    ReadFrameIs(second, start, header.value);
    if checksum.None? {
      return EndOfFile;
    }
    var body := file.ReadUpTo(bodyLen);
    SliceKept(second, file.bytes, start, start + 4);
    SliceKept(second, file.bytes, start + 4, start + 8);
    ReadFrameIs(file.bytes, start, header.value);
    if |body| != bodyLen {
      return EndOfFile;
    }
    var actual := Crc32cOf(body, table);
    if actual != LeU32(checksum.value) {
      return Invalid;
    }
    return Read(body);
  }

  /** Checks a frame without keeping its body, one buffer at a time. Only recovery uses it,
      when no other process writes. */
  method ScanRecordFrame(file: File, table: array2<bv32>) returns (r: Reading<()>)
    requires IsTable(table) && file.arriving == []
    modifies file
    ensures file.Grows()
    ensures AgreesOnOutcome(r, file.bytes, old(file.position), file.position)
  {
    hide Crc, IsTable, Feed, Finish, Final, ReadFrame, LeU32;
    ghost var start := file.position;
    var header := file.ReadExact(4);
    if header.None? {
      ReadFrameShort(file.bytes, start);
      return EndOfFile;
    }
    ReadFrameIs(file.bytes, start, header.value);
    var bodyLen := LeU32(header.value);
    if MAX_RECORD_BODY_LEN < bodyLen {
      return Invalid;
    }
    var checksum := file.ReadExact(4);
    if checksum.None? {
      return EndOfFile;
    }
    var crc := new Crc32c(table);
    var remaining := bodyLen;
    ghost var bytes := file.bytes;
    FeedEmpty(ALL_ONES);
    assert bytes[start + 8..file.position] == [];
    while remaining != 0
      invariant crc.Valid() && fresh(crc) && crc.table == table
      invariant 0 <= remaining <= bodyLen && file.bytes == bytes && file.arriving == []
      invariant file.position == start + 8 + (bodyLen - remaining) && (file.position <= |bytes|)
      invariant crc.state == Feed(ALL_ONES, bytes[start + 8..file.position])
    {
      var readLen := if remaining < SCAN_BUFFER_LEN then remaining else SCAN_BUFFER_LEN;
      ghost var before := file.position;
      var buffer := file.ReadExact(readLen);
      if buffer.None? {
        return EndOfFile;
      }
      FeedConcat(ALL_ONES, bytes[start + 8..before], buffer.value);
      assert bytes[start + 8..before] + buffer.value == bytes[start + 8..file.position];
      crc.Update(buffer.value);
      remaining := remaining - readLen;
    }
    CrcIs(bytes[start + 8..file.position]);
    if crc.Value() != LeU32(checksum.value) {
      return Invalid;
    }
    return Read(());
  }

  lemma ReadFrameIs(bytes: seq<byte>, off: nat, header: seq<byte>)
    requires off + 4 <= |bytes| && bytes[off..off + 4] == header
    ensures |header| == 4
    ensures var len := LeU32(header);
            ReadFrame(bytes, off)
            == if MAX_RECORD_BODY_LEN < len then Corrupt
               else if |bytes| < off + 8 + len then End
               else if Crc(bytes[off + 8..off + 8 + len]) == LeU32(bytes[off + 4..off + 8])
               then Complete(bytes[off + 8..off + 8 + len], off + 8 + len) else Corrupt
  {
    hide Crc, LeU32;
  }

  lemma ReadFrameShort(bytes: seq<byte>, off: nat)
    requires |bytes| < off + 4
    ensures ReadFrame(bytes, off) == End
  {
  }

  /** What was read of a file is still there when it has grown. */
  lemma SliceKept(bytes: seq<byte>, later: seq<byte>, i: nat, j: nat)
    requires bytes <= later && i <= j <= |bytes|
    ensures later[i..j] == bytes[i..j]
  {
  }

  lemma FeedEmpty(c: bv32)
    ensures Feed(c, []) == c
  {
  }

  lemma CrcIs(data: seq<byte>)
    ensures Crc(data) == Finish(Feed(ALL_ONES, data))
  {
  }

  // ---- frames written by the encoder -----------------------------------------------------

  lemma Middle(pre: seq<byte>, part: seq<byte>, post: seq<byte>)
    ensures (pre + part + post)[|pre|..|pre| + |part|] == part
  {
  }

  /** The length, checksum and body fields where a frame is stored. */
  lemma Fields(pre: seq<byte>, len: seq<byte>, crc: seq<byte>, body: seq<byte>, post: seq<byte>)
    requires |len| == 4 && |crc| == 4
    ensures var bytes, off := pre + (len + crc + body) + post, |pre|;
            && |bytes| >= off + 8 + |body|
            && bytes[off..off + 4] == len && bytes[off + 4..off + 8] == crc && bytes[off + 8..off + 8 + |body|] == body
  {
    var bytes := pre + (len + crc + body) + post;
    assert bytes == pre + len + (crc + body + post);
    Middle(pre, len, crc + body + post);
    assert bytes == (pre + len) + crc + (body + post);
    Middle(pre + len, crc, body + post);
    assert bytes == (pre + len + crc) + body + post;
    Middle(pre + len + crc, body, post);
  }

  /** A stored frame reads back as its body, whatever surrounds it. */
  lemma FrameReadsBack(pre: seq<byte>, body: seq<byte>, post: seq<byte>)
    requires |body| <= MAX_RECORD_BODY_LEN
    ensures ReadFrame(pre + FrameOf(body) + post, |pre|) == Complete(body, |pre| + |FrameOf(body)|)
  {
    hide Crc;
    U32RoundTrip(|body|);
    U32RoundTrip(Crc(body));
    Fields(pre, U32Le(|body|), U32Le(Crc(body)), body, post);
  }

  /** Round trip through a file: what the encoder stores for a record is read back and decodes to
      the same node ID and record, with nothing left over. */
  lemma StoredRecordDecodes(pre: seq<byte>, n: NodeRecord, post: seq<byte>)
    requires Encodable(n)
    ensures var r := ReadFrame(pre + Encoding.Frame(n) + post, |pre|);
            r.Complete? && r.next == |pre + Encoding.Frame(n)| && Decode(r.body) == Some(n)
  {
    hide Decode, ReadFrame;
    DecodeBody(n);
    FrameReadsBack(pre, Body(n), post);
  }

  /** A frame cut short anywhere reads as the end of the file, never as corruption. */
  lemma CutFrameEnds(pre: seq<byte>, body: seq<byte>, cut: nat)
    requires |body| <= MAX_RECORD_BODY_LEN && cut < |FrameOf(body)|
    ensures ReadFrame(pre + FrameOf(body)[..cut], |pre|) == End
  {
    hide Crc;
    if 4 <= cut {
      var len, rest := U32Le(|body|), U32Le(Crc(body)) + body;
      U32RoundTrip(|body|);
      assert FrameOf(body) == len + rest;
      assert FrameOf(body)[..cut] == len + rest[..cut - 4];
      assert pre + FrameOf(body)[..cut] == pre + len + rest[..cut - 4];
      Middle(pre, len, rest[..cut - 4]);
    }
  }

  /** Corrupting a stored body inside any four consecutive bytes is always noticed. */
  lemma CorruptionNoticed(pre: seq<byte>, a: seq<byte>, b: seq<byte>, c: seq<byte>, wrong: seq<byte>, post: seq<byte>)
    requires |b| == |wrong| <= 4 && b != wrong
    requires |a + b + c| <= MAX_RECORD_BODY_LEN
    ensures var body := a + b + c;
            var bad := a + wrong + c;
            ReadFrame(pre + (FrameOf(body)[..8] + bad) + post, |pre|) == Corrupt
  {
    hide Crc;
    var body, bad := a + b + c, a + wrong + c;
    var len, crc := U32Le(|body|), U32Le(Crc(body));
    U32RoundTrip(|body|);
    U32RoundTrip(Crc(body));
    assert FrameOf(body)[..8] == len + crc;
    Fields(pre, len, crc, bad, post);
    BurstDetected(a, b, wrong, c);
  }

  /** So is corruption of a stored body whose wrong bits lie within 32 consecutive ones, from any bit
      on. */
  lemma BitCorruptionNoticed(pre: seq<byte>, body: seq<byte>, bad: seq<byte>, at: nat, post: seq<byte>)
    requires |body| == |bad| <= MAX_RECORD_BODY_LEN && body != bad && DifferWithin(body, bad, at)
    ensures ReadFrame(pre + (FrameOf(body)[..8] + bad) + post, |pre|) == Corrupt
  {
    hide Crc, DifferWithin;
    var len, crc := U32Le(|body|), U32Le(Crc(body));
    U32RoundTrip(|body|);
    U32RoundTrip(Crc(body));
    assert FrameOf(body)[..8] == len + crc;
    Fields(pre, len, crc, bad, post);
    BitBurstDetected(body, bad, at);
  }

  /** Bytes after a frame do not change how it reads. */
  lemma ReadFrameExtends(bytes: seq<byte>, more: seq<byte>, off: nat)
    requires bytes <= more && !ReadFrame(bytes, off).End?
    ensures ReadFrame(more, off) == ReadFrame(bytes, off)
  {
    hide Crc;
    assert more[off..off + 4] == bytes[off..off + 4];
    var len := LeU32(bytes[off..off + 4]);
    if len <= MAX_RECORD_BODY_LEN {
      assert more[off + 4..off + 8] == bytes[off + 4..off + 8];
      assert more[off + 8..off + 8 + len] == bytes[off + 8..off + 8 + len];
    }
  }

  // ---- scanning a segment ------------------------------------------------------------------

  datatype RawFrame = RawFrame(offset: nat, body: seq<byte>)
  datatype Tail = Clean | Torn | Broken
  datatype Scan = Scan(frames: seq<RawFrame>, end: nat, tail: Tail)

  /** Every complete frame from `off` on, where they end and what follows them. */
  function ScanFrom(bytes: seq<byte>, off: nat): (s: Scan)
    requires off <= |bytes|
    ensures off <= s.end <= |bytes|
    decreases |bytes| - off
  {
    match ReadFrame(bytes, off)
    case End => Scan([], off, if off == |bytes| then Clean else Torn)
    case Corrupt => Scan([], off, Broken)
    case Complete(body, next) =>
      var s := ScanFrom(bytes, next);
      Scan([RawFrame(off, body)] + s.frames, s.end, s.tail)
  }

  /** A run of frames. */
  function FrameRun(bodies: seq<seq<byte>>): seq<byte>
    requires forall b :: b in bodies ==> |b| <= MAX_RECORD_BODY_LEN
  {
    if bodies == [] then [] else FrameOf(bodies[0]) + FrameRun(bodies[1..])
  }

  /** The bytes of a frame that is not finished: its length is not there yet, or is within the limit
      and the rest is not. */
  predicate Unfinished(t: seq<byte>) {
    |t| < 4 || (LeU32(t[..4]) <= 1024 * 1024 * 1024 && |t| < 8 + LeU32(t[..4]))
  }

  /** Reading gives a body exactly where the whole frame of that body is, and nothing, without an
      error, exactly where a frame is not finished. */
  lemma FrameExactly(bytes: seq<byte>, off: nat, body: seq<byte>, next: nat)
    requires off <= |bytes|
    ensures ReadFrame(bytes, off) == Complete(body, next) <==>
              && |body| <= 1024 * 1024 * 1024 && next == off + 8 + |body| <= |bytes|
              && bytes[off..next] == FrameOf(body)
    ensures ReadFrame(bytes, off) == End <==> Unfinished(bytes[off..])
  {
    hide Crc;
    var t := bytes[off..];
    if |t| >= 4 {
      assert t[..4] == bytes[off..off + 4];
      if ReadFrame(bytes, off) == Complete(body, next) {
        FrameParts(bytes, off, next);
      } else if |body| <= MAX_RECORD_BODY_LEN && next == off + 8 + |body| <= |bytes| && bytes[off..next] == FrameOf(body) {
        assert bytes == bytes[..off] + bytes[off..next] + bytes[next..];
        FrameReadsBack(bytes[..off], body, bytes[next..]);
      }
    }
  }

  lemma FrameParts(bytes: seq<byte>, off: nat, next: nat)
    requires off + 8 <= next <= |bytes|
    ensures bytes[off..next] == bytes[off..off + 4] + bytes[off + 4..off + 8] + bytes[off + 8..next]
  {
  }

  /** A run of frames at the offsets they have when the first is at `off`. */
  function Located(bodies: seq<seq<byte>>, off: nat): (fs: seq<RawFrame>)
    ensures |fs| == |bodies|
  {
    if bodies == [] then []
    else [RawFrame(off, bodies[0])] + Located(bodies[1..], off + FRAME_HEADER_LEN + |bodies[0]|)
  }

  /** A part of a frame, short of the whole. */
  ghost predicate PartOfFrame(t: seq<byte>) {
    exists body: seq<byte> :: |body| <= MAX_RECORD_BODY_LEN && t < FrameOf(body)
  }

  lemma RunUnfold(bodies: seq<seq<byte>>)
    requires forall b :: b in bodies ==> |b| <= MAX_RECORD_BODY_LEN
    ensures bodies == [] ==> FrameRun(bodies) == []
    ensures bodies != [] ==>
              && |bodies[0]| <= MAX_RECORD_BODY_LEN && (forall b :: b in bodies[1..] ==> |b| <= MAX_RECORD_BODY_LEN)
              && FrameRun(bodies) == FrameOf(bodies[0]) + FrameRun(bodies[1..])
  {
    hide FrameOf;
    if bodies != [] {
      assert bodies[0] in bodies;
    }
  }

  lemma ScanStep(bytes: seq<byte>, off: nat, body: seq<byte>, next: nat)
    requires off <= |bytes| && ReadFrame(bytes, off) == Complete(body, next)
    ensures next <= |bytes|
    ensures var s := ScanFrom(bytes, next);
            ScanFrom(bytes, off) == Scan([RawFrame(off, body)] + s.frames, s.end, s.tail)
  {
    hide ReadFrame;
  }

  lemma ScanNothing(bytes: seq<byte>, off: nat)
    requires off <= |bytes| && ReadFrame(bytes, off) == End
    ensures ScanFrom(bytes, off) == Scan([], off, if off == |bytes| then Clean else Torn)
  {
    hide ReadFrame;
  }

  /** Scanning a run of frames with a torn frame after it finds the run and the tear. */
  lemma {:induction false} ScanRun(pre: seq<byte>, bodies: seq<seq<byte>>, tail: seq<byte>)
    requires forall b :: b in bodies ==> |b| <= MAX_RECORD_BODY_LEN
    requires PartOfFrame(tail)
    ensures ScanFrom(pre + FrameRun(bodies) + tail, |pre|)
         == Scan(Located(bodies, |pre|), |pre + FrameRun(bodies)|, if tail == [] then Clean else Torn)
    decreases |bodies|
  {
    hide FrameOf, FrameRun, ReadFrame, PartOfFrame, ScanFrom;
    RunUnfold(bodies);
    if bodies == [] {
      assert pre + FrameRun(bodies) + tail == pre + tail;
      PartEnds(pre, tail);
      ScanNothing(pre + tail, |pre|);
    } else {
      var b, f, rest := bodies[0], FrameOf(bodies[0]), FrameRun(bodies[1..]);
      FrameLength(b);
      ScanRun(pre + f, bodies[1..], tail);
      FrameReadsBack(pre, b, rest + tail);
      RunHead(pre, f, rest, tail);
      ScanStep(pre + FrameRun(bodies) + tail, |pre|, b, |pre + f|);
    }
  }

  lemma RunHead(pre: seq<byte>, f: seq<byte>, rest: seq<byte>, tail: seq<byte>)
    ensures pre + (f + rest) + tail == pre + f + (rest + tail)
    ensures pre + (f + rest) + tail == (pre + f) + rest + tail
    ensures |pre + (f + rest)| == |pre + f + rest|
  {
  }

  lemma PartEnds(pre: seq<byte>, tail: seq<byte>)
    requires PartOfFrame(tail)
    ensures ReadFrame(pre + tail, |pre|) == End
  {
    hide FrameOf, ReadFrame;
    var body: seq<byte> :| |body| <= MAX_RECORD_BODY_LEN && tail < FrameOf(body);
    CutFrameEnds(pre, body, |tail|);
    assert FrameOf(body)[..|tail|] == tail;
  }

  lemma FrameLength(body: seq<byte>)
    requires |body| <= MAX_RECORD_BODY_LEN
    ensures |FrameOf(body)| == FRAME_HEADER_LEN + |body|
  {
  }

  lemma EmptyIsPart()
    ensures PartOfFrame([])
  {
    FrameLength([]);
    assert [] < FrameOf([]);
  }

  /** How many frames lie wholly within the first `room` bytes of a run. */
  function WholeFrames(bodies: seq<seq<byte>>, room: nat): (k: nat)
    ensures k <= |bodies|
  {
    if bodies == [] || room < FRAME_HEADER_LEN + |bodies[0]| then 0
    else 1 + WholeFrames(bodies[1..], room - FRAME_HEADER_LEN - |bodies[0]|)
  }

  /** `kept` whole frames and a part of one more. */
  ghost predicate CutAt(run: seq<byte>, kept: seq<byte>, cut: nat) {
    kept <= run && |kept| <= cut <= |run| && PartOfFrame(run[|kept|..cut])
  }

  lemma CutAfter(f: seq<byte>, rest: seq<byte>, kept: seq<byte>, cut: nat)
    requires CutAt(rest, kept, cut)
    ensures CutAt(f + rest, f + kept, |f| + cut)
  {
    hide PartOfFrame;
    assert (f + rest)[|f + kept|..|f| + cut] == rest[|kept|..cut];
  }

  /** A cut run is its whole frames and a part of the next. */
  lemma {:induction false} CutRun(bodies: seq<seq<byte>>, cut: nat)
    requires forall b :: b in bodies ==> |b| <= MAX_RECORD_BODY_LEN
    requires cut <= |FrameRun(bodies)|
    ensures CutAt(FrameRun(bodies), FrameRun(bodies[..WholeFrames(bodies, cut)]), cut)
    decreases |bodies|
  {
    hide FrameOf, PartOfFrame, CutAt;
    if bodies == [] {
      NothingCut();
    } else {
      var f, rest := FrameOf(bodies[0]), FrameRun(bodies[1..]);
      assert bodies[0] in bodies;
      FrameLength(bodies[0]);
      if cut < |f| {
        assert bodies[..0] == [];
        FirstCut(bodies[0], rest, cut);
      } else {
        var k := WholeFrames(bodies[1..], cut - |f|);
        CutRun(bodies[1..], cut - |f|);
        assert bodies[..k + 1][1..] == bodies[1..][..k];
        CutAfter(f, rest, FrameRun(bodies[1..][..k]), cut - |f|);
      }
    }
  }

  lemma NothingCut()
    ensures CutAt([], [], 0)
  {
    EmptyIsPart();
    var none: seq<byte> := [];
    assert none[0..0] == [];
  }

  lemma FirstCut(body: seq<byte>, rest: seq<byte>, cut: nat)
    requires |body| <= MAX_RECORD_BODY_LEN && cut < |FrameOf(body)|
    ensures CutAt(FrameOf(body) + rest, [], cut)
  {
    PartIntro(body, cut);
    hide FrameOf, PartOfFrame;
    assert (FrameOf(body) + rest)[0..cut] == FrameOf(body)[..cut];
  }

  lemma PartIntro(body: seq<byte>, cut: nat)
    requires |body| <= MAX_RECORD_BODY_LEN && cut < |FrameOf(body)|
    ensures PartOfFrame(FrameOf(body)[..cut])
  {
    assert FrameOf(body)[..cut] < FrameOf(body);
  }
}
