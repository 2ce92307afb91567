/** The encoder as the program runs it: a growing buffer with a length limit,
    filled field by field. Each method writes the canonical encoding of its
    argument, and fails exactly when the argument breaks a limit or the buffer
    would outgrow the largest record body. */
module Encoding {
  import opened Words
  import opened Records
  import opened Wire
  import opened Sorted
  import opened Codec
  import opened Checksum

  /** A write succeeds iff its argument is allowed and there is room for it. */
  ghost predicate Wrote(before: seq<byte>, after: seq<byte>, added: seq<byte>, allowed: bool, ok: bool) {
    && (ok <==> allowed && |before| + |added| <= MAX_RECORD_BODY_LEN)
    && (ok ==> after == before + added)
  }

  lemma WroteTagged(b0: seq<byte>, b1: seq<byte>, b2: seq<byte>, tag: byte, added: seq<byte>, allowed: bool, ok: bool)
    requires Wrote(b0, b1, [tag], true, true) && Wrote(b1, b2, added, allowed, ok)
    ensures Wrote(b0, b2, [tag] + added, allowed, ok)
  {
  }

  class Encoder {
    var bytes: seq<byte>
    var len: nat

    ghost predicate Valid()
      reads this
    {
      len == |bytes| <= MAX_RECORD_BODY_LEN
    }

    constructor ()
      ensures Valid() && bytes == []
    {
      bytes, len := [], 0;
    }

    /** `check_append_len`: the new length, unless it leaves `u32` or the limit. */
    function CheckAppendLen(additional: nat): Option<nat>
      reads this
    {
      if U32_LIMIT <= additional then None
      else if U32_LIMIT <= len + additional then None
      else if MAX_RECORD_BODY_LEN < len + additional then None
      else Some(len + additional)
    }

    method PutSlice(data: seq<byte>) returns (ok: bool)
      requires Valid()
      modifies this
      ensures Valid() && Wrote(old(bytes), bytes, data, true, ok)
    {
      var newLen := CheckAppendLen(|data|);
      if newLen.None? {
        return false;
      }
      bytes, len := bytes + data, newLen.value;
      return true;
    }

    method PutU8(value: byte) returns (ok: bool)
      requires Valid()
      modifies this
      ensures Valid() && Wrote(old(bytes), bytes, [value], true, ok)
    {
      ok := PutSlice([value]);
    }

    method PutU32(value: u32) returns (ok: bool)
      requires Valid()
      modifies this
      ensures Valid() && Wrote(old(bytes), bytes, U32Le(value), true, ok)
    {
      ok := PutSlice(U32Le(value));
    }

    method PutU64(value: u64) returns (ok: bool)
      requires Valid()
      modifies this
      ensures Valid() && Wrote(old(bytes), bytes, U64Le(value), true, ok)
    {
      ok := PutSlice(U64Le(value));
    }

    method PutBytes(data: seq<byte>) returns (ok: bool)
      requires Valid()
      modifies this
      ensures Valid() && Wrote(old(bytes), bytes, EncBytes(data), |data| <= MAX_RECORD_BODY_LEN, ok)
    {
      if U32_LIMIT <= |data| || MAX_RECORD_BODY_LEN < |data| {
        return false;
      }
      var newLen := CheckAppendLen(4 + |data|);
      if newLen.None? {
        return false;
      }
      bytes := bytes + U32Le(|data|);
      bytes := bytes + data;
      len := newLen.value;
      return true;
    }
  }

  method EncodeCount(value: nat, e: Encoder) returns (ok: bool)
    requires e.Valid()
    modifies e
    ensures e.Valid() && Wrote(old(e.bytes), e.bytes, EncCount(value), value <= MAX_COUNT_ITEMS, ok)
  {
    if U32_LIMIT <= value || MAX_COUNT_ITEMS < value {
      return false;
    }
    ok := e.PutU32(value);
  }

  method EncodeLogPosition(p: LogPosition, e: Encoder) returns (ok: bool)
    requires e.Valid()
    modifies e
    ensures e.Valid() && Wrote(old(e.bytes), e.bytes, EncPosition(p), true, ok)
  {
    ok := e.PutU64(p.term);
    if ok {
      ok := e.PutU64(p.index);
    }
  }

  method EncodeOptionalNodeId(o: Option<NodeId>, e: Encoder) returns (ok: bool)
    requires e.Valid()
    modifies e
    ensures e.Valid() && Wrote(old(e.bytes), e.bytes, EncOptional(o), true, ok)
  {
    match o
    case Some(id) =>
      ok := e.PutU8(1);
      if ok {
        ok := e.PutU64(id);
      }
    case None =>
      ok := e.PutU8(0);
  }

  /** The part of a list already written, as the loop over it proceeds. */
  lemma ConcatNext<T>(enc: T -> seq<byte>, xs: seq<T>, k: nat)
    requires k < |xs|
    ensures Concat(enc, xs[..k + 1]) == Concat(enc, xs[..k]) + enc(xs[k])
    ensures |Concat(enc, xs[..k + 1])| <= |Concat(enc, xs)|
  {
    assert xs[..k + 1] == xs[..k] + [xs[k]];
    ConcatSplit(enc, xs[..k], [xs[k]]);
    assert Concat(enc, [xs[k]]) == enc(xs[k]) + Concat(enc, []);
    assert xs == xs[..k + 1] + xs[k + 1..];
    ConcatSplit(enc, xs[..k + 1], xs[k + 1..]);
  }

  /** A list loop has written the first `k` elements; if the next does not fit, neither does the list. */
  ghost predicate WrittenUpTo<T>(enc: T -> seq<byte>, xs: seq<T>, k: nat, mark: seq<byte>, bytes: seq<byte>) {
    && k <= |xs|
    && bytes == mark + Concat(enc, xs[..k])
  }

  lemma WrittenNext<T>(enc: T -> seq<byte>, xs: seq<T>, k: nat, mark: seq<byte>, before: seq<byte>,
                       after: seq<byte>, allowed: bool, ok: bool)
    requires k < |xs| && WrittenUpTo(enc, xs, k, mark, before)
    requires Wrote(before, after, enc(xs[k]), allowed, ok)
    ensures ok ==> allowed && WrittenUpTo(enc, xs, k + 1, mark, after)
    ensures !ok && allowed ==> |mark| + |Concat(enc, xs)| > MAX_RECORD_BODY_LEN
  {
    hide Concat;
    ConcatNext(enc, xs, k);
  }

  lemma WrittenAll<T>(enc: T -> seq<byte>, xs: seq<T>, mark: seq<byte>, bytes: seq<byte>)
    requires WrittenUpTo(enc, xs, |xs|, mark, bytes)
    ensures bytes == mark + Concat(enc, xs)
  {
    hide Concat;
    assert xs[..|xs|] == xs;
  }

  lemma WrittenNone<T>(enc: T -> seq<byte>, xs: seq<T>, mark: seq<byte>)
    ensures WrittenUpTo(enc, xs, 0, mark, mark)
  {
    assert xs[..0] == [];
  }

  lemma AscendingNext(s: set<u64>, ids: seq<u64>, k: nat, m: u64)
    requires s != {} && k <= |ids| && Ascending(s) == ids[k..] && IsMin(m, s)
    ensures k < |ids| && ids[k] == m && Ascending(s - {m}) == ids[k + 1..]
  {
    assert m == MinOf(s);
    assert ids[k..][0] == ids[k] && ids[k..][1..] == ids[k + 1..];
  }

  method EncodeNodeIdSet(nodes: NodeSet, e: Encoder) returns (ok: bool)
    requires e.Valid()
    modifies e
    ensures e.Valid()
    ensures Wrote(old(e.bytes), e.bytes, EncIds(Ascending(nodes)), |nodes| <= MAX_COUNT_ITEMS, ok)
  {
    hide Ascending, Concat, WrittenUpTo, EncCount;
    ghost var ids := Ascending(nodes);
    AscendingIs(nodes);
    ok := EncodeCount(|nodes|, e);
    if !ok {
      return;
    }
    ghost var mark := e.bytes;
    WrittenNone(EncId, ids, mark);
    var rest := nodes;
    ghost var k := 0;
    while rest != {}
      invariant e.Valid() && ok && 0 <= k <= |ids|
      invariant Ascending(rest) == ids[k..]
      invariant WrittenUpTo(EncId, ids, k, mark, e.bytes)
      decreases rest
    {
      MinExists(rest);
      var node :| node in rest && forall y :: y in rest ==> node <= y;
      AscendingNext(rest, ids, k, node);
      ghost var before := e.bytes;
      ok := e.PutU64(node);
      WrittenNext(EncId, ids, k, mark, before, e.bytes, true, ok);
      if !ok {
        return;
      }
      rest, k := rest - {node}, k + 1;
    }
    AscendingIs(rest);
    WrittenAll(EncId, ids, mark, e.bytes);
  }

  method EncodeClusterConfig(c: ClusterConfig, e: Encoder) returns (ok: bool)
    requires e.Valid()
    modifies e
    ensures e.Valid()
    ensures Wrote(old(e.bytes), e.bytes, EncConfig(ConfigList(c)), SmallConfig(ConfigList(c)), ok)
  {
    hide EncIds, Ascending;
    AscendingIs(c.voters);
    AscendingIs(c.newVoters);
    AscendingIs(c.nonVoters);
    ok := EncodeNodeIdSet(c.voters, e);
    if ok {
      ok := EncodeNodeIdSet(c.newVoters, e);
      if ok {
        ok := EncodeNodeIdSet(c.nonVoters, e);
      }
    }
  }

  method EncodeLogEntry(entry: LogEntry, e: Encoder) returns (ok: bool)
    requires e.Valid()
    modifies e
    ensures e.Valid()
    ensures Wrote(old(e.bytes), e.bytes, EncEntry(EntryList(entry)), SmallEntry(EntryList(entry)), ok)
  {
    hide EncConfig, SmallConfig, ConfigList;
    match entry
    case TermEntry(term) =>
      ok := e.PutU8(0);
      if ok {
        ok := e.PutU64(term);
      }
    case ConfigEntry(config) =>
      ok := e.PutU8(1);
      if ok {
        ok := EncodeClusterConfig(config, e);
      }
    case Command =>
      ok := e.PutU8(2);
  }

  method EncodeLogEntries(entries: LogEntries, e: Encoder) returns (ok: bool)
    requires e.Valid() && InIndexSpace(entries)
    modifies e
    ensures e.Valid()
    ensures Wrote(old(e.bytes), e.bytes, EncEntries(EntriesList(entries)), SmallEntries(EntriesList(entries)), ok)
  {
    hide EncEntry, SmallEntry, EntryList, EncPosition, EncCount, Concat, WrittenUpTo;
    ghost var list := EntriesList(entries).list;
    ok := EncodeLogPosition(entries.prev, e);
    if !ok {
      return;
    }
    ok := EncodeCount(|entries.list|, e);
    if !ok {
      return;
    }
    ghost var mark := e.bytes;
    WrittenNone(EncEntry, list, mark);
    for k := 0 to |entries.list|
      invariant e.Valid() && ok
      invariant WrittenUpTo(EncEntry, list, k, mark, e.bytes)
      invariant forall j :: 0 <= j < k ==> SmallEntry(list[j])
    {
      ghost var before := e.bytes;
      ok := EncodeLogEntry(entries.list[k], e);
      WrittenNext(EncEntry, list, k, mark, before, e.bytes, SmallEntry(list[k]), ok);
      if !ok {
        assert list[k] in list;
        return;
      }
    }
    WrittenAll(EncEntry, list, mark, e.bytes);
  }

  method EncodePayload(index: LogIndex, payload: Payload, e: Encoder) returns (ok: bool)
    requires e.Valid()
    modifies e
    ensures e.Valid()
    ensures Wrote(old(e.bytes), e.bytes, EncPair((index, payload)), SmallPair((index, payload)), ok)
  {
    hide EncBytes;
    ok := e.PutU64(index);
    if ok {
      ok := e.PutU8(payload.tag);
      if ok {
        ok := e.PutBytes(payload.bytes);
      }
    }
  }

  lemma PayloadNext(m: PayloadMap, rest: set<LogIndex>, k: nat, index: LogIndex)
    requires rest != {} && rest <= m.Keys && k <= |PairList(m)|
    requires Ascending(rest) == KeysOf(PairList(m))[k..] && IsMin(index, rest)
    ensures k < |PairList(m)| && PairList(m)[k] == (index, m[index])
    ensures Ascending(rest - {index}) == KeysOf(PairList(m))[k + 1..]
  {
    hide Ascending;
    AscendingNext(rest, KeysOf(PairList(m)), k, index);
  }

  method EncodePayloads(payloads: PayloadMap, e: Encoder) returns (ok: bool)
    requires e.Valid()
    modifies e
    ensures e.Valid()
    ensures Wrote(old(e.bytes), e.bytes, EncCount(|payloads|) + Concat(EncPair, PairList(payloads)),
                  |payloads| <= MAX_COUNT_ITEMS && forall p :: p in PairList(payloads) ==> SmallPair(p), ok)
  {
    hide EncPair, SmallPair, EncCount, Concat, WrittenUpTo, Ascending, PairList, KeysOf;
    ghost var pairs := PairList(payloads);
    PairListLength(payloads);
    assert KeysOf(pairs)[0..] == KeysOf(pairs);
    ok := EncodeCount(|payloads|, e);
    if !ok {
      return;
    }
    ghost var mark := e.bytes;
    WrittenNone(EncPair, pairs, mark);
    var rest := payloads.Keys;
    ghost var k := 0;
    while rest != {}
      invariant e.Valid() && ok && 0 <= k <= |pairs| && rest <= payloads.Keys
      invariant Ascending(rest) == KeysOf(pairs)[k..]
      invariant WrittenUpTo(EncPair, pairs, k, mark, e.bytes)
      invariant forall j :: 0 <= j < k ==> SmallPair(pairs[j])
      decreases rest
    {
      MinExists(rest);
      var index :| index in rest && forall y :: y in rest ==> index <= y;
      assert IsMin(index, rest);
      PayloadNext(payloads, rest, k, index);
      ghost var before := e.bytes;
      ok := EncodePayload(index, payloads[index], e);
      WrittenNext(EncPair, pairs, k, mark, before, e.bytes, SmallPair(pairs[k]), ok);
      if !ok {
        assert pairs[k] in pairs;
        return;
      }
      rest, k := rest - {index}, k + 1;
    }
    AscendingIs(rest);
    WrittenAll(EncPair, pairs, mark, e.bytes);
  }

  method EncodeLogAppend(append: Append, e: Encoder) returns (ok: bool)
    requires e.Valid() && InIndexSpace(append.entries)
    modifies e
    ensures e.Valid()
    ensures Wrote(old(e.bytes), e.bytes, EncAppend(AppendList(append)),
                  ValidAppend(append) && SmallAppend(AppendList(append)), ok)
  {
    hide EncEntries, EntriesList, SmallEntries, EncPair, EncCount, Concat, PairList, ValidAppend, SmallPair;
    ok := ValidateAppend(append);
    if !ok {
      return;
    }
    PairListLength(append.payloads);
    ok := EncodeLogEntries(append.entries, e);
    if !ok {
      return;
    }
    ok := EncodePayloads(append.payloads, e);
  }

  lemma PairListLength(m: PayloadMap)
    ensures |PairList(m)| == |m|
  {
    AscendingIs(m.Keys);
    assert |KeysOf(PairList(m))| == |m.Keys|;
  }

  method EncodeSnapshot(snapshot: SnapshotData, e: Encoder) returns (ok: bool)
    requires e.Valid()
    modifies e
    ensures e.Valid()
    ensures Wrote(old(e.bytes), e.bytes, EncSnapshot(SnapshotList(snapshot)), SmallSnapshot(SnapshotList(snapshot)), ok)
  {
    hide EncConfig, SmallConfig, ConfigList, EncPosition, EncBytes;
    ok := EncodeLogPosition(snapshot.lastIncluded, e);
    if ok {
      ok := EncodeClusterConfig(snapshot.config, e);
      if ok {
        ok := e.PutBytes(snapshot.data);
      }
    }
  }

  method EncodeSnapshotCheckpoint(c: Checkpoint, e: Encoder) returns (ok: bool)
    requires e.Valid() && InIndexSpace(c.suffix.entries)
    modifies e
    ensures e.Valid()
    ensures Wrote(old(e.bytes), e.bytes, EncCheckpoint(CheckpointList(c)),
                  ValidCheckpoint(c) && SmallRecord(SnapshotCheckpoint(CheckpointList(c))), ok)
  {
    hide EncOptional, EncSnapshot, SnapshotList, SmallSnapshot, EncAppend, AppendList, SmallAppend, ValidAppend;
    ok := ValidateCheckpoint(c);
    if !ok {
      return;
    }
    ok := e.PutU64(c.currentTerm);
    if !ok {
      return;
    }
    ok := EncodeOptionalNodeId(c.votedFor, e);
    if !ok {
      return;
    }
    ok := EncodeSnapshot(c.snapshot, e);
    if !ok {
      return;
    }
    ok := EncodeLogAppend(c.suffix, e);
  }

  method EncodeRecord(r: Record, e: Encoder) returns (ok: bool)
    requires e.Valid() && RecordInIndexSpace(r)
    modifies e
    ensures e.Valid()
    ensures Wrote(old(e.bytes), e.bytes, EncRecord(RecordList(r)), ValidRecord(r) && SmallRecord(RecordList(r)), ok)
  {
    hide EncOptional, EncCheckpoint, CheckpointList, EncAppend, AppendList, SmallAppend, ValidAppend, ValidCheckpoint,
         SmallSnapshot, SnapshotList, U64Le;
    ghost var b0 := e.bytes;
    var tag := match r case CurrentTerm(_) => 0 case VotedFor(_) => 1 case Append(_) => 2 case SnapshotCheckpoint(_) => 3;
    ok := e.PutU8(tag);
    if !ok {
      return;
    }
    ghost var b1 := e.bytes;
    match r
    case CurrentTerm(term) =>
      ok := e.PutU64(term);
      WroteTagged(b0, b1, e.bytes, tag, U64Le(term), true, ok);
    case VotedFor(votedFor) =>
      ok := EncodeOptionalNodeId(votedFor, e);
      WroteTagged(b0, b1, e.bytes, tag, EncOptional(votedFor), true, ok);
    case Append(append) =>
      ok := EncodeLogAppend(append, e);
      WroteTagged(b0, b1, e.bytes, tag, EncAppend(AppendList(append)),
                  ValidAppend(append) && SmallAppend(AppendList(append)), ok);
    case SnapshotCheckpoint(checkpoint) =>
      ok := EncodeSnapshotCheckpoint(checkpoint, e);
      WroteTagged(b0, b1, e.bytes, tag, EncCheckpoint(CheckpointList(checkpoint)),
                  ValidCheckpoint(checkpoint) && SmallRecord(SnapshotCheckpoint(CheckpointList(checkpoint))), ok);
  }

  /** A record frame: body length, checksum, body. */
  function FrameOf(body: seq<byte>): seq<byte>
    requires |body| < U32_LIMIT
  {
    U32Le(|body|) + U32Le(Crc(body)) + body
  }

  ghost function Frame(n: NodeRecord): seq<byte>
    requires Encodable(n)
  {
    FrameOf(Body(n))
  }

  /** Encodes a record as a frame; fails exactly on the records that are not encodable. */
  method EncodeRecordFrame(node: NodeId, r: Record, table: array2<bv32>) returns (frame: Option<seq<byte>>)
    requires RecordInIndexSpace(r) && IsTable(table)
    ensures frame.Some? <==> Encodable(NodeRecord(node, r))
    ensures frame.Some? ==> frame.value == Frame(NodeRecord(node, r))
  {
    hide EncRecord, RecordList, SmallRecord, ValidRecord, Crc, IsTable;
    var e := new Encoder();
    var ok := e.PutU64(node);
    if !ok {
      return None;
    }
    ok := EncodeRecord(r, e);
    if !ok {
      return None;
    }
    var body := e.bytes;
    assert body == Body(NodeRecord(node, r));
    if U32_LIMIT <= |body| || MAX_RECORD_BODY_LEN < |body| {
      return None;
    }
    var checksum := Crc32cOf(body, table);
    return Some(U32Le(|body|) + U32Le(checksum) + body);
  }
}
