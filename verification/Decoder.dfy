/** The decoder as the program runs it: a cursor over a body, advanced field by
    field, filling sets and maps as it goes. Each method is proved to return
    what the parser of the listed form returns, turned into a value, and to
    fail exactly where that parse fails or a list repeats an element. */
module Decoding {
  import opened Words
  import opened Records
  import opened Wire
  import opened Sorted
  import opened Codec

  /** A decoding step returns what the parse gives, and moves past it. */
  ghost predicate Reads<T(!new)>(r: Option<T>, p: Parsed<T>, rest: seq<byte>) {
    match p
    case Fail => r == None
    case Got(x, t) => r == Some(x) && rest == t
  }

  // ---- the values the parser of the listed form stands for ------------------------

  function DecIds(s: seq<byte>): Parsed<NodeSet> {
    match GetIds(s)
    case Fail => Fail
    case Got(ids, t) => if NoDup(ids) then Got(ElementsOf(ids), t) else Fail
  }

  function DecConfig(s: seq<byte>): Parsed<ClusterConfig> {
    match GetConfig(s)
    case Fail => Fail
    case Got(c, t) => if ConfigPasses(Duplicates, c) then Got(ConfigValue(c), t) else Fail
  }

  function DecEntry(s: seq<byte>): Parsed<LogEntry> {
    match GetEntry(s)
    case Fail => Fail
    case Got(e, t) => if EntryPasses(Duplicates, e) then Got(EntryValue(e), t) else Fail
  }

  function DecEntries(s: seq<byte>): Parsed<LogEntries> {
    match GetEntries(s)
    case Fail => Fail
    case Got(e, t) => if EntriesPass(Duplicates, e) then Got(EntriesValue(e), t) else Fail
  }

  ghost function DecAppend(s: seq<byte>): Parsed<Append> {
    match GetAppend(s)
    case Fail => Fail
    case Got(a, t) => if AppendPasses(Duplicates, a) &&
        ValidAppend(AppendValue(a)) then Got(AppendValue(a), t) else Fail
  }

  function DecSnapshot(s: seq<byte>): Parsed<SnapshotData> {
    match GetSnapshot(s)
    case Fail => Fail
    case Got(x, t) => if ConfigPasses(Duplicates, x.config) then Got(SnapshotValue(x), t) else Fail
  }

  ghost function DecCheckpoint(s: seq<byte>): Parsed<Checkpoint> {
    match GetCheckpoint(s)
    case Fail => Fail
    case Got(c, t) =>
      if CheckpointPasses(Duplicates, c) &&
          ValidCheckpoint(CheckpointValue(c)) then Got(CheckpointValue(c), t) else Fail
  }

  ghost function DecRecord(s: seq<byte>): Parsed<Record> {
    match GetRecord(s)
    case Fail => Fail
    case Got(r, t) => if RecordPasses(Duplicates, r) &&
        ValidRecord(RecordValue(r)) then Got(RecordValue(r), t) else Fail
  }

  // ---- loops over lists -------------------------------------------------------------

  ghost function Prepend<T>(xs: seq<T>, p: Parsed<seq<T>>): Parsed<seq<T>> {
    match p
    case Fail => Fail
    case Got(ys, t) => Got(xs + ys, t)
  }

  /** `n` elements from `s0` are the `k` read so far and then the rest from `s`. */
  ghost predicate ReadUpTo<T(!new)>(get: seq<byte> -> Parsed<T>, n: nat, k: nat, xs: seq<T>, s0: seq<byte>,
      s: seq<byte>) {
    k <= n && |xs| == k && GetMany(get, n, s0) == Prepend(xs, GetMany(get, n - k, s))
  }

  lemma ReadNext<T(!new)>(get: seq<byte> -> Parsed<T>, n: nat, k: nat, xs: seq<T>, s0: seq<byte>, s: seq<byte>)
    requires k < n && ReadUpTo(get, n, k, xs, s0, s)
    ensures get(s).Fail? ==> GetMany(get, n, s0).Fail?
    ensures get(s).Got? ==> ReadUpTo(get, n, k + 1, xs + [get(s).value], s0, get(s).rest)
    ensures get(s).Got? && GetMany(get, n, s0).Got? ==> xs + [get(s).value] <= GetMany(get, n, s0).value
  {
    match get(s)
    case Fail =>
    case Got(x, t) =>
      match GetMany(get, n - k - 1, t)
      case Fail =>
      case Got(ys, u) => assert xs + ([x] + ys) == xs + [x] + ys;
  }

  lemma ReadAll<T(!new)>(get: seq<byte> -> Parsed<T>, n: nat, xs: seq<T>, s0: seq<byte>, s: seq<byte>)
    requires ReadUpTo(get, n, n, xs, s0, s)
    ensures GetMany(get, n, s0) == Got(xs, s)
  {
    assert xs + [] == xs;
  }

  lemma ReadNone<T(!new)>(get: seq<byte> -> Parsed<T>, n: nat, s0: seq<byte>)
    ensures ReadUpTo(get, n, 0, [], s0, s0)
  {
    match GetMany(get, n, s0)
    case Fail =>
    case Got(ys, _) => assert [] + ys == ys;
  }

  class Decoder {
    const bytes: seq<byte>
    var position: nat

    ghost predicate Valid()
      reads this
    {
      position <= |bytes|
    }

    ghost function Rest(): seq<byte>
      requires Valid()
      reads this
    {
      bytes[position..]
    }

    constructor (bytes: seq<byte>)
      ensures Valid() && Rest() == bytes && this.bytes == bytes && position == 0
    {
      this.bytes := bytes;
      position := 0;
    }

    /** The next `len` bytes, or failure if the body is too short. */
    method Take(len: nat) returns (r: Option<seq<byte>>)
      requires Valid()
      modifies this
      ensures Valid()
      ensures len <= |old(Rest())| ==> r == Some(old(Rest())[..len]) && Rest() == old(Rest())[len..]
      ensures |old(Rest())| < len ==> r == None
    {
      var end := position + len;
      if |bytes| < end {
        return None;
      }
      ghost var before := Rest();
      var slice := bytes[position..end];
      assert slice == before[..len] && bytes[end..] == before[len..];
      position := end;
      return Some(slice);
    }

    method ReadU8() returns (r: Option<byte>)
      requires Valid()
      modifies this
      ensures Valid() && Reads(r, GetByte(old(Rest())), Rest())
    {
      var b := Take(1);
      r := if b.None? then None else Some(b.value[0]);
    }

    method ReadU32() returns (r: Option<u32>)
      requires Valid()
      modifies this
      ensures Valid() && Reads(r, GetU32(old(Rest())), Rest())
    {
      var b := Take(4);
      r := if b.None? then None else Some(LeU32(b.value));
    }

    method ReadU64() returns (r: Option<u64>)
      requires Valid()
      modifies this
      ensures Valid() && Reads(r, GetU64(old(Rest())), Rest())
    {
      var b := Take(8);
      r := if b.None? then None else Some(LeU64(b.value));
    }

    method ReadBytes() returns (r: Option<seq<byte>>)
      requires Valid()
      modifies this
      ensures Valid() && Reads(r, GetBytes(old(Rest())), Rest())
    {
      var len := ReadU32();
      if len.None? || MAX_RECORD_BODY_LEN < len.value {
        return None;
      }
      r := Take(len.value);
    }

    /** Whether the whole body was consumed. */
    predicate Finished()
      reads this
    {
      position == |bytes|
    }
  }

  method DecodeCount(d: Decoder) returns (r: Option<nat>)
    requires d.Valid()
    modifies d
    ensures d.Valid() && Reads(r, GetCount(old(d.Rest())), d.Rest())
  {
    var n := d.ReadU32();
    if n.None? || MAX_COUNT_ITEMS < n.value {
      return None;
    }
    return Some(n.value);
  }

  method DecodeLogPosition(d: Decoder) returns (r: Option<LogPosition>)
    requires d.Valid()
    modifies d
    ensures d.Valid() && Reads(r, GetPosition(old(d.Rest())), d.Rest())
  {
    hide GetU64;
    var term := d.ReadU64();
    if term.None? {
      return None;
    }
    var index := d.ReadU64();
    if index.None? {
      return None;
    }
    return Some(LogPosition(term.value, index.value));
  }

  method DecodeOptionalNodeId(d: Decoder) returns (r: Option<Option<NodeId>>)
    requires d.Valid()
    modifies d
    ensures d.Valid() && Reads(r, GetOptional(old(d.Rest())), d.Rest())
  {
    hide GetU64;
    var tag := d.ReadU8();
    if tag.None? {
      return None;
    }
    if tag.value == 0 {
      return Some(None);
    }
    if tag.value != 1 {
      return None;
    }
    var id := d.ReadU64();
    if id.None? {
      return None;
    }
    return Some(Some(id.value));
  }

  method DecodeNodeIdSet(d: Decoder) returns (r: Option<NodeSet>)
    requires d.Valid()
    modifies d
    ensures d.Valid() && Reads(r, DecIds(old(d.Rest())), d.Rest())
  {
    hide GetU64, GetMany, GetCount, ReadUpTo;
    var n := DecodeCount(d);
    if n.None? {
      return None;
    }
    ghost var s0 := d.Rest();
    ghost var ids: seq<NodeId> := [];
    var nodes: NodeSet := {};
    ReadNone(GetU64, n.value, s0);
    for k := 0 to n.value
      invariant d.Valid() && |ids| == k
      invariant ReadUpTo(GetU64, n.value, k, ids, s0, d.Rest())
      invariant NoDup(ids) && nodes == ElementsOf(ids)
    {
      ReadNext(GetU64, n.value, k, ids, s0, d.Rest());
      var node := d.ReadU64();
      if node.None? {
        return None;
      }
      if node.value in nodes {
        ghost var i :| 0 <= i < k && ids[i] == node.value;
        assert (ids + [node.value])[i] == (ids + [node.value])[k];
        return None;
      }
      ids := ids + [node.value];
      nodes := nodes + {node.value};
    }
    ReadAll(GetU64, n.value, ids, s0, d.Rest());
    return Some(nodes);
  }

  method DecodeClusterConfig(d: Decoder) returns (r: Option<ClusterConfig>)
    requires d.Valid()
    modifies d
    ensures d.Valid() && Reads(r, DecConfig(old(d.Rest())), d.Rest())
  {
    hide GetIds;
    var voters := DecodeNodeIdSet(d);
    if voters.None? {
      return None;
    }
    var newVoters := DecodeNodeIdSet(d);
    if newVoters.None? {
      return None;
    }
    var nonVoters := DecodeNodeIdSet(d);
    if nonVoters.None? {
      return None;
    }
    return Some(Config(voters.value, newVoters.value, nonVoters.value));
  }

  method DecodeLogEntry(d: Decoder) returns (r: Option<LogEntry>)
    requires d.Valid()
    modifies d
    ensures d.Valid() && Reads(r, DecEntry(old(d.Rest())), d.Rest())
  {
    hide GetU64, GetConfig, ConfigPasses, ConfigValue;
    var tag := d.ReadU8();
    if tag.None? {
      return None;
    }
    if tag.value == 0 {
      var term := d.ReadU64();
      if term.None? {
        return None;
      }
      return Some(TermEntry(term.value));
    } else if tag.value == 1 {
      var config := DecodeClusterConfig(d);
      if config.None? {
        return None;
      }
      return Some(ConfigEntry(config.value));
    } else if tag.value == 2 {
      return Some(Command);
    } else {
      return None;
    }
  }

  method DecodeLogEntries(d: Decoder) returns (r: Option<LogEntries>)
    requires d.Valid()
    modifies d
    ensures d.Valid() && Reads(r, DecEntries(old(d.Rest())), d.Rest())
  {
    hide GetEntry, GetMany, GetCount, GetPosition, ReadUpTo, EntryPasses, EntryValue;
    var prev := DecodeLogPosition(d);
    if prev.None? {
      return None;
    }
    var n := DecodeCount(d);
    if n.None? {
      return None;
    }
    if U64_LIMIT <= prev.value.index + n.value {
      return None;
    }
    ghost var s0 := d.Rest();
    ghost var ws: seq<WireEntry> := [];
    var list: seq<LogEntry> := [];
    ReadNone(GetEntry, n.value, s0);
    for k := 0 to n.value
      invariant d.Valid() && |list| == k == |ws|
      invariant ReadUpTo(GetEntry, n.value, k, ws, s0, d.Rest())
      invariant forall i :: 0 <= i < k ==> EntryPasses(Duplicates, ws[i]) && list[i] == EntryValue(ws[i])
    {
      ReadNext(GetEntry, n.value, k, ws, s0, d.Rest());
      ghost var p := GetEntry(d.Rest());
      var entry := DecodeLogEntry(d);
      if entry.None? {
        if p.Got? {
          assert (ws + [p.value])[k] == p.value;
        }
        return None;
      }
      ws := ws + [p.value];
      list := list + [entry.value];
    }
    ReadAll(GetEntry, n.value, ws, s0, d.Rest());
    assert list == EntriesValue(Entries(prev.value, ws)).list;
    return Some(Entries(prev.value, list));
  }

  lemma PairMapNext(ps: seq<Pair>, p: Pair)
    requires NoDup(KeysOf(ps))
    ensures PairMap(ps + [p]) == PairMap(ps)[p.0 := p.1]
    ensures p.0 in PairMap(ps) <==> !NoDup(KeysOf(ps + [p]))
    ensures KeysOf(ps + [p]) == KeysOf(ps) + [p.0]
  {
    assert (ps + [p])[..|ps|] == ps;
    PairMapKeys(ps);
    var ks := KeysOf(ps + [p]);
    assert ks == KeysOf(ps) + [p.0];
    if p.0 in PairMap(ps) {
      var i :| 0 <= i < |ps| && KeysOf(ps)[i] == p.0;
      assert ks[i] == ks[|ps|];
    }
  }

  lemma PrefixNoDup(ps: seq<Pair>, qs: seq<Pair>)
    requires ps <= qs && NoDup(KeysOf(qs))
    ensures NoDup(KeysOf(ps))
  {
    assert KeysOf(ps) == KeysOf(qs)[..|ps|];
  }

  method DecodePayload(d: Decoder) returns (r: Option<Pair>)
    requires d.Valid()
    modifies d
    ensures d.Valid() && Reads(r, GetPair(old(d.Rest())), d.Rest())
  {
    hide GetU64, GetBytes;
    var index := d.ReadU64();
    if index.None? {
      return None;
    }
    var tag := d.ReadU8();
    if tag.None? {
      return None;
    }
    var bytes := d.ReadBytes();
    if bytes.None? {
      return None;
    }
    return Some((index.value, Payload(tag.value, bytes.value)));
  }

  /** The payload map of an append: fails on a malformed pair or a repeated index. */
  method DecodePayloads(d: Decoder, n: nat) returns (r: Option<PayloadMap>)
    requires d.Valid()
    modifies d
    ensures d.Valid()
    ensures match GetMany(GetPair, n, old(d.Rest()))
            case Fail => r == None
            case Got(ps, t) =>
              if NoDup(KeysOf(ps)) then r == Some(PairMap(ps)) && d.Rest() == t else r == None
  {
    hide GetPair, GetMany, ReadUpTo, KeysOf, PairMap;
    ghost var s0 := d.Rest();
    ghost var ps: seq<Pair> := [];
    var payloads: PayloadMap := map[];
    ReadNone(GetPair, n, s0);
    EmptyPairs();
    for k := 0 to n
      invariant d.Valid() && |ps| == k
      invariant ReadUpTo(GetPair, n, k, ps, s0, d.Rest())
      invariant NoDup(KeysOf(ps)) && payloads == PairMap(ps)
    {
      ReadNext(GetPair, n, k, ps, s0, d.Rest());
      var pair := DecodePayload(d);
      if pair.None? {
        return None;
      }
      PairMapNext(ps, pair.value);
      if pair.value.0 in payloads {
        if GetMany(GetPair, n, s0).Got? && NoDup(KeysOf(GetMany(GetPair, n, s0).value)) {
          PrefixNoDup(ps + [pair.value], GetMany(GetPair, n, s0).value);
        }
        return None;
      }
      payloads := payloads[pair.value.0 := pair.value.1];
      ps := ps + [pair.value];
    }
    ReadAll(GetPair, n, ps, s0, d.Rest());
    return Some(payloads);
  }

  lemma EmptyPairs()
    ensures KeysOf([]) == [] && PairMap([]) == map[]
  {
  }

  method DecodeLogAppend(d: Decoder) returns (r: Option<Append>)
    requires d.Valid()
    modifies d
    ensures d.Valid() && Reads(r, DecAppend(old(d.Rest())), d.Rest())
  {
    hide GetPair, GetMany, KeysOf, PairMap, ValidAppend, EntriesValue, EntriesPass, GetCount;
    ghost var s := d.Rest();
    var entries := DecodeLogEntries(d);
    if entries.None? {
      return None;
    }
    var n := DecodeCount(d);
    if n.None? {
      return None;
    }
    var payloads := DecodePayloads(d, n.value);
    if payloads.None? {
      return None;
    }
    var append: Append := LogAppend(entries.value, payloads.value);
    DecodedInIndexSpace(s);
    var ok := ValidateAppend(append);
    if !ok {
      return None;
    }
    return Some(append);
  }

  lemma DecodedInIndexSpace(s: seq<byte>)
    ensures DecEntries(s).Got? ==> InIndexSpace(DecEntries(s).value)
  {
    if DecEntries(s).Got? {
      EntriesExact(s);
    }
  }

  method DecodeSnapshot(d: Decoder) returns (r: Option<SnapshotData>)
    requires d.Valid()
    modifies d
    ensures d.Valid() && Reads(r, DecSnapshot(old(d.Rest())), d.Rest())
  {
    hide GetPosition, GetConfig, GetBytes, ConfigPasses, ConfigValue;
    var lastIncluded := DecodeLogPosition(d);
    if lastIncluded.None? {
      return None;
    }
    var config := DecodeClusterConfig(d);
    if config.None? {
      return None;
    }
    var data := d.ReadBytes();
    if data.None? {
      return None;
    }
    return Some(Snapshot(lastIncluded.value, config.value, data.value));
  }

  method DecodeSnapshotCheckpoint(d: Decoder) returns (r: Option<Checkpoint>)
    requires d.Valid()
    modifies d
    ensures d.Valid() && Reads(r, DecCheckpoint(old(d.Rest())), d.Rest())
  {
    hide GetU64, GetOptional, GetSnapshot, GetAppend, ConfigPasses, ConfigValue, AppendPasses, AppendValue, ValidAppend;
    var term := d.ReadU64();
    if term.None? {
      return None;
    }
    var votedFor := DecodeOptionalNodeId(d);
    if votedFor.None? {
      return None;
    }
    var snapshot := DecodeSnapshot(d);
    if snapshot.None? {
      return None;
    }
    ghost var s := d.Rest();
    var suffix := DecodeLogAppend(d);
    if suffix.None? {
      return None;
    }
    var checkpoint: Checkpoint := Checkpoint(term.value, votedFor.value, snapshot.value, suffix.value);
    ValidIsInIndexSpace(suffix.value);
    var ok := ValidateCheckpoint(checkpoint);
    if !ok {
      return None;
    }
    return Some(checkpoint);
  }

  lemma ValidIsInIndexSpace(a: Append)
    requires ValidAppend(a)
    ensures InIndexSpace(a.entries)
  {
  }

  method DecodeRecord(d: Decoder) returns (r: Option<Record>)
    requires d.Valid()
    modifies d
    ensures d.Valid() && Reads(r, DecRecord(old(d.Rest())), d.Rest())
  {
    hide GetU64, GetOptional, GetAppend, GetCheckpoint, AppendPasses, AppendValue, ValidAppend, CheckpointPasses,
         CheckpointValue, ValidCheckpoint;
    var tag := d.ReadU8();
    if tag.None? {
      return None;
    }
    if tag.value == 0 {
      var term := d.ReadU64();
      if term.None? {
        return None;
      }
      return Some(CurrentTerm(term.value));
    } else if tag.value == 1 {
      var votedFor := DecodeOptionalNodeId(d);
      if votedFor.None? {
        return None;
      }
      return Some(VotedFor(votedFor.value));
    } else if tag.value == 2 {
      var append := DecodeLogAppend(d);
      if append.None? {
        return None;
      }
      return Some(Append(append.value));
    } else if tag.value == 3 {
      var checkpoint := DecodeSnapshotCheckpoint(d);
      if checkpoint.None? {
        return None;
      }
      return Some(SnapshotCheckpoint(checkpoint.value));
    } else {
      return None;
    }
  }

  method DecodeNodeRecord(body: seq<byte>) returns (r: Option<NodeRecord>)
    ensures r == Decode(body)
  {
    hide GetU64, GetRecord, RecordPasses, RecordValue, ValidRecord;
    var d := new Decoder(body);
    var node := d.ReadU64();
    if node.None? {
      return None;
    }
    var record := DecodeRecord(d);
    if record.None? {
      return None;
    }
    if !d.Finished() {
      return None;
    }
    return Some(NodeRecord(node.value, record.value));
  }

  method DecodeRecordNodeId(body: seq<byte>) returns (r: Option<NodeId>)
    ensures r == DecodeNode(body)
  {
    hide GetU64;
    var d := new Decoder(body);
    r := d.ReadU64();
  }
}
