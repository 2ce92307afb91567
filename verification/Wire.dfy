/** The byte format of record bodies: an encoder and a parser of the listed
    (on-disk) representation, exact inverses of each other. */
module Wire {
  import opened Words
  import opened Records

  const MAX_COUNT_ITEMS: nat := 1_000_000
  const MAX_RECORD_BODY_LEN: nat := 1024 * 1024 * 1024

  type IdList = seq<NodeId>
  type Pair = (LogIndex, Payload)
  type WireConfig = ConfigOf<IdList>
  type WireEntry = EntryOf<IdList>
  type WireEntries = EntriesOf<IdList>
  type WireAppend = AppendOf<IdList, seq<Pair>>
  type WireSnapshot = SnapshotOf<IdList>
  type WireCheckpoint = CheckpointOf<IdList, seq<Pair>>
  type WireRecord = RecordOf<IdList, seq<Pair>>
  type WireNodeRecord = NodeRecordOf<IdList, seq<Pair>>

  /** A parse either fails or yields a value and the bytes left over. */
  datatype Parsed<+T> = Fail | Got(value: T, rest: seq<byte>)

  // ---- encoding ------------------------------------------------------------------

  function Concat<T>(enc: T -> seq<byte>, xs: seq<T>): seq<byte> {
    if xs == [] then [] else enc(xs[0]) + Concat(enc, xs[1..])
  }

  function EncCount(n: nat): seq<byte> {
    if n < U32_LIMIT then U32Le(n) else []
  }

  function EncBytes(b: seq<byte>): seq<byte> {
    EncCount(|b|) + b
  }

  function EncPosition(p: LogPosition): seq<byte> {
    U64Le(p.term) + U64Le(p.index)
  }

  function EncOptional(o: Option<NodeId>): seq<byte> {
    match o
    case None => [0]
    case Some(id) => [1] + U64Le(id)
  }

  function EncIds(ids: IdList): seq<byte> {
    EncCount(|ids|) + Concat(EncId, ids)
  }

  function EncId(id: NodeId): seq<byte> {
    U64Le(id)
  }

  function EncConfig(c: WireConfig): seq<byte> {
    EncIds(c.voters) + (EncIds(c.newVoters) + EncIds(c.nonVoters))
  }

  function EncEntry(e: WireEntry): seq<byte> {
    match e
    case TermEntry(term) => [0] + U64Le(term)
    case ConfigEntry(config) => [1] + EncConfig(config)
    case Command => [2]
  }

  function EncEntries(e: WireEntries): seq<byte> {
    EncPosition(e.prev) + (EncCount(|e.list|) + Concat(EncEntry, e.list))
  }

  function EncPair(p: Pair): seq<byte> {
    U64Le(p.0) + ([p.1.tag] + EncBytes(p.1.bytes))
  }

  function EncAppend(a: WireAppend): seq<byte> {
    EncEntries(a.entries) + (EncCount(|a.payloads|) + Concat(EncPair, a.payloads))
  }

  function EncSnapshot(s: WireSnapshot): seq<byte> {
    EncPosition(s.lastIncluded) + (EncConfig(s.config) + EncBytes(s.data))
  }

  function EncCheckpoint(c: WireCheckpoint): seq<byte> {
    U64Le(c.currentTerm) + (EncOptional(c.votedFor) + (EncSnapshot(c.snapshot) + EncAppend(c.suffix)))
  }

  function EncRecord(r: WireRecord): seq<byte> {
    match r
    case CurrentTerm(term) => [0] + U64Le(term)
    case VotedFor(votedFor) => [1] + EncOptional(votedFor)
    case Append(append) => [2] + EncAppend(append)
    case SnapshotCheckpoint(checkpoint) => [3] + EncCheckpoint(checkpoint)
  }

  function EncNodeRecord(n: WireNodeRecord): seq<byte> {
    U64Le(n.node) + EncRecord(n.record)
  }

  // ---- the parser's limits ---------------------------------------------------------

  predicate SmallIds(ids: IdList) {
    |ids| <= MAX_COUNT_ITEMS
  }

  predicate SmallConfig(c: WireConfig) {
    SmallIds(c.voters) && SmallIds(c.newVoters) && SmallIds(c.nonVoters)
  }

  predicate SmallEntry(e: WireEntry) {
    e.ConfigEntry? ==> SmallConfig(e.config)
  }

  predicate SmallEntries(e: WireEntries) {
    |e.list| <= MAX_COUNT_ITEMS && InIndexSpace(e) && forall x :: x in e.list ==> SmallEntry(x)
  }

  predicate SmallPair(p: Pair) {
    |p.1.bytes| <= MAX_RECORD_BODY_LEN
  }

  predicate SmallAppend(a: WireAppend) {
    && SmallEntries(a.entries)
    && |a.payloads| <= MAX_COUNT_ITEMS
    && forall p :: p in a.payloads ==> SmallPair(p)
  }

  predicate SmallSnapshot(s: WireSnapshot) {
    SmallConfig(s.config) && |s.data| <= MAX_RECORD_BODY_LEN
  }

  predicate SmallRecord(r: WireRecord) {
    match r
    case Append(a) => SmallAppend(a)
    case SnapshotCheckpoint(c) => SmallSnapshot(c.snapshot) && SmallAppend(c.suffix)
    case _ => true
  }

  // ---- parsing ---------------------------------------------------------------------

  function GetByte(s: seq<byte>): (r: Parsed<byte>) {
    if |s| < 1 then Fail else Got(s[0], s[1..])
  }

  function GetU32(s: seq<byte>): Parsed<u32> {
    if |s| < 4 then Fail else Got(LeU32(s[..4]), s[4..])
  }

  function GetU64(s: seq<byte>): (r: Parsed<u64>)
    ensures r.Got? ==> |r.rest| < |s|
  {
    if |s| < 8 then Fail else Got(LeU64(s[..8]), s[8..])
  }

  function GetBytes(s: seq<byte>): Parsed<seq<byte>> {
    match GetU32(s)
    case Fail => Fail
    case Got(len, t) =>
      if MAX_RECORD_BODY_LEN < len || |t| < len then Fail else Got(t[..len], t[len..])
  }

  function GetCount(s: seq<byte>): Parsed<nat> {
    match GetU32(s)
    case Fail => Fail
    case Got(n, t) => if MAX_COUNT_ITEMS < n then Fail else Got(n, t)
  }

  function GetMany<T>(get: seq<byte> -> Parsed<T>, n: nat, s: seq<byte>): Parsed<seq<T>>
    decreases n
  {
    if n == 0 then Got([], s)
    else
      match get(s)
      case Fail => Fail
      case Got(x, t) =>
        match GetMany(get, n - 1, t)
        case Fail => Fail
        case Got(xs, u) => Got([x] + xs, u)
  }

  function GetPosition(s: seq<byte>): Parsed<LogPosition> {
    match GetU64(s)
    case Fail => Fail
    case Got(term, t) =>
      match GetU64(t)
      case Fail => Fail
      case Got(index, u) => Got(LogPosition(term, index), u)
  }

  function GetOptional(s: seq<byte>): Parsed<Option<NodeId>> {
    match GetByte(s)
    case Fail => Fail
    case Got(tag, t) =>
      if tag == 0 then Got(None, t)
      else if tag == 1 then
        match GetU64(t)
        case Fail => Fail
        case Got(id, u) => Got(Some(id), u)
      else Fail
  }

  function GetIds(s: seq<byte>): Parsed<IdList> {
    match GetCount(s)
    case Fail => Fail
    case Got(n, t) => GetMany(GetU64, n, t)
  }

  function GetConfig(s: seq<byte>): Parsed<WireConfig> {
    match GetIds(s)
    case Fail => Fail
    case Got(voters, t) =>
      match GetIds(t)
      case Fail => Fail
      case Got(newVoters, u) =>
        match GetIds(u)
        case Fail => Fail
        case Got(nonVoters, v) => Got(Config(voters, newVoters, nonVoters), v)
  }

  function GetEntry(s: seq<byte>): Parsed<WireEntry> {
    match GetByte(s)
    case Fail => Fail
    case Got(tag, t) =>
      if tag == 0 then
        match GetU64(t)
        case Fail => Fail
        case Got(term, u) => Got(TermEntry(term), u)
      else if tag == 1 then
        match GetConfig(t)
        case Fail => Fail
        case Got(config, u) => Got(ConfigEntry(config), u)
      else if tag == 2 then Got(Command, t)
      else Fail
  }

  function GetEntries(s: seq<byte>): Parsed<WireEntries> {
    match GetPosition(s)
    case Fail => Fail
    case Got(prev, t) =>
      match GetCount(t)
      case Fail => Fail
      case Got(n, u) =>
        if U64_LIMIT <= prev.index + n then Fail
        else
          match GetMany(GetEntry, n, u)
          case Fail => Fail
          case Got(list, v) => Got(Entries(prev, list), v)
  }

  function GetPair(s: seq<byte>): Parsed<Pair> {
    match GetU64(s)
    case Fail => Fail
    case Got(index, t) =>
      match GetByte(t)
      case Fail => Fail
      case Got(tag, u) =>
        match GetBytes(u)
        case Fail => Fail
        case Got(bytes, v) => Got((index, Payload(tag, bytes)), v)
  }

  function GetAppend(s: seq<byte>): Parsed<WireAppend> {
    match GetEntries(s)
    case Fail => Fail
    case Got(entries, t) =>
      match GetCount(t)
      case Fail => Fail
      case Got(n, u) =>
        match GetMany(GetPair, n, u)
        case Fail => Fail
        case Got(payloads, v) => Got(LogAppend(entries, payloads), v)
  }

  function GetSnapshot(s: seq<byte>): Parsed<WireSnapshot> {
    match GetPosition(s)
    case Fail => Fail
    case Got(lastIncluded, t) =>
      match GetConfig(t)
      case Fail => Fail
      case Got(config, u) =>
        match GetBytes(u)
        case Fail => Fail
        case Got(data, v) => Got(Snapshot(lastIncluded, config, data), v)
  }

  function GetCheckpoint(s: seq<byte>): Parsed<WireCheckpoint> {
    match GetU64(s)
    case Fail => Fail
    case Got(term, t) =>
      match GetOptional(t)
      case Fail => Fail
      case Got(votedFor, u) =>
        match GetSnapshot(u)
        case Fail => Fail
        case Got(snapshot, v) =>
          match GetAppend(v)
          case Fail => Fail
          case Got(suffix, w) => Got(Checkpoint(term, votedFor, snapshot, suffix), w)
  }

  function GetRecord(s: seq<byte>): Parsed<WireRecord> {
    match GetByte(s)
    case Fail => Fail
    case Got(tag, t) =>
      if tag == 0 then
        match GetU64(t)
        case Fail => Fail
        case Got(term, u) => Got(CurrentTerm(term), u)
      else if tag == 1 then
        match GetOptional(t)
        case Fail => Fail
        case Got(votedFor, u) => Got(VotedFor(votedFor), u)
      else if tag == 2 then
        match GetAppend(t)
        case Fail => Fail
        case Got(append, u) => Got(Append(append), u)
      else if tag == 3 then
        match GetCheckpoint(t)
        case Fail => Fail
        case Got(checkpoint, u) => Got(SnapshotCheckpoint(checkpoint), u)
      else Fail
  }

  function GetNodeRecord(s: seq<byte>): Parsed<WireNodeRecord> {
    match GetU64(s)
    case Fail => Fail
    case Got(node, t) =>
      match GetRecord(t)
      case Fail => Fail
      case Got(record, u) => Got(NodeRecord(node, record), u)
  }

  // ---- parsing undoes encoding ---------------------------------------------------

  lemma Assoc(a: seq<byte>, b: seq<byte>, c: seq<byte>)
    ensures (a + b) + c == a + (b + c)
  {
  }

  lemma ByteBack(b: byte, r: seq<byte>)
    ensures GetByte([b] + r) == Got(b, r)
  {
  }

  lemma U32Back(n: u32, r: seq<byte>)
    ensures GetU32(U32Le(n) + r) == Got(n, r)
  {
    U32RoundTrip(n);
    assert (U32Le(n) + r)[..4] == U32Le(n) && (U32Le(n) + r)[4..] == r;
  }

  lemma U64Back(n: u64, r: seq<byte>)
    ensures GetU64(U64Le(n) + r) == Got(n, r)
  {
    U64RoundTrip(n);
    assert (U64Le(n) + r)[..8] == U64Le(n) && (U64Le(n) + r)[8..] == r;
  }

  lemma CountBack(n: nat, r: seq<byte>)
    requires n <= MAX_COUNT_ITEMS
    ensures GetCount(EncCount(n) + r) == Got(n, r)
  {
    U32Back(n, r);
  }

  lemma BytesBack(b: seq<byte>, r: seq<byte>)
    requires |b| <= MAX_RECORD_BODY_LEN
    ensures GetBytes(EncBytes(b) + r) == Got(b, r)
  {
    Assoc(EncCount(|b|), b, r);
    U32Back(|b|, b + r);
    assert (b + r)[..|b|] == b && (b + r)[|b|..] == r;
  }

  lemma {:induction false} ManyBack<T(!new)>(get: seq<byte> -> Parsed<T>, enc: T -> seq<byte>, small: T -> bool,
                                             xs: seq<T>, r: seq<byte>)
    requires forall x, t {:trigger get(enc(x) + t)} :: small(x) ==> get(enc(x) + t) == Got(x, t)
    requires forall x :: x in xs ==> small(x)
    ensures GetMany(get, |xs|, Concat(enc, xs) + r) == Got(xs, r)
    decreases |xs|
  {
    if xs == [] {
      assert Concat(enc, xs) + r == r;
    } else {
      var tail := Concat(enc, xs[1..]) + r;
      Assoc(enc(xs[0]), Concat(enc, xs[1..]), r);
      assert xs[0] in xs;
      assert get(enc(xs[0]) + tail) == Got(xs[0], tail);
      ManyBack(get, enc, small, xs[1..], r);
      assert [xs[0]] + xs[1..] == xs;
    }
  }

  lemma PositionBack(p: LogPosition, r: seq<byte>)
    ensures GetPosition(EncPosition(p) + r) == Got(p, r)
  {
    Assoc(U64Le(p.term), U64Le(p.index), r);
    U64Back(p.term, U64Le(p.index) + r);
    U64Back(p.index, r);
  }

  lemma OptionalBack(o: Option<NodeId>, r: seq<byte>)
    ensures GetOptional(EncOptional(o) + r) == Got(o, r)
  {
    match o
    case None => ByteBack(0, r);
    case Some(id) =>
      Assoc([1], U64Le(id), r);
      ByteBack(1, U64Le(id) + r);
      U64Back(id, r);
  }

  lemma IdsBack(ids: IdList, r: seq<byte>)
    requires SmallIds(ids)
    ensures GetIds(EncIds(ids) + r) == Got(ids, r)
  {
    forall x: NodeId, t: seq<byte> ensures GetU64(EncId(x) + t) == Got(x, t) { U64Back(x, t); }
    Assoc(EncCount(|ids|), Concat(EncId, ids), r);
    CountBack(|ids|, Concat(EncId, ids) + r);
    ManyBack(GetU64, EncId, (x: NodeId) => true, ids, r);
  }

  lemma ConfigBack(c: WireConfig, r: seq<byte>)
    requires SmallConfig(c)
    ensures GetConfig(EncConfig(c) + r) == Got(c, r)
  {
    hide GetIds, EncIds;
    var a, b, d := EncIds(c.voters), EncIds(c.newVoters), EncIds(c.nonVoters);
    Assoc(a, b + d, r);
    Assoc(b, d, r);
    IdsBack(c.voters, b + (d + r));
    IdsBack(c.newVoters, d + r);
    IdsBack(c.nonVoters, r);
  }

  lemma EntryBack(e: WireEntry, r: seq<byte>)
    requires SmallEntry(e)
    ensures GetEntry(EncEntry(e) + r) == Got(e, r)
  {
    hide GetConfig, EncConfig;
    match e
    case TermEntry(term) =>
      Assoc([0], U64Le(term), r);
      ByteBack(0, U64Le(term) + r);
      U64Back(term, r);
    case ConfigEntry(config) =>
      Assoc([1], EncConfig(config), r);
      ByteBack(1, EncConfig(config) + r);
      ConfigBack(config, r);
    case Command => ByteBack(2, r);
  }

  lemma EntriesBack(e: WireEntries, r: seq<byte>)
    requires SmallEntries(e)
    ensures GetEntries(EncEntries(e) + r) == Got(e, r)
  {
    hide GetPosition, EncPosition, EncCount, GetCount;
    forall x: WireEntry, t: seq<byte> | SmallEntry(x) ensures GetEntry(EncEntry(x) + t)
        == Got(x, t) { EntryBack(x, t); }
    var a, b, d := EncPosition(e.prev), EncCount(|e.list|), Concat(EncEntry, e.list);
    Assoc(a, b + d, r);
    Assoc(b, d, r);
    PositionBack(e.prev, b + (d + r));
    CountBack(|e.list|, d + r);
    ManyBack(GetEntry, EncEntry, SmallEntry, e.list, r);
  }

  lemma PairBack(p: Pair, r: seq<byte>)
    requires SmallPair(p)
    ensures GetPair(EncPair(p) + r) == Got(p, r)
  {
    hide GetBytes, EncBytes;
    var a, b, d := U64Le(p.0), [p.1.tag], EncBytes(p.1.bytes);
    Assoc(a, b + d, r);
    Assoc(b, d, r);
    U64Back(p.0, b + (d + r));
    ByteBack(p.1.tag, d + r);
    BytesBack(p.1.bytes, r);
  }

  lemma AppendBack(x: WireAppend, r: seq<byte>)
    requires SmallAppend(x)
    ensures GetAppend(EncAppend(x) + r) == Got(x, r)
  {
    hide GetEntries, EncEntries, EncCount, GetCount;
    forall p: Pair, t: seq<byte> | SmallPair(p) ensures GetPair(EncPair(p) + t) == Got(p, t) { PairBack(p, t); }
    var a, b, d := EncEntries(x.entries), EncCount(|x.payloads|), Concat(EncPair, x.payloads);
    Assoc(a, b + d, r);
    Assoc(b, d, r);
    EntriesBack(x.entries, b + (d + r));
    CountBack(|x.payloads|, d + r);
    ManyBack(GetPair, EncPair, SmallPair, x.payloads, r);
  }

  lemma SnapshotBack(x: WireSnapshot, r: seq<byte>)
    requires SmallSnapshot(x)
    ensures GetSnapshot(EncSnapshot(x) + r) == Got(x, r)
  {
    hide GetPosition, EncPosition, GetConfig, EncConfig, GetBytes, EncBytes;
    var a, b, d := EncPosition(x.lastIncluded), EncConfig(x.config), EncBytes(x.data);
    Assoc(a, b + d, r);
    Assoc(b, d, r);
    PositionBack(x.lastIncluded, b + (d + r));
    ConfigBack(x.config, d + r);
    BytesBack(x.data, r);
  }

  lemma CheckpointBack(x: WireCheckpoint, r: seq<byte>)
    requires SmallSnapshot(x.snapshot) && SmallAppend(x.suffix)
    ensures GetCheckpoint(EncCheckpoint(x) + r) == Got(x, r)
  {
    hide GetOptional, EncOptional, GetSnapshot, EncSnapshot, GetAppend, EncAppend;
    var a, b, c, d := U64Le(x.currentTerm), EncOptional(x.votedFor), EncSnapshot(x.snapshot), EncAppend(x.suffix);
    Assoc(a, b + (c + d), r);
    Assoc(b, c + d, r);
    Assoc(c, d, r);
    U64Back(x.currentTerm, b + (c + (d + r)));
    OptionalBack(x.votedFor, c + (d + r));
    SnapshotBack(x.snapshot, d + r);
    AppendBack(x.suffix, r);
  }

  lemma RecordBack(x: WireRecord, r: seq<byte>)
    requires SmallRecord(x)
    ensures GetRecord(EncRecord(x) + r) == Got(x, r)
  {
    hide GetOptional, EncOptional, GetCheckpoint, EncCheckpoint, GetAppend, EncAppend;
    match x
    case CurrentTerm(term) =>
      Assoc([0], U64Le(term), r);
      ByteBack(0, U64Le(term) + r);
      U64Back(term, r);
    case VotedFor(votedFor) =>
      Assoc([1], EncOptional(votedFor), r);
      ByteBack(1, EncOptional(votedFor) + r);
      OptionalBack(votedFor, r);
    case Append(append) =>
      Assoc([2], EncAppend(append), r);
      ByteBack(2, EncAppend(append) + r);
      AppendBack(append, r);
    case SnapshotCheckpoint(checkpoint) =>
      Assoc([3], EncCheckpoint(checkpoint), r);
      ByteBack(3, EncCheckpoint(checkpoint) + r);
      CheckpointBack(checkpoint, r);
  }

  /** Parsing an encoded record gives the record back and leaves nothing over. */
  lemma NodeRecordBack(x: WireNodeRecord)
    requires SmallRecord(x.record)
    ensures GetNodeRecord(EncNodeRecord(x)) == Got(x, [])
  {
    hide GetRecord, EncRecord;
    U64Back(x.node, EncRecord(x.record));
    RecordBack(x.record, []);
    assert EncRecord(x.record) + [] == EncRecord(x.record);
  }

  // ---- whatever parses is an encoding -----------------------------------------------

  lemma ByteExact(s: seq<byte>)
    requires GetByte(s).Got?
    ensures s == [GetByte(s).value] + GetByte(s).rest
  {
  }

  lemma U32Exact(s: seq<byte>)
    requires GetU32(s).Got?
    ensures s == U32Le(GetU32(s).value) + GetU32(s).rest
  {
    assert s == s[..4] + s[4..];
  }

  lemma U64Exact(s: seq<byte>)
    requires GetU64(s).Got?
    ensures s == U64Le(GetU64(s).value) + GetU64(s).rest
  {
    assert s == s[..8] + s[8..];
  }

  lemma CountExact(s: seq<byte>)
    requires GetCount(s).Got?
    ensures s == EncCount(GetCount(s).value) + GetCount(s).rest
  {
    U32Exact(s);
  }

  lemma BytesExact(s: seq<byte>)
    requires GetBytes(s).Got?
    ensures s == EncBytes(GetBytes(s).value) + GetBytes(s).rest
    ensures |GetBytes(s).value| <= MAX_RECORD_BODY_LEN
  {
    U32Exact(s);
    var Got(len, t) := GetU32(s);
    assert t == t[..len] + t[len..];
    Assoc(U32Le(len), t[..len], t[len..]);
  }

  lemma {:induction false} ManyExact<T(!new)>(get: seq<byte> -> Parsed<T>, enc: T -> seq<byte>, small: T -> bool,
                                              n: nat, s: seq<byte>)
    requires forall t {:trigger get(t)} :: get(t).Got? ==> t == enc(get(t).value) + get(t).rest && small(get(t).value)
    requires GetMany(get, n, s).Got?
    ensures |GetMany(get, n, s).value| == n
    ensures s == Concat(enc, GetMany(get, n, s).value) + GetMany(get, n, s).rest
    ensures forall x :: x in GetMany(get, n, s).value ==> small(x)
    decreases n
  {
    if n == 0 {
      assert Concat(enc, []) + s == s;
    } else {
      var Got(x, t) := get(s);
      ManyExact(get, enc, small, n - 1, t);
      var Got(xs, r) := GetMany(get, n - 1, t);
      assert ([x] + xs)[1..] == xs;
      Assoc(enc(x), Concat(enc, xs), r);
    }
  }

  lemma PositionExact(s: seq<byte>)
    requires GetPosition(s).Got?
    ensures s == EncPosition(GetPosition(s).value) + GetPosition(s).rest
  {
    U64Exact(s);
    U64Exact(GetU64(s).rest);
    var p := GetPosition(s).value;
    Assoc(U64Le(p.term), U64Le(p.index), GetPosition(s).rest);
  }

  lemma OptionalExact(s: seq<byte>)
    requires GetOptional(s).Got?
    ensures s == EncOptional(GetOptional(s).value) + GetOptional(s).rest
  {
    ByteExact(s);
    var Got(tag, t) := GetByte(s);
    if tag == 1 {
      U64Exact(t);
      Assoc([1], U64Le(GetU64(t).value), GetU64(t).rest);
    }
  }

  lemma IdsExact(s: seq<byte>)
    requires GetIds(s).Got?
    ensures s == EncIds(GetIds(s).value) + GetIds(s).rest
    ensures SmallIds(GetIds(s).value)
  {
    CountExact(s);
    var Got(n, t) := GetCount(s);
    forall u | GetU64(u).Got? ensures u == EncId(GetU64(u).value) + GetU64(u).rest { U64Exact(u); }
    ManyExact(GetU64, EncId, (x: NodeId) => true, n, t);
    var Got(ids, r) := GetMany(GetU64, n, t);
    Assoc(EncCount(n), Concat(EncId, ids), r);
  }

  lemma ConfigExact(s: seq<byte>)
    requires GetConfig(s).Got?
    ensures s == EncConfig(GetConfig(s).value) + GetConfig(s).rest
    ensures SmallConfig(GetConfig(s).value)
  {
    hide GetIds, EncIds;
    IdsExact(s);
    var t := GetIds(s).rest;
    IdsExact(t);
    var u := GetIds(t).rest;
    IdsExact(u);
    var a, b, d, r := EncIds(GetIds(s).value), EncIds(GetIds(t).value), EncIds(GetIds(u).value), GetIds(u).rest;
    Assoc(a, b + d, r);
    Assoc(b, d, r);
  }

  lemma EntryExact(s: seq<byte>)
    requires GetEntry(s).Got?
    ensures s == EncEntry(GetEntry(s).value) + GetEntry(s).rest
    ensures SmallEntry(GetEntry(s).value)
  {
    hide GetConfig, EncConfig;
    ByteExact(s);
    var Got(tag, t) := GetByte(s);
    if tag == 0 {
      U64Exact(t);
      Assoc([0], U64Le(GetU64(t).value), GetU64(t).rest);
    } else if tag == 1 {
      ConfigExact(t);
      Assoc([1], EncConfig(GetConfig(t).value), GetConfig(t).rest);
    }
  }

  lemma EntriesExact(s: seq<byte>)
    requires GetEntries(s).Got?
    ensures s == EncEntries(GetEntries(s).value) + GetEntries(s).rest
    ensures SmallEntries(GetEntries(s).value)
  {
    hide GetPosition, EncPosition, EncCount, GetU32;
    PositionExact(s);
    var Got(prev, t) := GetPosition(s);
    CountExact(t);
    var Got(n, u) := GetCount(t);
    forall v | GetEntry(v).Got? ensures v == EncEntry(GetEntry(v).value) + GetEntry(v).rest &&
        SmallEntry(GetEntry(v).value) {
      EntryExact(v);
    }
    ManyExact(GetEntry, EncEntry, SmallEntry, n, u);
    var Got(list, r) := GetMany(GetEntry, n, u);
    var a, b, d := EncPosition(prev), EncCount(n), Concat(EncEntry, list);
    Assoc(a, b + d, r);
    Assoc(b, d, r);
  }

  lemma PairExact(s: seq<byte>)
    requires GetPair(s).Got?
    ensures s == EncPair(GetPair(s).value) + GetPair(s).rest
    ensures SmallPair(GetPair(s).value)
  {
    hide GetBytes, EncBytes;
    U64Exact(s);
    var Got(index, t) := GetU64(s);
    ByteExact(t);
    var Got(tag, u) := GetByte(t);
    BytesExact(u);
    var Got(bytes, r) := GetBytes(u);
    var a, b, d := U64Le(index), [tag], EncBytes(bytes);
    Assoc(a, b + d, r);
    Assoc(b, d, r);
  }

  lemma AppendExact(s: seq<byte>)
    requires GetAppend(s).Got?
    ensures s == EncAppend(GetAppend(s).value) + GetAppend(s).rest
    ensures SmallAppend(GetAppend(s).value)
  {
    hide GetEntries, EncEntries, EncCount, GetU32;
    EntriesExact(s);
    var Got(entries, t) := GetEntries(s);
    CountExact(t);
    var Got(n, u) := GetCount(t);
    forall v | GetPair(v).Got? ensures v == EncPair(GetPair(v).value) + GetPair(v).rest && SmallPair(GetPair(v).value) {
      PairExact(v);
    }
    ManyExact(GetPair, EncPair, SmallPair, n, u);
    var Got(list, r) := GetMany(GetPair, n, u);
    var a, b, d := EncEntries(entries), EncCount(n), Concat(EncPair, list);
    Assoc(a, b + d, r);
    Assoc(b, d, r);
  }

  lemma SnapshotExact(s: seq<byte>)
    requires GetSnapshot(s).Got?
    ensures s == EncSnapshot(GetSnapshot(s).value) + GetSnapshot(s).rest
    ensures SmallSnapshot(GetSnapshot(s).value)
  {
    hide GetPosition, EncPosition, GetConfig, EncConfig, GetBytes, EncBytes;
    PositionExact(s);
    var t := GetPosition(s).rest;
    ConfigExact(t);
    var u := GetConfig(t).rest;
    BytesExact(u);
    var a, b, d := EncPosition(GetPosition(s).value), EncConfig(GetConfig(t).value), EncBytes(GetBytes(u).value);
    Assoc(a, b + d, GetBytes(u).rest);
    Assoc(b, d, GetBytes(u).rest);
  }

  lemma CheckpointExact(s: seq<byte>)
    requires GetCheckpoint(s).Got?
    ensures s == EncCheckpoint(GetCheckpoint(s).value) + GetCheckpoint(s).rest
    ensures SmallRecord(SnapshotCheckpoint(GetCheckpoint(s).value))
  {
    hide GetOptional, EncOptional, GetSnapshot, EncSnapshot, GetAppend, EncAppend, SmallSnapshot, SmallAppend;
    U64Exact(s);
    var t := GetU64(s).rest;
    OptionalExact(t);
    var u := GetOptional(t).rest;
    SnapshotExact(u);
    var v := GetSnapshot(u).rest;
    AppendExact(v);
    var r := GetAppend(v).rest;
    var a, b := U64Le(GetU64(s).value), EncOptional(GetOptional(t).value);
    var c, d := EncSnapshot(GetSnapshot(u).value), EncAppend(GetAppend(v).value);
    Assoc(a, b + (c + d), r);
    Assoc(b, c + d, r);
    Assoc(c, d, r);
  }

  lemma RecordExact(s: seq<byte>)
    requires GetRecord(s).Got?
    ensures s == EncRecord(GetRecord(s).value) + GetRecord(s).rest
    ensures SmallRecord(GetRecord(s).value)
  {
    hide GetOptional, EncOptional, GetCheckpoint, EncCheckpoint, GetAppend, EncAppend;
    ByteExact(s);
    var Got(tag, t) := GetByte(s);
    if tag == 0 {
      U64Exact(t);
      Assoc([0], U64Le(GetU64(t).value), GetU64(t).rest);
    } else if tag == 1 {
      OptionalExact(t);
      Assoc([1], EncOptional(GetOptional(t).value), GetOptional(t).rest);
    } else if tag == 2 {
      AppendExact(t);
      Assoc([2], EncAppend(GetAppend(t).value), GetAppend(t).rest);
    } else {
      CheckpointExact(t);
      Assoc([3], EncCheckpoint(GetCheckpoint(t).value), GetCheckpoint(t).rest);
    }
  }

  /** Whatever parses is the encoding of what it parses to, byte for byte. */
  lemma NodeRecordExact(s: seq<byte>)
    requires GetNodeRecord(s).Got?
    ensures s == EncNodeRecord(GetNodeRecord(s).value) + GetNodeRecord(s).rest
    ensures SmallRecord(GetNodeRecord(s).value.record)
  {
    hide GetRecord, EncRecord;
    U64Exact(s);
    var t := GetU64(s).rest;
    RecordExact(t);
    Assoc(U64Le(GetU64(s).value), EncRecord(GetRecord(t).value), GetRecord(t).rest);
  }
}
