/** What a record body means: the in-memory record its listed form stands for,
    which bodies are accepted, and the canonical (ascending) listed form that
    the encoder writes. */
module Codec {
  import opened Words
  import opened Records
  import opened Wire
  import opened Sorted

  // ---- from the listed form to the value ---------------------------------------

  function KeysOf(ps: seq<Pair>): (ks: seq<LogIndex>)
    ensures |ks| == |ps|
  {
    seq(|ps|, i requires 0 <= i < |ps| => ps[i].0)
  }

  function PairMap(ps: seq<Pair>): PayloadMap {
    if ps == [] then map[]
    else
      var n := |ps| - 1;
      PairMap(ps[..n])[ps[n].0 := ps[n].1]
  }

  function ConfigValue(c: WireConfig): ClusterConfig {
    Config(ElementsOf(c.voters), ElementsOf(c.newVoters), ElementsOf(c.nonVoters))
  }

  function EntryValue(e: WireEntry): LogEntry {
    match e
    case TermEntry(term) => TermEntry(term)
    case ConfigEntry(config) => ConfigEntry(ConfigValue(config))
    case Command => Command
  }

  function EntriesValue(e: WireEntries): LogEntries {
    Entries(e.prev, seq(|e.list|, i requires 0 <= i < |e.list| => EntryValue(e.list[i])))
  }

  function AppendValue(a: WireAppend): Append {
    LogAppend(EntriesValue(a.entries), PairMap(a.payloads))
  }

  function SnapshotValue(s: WireSnapshot): SnapshotData {
    Snapshot(s.lastIncluded, ConfigValue(s.config), s.data)
  }

  function CheckpointValue(c: WireCheckpoint): Checkpoint {
    Checkpoint(c.currentTerm, c.votedFor, SnapshotValue(c.snapshot), AppendValue(c.suffix))
  }

  function RecordValue(r: WireRecord): Record {
    match r
    case CurrentTerm(term) => CurrentTerm(term)
    case VotedFor(votedFor) => VotedFor(votedFor)
    case Append(append) => Append(AppendValue(append))
    case SnapshotCheckpoint(checkpoint) => SnapshotCheckpoint(CheckpointValue(checkpoint))
  }

  function NodeRecordValue(n: WireNodeRecord): NodeRecord {
    NodeRecord(n.node, RecordValue(n.record))
  }

  // ---- list conditions ------------------------------------------------------------

  /** A condition on every node-ID list and every payload index list of a record. */
  datatype ListTest = Duplicates | Order

  predicate Passes(t: ListTest, xs: seq<u64>) {
    match t
    case Duplicates => NoDup(xs)
    case Order => Increasing(xs)
  }

  predicate ConfigPasses(t: ListTest, c: WireConfig) {
    Passes(t, c.voters) && Passes(t, c.newVoters) && Passes(t, c.nonVoters)
  }

  predicate EntryPasses(t: ListTest, e: WireEntry) {
    e.ConfigEntry? ==> ConfigPasses(t, e.config)
  }

  predicate EntriesPass(t: ListTest, e: WireEntries) {
    forall i :: 0 <= i < |e.list| ==> EntryPasses(t, e.list[i])
  }

  predicate AppendPasses(t: ListTest, a: WireAppend) {
    EntriesPass(t, a.entries) && Passes(t, KeysOf(a.payloads))
  }

  predicate CheckpointPasses(t: ListTest, c: WireCheckpoint) {
    ConfigPasses(t, c.snapshot.config) && AppendPasses(t, c.suffix)
  }

  predicate RecordPasses(t: ListTest, r: WireRecord) {
    match r
    case Append(a) => AppendPasses(t, a)
    case SnapshotCheckpoint(c) => CheckpointPasses(t, c)
    case _ => true
  }

  // ---- the decoder ----------------------------------------------------------------

  /** What `decode_node_record` makes of a record body. */
  ghost function Decode(body: seq<byte>): Option<NodeRecord> {
    match GetNodeRecord(body)
    case Fail => None
    case Got(w, rest) =>
      if rest == [] && RecordPasses(Duplicates, w.record) && ValidRecord(RecordValue(w.record))
      then Some(NodeRecordValue(w))
      else None
  }

  /** What `decode_record_node_id` makes of it. */
  function DecodeNode(body: seq<byte>): Option<NodeId> {
    match GetU64(body)
    case Fail => None
    case Got(node, _) => Some(node)
  }

  // ---- the canonical listed form ------------------------------------------------------

  ghost function PairList(m: PayloadMap): (ps: seq<Pair>)
    ensures KeysOf(ps) == Ascending(m.Keys)
    ensures forall i :: 0 <= i < |ps| ==> ps[i].0 in m && ps[i].1 == m[ps[i].0]
  {
    AscendingIs(m.Keys);
    var ks := Ascending(m.Keys);
    seq(|ks|, i requires 0 <= i < |ks| => assert ks[i] in m.Keys; (ks[i], m[ks[i]]))
  }

  ghost function ConfigList(c: ClusterConfig): WireConfig {
    Config(Ascending(c.voters), Ascending(c.newVoters), Ascending(c.nonVoters))
  }

  ghost function EntryList(e: LogEntry): WireEntry {
    match e
    case TermEntry(term) => TermEntry(term)
    case ConfigEntry(config) => ConfigEntry(ConfigList(config))
    case Command => Command
  }

  ghost function EntriesList(e: LogEntries): WireEntries {
    Entries(e.prev, seq(|e.list|, i requires 0 <= i < |e.list| => EntryList(e.list[i])))
  }

  ghost function AppendList(a: Append): WireAppend {
    LogAppend(EntriesList(a.entries), PairList(a.payloads))
  }

  ghost function SnapshotList(s: SnapshotData): WireSnapshot {
    Snapshot(s.lastIncluded, ConfigList(s.config), s.data)
  }

  ghost function CheckpointList(c: Checkpoint): WireCheckpoint {
    Checkpoint(c.currentTerm, c.votedFor, SnapshotList(c.snapshot), AppendList(c.suffix))
  }

  ghost function RecordList(r: Record): WireRecord {
    match r
    case CurrentTerm(term) => CurrentTerm(term)
    case VotedFor(votedFor) => VotedFor(votedFor)
    case Append(append) => Append(AppendList(append))
    case SnapshotCheckpoint(checkpoint) => SnapshotCheckpoint(CheckpointList(checkpoint))
  }

  ghost function NodeRecordList(n: NodeRecord): WireNodeRecord {
    NodeRecord(n.node, RecordList(n.record))
  }

  /** The body the encoder writes. */
  ghost function Body(n: NodeRecord): seq<byte> {
    EncNodeRecord(NodeRecordList(n))
  }

  /** The records the encoder accepts. */
  ghost predicate Encodable(n: NodeRecord) {
    && ValidRecord(n.record)
    && SmallRecord(RecordList(n.record))
    && |Body(n)| <= MAX_RECORD_BODY_LEN
  }

  // ---- the canonical form of a value means that value ------------------------------

  lemma ConfigThere(c: ClusterConfig)
    ensures ConfigValue(ConfigList(c)) == c && ConfigPasses(Order, ConfigList(c))
  {
    AscendingIs(c.voters);
    AscendingIs(c.newVoters);
    AscendingIs(c.nonVoters);
    assert ElementsOf(Ascending(c.voters)) == c.voters;
    assert ElementsOf(Ascending(c.newVoters)) == c.newVoters;
    assert ElementsOf(Ascending(c.nonVoters)) == c.nonVoters;
  }

  lemma EntryThere(e: LogEntry)
    ensures EntryValue(EntryList(e)) == e && EntryPasses(Order, EntryList(e))
  {
    if e.ConfigEntry? {
      ConfigThere(e.config);
    }
  }

  lemma EntriesThere(e: LogEntries)
    ensures EntriesValue(EntriesList(e)) == e && EntriesPass(Order, EntriesList(e))
  {
    forall i | 0 <= i < |e.list|
      ensures EntryValue(EntryList(e.list[i])) == e.list[i] && EntryPasses(Order, EntryList(e.list[i]))
    {
      EntryThere(e.list[i]);
    }
    assert EntriesValue(EntriesList(e)).list == e.list;
  }

  lemma {:induction false} PairMapKeys(ps: seq<Pair>)
    ensures PairMap(ps).Keys == ElementsOf(KeysOf(ps))
    decreases |ps|
  {
    if ps != [] {
      var n := |ps| - 1;
      PairMapKeys(ps[..n]);
      assert KeysOf(ps) == KeysOf(ps[..n]) + [ps[n].0];
    }
  }

  lemma {:induction false} PairMapAt(ps: seq<Pair>, i: nat)
    requires i < |ps| && NoDup(KeysOf(ps))
    ensures ps[i].0 in PairMap(ps) && PairMap(ps)[ps[i].0] == ps[i].1
    decreases |ps|
  {
    var n := |ps| - 1;
    if i < n {
      assert KeysOf(ps)[i] != KeysOf(ps)[n];
      assert KeysOf(ps[..n]) == KeysOf(ps)[..n];
      PairMapAt(ps[..n], i);
    }
  }

  lemma PairsThere(m: PayloadMap)
    ensures PairMap(PairList(m)) == m && Increasing(KeysOf(PairList(m)))
  {
    hide Ascending, PairMap;
    var ps := PairList(m);
    AscendingIs(m.Keys);
    PairMapKeys(ps);
    forall k | k in m ensures PairMap(ps)[k] == m[k] {
      assert k in KeysOf(ps);
      var i :| 0 <= i < |ps| && KeysOf(ps)[i] == k;
      PairMapAt(ps, i);
    }
  }

  lemma AppendThere(a: Append)
    ensures AppendValue(AppendList(a)) == a && AppendPasses(Order, AppendList(a))
  {
    EntriesThere(a.entries);
    PairsThere(a.payloads);
  }

  lemma RecordThere(r: Record)
    ensures RecordValue(RecordList(r)) == r && RecordPasses(Order, RecordList(r))
  {
    hide AppendValue, AppendList, AppendPasses, ConfigValue, ConfigList, ConfigPasses;
    match r
    case Append(a) => AppendThere(a);
    case SnapshotCheckpoint(c) =>
      ConfigThere(c.snapshot.config);
      AppendThere(c.suffix);
    case _ =>
  }

  lemma OrderedHasNoDuplicates(r: WireRecord)
    requires RecordPasses(Order, r)
    ensures RecordPasses(Duplicates, r)
  {
  }

  // ---- a listed form in order is the canonical one ------------------------------------

  lemma IdsBackAgain(ids: IdList)
    requires Increasing(ids)
    ensures Ascending(ElementsOf(ids)) == ids
  {
    AscendingIs(ElementsOf(ids));
    IncreasingUnique(Ascending(ElementsOf(ids)), ids);
  }

  lemma ConfigBackAgain(c: WireConfig)
    requires ConfigPasses(Order, c)
    ensures ConfigList(ConfigValue(c)) == c
  {
    IdsBackAgain(c.voters);
    IdsBackAgain(c.newVoters);
    IdsBackAgain(c.nonVoters);
  }

  lemma EntriesBackAgain(e: WireEntries)
    requires EntriesPass(Order, e)
    ensures EntriesList(EntriesValue(e)) == e
  {
    forall i | 0 <= i < |e.list| ensures EntryList(EntryValue(e.list[i])) == e.list[i] {
      if e.list[i].ConfigEntry? {
        ConfigBackAgain(e.list[i].config);
      }
    }
    assert EntriesList(EntriesValue(e)).list == e.list;
  }

  lemma PairsBackAgain(ps: seq<Pair>)
    requires Increasing(KeysOf(ps))
    ensures PairList(PairMap(ps)) == ps
  {
    PairMapKeys(ps);
    IdsBackAgain(KeysOf(ps));
    forall i | 0 <= i < |ps| ensures PairList(PairMap(ps))[i] == ps[i] {
      PairMapAt(ps, i);
    }
  }

  lemma AppendBackAgain(a: WireAppend)
    requires AppendPasses(Order, a)
    ensures AppendList(AppendValue(a)) == a
  {
    EntriesBackAgain(a.entries);
    PairsBackAgain(a.payloads);
  }

  lemma RecordBackAgain(r: WireRecord)
    requires RecordPasses(Order, r)
    ensures RecordList(RecordValue(r)) == r
  {
    hide AppendValue, AppendList, AppendPasses, ConfigValue, ConfigList, ConfigPasses;
    match r
    case Append(a) => AppendBackAgain(a);
    case SnapshotCheckpoint(c) =>
      ConfigBackAgain(c.snapshot.config);
      AppendBackAgain(c.suffix);
    case _ =>
  }

  // ---- lengths: re-listing a value in order changes no length ---------------------------

  lemma {:induction false} ConcatLength<T>(enc: T -> seq<byte>, xs: seq<T>, ys: seq<T>)
    requires |xs| == |ys|
    requires forall i :: 0 <= i < |xs| ==> |enc(xs[i])| == |enc(ys[i])|
    ensures |Concat(enc, xs)| == |Concat(enc, ys)|
    decreases |xs|
  {
    if xs != [] {
      assert forall i :: 0 <= i < |xs[1..]| ==> |enc(xs[1..][i])| == |enc(xs[i + 1])| == |enc(ys[1..][i])|;
      ConcatLength(enc, xs[1..], ys[1..]);
    }
  }

  lemma {:induction false} ConcatSplit<T>(enc: T -> seq<byte>, xs: seq<T>, ys: seq<T>)
    ensures Concat(enc, xs + ys) == Concat(enc, xs) + Concat(enc, ys)
    decreases |xs|
  {
    if xs == [] {
      assert xs + ys == ys;
    } else {
      assert (xs + ys)[1..] == xs[1..] + ys;
      ConcatSplit(enc, xs[1..], ys);
    }
  }

  lemma ConcatRemove<T>(enc: T -> seq<byte>, ys: seq<T>, i: nat)
    requires i < |ys|
    ensures |Concat(enc, ys)| == |enc(ys[i])| + |Concat(enc, ys[..i] + ys[i + 1..])|
  {
    ConcatSplit(enc, ys[..i], ys[i + 1..]);
    ConcatSplit(enc, ys[..i], ys[i..]);
    assert ys == ys[..i] + ys[i..] && ys[i..][1..] == ys[i + 1..];
  }

  /** Reordering a list without duplicates keeps the total length. */
  lemma {:induction false} ConcatPermuted<T(!new)>(enc: T -> seq<byte>, xs: seq<T>, ys: seq<T>)
    requires NoDup(xs) && NoDup(ys) && SameElements(xs, ys)
    ensures |Concat(enc, xs)| == |Concat(enc, ys)|
    decreases |xs|
  {
    hide NoDup;
    assert |ys| > 0 ==> ys[0] in ys;
    if xs != [] {
      var x := xs[0];
      assert x in xs;
      var i :| 0 <= i < |ys| && ys[i] == x;
      RemoveAt(ys, i);
      RemoveAt(xs, 0);
      assert xs[..0] + xs[1..] == xs[1..];
      var rest := ys[..i] + ys[i + 1..];
      forall y ensures y in xs[1..] <==> y in rest {
        assert y in xs[1..] <==> y in xs && y != x;
      }
      ConcatPermuted(enc, xs[1..], rest);
      ConcatRemove(enc, ys, i);
    }
  }

  lemma RemoveAt<T(!new)>(xs: seq<T>, i: nat)
    requires i < |xs| && NoDup(xs)
    ensures NoDup(xs[..i] + xs[i + 1..])
    ensures forall x :: x in xs[..i] + xs[i + 1..] <==> x in xs && x != xs[i]
  {
    var rest := xs[..i] + xs[i + 1..];
    assert forall j :: 0 <= j < |rest| ==> rest[j] == xs[if j < i then j else j + 1];
    forall x | x in xs && x != xs[i] ensures x in rest {
      var j :| 0 <= j < |xs| && xs[j] == x;
      assert rest[if j < i then j else j - 1] == x;
    }
  }

  lemma IdsLength(ids: IdList)
    requires NoDup(ids)
    ensures |Ascending(ElementsOf(ids))| == |ids|
    ensures |EncIds(Ascending(ElementsOf(ids)))| == |EncIds(ids)|
  {
    AscendingIs(ElementsOf(ids));
    ElementsCount(ids);
    ConcatLength(EncId, Ascending(ElementsOf(ids)), ids);
  }

  lemma ConfigLength(c: WireConfig)
    requires ConfigPasses(Duplicates, c)
    ensures |EncConfig(ConfigList(ConfigValue(c)))| == |EncConfig(c)|
    ensures SmallConfig(c) ==> SmallConfig(ConfigList(ConfigValue(c)))
  {
    hide EncIds;
    IdsLength(c.voters);
    IdsLength(c.newVoters);
    IdsLength(c.nonVoters);
  }

  lemma EntriesLength(e: WireEntries)
    requires EntriesPass(Duplicates, e)
    ensures |EncEntries(EntriesList(EntriesValue(e)))| == |EncEntries(e)|
    ensures SmallEntries(e) ==> SmallEntries(EntriesList(EntriesValue(e)))
  {
    var l := EntriesList(EntriesValue(e));
    forall i | 0 <= i < |e.list|
      ensures |EncEntry(l.list[i])| == |EncEntry(e.list[i])| && (SmallEntry(e.list[i]) ==> SmallEntry(l.list[i]))
    {
      if e.list[i].ConfigEntry? {
        ConfigLength(e.list[i].config);
      }
    }
    ConcatLength(EncEntry, l.list, e.list);
  }

  lemma PairsLength(ps: seq<Pair>)
    requires NoDup(KeysOf(ps))
    ensures |PairList(PairMap(ps))| == |ps|
    ensures forall p :: p in PairList(PairMap(ps)) <==> p in ps
    ensures |Concat(EncPair, PairList(PairMap(ps)))| == |Concat(EncPair, ps)|
  {
    hide EncPair, Ascending;
    var m := PairMap(ps);
    var qs := PairList(m);
    PairMapKeys(ps);
    AscendingIs(m.Keys);
    ElementsCount(KeysOf(ps));
    forall p | p in ps ensures p in qs {
      var i :| 0 <= i < |ps| && ps[i] == p;
      PairMapAt(ps, i);
      assert p.0 in KeysOf(qs);
      var j :| 0 <= j < |qs| && KeysOf(qs)[j] == p.0;
      assert qs[j] == p;
    }
    forall q | q in qs ensures q in ps {
      var j :| 0 <= j < |qs| && qs[j] == q;
      assert q.0 in KeysOf(ps);
      var i :| 0 <= i < |ps| && KeysOf(ps)[i] == q.0;
      PairMapAt(ps, i);
    }
    KeysNoDup(ps);
    IncreasingNoDup(KeysOf(qs));
    KeysNoDup(qs);
    ConcatPermuted(EncPair, qs, ps);
  }

  lemma KeysNoDup(ps: seq<Pair>)
    requires NoDup(KeysOf(ps))
    ensures NoDup(ps)
  {
    forall i, j | 0 <= i < j < |ps| ensures ps[i] != ps[j] {
      assert KeysOf(ps)[i] != KeysOf(ps)[j];
    }
  }

  lemma AppendLength(a: WireAppend)
    requires AppendPasses(Duplicates, a)
    ensures |EncAppend(AppendList(AppendValue(a)))| == |EncAppend(a)|
    ensures SmallAppend(a) ==> SmallAppend(AppendList(AppendValue(a)))
  {
    hide EncEntries, EncPair, EntriesList, EntriesValue, PairList, PairMap, SmallEntries;
    EntriesLength(a.entries);
    PairsLength(a.payloads);
  }

  lemma RecordLength(r: WireRecord)
    requires RecordPasses(Duplicates, r)
    ensures |EncRecord(RecordList(RecordValue(r)))| == |EncRecord(r)|
    ensures SmallRecord(r) ==> SmallRecord(RecordList(RecordValue(r)))
  {
    hide EncAppend, AppendList, AppendValue, SmallAppend, AppendPasses, EncConfig, ConfigPasses, SmallConfig;
    match r
    case Append(a) => AppendLength(a);
    case SnapshotCheckpoint(c) =>
      ConfigLength(c.snapshot.config);
      AppendLength(c.suffix);
    case _ =>
  }

  // ---- main results ---------------------------------------------------------------------

  /** Round trip: decoding an encoded record gives the record back, node ID included,
      with no trailing bytes. */
  lemma DecodeBody(n: NodeRecord)
    requires Encodable(n)
    ensures Decode(Body(n)) == Some(n)
    ensures DecodeNode(Body(n)) == Some(n.node)
  {
    hide EncNodeRecord, GetNodeRecord, SmallRecord, RecordPasses, ValidRecord, RecordList, RecordValue;
    var w := NodeRecordList(n);
    NodeRecordBack(w);
    RecordThere(n.record);
    OrderedHasNoDuplicates(w.record);
    NodeIsFirst(Body(n));
  }

  lemma NodeIsFirst(body: seq<byte>)
    requires GetNodeRecord(body).Got?
    ensures DecodeNode(body) == Some(GetNodeRecord(body).value.node)
  {
  }

  /** Re-encoding: an accepted body of at most 1 GiB encodes again, to as many bytes,
      which decode to the same record; and to the very same bytes exactly when its
      node-ID lists and payload indexes were in ascending order. */
  lemma ReencodeBody(body: seq<byte>)
    requires Decode(body).Some? && |body| <= MAX_RECORD_BODY_LEN
    ensures var n := Decode(body).value;
            && Encodable(n)
            && |Body(n)| == |body|
            && Decode(Body(n)) == Some(n)
            && (Body(n) == body <==> RecordPasses(Order, GetNodeRecord(body).value.record))
  {
    hide EncRecord, GetNodeRecord, SmallRecord, RecordPasses, ValidRecord, RecordList, RecordValue;
    var Got(w, rest) := GetNodeRecord(body);
    var n := NodeRecordValue(w);
    NodeRecordExact(body);
    assert EncNodeRecord(w) + [] == EncNodeRecord(w);
    RecordLength(w.record);
    DecodeBody(n);
    NodeRecordBack(NodeRecordList(n));
    RecordThere(n.record);
    if RecordPasses(Order, w.record) {
      RecordBackAgain(w.record);
    }
  }
}
