/** The storage format in plain numbers: byte order, tags, the order of fields,
    limits, and a record of each kind spelled out byte by byte. */
module Formats {
  import opened Words
  import opened Records
  import opened Wire
  import opened Sorted
  import opened Codec
  import opened Checksum
  import opened Encoding
  import opened Folds

  // ---- numbers --------------------------------------------------------------------------------

  lemma FromLeFour(s: seq<byte>)
    requires |s| >= 4
    ensures FromLe(s) as int
         == s[0] + 256 * (s[1] as int + 256 * (s[2] as int + 256 * (s[3] as int + 256 * FromLe(s[4..]))))
  {
    assert s[1..][1..] == s[2..] && s[2..][1..] == s[3..] && s[3..][1..] == s[4..];
    assert FromLe(s[1..]) == s[1] as int + 256 * FromLe(s[2..]);
    assert FromLe(s[2..]) == s[2] as int + 256 * FromLe(s[3..]);
    assert FromLe(s[3..]) == s[3] as int + 256 * FromLe(s[4..]);
  }

  /** Numbers are stored least significant byte first. */
  lemma LittleEndian(n: u32, m: u64)
    ensures var s := U32Le(n); n == s[0] as int + 256 * (s[1] as int + 256 * (s[2] as int + 256 * (s[3] as int)))
    ensures var s := U64Le(m);
            m == s[0] as int + 256 * (s[1] as int + 256 * (s[2] as int + 256 * (s[3] as int +
                256 * (s[4] as int + 256 * (s[5] as int + 256 * (s[6] as int + 256 * (s[7] as int)))))))
  {
    Limits();
    FromToLe(n, 4);
    FromToLe(m, 8);
    FromLeFour(U32Le(n));
    FromLeFour(U64Le(m));
    FromLeFour(U64Le(m)[4..]);
    assert U32Le(n)[4..] == [] && U64Le(m)[4..][4..] == [];
    FromNothing();
  }

  /** A number below 256 in a field of eight bytes. */
  function Wide(n: byte): (s: seq<byte>)
    ensures |s| == 8
  {
    [n, 0, 0, 0, 0, 0, 0, 0]
  }

  lemma {:induction false} ZeroLe(k: nat)
    ensures ToLe(0, k) == seq(k, i => 0)
  {
    if k > 0 {
      ZeroLe(k - 1);
      assert [0] + seq(k - 1, i => 0) == seq(k, i => 0);
    }
  }

  lemma SmallNumber(n: byte)
    ensures U64Le(n) == Wide(n) && U32Le(n) == [n, 0, 0, 0]
  {
    ZeroLe(7);
    ZeroLe(3);
    assert n / 256 == 0 && n % 256 == n;
    assert [n] + seq(7, i => 0) == Wide(n);
    assert [n] + seq(3, i => 0) == [n, 0, 0, 0];
  }

  // ---- frames and files ---------------------------------------------------------------------------

  /** A frame is the length of the body, its checksum, and the body. */
  lemma FrameLayout(body: seq<byte>)
    requires |body| < 0x1_0000_0000
    ensures var f := FrameOf(body);
            && |f| == 8 + |body|
            && LeU32(f[..4]) == |body| && LeU32(f[4..8]) == Crc(body) && f[8..] == body
  {
    hide Crc;
    U32RoundTrip(|body|);
    U32RoundTrip(Crc(body));
    var f := FrameOf(body);
    assert f[..4] == U32Le(|body|) && f[4..8] == U32Le(Crc(body));
  }

  // ---- record bodies --------------------------------------------------------------------------------

  /** A body is the node's ID, a tag, and what the record holds. */
  lemma SmallBodies(node: NodeId, term: Term, vote: NodeId)
    ensures Body(NodeRecord(node, CurrentTerm(term))) == U64Le(node) + [0] + U64Le(term)
    ensures Body(NodeRecord(node, VotedFor(None))) == U64Le(node) + [1, 0]
    ensures Body(NodeRecord(node, VotedFor(Some(vote)))) == U64Le(node) + [1, 1] + U64Le(vote)
  {
    assert U64Le(node) + ([0] + U64Le(term)) == U64Le(node) + [0] + U64Le(term);
    assert U64Le(node) + ([1] + [0]) == U64Le(node) + [1, 0];
    assert U64Le(node) + ([1] + ([1] + U64Le(vote))) == U64Le(node) + [1, 1] + U64Le(vote);
  }

  const SAMPLE_CONFIG: ClusterConfig := Config({2, 1}, {3}, {})

  const SAMPLE_APPEND: Append :=
    LogAppend(Entries(LogPosition(3, 6), [TermEntry(5), ConfigEntry(SAMPLE_CONFIG), Command]),
              map[9 := Payload(4, [0xAA, 0xBB])])

  const SAMPLE_CHECKPOINT: Checkpoint :=
    Checkpoint(7, Some(8), Snapshot(LogPosition(3, 6), SAMPLE_CONFIG, [0xEE]), SAMPLE_APPEND)

  lemma Listed(s: set<u64>, xs: seq<u64>)
    requires Increasing(xs) && forall x :: x in xs <==> x in s
    ensures Ascending(s) == xs
  {
    AscendingIs(s);
    IncreasingUnique(Ascending(s), xs);
  }

  function SampleConfigBytes(): seq<byte> {
    [2, 0, 0, 0] + Wide(1) + Wide(2)
    + [1, 0, 0, 0] + Wide(3)
    + [0, 0, 0, 0]
  }

  lemma ConcatOne<T>(enc: T -> seq<byte>, x: T)
    ensures Concat(enc, [x]) == enc(x)
  {
    assert [x][1..] == [];
    assert enc(x) + [] == enc(x);
  }

  lemma ConcatTwo<T>(enc: T -> seq<byte>, x: T, y: T)
    ensures Concat(enc, [x, y]) == enc(x) + enc(y)
  {
    assert [x, y][1..] == [y];
    ConcatOne(enc, y);
  }

  lemma ConcatThree<T>(enc: T -> seq<byte>, x: T, y: T, z: T)
    ensures Concat(enc, [x, y, z]) == enc(x) + enc(y) + enc(z)
  {
    assert [x, y, z][1..] == [y, z];
    ConcatTwo(enc, y, z);
    assert enc(x) + (enc(y) + enc(z)) == enc(x) + enc(y) + enc(z);
  }

  lemma SampleConfigList()
    ensures ConfigList(SAMPLE_CONFIG) == Config([1, 2], [3], [])
  {
    hide Ascending;
    Listed({2, 1}, [1, 2]);
    Listed({3}, [3]);
    Listed({}, []);
  }

  lemma SampleConfigEncoding()
    ensures EncConfig(Config([1, 2], [3], [])) == SampleConfigBytes()
  {
    hide ToLe, Concat;
    SmallNumber(0);
    SmallNumber(1);
    SmallNumber(2);
    SmallNumber(3);
    ConcatTwo(EncId, 1, 2);
    ConcatOne(EncId, 3);
    ConcatNone(EncId);
    var a, b, c := EncIds([1, 2]), EncIds([3]), EncIds([]);
    assert a == [2, 0, 0, 0] + (Wide(1) + Wide(2));
    assert b == [1, 0, 0, 0] + Wide(3);
    assert c == [0, 0, 0, 0] + [];
    assert a + (b + c) == SampleConfigBytes();
  }

  lemma ConcatNone<T>(enc: T -> seq<byte>)
    ensures Concat(enc, []) == []
  {
  }

  function SampleAppendBytes(): seq<byte> {
    Wide(3) + Wide(6)
    + [3, 0, 0, 0]
    + [0] + Wide(5)
    + [1] + SampleConfigBytes()
    + [2]
    + [1, 0, 0, 0]
    + Wide(9) + [4] + [2, 0, 0, 0] + [0xAA, 0xBB]
  }

  lemma SampleEntries()
    ensures EncEntries(EntriesList(SAMPLE_APPEND.entries))
         == Wide(3) + Wide(6) + [3, 0, 0, 0] + [0] + Wide(5) + [1] + SampleConfigBytes() + [2]
  {
    hide ToLe, EncConfig, ConfigList, SampleConfigBytes;
    SampleConfigList();
    SampleConfigEncoding();
    SmallNumber(3);
    SmallNumber(5);
    SmallNumber(6);
    var config := Config([1, 2], [3], []);
    var list := EntriesList(SAMPLE_APPEND.entries).list;
    assert list == [TermEntry(5), ConfigEntry(config), Command];
    ConcatThree(EncEntry, TermEntry(5), ConfigEntry(config), Command);
  }

  lemma SamplePairs()
    ensures PairList(SAMPLE_APPEND.payloads) == [(9, Payload(4, [0xAA, 0xBB]))]
    ensures EncPair((9, Payload(4, [0xAA, 0xBB]))) == Wide(9) + [4] + [2, 0, 0, 0] + [0xAA, 0xBB]
  {
    hide ToLe;
    Listed({9}, [9]);
    assert SAMPLE_APPEND.payloads.Keys == {9};
    SmallNumber(9);
    SmallNumber(2);
  }

  lemma SampleAppend()
    ensures EncAppend(AppendList(SAMPLE_APPEND)) == SampleAppendBytes()
  {
    hide ToLe, EncEntries, EntriesList, PairList, EncPair, SampleConfigBytes;
    SampleEntries();
    SamplePairs();
    SmallNumber(1);
    ConcatOne(EncPair, (9, Payload(4, [0xAA, 0xBB])));
  }

  /** A log append, byte by byte. */
  lemma SampleAppendBody()
    ensures Body(NodeRecord(0x0807_0605_0403_0201, Record.Append(SAMPLE_APPEND)))
         == [1, 2, 3, 4, 5, 6, 7, 8] + [2] + SampleAppendBytes()
  {
    hide ToLe, EncAppend, AppendList, SampleAppendBytes;
    LeNode();
    SampleAppend();
  }

  function SampleSnapshotBytes(): seq<byte> {
    Wide(3) + Wide(6)
    + SampleConfigBytes()
    + [1, 0, 0, 0] + [0xEE]
  }

  lemma SampleSnapshot()
    ensures EncSnapshot(SnapshotList(SAMPLE_CHECKPOINT.snapshot)) == SampleSnapshotBytes()
  {
    hide ToLe, EncConfig, ConfigList, SampleConfigBytes;
    SampleConfigList();
    SampleConfigEncoding();
    SmallNumber(1);
    SmallNumber(3);
    SmallNumber(6);
  }

  /** A snapshot checkpoint, byte by byte. */
  lemma SampleCheckpointBody()
    ensures Body(NodeRecord(0x0807_0605_0403_0201, SnapshotCheckpoint(SAMPLE_CHECKPOINT)))
         == [1, 2, 3, 4, 5, 6, 7, 8] + [3] + Wide(7) + [1] + Wide(8) + SampleSnapshotBytes() + SampleAppendBytes()
  {
    hide U64Le, Wide, EncAppend, AppendList, EncSnapshot, SnapshotList, SampleSnapshotBytes, SampleAppendBytes;
    LeNode();
    SampleAppend();
    SampleSnapshot();
    SmallNumber(7);
    SmallNumber(8);
    JoinSeven([1, 2, 3, 4, 5, 6, 7, 8], [3], Wide(7), [1], Wide(8), SampleSnapshotBytes(), SampleAppendBytes());
  }

  lemma JoinSeven(a: seq<byte>, b: seq<byte>, c: seq<byte>, d: seq<byte>, e: seq<byte>, f: seq<byte>, g: seq<byte>)
    ensures a + (b + (c + ((d + e) + (f + g)))) == a + b + c + d + e + f + g
  {
  }

  lemma LeNode()
    ensures U64Le(0x0807_0605_0403_0201) == [1, 2, 3, 4, 5, 6, 7, 8]
  {
    hide FromLe, ToLe;
    var s: seq<byte> := [1, 2, 3, 4, 5, 6, 7, 8];
    ToFromLe(s);
    FromLeFour(s);
    FromLeFour(s[4..]);
    assert s[4..][4..] == [];
    FromNothing();
  }

  lemma FromNothing()
    ensures FromLe([]) == 0
  {
  }

  // ---- what can be encoded ----------------------------------------------------------------------------

  predicate ConfigFits(c: ClusterConfig) {
    |c.voters| <= 1_000_000 && |c.newVoters| <= 1_000_000 && |c.nonVoters| <= 1_000_000
  }

  ghost predicate AppendFits(a: Append) {
    && a.entries.prev.index + |a.entries.list| < 0x1_0000_0000_0000_0000
    && PayloadsMatch(a)
    && |a.entries.list| <= 1_000_000 && |a.payloads| <= 1_000_000
    && (forall x :: x in a.entries.list && x.ConfigEntry? ==> ConfigFits(x.config))
    && (forall i :: i in a.payloads ==> |a.payloads[i].bytes| <= 1024 * 1024 * 1024)
  }

  /** A record can be encoded exactly if its payloads match its entries, a checkpoint's suffix starts at
      its snapshot, no list is longer than a million, and the body is at most 1 GiB. */
  lemma EncodableExactly(n: NodeRecord)
    ensures Encodable(n) <==>
              && |Body(n)| <= 1024 * 1024 * 1024
              && match n.record
                 case Append(a) => AppendFits(a)
                 case SnapshotCheckpoint(c) =>
                   && AppendFits(c.suffix) && ConfigFits(c.snapshot.config)
                   && |c.snapshot.data| <= 1024 * 1024 * 1024
                   && c.suffix.entries.prev == c.snapshot.lastIncluded
                 case _ => true
  {
    hide Body, ValidAppend, AppendFits, SmallAppend, ConfigFits, SmallConfig, ConfigList, AppendList;
    match n.record
    case Append(a) => FitsExactly(a);
    case SnapshotCheckpoint(c) =>
      FitsExactly(c.suffix);
      SmallConfigExactly(c.snapshot.config);
    case _ =>
  }

  lemma SmallConfigExactly(c: ClusterConfig)
    ensures SmallConfig(ConfigList(c)) <==> ConfigFits(c)
  {
    AscendingIs(c.voters);
    AscendingIs(c.newVoters);
    AscendingIs(c.nonVoters);
  }

  lemma FitsExactly(a: Append)
    ensures ValidAppend(a) && SmallAppend(AppendList(a)) <==> AppendFits(a)
  {
    hide ValidAppend, PayloadsMatch, SmallConfig, ConfigFits, ConfigList, EntriesList, PairList;
    ValidIsMatching(a);
    EntriesFit(a.entries);
    PairsFit(a.payloads);
  }

  lemma EntriesFit(e: LogEntries)
    ensures SmallEntries(EntriesList(e)) <==>
              && e.prev.index + |e.list| < U64_LIMIT && |e.list| <= 1_000_000
              && forall x :: x in e.list && x.ConfigEntry? ==> ConfigFits(x.config)
  {
    hide SmallConfig, ConfigFits, ConfigList;
    var list := EntriesList(e).list;
    forall i | 0 <= i < |e.list|
      ensures SmallEntry(list[i]) <==> (e.list[i].ConfigEntry? ==> ConfigFits(e.list[i].config))
    {
      if e.list[i].ConfigEntry? {
        SmallConfigExactly(e.list[i].config);
      }
    }
    if forall x :: x in list ==> SmallEntry(x) {
      forall x | x in e.list && x.ConfigEntry? ensures ConfigFits(x.config) {
        var i :| 0 <= i < |e.list| && e.list[i] == x;
        assert list[i] in list;
      }
    }
  }

  lemma PairsFit(m: PayloadMap)
    ensures |PairList(m)| == |m|
    ensures (forall p :: p in PairList(m) ==> SmallPair(p)) <==>
              forall i :: i in m ==> |m[i].bytes| <= 1024 * 1024 * 1024
  {
    var ps := PairList(m);
    AscendingIs(m.Keys);
    assert |ps| == |KeysOf(ps)| == |m.Keys|;
    forall k | k in m ensures (k, m[k]) in ps {
      assert k in KeysOf(ps);
      var i :| 0 <= i < |ps| && KeysOf(ps)[i] == k;
      assert ps[i] == (k, m[k]);
    }
    if forall p :: p in ps ==> SmallPair(p) {
      forall i | i in m ensures |m[i].bytes| <= MAX_RECORD_BODY_LEN {
        assert SmallPair((i, m[i]));
      }
    } else {
      var p :| p in ps && !SmallPair(p);
      assert p.0 in m && m[p.0] == p.1;
    }
  }
}
