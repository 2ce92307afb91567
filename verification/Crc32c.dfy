/** The CRC-32C checksum: the bit-at-a-time definition of section 12.1 of
    RFC 3720, and the slice-by-16 table code proved equal to it. */
module Checksum {
  import opened Words

  const POLYNOMIAL: bv32 := 0x82F6_3B78
  const SLICE: nat := 16
  const ALL_ONES: bv32 := 0xFFFF_FFFF

  // ---- bit-at-a-time definition ----------------------------------------------

  /** One step of the reflected shift register. */
  function Step(x: bv32): bv32 {
    if x & 1 == 0 then x >> 1 else (x >> 1) ^ POLYNOMIAL
  }

  function Steps(n: nat, x: bv32): bv32
    decreases n
  {
    if n == 0 then x else Steps(n - 1, Step(x))
  }

  /** Named so that proofs can `hide` it and reason by its laws alone. */
  function Xor(x: bv32, y: bv32): bv32 {
    x ^ y
  }

  /** Feeding bytes into the register, eight steps a byte. */
  function Feed(state: bv32, data: seq<byte>): bv32
    decreases |data|
  {
    if data == [] then state else Feed(Steps(8, Xor(state, Bits(data[0]))), data[1..])
  }

  /** The checksum of a byte string. */
  function Crc(data: seq<byte>): u32 {
    Finish(Feed(ALL_ONES, data))
  }

  function Finish(state: bv32): u32 {
    BvValue(!state)
  }

  lemma {:induction false} FeedConcat(state: bv32, a: seq<byte>, b: seq<byte>)
    ensures Feed(state, a + b) == Feed(Feed(state, a), b)
    decreases |a|
  {
    hide Xor;
    if a == [] {
      assert a + b == b;
    } else {
      assert (a + b)[1..] == a[1..] + b;
      FeedConcat(Steps(8, Xor(state, Bits(a[0]))), a[1..], b);
    }
  }

  // ---- the register is linear over GF(2) and invertible -----------------------

  lemma ShiftXor(x: bv32, y: bv32)
    ensures (x ^ y) >> 1 == (x >> 1) ^ (y >> 1)
    ensures (x ^ y) & 1 == (x & 1) ^ (y & 1)
    ensures x & 1 == 0 || x & 1 == 1
    ensures y & 1 == 0 || y & 1 == 1
  {
  }

  lemma StepXor(x: bv32, y: bv32)
    ensures Step(Xor(x, y)) == Xor(Step(x), Step(y))
  {
    StepXorBits(x, y);
  }

  lemma StepXorBits(x: bv32, y: bv32)
    ensures Step(x ^ y) == Step(x) ^ Step(y)
  {
    ShiftXor(x, y);
    var a, b, p := x >> 1, y >> 1, POLYNOMIAL;
    if x & 1 == 0 {
      assert a ^ (b ^ p) == (a ^ b) ^ p;
    } else if y & 1 == 0 {
      assert (a ^ p) ^ b == (a ^ b) ^ p;
    } else {
      assert (a ^ p) ^ (b ^ p) == a ^ b;
    }
  }

  lemma {:induction false} StepsXor(n: nat, x: bv32, y: bv32)
    ensures Steps(n, Xor(x, y)) == Xor(Steps(n, x), Steps(n, y))
    decreases n
  {
    hide Xor, Step;
    if n > 0 {
      StepXor(x, y);
      StepsXor(n - 1, Step(x), Step(y));
    }
  }

  lemma {:induction false} StepsAdd(m: nat, n: nat, x: bv32)
    ensures Steps(m + n, x) == Steps(n, Steps(m, x))
    decreases m
  {
    hide Step;
    if m > 0 {
      StepsAdd(m - 1, n, Step(x));
    }
  }

  lemma StepInjective(x: bv32, y: bv32)
    requires Step(x) == Step(y)
    ensures x == y
  {
    StepXor(x, y);
    var d := x ^ y;
    assert Step(d) == 0;
    assert d == 0;
  }

  /** The register can be run backwards: equal states had equal predecessors. */
  lemma {:induction false} StepsInjective(n: nat, x: bv32, y: bv32)
    requires Steps(n, x) == Steps(n, y)
    ensures x == y
    decreases n
  {
    hide Step;
    if n > 0 {
      StepsInjective(n - 1, Step(x), Step(y));
      StepInjective(x, y);
    }
  }

  lemma ClearLowByte(x: bv32)
    requires x & 0xFF == 0
    ensures x & 1 == 0 && (x >> 1) & 1 == 0 && (x >> 2) & 1 == 0 && (x >> 3) & 1 == 0
    ensures (x >> 4) & 1 == 0 && (x >> 5) & 1 == 0 && (x >> 6) & 1 == 0 && (x >> 7) & 1 == 0
    ensures (x >> 1) >> 1 == x >> 2 && (x >> 2) >> 1 == x >> 3 && (x >> 3) >> 1 == x >> 4
    ensures (x >> 4) >> 1 == x >> 5 && (x >> 5) >> 1 == x >> 6 && (x >> 6) >> 1 == x >> 7
    ensures (x >> 7) >> 1 == x >> 8
  {
  }

  lemma EightSteps(x: bv32)
    ensures Steps(8, x) == Step(Step(Step(Step(Step(Step(Step(Step(x))))))))
  {
    hide Step;
    var x2 := Step(Step(x));
    var x4 := Step(Step(x2));
    var x6 := Step(Step(x4));
    assert Steps(2, x6) == Step(Step(x6));
    assert Steps(4, x4) == Steps(2, x6);
    assert Steps(6, x2) == Steps(4, x4);
    assert Steps(8, x) == Steps(6, x2);
  }

  /** Eight steps move a word with a clear low byte one byte down. */
  lemma EightStepsShift(x: bv32)
    requires x & 0xFF == 0
    ensures Steps(8, x) == x >> 8
  {
    EightSteps(x);
    ClearLowByte(x);
  }

  lemma UpByte(r: bv32, up: bv32)
    requires r >> 24 == 0 && up == r << 8
    ensures up & 0xFF == 0 && up >> 8 == r
  {
  }

  /** A word moved up a byte takes eight steps more. */
  lemma StepsShift(n: nat, r: bv32)
    requires r >> 24 == 0
    ensures Steps(8 + n, r << 8) == Steps(n, r)
  {
    hide Step;
    var up := r << 8;
    UpByte(r, up);
    EightStepsShift(up);
    StepsAdd(8, n, up);
  }

  // ---- words of four bytes -----------------------------------------------------

  /** `u32::from_le_bytes`, for up to four bytes. */
  function LeWord(s: seq<byte>): bv32 {
    if s == [] then 0 else Bits(s[0]) | (LeWord(s[1..]) << 8)
  }

  lemma LeWordBound(s: seq<byte>)
    requires |s| <= 3
    ensures LeWord(s) >> 24 == 0
    ensures |s| <= 2 ==> LeWord(s) >> 16 == 0
    ensures |s| <= 1 ==> LeWord(s) >> 8 == 0
  {
    hide Bits;
    if s != [] {
      LeWordBound(s[1..]);
      ByteBits(s[0]);
      OrByteBound(Bits(s[0]), LeWord(s[1..]));
    }
  }

  lemma OrZeroBound(b: bv32, r: bv32)
    requires b & 0xFF == b
    ensures r == 0 ==> (b | (r << 8)) >> 8 == 0
  {
  }

  lemma OrOneByte(b: bv32, r: bv32)
    requires b & 0xFF == b
    ensures r >> 8 == 0 ==> (b | (r << 8)) >> 16 == 0
  {
  }

  lemma OrTwoBytes(b: bv32, r: bv32)
    requires b & 0xFF == b
    ensures r >> 16 == 0 ==> (b | (r << 8)) >> 24 == 0
  {
  }

  lemma OrLowByte(b: bv32, r: bv32)
    requires b & 0xFF == b
    ensures (b | (r << 8)) & 0xFF == b
  {
  }

  lemma OrIsXor(b: bv32, r: bv32)
    requires b & 0xFF == b
    ensures b | (r << 8) == b ^ (r << 8)
  {
  }

  lemma OrHighBytes(b: bv32, r: bv32)
    requires b & 0xFF == b
    ensures r >> 24 == 0 ==> (b | (r << 8)) >> 8 == r
  {
  }

  /** A byte below a word that was moved up a byte. */
  lemma OrByteBound(b: bv32, r: bv32)
    requires b & 0xFF == b
    ensures r == 0 ==> (b | (r << 8)) >> 8 == 0
    ensures r >> 8 == 0 ==> (b | (r << 8)) >> 16 == 0
    ensures r >> 16 == 0 ==> (b | (r << 8)) >> 24 == 0
    ensures (b | (r << 8)) & 0xFF == b
    ensures b | (r << 8) == b ^ (r << 8)
    ensures r >> 24 == 0 ==> (b | (r << 8)) >> 8 == r
  {
    OrZeroBound(b, r);
    OrOneByte(b, r);
    OrTwoBytes(b, r);
    OrLowByte(b, r);
    OrIsXor(b, r);
    OrHighBytes(b, r);
  }

  lemma XorSplit(c: bv32, b: bv32, r: bv32)
    requires b & 0xFF == b && r >> 24 == 0
    ensures Xor(c, b | (r << 8)) == Xor(Xor(c, b), r << 8)
  {
    OrByteBound(b, r);
  }

  lemma XorZero(c: bv32)
    ensures Xor(c, 0) == c && Xor(0, c) == c
  {
  }

  lemma StepsWordByte(n: nat, c: bv32, b: bv32, r: bv32)
    requires b & 0xFF == b && r >> 24 == 0
    ensures Steps(8 + n, Xor(c, b | (r << 8))) == Steps(n, Xor(Steps(8, Xor(c, b)), r))
  {
    hide Step, Steps, Xor;
    XorSplit(c, b, r);
    StepsXor(8 + n, Xor(c, b), r << 8);
    StepsShift(n, r);
    StepsAdd(8, n, Xor(c, b));
    StepsXor(n, Steps(8, Xor(c, b)), r);
  }

  lemma LeWordHead(s: seq<byte>)
    requires s != []
    ensures LeWord(s) == Bits(s[0]) | (LeWord(s[1..]) << 8)
  {
    hide Bits;
  }

  lemma StepsOfWord(c: bv32, s: seq<byte>)
    requires 0 < |s| <= 4
    ensures Steps(8 * |s|, Xor(c, LeWord(s)))
         == Steps(8 * (|s| - 1), Xor(Steps(8, Xor(c, Bits(s[0]))), LeWord(s[1..])))
  {
    hide Xor, Step, Steps, Bits, LeWord;
    ByteBits(s[0]);
    LeWordBound(s[1..]);
    LeWordHead(s);
    StepsWordByte(8 * (|s| - 1), c, Bits(s[0]), LeWord(s[1..]));
  }

  /** Feeding up to four bytes is one run of the register over the word they form. */
  lemma {:induction false} FeedWord(c: bv32, s: seq<byte>)
    requires |s| <= 4
    ensures Feed(c, s) == Steps(8 * |s|, Xor(c, LeWord(s)))
    decreases |s|
  {
    hide Xor, Step, Bits;
    if s == [] {
      XorZero(c);
    } else {
      hide Steps, LeWord;
      StepsOfWord(c, s);
      FeedWord(Steps(8, Xor(c, Bits(s[0]))), s[1..]);
    }
  }

  lemma WordHeadTail(s: seq<byte>)
    requires 0 < |s| <= 4
    ensures LeWord(s) & 0xFF == Bits(s[0]) && LeWord(s) >> 8 == LeWord(s[1..])
  {
    hide Bits;
    ByteBits(s[0]);
    LeWordBound(s[1..]);
    OrByteBound(Bits(s[0]), LeWord(s[1..]));
  }

  /** The bytes of a word can be read back off it. */
  lemma {:induction false} LeWordInjective(s: seq<byte>, t: seq<byte>)
    requires |s| == |t| <= 4 && LeWord(s) == LeWord(t)
    ensures s == t
    decreases |s|
  {
    hide Bits, LeWord, BvValue;
    if s != [] {
      WordHeadTail(s);
      WordHeadTail(t);
      ByteBits(s[0]);
      ByteBits(t[0]);
      LeWordInjective(s[1..], t[1..]);
      assert s == [s[0]] + s[1..] && t == [t[0]] + t[1..];
    }
  }

  lemma XorCancel(c: bv32, x: bv32, y: bv32)
    requires Xor(c, x) == Xor(c, y)
    ensures x == y
  {
    assert c ^ (c ^ x) == x && c ^ (c ^ y) == y;
  }

  lemma {:induction false} FeedInjective(c: bv32, d: bv32, s: seq<byte>)
    requires Feed(c, s) == Feed(d, s)
    ensures c == d
    decreases |s|
  {
    hide Xor, Step, Bits;
    if s != [] {
      var b := Bits(s[0]);
      FeedInjective(Steps(8, Xor(c, b)), Steps(8, Xor(d, b)), s[1..]);
      StepsInjective(8, Xor(c, b), Xor(d, b));
      XorComm(c, b);
      XorComm(d, b);
      XorCancel(b, c, d);
    }
  }

  lemma XorComm(c: bv32, d: bv32)
    ensures Xor(c, d) == Xor(d, c)
  {
  }

  lemma FinishInjective(x: bv32, y: bv32)
    requires Finish(x) == Finish(y)
    ensures x == y
  {
    hide BvValue;
    BvValueInjective(!x, !y);
    assert !(!x) == x && !(!y) == y;
  }

  lemma CrcInjective(s: seq<byte>, t: seq<byte>)
    requires Crc(s) == Crc(t)
    ensures Feed(ALL_ONES, s) == Feed(ALL_ONES, t)
  {
    hide Feed, Finish;
    FinishInjective(Feed(ALL_ONES, s), Feed(ALL_ONES, t));
  }

  lemma WindowInjective(c: bv32, a: seq<byte>, b: seq<byte>)
    requires |a| == |b| <= 4 && Feed(c, a) == Feed(c, b)
    ensures a == b
  {
    hide Feed, Step, Steps, Xor, LeWord;
    FeedWord(c, a);
    FeedWord(c, b);
    StepsInjective(8 * |a|, Xor(c, LeWord(a)), Xor(c, LeWord(b)));
    XorCancel(c, LeWord(a), LeWord(b));
    LeWordInjective(a, b);
  }

  /** Two byte strings that differ, and differ only inside one window of at most
      four bytes, have different checksums. */
  lemma BurstDetected(pre: seq<byte>, a: seq<byte>, b: seq<byte>, post: seq<byte>)
    requires |a| == |b| <= 4 && a != b
    ensures Crc(pre + a + post) != Crc(pre + b + post)
  {
    hide Feed, Crc;
    if Crc(pre + a + post) == Crc(pre + b + post) {
      var c := Feed(ALL_ONES, pre);
      CrcInjective(pre + a + post, pre + b + post);
      FeedConcat(ALL_ONES, pre + a, post);
      FeedConcat(ALL_ONES, pre + b, post);
      FeedConcat(ALL_ONES, pre, a);
      FeedConcat(ALL_ONES, pre, b);
      FeedInjective(Feed(c, a), Feed(c, b), post);
      WindowInjective(c, a, b);
    }
  }

  // ---- tables --------------------------------------------------------------------

  /** Entry `i` of table `k`: the effect of byte `i` followed by `k` zero bytes. */
  function Entry(k: nat, i: byte): bv32 {
    Steps(8 * (k + 1), Bits(i))
  }

  ghost predicate IsTable(table: array2<bv32>)
    reads table
  {
    && table.Length0 == SLICE && table.Length1 == 256
    && forall k, i :: 0 <= k < SLICE && 0 <= i < 256 ==> table[k, i] == Entry(k, i)
  }

  /** Table `k` entry `i` says what byte `i` and then `k` zero bytes do to a clear register. */
  lemma {:induction false} EntryMeaning(k: nat, i: byte)
    ensures Entry(k, i) == Feed(0, [i] + Zeros(k))
  {
    hide Step, Xor, Bits;
    XorZero(Bits(i));
    assert ([i] + Zeros(k))[1..] == Zeros(k);
    FeedZeros(Steps(8, Bits(i)), k);
    StepsAdd(8, 8 * k, Bits(i));
  }

  function Zeros(k: nat): seq<byte> {
    seq(k, _ => 0)
  }

  lemma {:induction false} FeedZeros(c: bv32, k: nat)
    ensures Feed(c, Zeros(k)) == Steps(8 * k, c)
    decreases k
  {
    hide Step, Xor;
    if k > 0 {
      assert Zeros(k)[1..] == Zeros(k - 1);
      XorZero(c);
      FeedZeros(Steps(8, c), k - 1);
      StepsAdd(8, 8 * (k - 1), c);
    }
  }

  lemma SplitByte(x: bv32)
    ensures (x & 0xFF) & 0xFF == x & 0xFF
    ensures (x >> 8) >> 24 == 0
    ensures x == (x & 0xFF) ^ ((x >> 8) << 8)
  {
  }

  function Low(x: bv32): bv32 {
    x & 0xFF
  }

  function High(x: bv32): bv32 {
    x >> 8
  }

  /** One table lookup replaces eight steps on the low byte. */
  lemma StepsByByte(n: nat, x: bv32)
    ensures Steps(8 + n, x) == Xor(Steps(8 + n, Low(x)), Steps(n, High(x)))
  {
    hide Step, Steps;
    var lo, hi := x & 0xFF, x >> 8;
    SplitByte(x);
    assert x == Xor(lo, hi << 8);
    StepsXor(8 + n, lo, hi << 8);
    StepsShift(n, hi);
  }

  function Index(x: bv32): (i: byte)
    requires x & 0xFF == x
    ensures Bits(i) == x
  {
    ByteWord(x);
    BvValue(x)
  }

  lemma ByteMasks(w: bv32)
    ensures (w & 0xFF) & 0xFF == w & 0xFF
    ensures ((w >> 8) & 0xFF) & 0xFF == (w >> 8) & 0xFF
    ensures ((w >> 16) & 0xFF) & 0xFF == (w >> 16) & 0xFF
    ensures (w >> 24) & 0xFF == w >> 24
    ensures (w >> 8) >> 8 == w >> 16 && (w >> 16) >> 8 == w >> 24
  {
  }

  /** Byte `j` of a word, as `update` extracts it to index a table. */
  function Lane(j: nat, w: bv32): byte
    requires j < 4
  {
    ByteMasks(w);
    match j
    case 0 => Index(w & 0xFF)
    case 1 => Index((w >> 8) & 0xFF)
    case 2 => Index((w >> 16) & 0xFF)
    case _ => Index(w >> 24)
  }

  /** The four lookups `update` makes for one word, `k` words before the last. */
  function Lookup(k: nat, w: bv32): bv32
    requires k < 4
  {
    Xor(Entry(4 * k + 3, Lane(0, w)),
        Xor(Entry(4 * k + 2, Lane(1, w)), Xor(Entry(4 * k + 1, Lane(2, w)), Entry(4 * k, Lane(3, w)))))
  }

  lemma LaneBits(w: bv32)
    ensures Bits(Lane(0, w)) == Low(w)
    ensures Bits(Lane(1, w)) == Low(High(w))
    ensures Bits(Lane(2, w)) == Low(High(High(w)))
    ensures Bits(Lane(3, w)) == High(High(High(w)))
  {
    hide Bits, BvValue;
    ByteMasks(w);
  }

  lemma LaneEntries(k: nat, w: bv32)
    ensures Entry(4 * k + 3, Lane(0, w)) == Steps(32 * k + 32, Low(w))
    ensures Entry(4 * k + 2, Lane(1, w)) == Steps(32 * k + 24, Low(High(w)))
    ensures Entry(4 * k + 1, Lane(2, w)) == Steps(32 * k + 16, Low(High(High(w))))
    ensures Entry(4 * k, Lane(3, w)) == Steps(32 * k + 8, High(High(High(w))))
  {
    hide Steps, Step, Bits, Lane, Low, High;
    LaneBits(w);
  }

  lemma StepsByBytes(n: nat, w: bv32)
    ensures Steps(n + 32, w)
         == Xor(Steps(n + 32, Low(w)),
                Xor(Steps(n + 24, Low(High(w))),
                    Xor(Steps(n + 16, Low(High(High(w)))), Steps(n + 8, High(High(High(w)))))))
  {
    hide Step, Steps, Xor, Low, High;
    StepsByByte(n + 24, w);
    StepsByByte(n + 16, High(w));
    StepsByByte(n + 8, High(High(w)));
  }

  lemma LookupIsSteps(k: nat, w: bv32)
    requires k < 4
    ensures Lookup(k, w) == Steps(32 * k + 32, w)
  {
    hide Step, Steps, Xor, Entry, Lane, Low, High;
    LaneEntries(k, w);
    StepsByBytes(32 * k, w);
  }

  lemma FeedFour(c: bv32, s: seq<byte>)
    requires |s| == 4
    ensures Feed(c, s) == Xor(Steps(32, c), Steps(32, LeWord(s)))
  {
    hide Step, Steps, Xor, LeWord, Feed;
    FeedWord(c, s);
    StepsXor(32, c, LeWord(s));
  }

  function Slices(w0: bv32, w1: bv32, w2: bv32, w3: bv32): bv32 {
    Xor(Lookup(3, w0), Xor(Lookup(2, w1), Xor(Lookup(1, w2), Lookup(0, w3))))
  }

  lemma XorAssoc(a: bv32, b: bv32, c: bv32)
    ensures Xor(Xor(a, b), c) == Xor(a, Xor(b, c))
  {
  }

  /** Sixteen bytes fed one after another are sixteen lookups. */
  lemma FeedSlice(c: bv32, s: seq<byte>)
    requires |s| == 16
    ensures Feed(c, s) == Slices(Xor(LeWord(s[..4]), c), LeWord(s[4..8]), LeWord(s[8..12]), LeWord(s[12..]))
  {
    hide Step, Steps, Xor, LeWord, Feed, Lookup;
    var w0, w1, w2, w3 := LeWord(s[..4]), LeWord(s[4..8]), LeWord(s[8..12]), LeWord(s[12..]);
    FeedParts(c, s);
    var x := Xor(w0, c);
    XorComm(w0, c);
    FeedWord(c, s[..4]);
    var s1 := Steps(32, x);
    var s2 := Xor(Steps(64, x), Steps(32, w1));
    var s3 := Xor(Steps(96, x), Xor(Steps(64, w1), Steps(32, w2)));
    FeedFour(s1, s[4..8]);
    StepsAdd(32, 32, x);
    assert Feed(s1, s[4..8]) == s2;
    FeedFour(s2, s[8..12]);
    StepsXor(32, Steps(64, x), Steps(32, w1));
    StepsAdd(64, 32, x);
    StepsAdd(32, 32, w1);
    XorAssoc(Steps(96, x), Steps(64, w1), Steps(32, w2));
    assert Feed(s2, s[8..12]) == s3;
    FeedFour(s3, s[12..]);
    StepsXor(32, Steps(96, x), Xor(Steps(64, w1), Steps(32, w2)));
    StepsXor(32, Steps(64, w1), Steps(32, w2));
    StepsAdd(96, 32, x);
    StepsAdd(64, 32, w1);
    StepsAdd(32, 32, w2);
    XorAssoc(Steps(128, x), Xor(Steps(96, w1), Steps(64, w2)), Steps(32, w3));
    XorAssoc(Steps(96, w1), Steps(64, w2), Steps(32, w3));
    LookupIsSteps(3, x);
    LookupIsSteps(2, w1);
    LookupIsSteps(1, w2);
    LookupIsSteps(0, w3);
  }

  lemma FeedParts(c: bv32, s: seq<byte>)
    requires |s| == 16
    ensures Feed(c, s) == Feed(Feed(Feed(Feed(c, s[..4]), s[4..8]), s[8..12]), s[12..])
  {
    hide Feed;
    assert s == s[..12] + s[12..] && s[..12] == s[..8] + s[8..12] && s[..8] == s[..4] + s[4..8];
    FeedConcat(c, s[..12], s[12..]);
    FeedConcat(c, s[..8], s[8..12]);
    FeedConcat(c, s[..4], s[4..8]);
  }

  lemma XorOfFour(a: bv32, b: bv32, c: bv32, d: bv32)
    ensures Xor(a, Xor(b, Xor(c, d))) == a ^ b ^ c ^ d
  {
  }

  lemma LowXorByte(c: bv32, b: bv32)
    requires b & 0xFF == b
    ensures High(Xor(c, b)) == High(c)
    ensures Low(Xor(c, b)) & 0xFF == Low(Xor(c, b))
  {
  }

  lemma EntryZero(x: bv32)
    requires x & 0xFF == x
    ensures Entry(0, Index(x)) == Steps(8, x)
  {
    hide Steps, Step, Bits, BvValue;
  }

  lemma FeedOne(c: bv32, b: byte)
    ensures Feed(c, [b]) == Steps(8, Xor(c, Bits(b)))
  {
    hide Steps, Step, Bits, Xor;
  }

  /** One byte through table 0. */
  lemma FeedByte(c: bv32, b: byte)
    ensures Low(Xor(c, Bits(b))) & 0xFF == Low(Xor(c, Bits(b)))
    ensures Feed(c, [b]) == Xor(High(c), Entry(0, Index(Low(Xor(c, Bits(b))))))
  {
    hide Step, Bits, Low, High, Xor, Index, Entry;
    ByteBits(b);
    var x := Xor(c, Bits(b));
    LowXorByte(c, Bits(b));
    StepsByByte(0, x);
    EntryZero(Low(x));
    XorComm(Steps(8, Low(x)), High(x));
    FeedOne(c, b);
  }

  // ---- the code ------------------------------------------------------------------

  /** Table `k` from table `k - 1` and table 0. */
  lemma NextEntry(k: nat, i: byte, prev: bv32)
    requires k > 0 && prev == Entry(k - 1, i)
    ensures Low(prev) & 0xFF == Low(prev)
    ensures Entry(k, i) == Xor(High(prev), Entry(0, Index(Low(prev))))
  {
    hide Step, Steps, Bits, Xor, Low, High, Index;
    LowIsByte(prev);
    StepsAdd(8 * k, 8, Bits(i));
    StepsByByte(0, prev);
    StepsNone(High(prev));
    EntryZero(Low(prev));
    XorComm(Steps(8, Low(prev)), High(prev));
  }

  lemma StepsNone(x: bv32)
    ensures Steps(0, x) == x
  {
  }

  lemma LowIsByte(x: bv32)
    ensures Low(x) & 0xFF == Low(x)
  {
  }

  /** The eight conditional shifts that make one entry of table 0. */
  method EightShifts(i: byte) returns (crc: bv32)
    ensures crc == Entry(0, i)
  {
    hide Bits;
    crc := Bits(i);
    var bit := 0;
    while bit < 8
      invariant 0 <= bit <= 8
      invariant Steps(8 - bit, crc) == Entry(0, i)
    {
      crc := if crc & 1 == 0 then crc >> 1 else (crc >> 1) ^ POLYNOMIAL;
      bit := bit + 1;
    }
  }

  /** Fills the sixteen tables. */
  method MakeTable() returns (table: array2<bv32>)
    ensures fresh(table) && IsTable(table)
  {
    hide Entry, Low, High, Xor, Index;
    table := new bv32[SLICE, 256];
    var i := 0;
    while i < 256
      invariant 0 <= i <= 256
      invariant forall j :: 0 <= j < i ==> table[0, j] == Entry(0, j)
    {
      var crc := EightShifts(i);
      table[0, i] := crc;
      i := i + 1;
    }

    var slice := 1;
    while slice < SLICE
      invariant 1 <= slice <= SLICE
      invariant forall k, j :: 0 <= k < slice && 0 <= j < 256 ==> table[k, j] == Entry(k, j)
    {
      i := 0;
      while i < 256
        invariant 0 <= i <= 256
        invariant forall k, j :: 0 <= k < slice && 0 <= j < 256 ==> table[k, j] == Entry(k, j)
        invariant forall j :: 0 <= j < i ==> table[slice, j] == Entry(slice, j)
      {
        var prev := table[slice - 1, i];
        NextEntry(slice, i, prev);
        table[slice, i] := Xor(High(prev), table[0, Index(Low(prev))]);
        i := i + 1;
      }
      slice := slice + 1;
    }
  }

  /** Streaming checksum. */
  class Crc32c {
    const table: array2<bv32>
    var state: bv32

    ghost predicate Valid()
      reads this, table
    {
      IsTable(table)
    }

    constructor (table: array2<bv32>)
      requires IsTable(table)
      ensures Valid() && this.table == table && state == ALL_ONES
    {
      this.table := table;
      state := ALL_ONES;
    }

    /** The four table reads for one word, `k` words before the last of a slice. */
    method LookUpWord(k: nat, w: bv32) returns (x: bv32)
      requires Valid() && k < 4
      ensures x == Lookup(k, w)
    {
      hide Entry, Lane, Xor;
      var a, b, c, d := table[4 * k + 3, Lane(0, w)], table[4 * k + 2, Lane(1, w)],
                        table[4 * k + 1, Lane(2, w)], table[4 * k, Lane(3, w)];
      x := a ^ b ^ c ^ d;
      XorOfFour(a, b, c, d);
    }

    /** Feeds more bytes into the checksum. */
    method Update(data: seq<byte>)
      requires Valid()
      modifies this`state
      ensures Valid() && state == Feed(old(state), data)
    {
      hide Feed, Entry, Lookup, Low, High, Xor, Index, LeWord, Slices, Bits;
      var crc := state;
      var i := 0;
      FeedNone(state, data);
      while i + SLICE <= |data|
        invariant 0 <= i <= |data|
        invariant state == old(state) && crc == Feed(state, data[..i])
      {
        var w0 := Xor(LeWord(data[i..i + 4]), crc);
        var w1 := LeWord(data[i + 4..i + 8]);
        var w2 := LeWord(data[i + 8..i + 12]);
        var w3 := LeWord(data[i + 12..i + 16]);
        FeedChunk(state, data, i);
        var x0 := LookUpWord(3, w0);
        var x1 := LookUpWord(2, w1);
        var x2 := LookUpWord(1, w2);
        var x3 := LookUpWord(0, w3);
        crc := x0 ^ x1 ^ x2 ^ x3;
        XorOfFour(x0, x1, x2, x3);
        SlicesAre(w0, w1, w2, w3);
        i := i + SLICE;
      }

      while i < |data|
        invariant 0 <= i <= |data|
        invariant state == old(state) && crc == Feed(state, data[..i])
      {
        FeedByte(crc, data[i]);
        FeedPrefix(state, data, i);
        crc := Xor(High(crc), table[0, Index(Low(Xor(crc, Bits(data[i]))))]);
        i := i + 1;
      }
      assert data[..i] == data;
      state := crc;
    }

    /** The checksum of the bytes fed so far. */
    function Value(): u32
      reads this
    {
      Finish(state)
    }
  }

  lemma FeedNone(c: bv32, data: seq<byte>)
    ensures Feed(c, data[..0]) == c
  {
  }

  lemma SlicesAre(w0: bv32, w1: bv32, w2: bv32, w3: bv32)
    ensures Slices(w0, w1, w2, w3) == Xor(Lookup(3, w0), Xor(Lookup(2, w1), Xor(Lookup(1, w2), Lookup(0, w3))))
  {
    hide Lookup, Xor;
  }

  lemma FeedPrefix(c: bv32, data: seq<byte>, i: nat)
    requires i < |data|
    ensures Feed(c, data[..i + 1]) == Feed(Feed(c, data[..i]), [data[i]])
  {
    hide Feed;
    assert data[..i + 1] == data[..i] + [data[i]];
    FeedConcat(c, data[..i], [data[i]]);
  }

  lemma SubSlice(data: seq<byte>, i: nat, from: nat, to: nat)
    requires i + 16 <= |data| && from <= to <= 16
    ensures data[i..i + 16][from..to] == data[i + from..i + to]
  {
    var s := data[i..i + 16];
    assert forall k :: 0 <= k < to - from ==> s[from..to][k] == s[from + k] == data[i + from..i + to][k];
  }

  lemma FeedChunk(c: bv32, data: seq<byte>, i: nat)
    requires i + 16 <= |data|
    ensures Feed(c, data[..i + 16])
         == Slices(Xor(LeWord(data[i..i + 4]), Feed(c, data[..i])),
                   LeWord(data[i + 4..i + 8]), LeWord(data[i + 8..i + 12]), LeWord(data[i + 12..i + 16]))
  {
    hide Feed, Slices, LeWord, Xor;
    var s := data[i..i + 16];
    assert data[..i + 16] == data[..i] + s;
    FeedConcat(c, data[..i], s);
    FeedSlice(Feed(c, data[..i]), s);
    SubSlice(data, i, 0, 4);
    SubSlice(data, i, 4, 8);
    SubSlice(data, i, 8, 12);
    SubSlice(data, i, 12, 16);
  }

  /** The one-shot checksum. */
  method Crc32cOf(data: seq<byte>, table: array2<bv32>) returns (value: u32)
    requires IsTable(table)
    ensures value == Crc(data)
  {
    hide Feed, Entry, Finish;
    var crc := new Crc32c(table);
    crc.Update(data);
    value := crc.Value();
  }
}
