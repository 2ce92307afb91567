/** CRC-32C one bit at a time, and the burst errors it always detects: any
    difference confined to 32 consecutive bits, wherever it starts. Bits are taken
    in the order the register takes them, the lowest of each byte first. */
module Bursts {
  import opened Words
  import opened Checksum

  function Bit(b: bool): bv32 {
    if b then 1 else 0
  }

  function FeedBits(state: bv32, bits: seq<bool>): bv32
    decreases |bits|
  {
    if bits == [] then state else FeedBits(Step(Xor(state, Bit(bits[0]))), bits[1..])
  }

  /** The `k` lowest bits of a number, lowest first. */
  function BitsFrom(n: nat, k: nat): (bits: seq<bool>)
    ensures |bits| == k
  {
    if k == 0 then [] else [n % 2 == 1] + BitsFrom(n / 2, k - 1)
  }

  function BitsOf(data: seq<byte>): (bits: seq<bool>)
    ensures |bits| == 8 * |data|
  {
    if data == [] then [] else BitsFrom(data[0], 8) + BitsOf(data[1..])
  }

  /** A bit below a word that was moved up a bit. */
  function Join(b: bool, r: bv32): bv32 {
    Xor(Bit(b), Up(r))
  }

  function Up(r: bv32): bv32 {
    r << 1
  }

  predicate TopClear(w: bv32) {
    w >> 31 == 0
  }

  /** The word that a list of at most 32 bits forms. */
  function WordOf(bits: seq<bool>): bv32 {
    if bits == [] then 0 else Join(bits[0], WordOf(bits[1..]))
  }

  // ---- a word of bits ---------------------------------------------------------------------

  lemma LowBitTail(b: bv32, r: bv32)
    requires (b == 0 || b == 1) && r >> 31 == 0
    ensures (b ^ (r << 1)) >> 1 == r
  {
  }

  lemma LowBitHead(b: bv32, r: bv32)
    requires b == 0 || b == 1
    ensures (b ^ (r << 1)) & 1 == b
  {
  }

  lemma LowBitOr(b: bv32, r: bv32)
    requires b == 0 || b == 1
    ensures (r << 1) | b == b ^ (r << 1)
  {
  }

  lemma JoinUp(b: bool, r: bv32, k: nat)
    requires TopClear(r) && Fits(r, k)
    ensures Fits(Join(b, r), k + 1)
  {
    JoinTail(b, r);
  }

  lemma JoinTail(b: bool, r: bv32)
    requires TopClear(r)
    ensures Join(b, r) >> 1 == r
  {
    LowBitTail(Bit(b), r);
  }

  lemma JoinHead(b: bool, r: bv32)
    ensures Join(b, r) & 1 == Bit(b)
  {
    LowBitHead(Bit(b), r);
  }

  lemma JoinInjective(b: bool, r: bv32, c: bool, t: bv32)
    requires TopClear(r) && TopClear(t) && Join(b, r) == Join(c, t)
    ensures b == c && r == t
  {
    JoinTail(b, r);
    JoinTail(c, t);
    JoinHead(b, r);
    JoinHead(c, t);
  }

  lemma ShiftUpDown(r: bv32)
    requires r >> 31 == 0
    ensures Step(r << 1) == r
  {
    assert (r << 1) & 1 == 0;
    assert (r << 1) >> 1 == r;
  }

  lemma StepUp(r: bv32)
    requires TopClear(r)
    ensures Step(Up(r)) == r
  {
    hide Step;
    ShiftUpDown(r);
  }

  /** One step takes the low bit off a word. */
  lemma StepJoin(c: bv32, b: bool, r: bv32)
    requires TopClear(r)
    ensures Step(Xor(c, Join(b, r))) == Xor(Step(Xor(c, Bit(b))), r)
  {
    hide Step, Xor, Bit, Up, TopClear;
    XorThree(c, Bit(b), Up(r));
    StepXor(Xor(c, Bit(b)), Up(r));
    StepUp(r);
  }

  lemma XorThree(c: bv32, b: bv32, r: bv32)
    ensures Xor(c, Xor(b, r)) == Xor(Xor(c, b), r)
  {
  }

  lemma {:induction false} WordFits(bits: seq<bool>)
    requires |bits| <= 32
    ensures Fits(WordOf(bits), |bits|)
    decreases |bits|, 0
  {
    hide Join, TopClear, Fits;
    if bits == [] {
      NoWord();
    } else {
      WordFits(bits[1..]);
      WordTop(bits[1..]);
      JoinUp(bits[0], WordOf(bits[1..]), |bits| - 1);
    }
  }

  /** A word of at most 31 bits leaves the highest one clear. */
  lemma {:induction false} WordTop(bits: seq<bool>)
    requires |bits| <= 31
    ensures TopClear(WordOf(bits))
    decreases |bits|, 1
  {
    hide Join, TopClear, Fits, WordOf;
    WordFits(bits);
    FitsMore(WordOf(bits), |bits|, 31);
    FitsTop(WordOf(bits));
  }

  lemma NoWord()
    ensures Fits(WordOf([]), 0)
  {
  }

  lemma FitsDown(w: bv32, k: nat)
    requires Fits(w, k + 4)
    ensures Fits(w >> 4, k)
  {
    assert Fits(w >> 1, k + 3);
    assert (w >> 1) >> 1 == w >> 2 && Fits(w >> 2, k + 2);
    assert (w >> 2) >> 1 == w >> 3 && Fits(w >> 3, k + 1);
    assert (w >> 3) >> 1 == w >> 4;
  }

  lemma FitsDownByte(w: bv32, k: nat)
    requires Fits(w, k + 8)
    ensures Fits(w >> 8, k)
  {
    FitsDown(w, k + 4);
    FitsDown(w >> 4, k);
    ShiftsAdd(w);
  }

  lemma ShiftsAdd(w: bv32)
    ensures (w >> 4) >> 4 == w >> 8 && (w >> 4) >> 3 == w >> 7
    ensures (w >> 8) >> 8 == w >> 16
    ensures (w >> 16) >> 8 == w >> 24
    ensures (w >> 24) >> 7 == w >> 31
  {
  }

  lemma FitsTop(w: bv32)
    requires Fits(w, 31)
    ensures TopClear(w)
  {
    FitsThree(w);
    FitsSeven(w >> 24);
    ShiftsAdd(w);
  }

  lemma FitsThree(w: bv32)
    requires Fits(w, 31)
    ensures Fits(w >> 24, 7)
  {
    FitsTwo(w);
    FitsDownByte(w >> 16, 7);
    ShiftsAdd(w);
  }

  lemma FitsTwo(w: bv32)
    requires Fits(w, 31)
    ensures Fits(w >> 16, 15)
  {
    FitsDownByte(w, 23);
    FitsDownByte(w >> 8, 15);
    ShiftsAdd(w);
  }

  lemma FitsSeven(v: bv32)
    requires Fits(v, 7)
    ensures v >> 7 == 0
  {
    FitsDown(v, 3);
    NibbleTop(v >> 4);
    ShiftsAdd(v);
  }

  lemma NibbleTop(v: bv32)
    requires Fits(v, 3)
    ensures v >> 3 == 0
  {
    assert Fits(v >> 1, 2) && Fits((v >> 1) >> 1, 1) && ((v >> 1) >> 1) >> 1 == 0;
    assert ((v >> 1) >> 1) >> 1 == v >> 3;
  }

  /** Feeding at most 32 bits is one run of the register over the word they form. */
  lemma {:induction false} FeedBitsWord(c: bv32, bits: seq<bool>)
    requires |bits| <= 32
    ensures FeedBits(c, bits) == Steps(|bits|, Xor(c, WordOf(bits)))
    decreases |bits|
  {
    hide Step, Xor, Bit, Join, TopClear;
    if bits == [] {
      XorZero(c);
    } else {
      WordTop(bits[1..]);
      StepJoin(c, bits[0], WordOf(bits[1..]));
      FeedBitsWord(Step(Xor(c, Bit(bits[0]))), bits[1..]);
    }
  }

  lemma {:induction false} WordInjective(p: seq<bool>, q: seq<bool>)
    requires |p| == |q| <= 32 && WordOf(p) == WordOf(q)
    ensures p == q
    decreases |p|
  {
    hide Join, TopClear;
    if p != [] {
      WordTop(p[1..]);
      WordTop(q[1..]);
      JoinInjective(p[0], WordOf(p[1..]), q[0], WordOf(q[1..]));
      WordInjective(p[1..], q[1..]);
      assert p == [p[0]] + p[1..] && q == [q[0]] + q[1..];
    }
  }

  lemma BitsUnfold(n: nat)
    ensures Bits(n) == Join(n % 2 == 1, Bits(n / 2))
  {
    LowBitOr(Bit(n % 2 == 1), Bits(n / 2));
    if n == 0 {
      assert Bits(0) == 0;
    }
  }

  lemma {:induction false} WordOfNumber(n: nat, k: nat)
    requires n < Pow2(k)
    ensures WordOf(BitsFrom(n, k)) == Bits(n)
    decreases k
  {
    hide Bits, Join;
    if k == 0 {
      NoBits();
    } else {
      BitsUnfold(n);
      assert BitsFrom(n, k)[1..] == BitsFrom(n / 2, k - 1);
      WordOfNumber(n / 2, k - 1);
    }
  }

  lemma NoBits()
    ensures Bits(0) == 0
  {
  }

  // ---- bits and bytes ------------------------------------------------------------------------

  lemma {:induction false} FeedBitsConcat(c: bv32, p: seq<bool>, q: seq<bool>)
    ensures FeedBits(c, p + q) == FeedBits(FeedBits(c, p), q)
    decreases |p|
  {
    hide Step, Xor, Bit;
    if p == [] {
      assert p + q == q;
    } else {
      assert (p + q)[1..] == p[1..] + q;
      FeedBitsConcat(Step(Xor(c, Bit(p[0]))), p[1..], q);
    }
  }

  /** The register bit by bit is the register byte by byte. */
  lemma {:induction false} FeedIsFeedBits(c: bv32, data: seq<byte>)
    ensures Feed(c, data) == FeedBits(c, BitsOf(data))
    decreases |data|
  {
    hide Step, Xor, Bit, Bits, WordOf, BitsFrom, FeedBits, Steps;
    if data == [] {
      FedNothing(c);
    } else {
      var b := BitsFrom(data[0], 8);
      FeedBitsConcat(c, b, BitsOf(data[1..]));
      FeedBitsWord(c, b);
      Pow2Values();
      WordOfNumber(data[0], 8);
      FeedIsFeedBits(Steps(8, Xor(c, Bits(data[0]))), data[1..]);
    }
  }

  lemma FedNothing(c: bv32)
    ensures FeedBits(c, []) == c && Feed(c, []) == c
  {
  }

  lemma {:induction false} BitsFromInjective(m: nat, n: nat, k: nat)
    requires m < Pow2(k) && n < Pow2(k) && BitsFrom(m, k) == BitsFrom(n, k)
    ensures m == n
    decreases k
  {
    if k > 0 {
      assert BitsFrom(m, k)[0] == BitsFrom(n, k)[0];
      assert BitsFrom(m, k)[1..] == BitsFrom(m / 2, k - 1) && BitsFrom(n, k)[1..] == BitsFrom(n / 2, k - 1);
      BitsFromInjective(m / 2, n / 2, k - 1);
    }
  }

  lemma {:induction false} BitsOfInjective(a: seq<byte>, b: seq<byte>)
    requires |a| == |b| && BitsOf(a) == BitsOf(b)
    ensures a == b
    decreases |a|
  {
    hide BitsFrom;
    if a != [] {
      assert BitsOf(a)[..8] == BitsFrom(a[0], 8) && BitsOf(b)[..8] == BitsFrom(b[0], 8);
      assert BitsOf(a)[8..] == BitsOf(a[1..]) && BitsOf(b)[8..] == BitsOf(b[1..]);
      Pow2Values();
      BitsFromInjective(a[0], b[0], 8);
      BitsOfInjective(a[1..], b[1..]);
      assert a == [a[0]] + a[1..] && b == [b[0]] + b[1..];
    }
  }

  // ---- bursts ----------------------------------------------------------------------------------

  lemma {:induction false} BitsInjective(c: bv32, d: bv32, bits: seq<bool>)
    requires FeedBits(c, bits) == FeedBits(d, bits)
    ensures c == d
    decreases |bits|
  {
    hide Step, Xor, Bit;
    if bits != [] {
      var b := Bit(bits[0]);
      BitsInjective(Step(Xor(c, b)), Step(Xor(d, b)), bits[1..]);
      StepInjective(Xor(c, b), Xor(d, b));
      XorComm(c, b);
      XorComm(d, b);
      XorCancel(b, c, d);
    }
  }

  lemma BitWindowInjective(c: bv32, p: seq<bool>, q: seq<bool>)
    requires |p| == |q| <= 32 && FeedBits(c, p) == FeedBits(c, q)
    ensures p == q
  {
    hide FeedBits, Step, Steps, Xor, WordOf;
    FeedBitsWord(c, p);
    FeedBitsWord(c, q);
    StepsInjective(|p|, Xor(c, WordOf(p)), Xor(c, WordOf(q)));
    XorCancel(c, WordOf(p), WordOf(q));
    WordInjective(p, q);
  }

  /** The bits in which two strings differ all lie within 32 consecutive ones from `at` on. */
  predicate DifferWithin(a: seq<byte>, b: seq<byte>, at: nat)
    requires |a| == |b|
  {
    forall i :: 0 <= i < 8 * |a| && BitsOf(a)[i] != BitsOf(b)[i] ==> at <= i < at + 32
  }

  lemma SplitAt(p: seq<bool>, q: seq<bool>, lo: nat, hi: nat)
    requires |p| == |q| && lo <= hi <= |p|
    requires forall i :: 0 <= i < |p| && p[i] != q[i] ==> lo <= i < hi
    ensures p == p[..lo] + p[lo..hi] + p[hi..] && q == p[..lo] + q[lo..hi] + p[hi..]
  {
    assert q[..lo] == p[..lo];
    assert q[hi..] == p[hi..];
  }

  /** Any two different strings of the same length whose differing bits lie within 32 consecutive
      ones have different checksums, whether or not these start at a byte. */
  lemma BitBurstDetected(a: seq<byte>, b: seq<byte>, at: nat)
    requires |a| == |b| && a != b && DifferWithin(a, b, at)
    ensures Crc(a) != Crc(b)
  {
    hide Feed, FeedBits, BitsOf, Crc;
    if Crc(a) == Crc(b) {
      var p, q := BitsOf(a), BitsOf(b);
      var n := |p|;
      var lo := if at < n then at else n;
      var hi := if at + 32 < n then at + 32 else n;
      CrcInjective(a, b);
      FeedIsFeedBits(ALL_ONES, a);
      FeedIsFeedBits(ALL_ONES, b);
      SplitAt(p, q, lo, hi);
      var c := FeedBits(ALL_ONES, p[..lo]);
      FeedBitsConcat(ALL_ONES, p[..lo] + p[lo..hi], p[hi..]);
      FeedBitsConcat(ALL_ONES, p[..lo] + q[lo..hi], p[hi..]);
      FeedBitsConcat(ALL_ONES, p[..lo], p[lo..hi]);
      FeedBitsConcat(ALL_ONES, p[..lo], q[lo..hi]);
      BitsInjective(FeedBits(c, p[lo..hi]), FeedBits(c, q[lo..hi]), p[hi..]);
      BitWindowInjective(c, p[lo..hi], q[lo..hi]);
      BitsOfInjective(a, b);
    }
  }
}
