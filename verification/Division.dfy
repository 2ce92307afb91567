/** What the checksum of a byte string is: the remainder of a long division. The
    message is a polynomial over GF(2), its bits taken lowest first from each byte
    and standing for descending powers of x; the generator is the one that section
    12.1 of RFC 3720 lists for CRC-32C. Nothing here knows of the shift register. */
module Division {
  import opened Words
  import opened Checksum
  import opened Bursts

  // ---- the definition ---------------------------------------------------------------------

  /** The powers of x in the generator. */
  const GENERATOR: set<nat> := {32, 28, 27, 26, 25, 23, 22, 20, 19, 18, 14, 13, 11, 10, 9, 8, 6, 0}

  /** One step of the division: where the leading coefficient is one, the generator is subtracted
      below it; then the leading coefficient is dropped. */
  function Reduce(p: seq<bool>): (r: seq<bool>)
    requires |p| > 32
    ensures |r| == |p| - 1
  {
    seq(|p| - 1, i requires 0 <= i < |p| - 1 =>
      if p[0] && i < 32 && 31 - i in GENERATOR then !p[i + 1] else p[i + 1])
  }

  /** The coefficients below x to the 32nd once the division is done. */
  function Remainder(p: seq<bool>): (r: seq<bool>)
    requires |p| >= 32
    ensures |r| == 32
    decreases |p|
  {
    if |p| == 32 then p else Remainder(Reduce(p))
  }

  /** The first 32 coefficients turned over. */
  function Complement(p: seq<bool>): (r: seq<bool>)
    ensures |r| == |p|
  {
    seq(|p|, i requires 0 <= i < |p| => if i < 32 then !p[i] else p[i])
  }

  function Zeros(k: nat): (z: seq<bool>)
    ensures |z| == k
  {
    seq(k, i => false)
  }

  /** The message times x to the 32nd, its leading 32 coefficients turned over. */
  function Dividend(data: seq<byte>): (p: seq<bool>)
    ensures |p| == 8 * |data| + 32
  {
    Complement(BitsOf(data) + Zeros(32))
  }

  // ---- single bits of a word ---------------------------------------------------------------

  /** Named so that proofs can `hide` them. */
  predicate Odd(w: bv32) {
    w & 1 == 1
  }

  function Half(w: bv32): bv32 {
    w >> 1
  }

  function BitAt(w: bv32, i: nat): bool
    decreases i
  {
    if i == 0 then Odd(w) else BitAt(Half(w), i - 1)
  }

  lemma XorParts(v: bv32, w: bv32)
    ensures Half(Xor(v, w)) == Xor(Half(v), Half(w))
    ensures Odd(Xor(v, w)) == (Odd(v) != Odd(w))
  {
    ShiftXor(v, w);
    LowBitXor(v & 1, w & 1);
  }

  lemma LowBitXor(a: bv32, b: bv32)
    requires (a == 0 || a == 1) && (b == 0 || b == 1)
    ensures a ^ b == 1 <==> a != b
  {
  }

  lemma {:induction false} BitAtXor(v: bv32, w: bv32, i: nat)
    ensures BitAt(Xor(v, w), i) == (BitAt(v, i) != BitAt(w, i))
    decreases i
  {
    hide Odd, Half, Xor;
    XorParts(v, w);
    if i > 0 {
      BitAtXor(Half(v), Half(w), i - 1);
    }
  }

  lemma {:induction false} BitAbove(w: bv32, k: nat, i: nat)
    requires Fits(w, k) && k <= i
    ensures !BitAt(w, i)
    decreases i
  {
    if k > 0 {
      BitAbove(Half(w), k - 1, i - 1);
    } else if i > 0 {
      assert Half(0) == 0;
      BitAbove(Half(w), 0, i - 1);
    }
  }

  lemma FourBits(w: bv32)
    ensures BitAt(w, 0) == (w & 1 == 1) && BitAt(w, 1) == (w & 2 == 2)
    ensures BitAt(w, 2) == (w & 4 == 4) && BitAt(w, 3) == (w & 8 == 8)
  {
    hide BitAt;
    FirstBits(w);
    Halves(w);
  }

  lemma FirstBits(w: bv32)
    ensures BitAt(w, 0) == Odd(w) && BitAt(w, 1) == Odd(Half(w))
    ensures BitAt(w, 2) == Odd(Half(Half(w))) && BitAt(w, 3) == Odd(Half(Half(Half(w))))
  {
    hide Odd, Half;
    var h := Half(w);
    assert BitAt(w, 1) == BitAt(h, 0);
    assert BitAt(w, 2) == BitAt(h, 1) == BitAt(Half(h), 0);
    assert BitAt(w, 3) == BitAt(h, 2) == BitAt(Half(h), 1) == BitAt(Half(Half(h)), 0);
  }

  lemma Halves(w: bv32)
    ensures Odd(w) == (w & 1 == 1) && Odd(Half(w)) == (w & 2 == 2)
    ensures Odd(Half(Half(w))) == (w & 4 == 4) && Odd(Half(Half(Half(w)))) == (w & 8 == 8)
  {
  }

  lemma FourOn(w: bv32, i: nat)
    ensures BitAt(w, i + 4) == BitAt(w >> 4, i)
  {
    FourHalves(w);
    hide Odd, Half;
    var h := Half(w);
    assert BitAt(w, i + 4) == BitAt(h, i + 3);
    assert BitAt(h, i + 3) == BitAt(Half(h), i + 2);
    assert BitAt(Half(h), i + 2) == BitAt(Half(Half(h)), i + 1);
  }

  lemma FourHalves(w: bv32)
    ensures Half(Half(Half(Half(w)))) == w >> 4
  {
  }

  /** The constant of the shift register is the generator, reflected. */
  lemma PolynomialIsGenerator(i: nat)
    requires i < 32
    ensures BitAt(POLYNOMIAL, i) <==> 31 - i in GENERATOR
  {
    hide BitAt;
    PolynomialNibbles();
    FourBits(0x82F6_3B78);
    FourBits(0x82F_63B7);
    FourBits(0x82_F63B);
    FourBits(0x8_2F63);
    FourBits(0x82F6);
    FourBits(0x82F);
    FourBits(0x82);
    FourBits(0x8);
    if i >= 4 { FourOn(0x82F6_3B78, i - 4); }
    if i >= 8 { FourOn(0x82F_63B7, i - 8); }
    if i >= 12 { FourOn(0x82_F63B, i - 12); }
    if i >= 16 { FourOn(0x8_2F63, i - 16); }
    if i >= 20 { FourOn(0x82F6, i - 20); }
    if i >= 24 { FourOn(0x82F, i - 24); }
    if i >= 28 { FourOn(0x82, i - 28); }
  }

  lemma PolynomialNibbles()
    ensures (0x82F6_3B78 as bv32) >> 4 == 0x82F_63B7 && (0x82F_63B7 as bv32) >> 4 == 0x82_F63B
    ensures (0x82_F63B as bv32) >> 4 == 0x8_2F63 && (0x8_2F63 as bv32) >> 4 == 0x82F6
    ensures (0x82F6 as bv32) >> 4 == 0x82F && (0x82F as bv32) >> 4 == 0x82 && (0x82 as bv32) >> 4 == 0x8
  {
  }

  lemma OnesAt(i: nat)
    requires i < 32
    ensures BitAt(ALL_ONES, i)
  {
    hide BitAt;
    FourBits(0xFFFF_FFFF);
    FourBits(0xFFF_FFFF);
    FourBits(0xFF_FFFF);
    FourBits(0xF_FFFF);
    FourBits(0xFFFF);
    FourBits(0xFFF);
    FourBits(0xFF);
    FourBits(0xF);
    if i >= 4 { FourOn(0xFFFF_FFFF, i - 4); }
    if i >= 8 { FourOn(0xFFF_FFFF, i - 8); }
    if i >= 12 { FourOn(0xFF_FFFF, i - 12); }
    if i >= 16 { FourOn(0xF_FFFF, i - 16); }
    if i >= 20 { FourOn(0xFFFF, i - 20); }
    if i >= 24 { FourOn(0xFFF, i - 24); }
    if i >= 28 { FourOn(0xFF, i - 28); }
  }

  // ---- the register divides ------------------------------------------------------------------

  /** A word added to the leading coefficients. */
  function Mixed(w: bv32, p: seq<bool>): (r: seq<bool>)
    ensures |r| == |p|
  {
    seq(|p|, i requires 0 <= i < |p| => if i < 32 then p[i] != BitAt(w, i) else p[i])
  }

  /** A step of the register, with a bit of the message fed in. */
  lemma StepBit(c: bv32, b: bool, i: nat)
    requires i < 32
    ensures BitAt(Step(Xor(c, Bit(b))), i)
        == ((i < 31 && BitAt(c, i + 1)) != ((b != BitAt(c, 0)) && 31 - i in GENERATOR))
  {
    hide BitAt, POLYNOMIAL, GENERATOR;
    BitZero(c);
    StepParts(c, b);
    FitsWord(c);
    BitNext(c, i);
    if i == 31 {
      BitAbove(c, 32, 32);
    }
    BitAtXor(Half(c), POLYNOMIAL, i);
    PolynomialIsGenerator(i);
  }

  lemma BitZero(c: bv32)
    ensures BitAt(c, 0) == Odd(c)
  {
  }

  lemma BitNext(c: bv32, i: nat)
    ensures BitAt(c, i + 1) == BitAt(Half(c), i)
  {
  }

  lemma StepParts(c: bv32, b: bool)
    ensures Step(Xor(c, Bit(b))) == if b != Odd(c) then Xor(Half(c), POLYNOMIAL) else Half(c)
  {
    hide Step, Xor, Bit, Odd, Half;
    StepIs(Xor(c, Bit(b)));
    XorParts(c, Bit(b));
    BitParts(b);
    XorZero(Half(c));
  }

  lemma StepIs(x: bv32)
    ensures Step(x) == if Odd(x) then Xor(Half(x), POLYNOMIAL) else Half(x)
  {
    LowBitIs(x);
  }

  lemma LowBitIs(x: bv32)
    ensures x & 1 == 0 || x & 1 == 1
  {
  }

  lemma BitParts(b: bool)
    ensures Half(Bit(b)) == 0 && Odd(Bit(b)) == b
  {
  }

  lemma ReduceMixed(c: bv32, m: seq<bool>)
    requires m != []
    ensures Reduce(Mixed(c, m + Zeros(32))) == Mixed(Step(Xor(c, Bit(m[0]))), m[1..] + Zeros(32))
  {
    hide BitAt, Step, Xor, Bit, GENERATOR;
    var p := m + Zeros(32);
    assert p[1..] == m[1..] + Zeros(32);
    forall i | 0 <= i < |p| - 1
      ensures Reduce(Mixed(c, p))[i] == Mixed(Step(Xor(c, Bit(m[0]))), p[1..])[i]
    {
      if i < 32 {
        StepBit(c, m[0], i);
      }
    }
  }

  /** Feeding bits into the register is dividing. */
  lemma {:induction false} FeedingDivides(c: bv32, m: seq<bool>)
    ensures Remainder(Mixed(c, m + Zeros(32))) == Mixed(FeedBits(c, m), Zeros(32))
    decreases |m|
  {
    hide Mixed, Step, Xor, Bit, Reduce;
    if m == [] {
      assert m + Zeros(32) == Zeros(32);
    } else {
      ReduceMixed(c, m);
      FeedingDivides(Step(Xor(c, Bit(m[0]))), m[1..]);
    }
  }

  // ---- the checksum ---------------------------------------------------------------------------

  lemma {:induction false} BitsOfWord(w: bv32, k: nat, i: nat)
    requires i < k
    ensures BitsFrom(LowBits(w, k), k)[i] == BitAt(w, i)
    decreases k
  {
    LowBitsParts(w, k);
    if i > 0 {
      BitsOfWord(Half(w), k - 1, i - 1);
    }
  }

  lemma LowBitsParts(w: bv32, k: nat)
    requires k > 0
    ensures LowBits(w, k) % 2 == 1 <==> Odd(w)
    ensures LowBits(w, k) / 2 == LowBits(Half(w), k - 1)
  {
    hide LowBits, Odd, Half;
    LowBitsUnfold(w, k);
    HalfOf(LowBits(Half(w), k - 1), Odd(w));
  }

  lemma LowBitsUnfold(w: bv32, k: nat)
    requires k > 0
    ensures LowBits(w, k) == 2 * LowBits(Half(w), k - 1) + if Odd(w) then 1 else 0
  {
  }

  lemma HalfOf(h: nat, odd: bool)
    ensures var n := 2 * h + if odd then 1 else 0; (n % 2 == 1 <==> odd) && n / 2 == h
  {
  }

  lemma NotIsXor(w: bv32)
    ensures !w == Xor(w, ALL_ONES)
  {
  }

  /** The checksum of any byte string, its bits lowest first, is the remainder of the division,
      turned over: it is CRC-32C. */
  lemma CrcIsRemainder(data: seq<byte>)
    ensures BitsFrom(Crc(data), 32) == Complement(Remainder(Dividend(data)))
  {
    hide Feed, FeedBits, BitAt, BitsOf, BitsFrom, LowBits, Remainder, Xor;
    var m := BitsOf(data);
    forall i | 0 <= i < |m| + 32 ensures Complement(m + Zeros(32))[i] == Mixed(ALL_ONES, m + Zeros(32))[i] {
      if i < 32 {
        OnesAt(i);
      }
    }
    assert Complement(m + Zeros(32)) == Mixed(ALL_ONES, m + Zeros(32));
    FeedIsFeedBits(ALL_ONES, data);
    FeedingDivides(ALL_ONES, m);
    var state := Feed(ALL_ONES, data);
    NotIsXor(state);
    forall i | 0 <= i < 32 ensures BitsFrom(Crc(data), 32)[i] == Complement(Mixed(state, Zeros(32)))[i] {
      BitsOfWord(!state, 32, i);
      BitAtXor(state, ALL_ONES, i);
      OnesAt(i);
    }
  }
}
