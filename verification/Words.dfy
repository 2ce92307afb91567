/** Machine integers of the storage format: bytes, 32- and 64-bit unsigned
    values, their little-endian byte strings, and the bit pattern of a 32-bit
    value for the checksum code. */
module Words {

  const U32_LIMIT: nat := 0x1_0000_0000
  const U64_LIMIT: nat := 0x1_0000_0000_0000_0000

  type byte = x: int | 0 <= x < 256
  type u32 = x: int | 0 <= x < 0x1_0000_0000
  type u64 = x: int | 0 <= x < 0x1_0000_0000_0000_0000

  function Pow256(k: nat): (p: nat)
    ensures p > 0
  {
    if k == 0 then 1 else 256 * Pow256(k - 1)
  }

  /** The `k` low bytes of `n`, least significant first. */
  function ToLe(n: nat, k: nat): (s: seq<byte>)
    ensures |s| == k
  {
    if k == 0 then [] else [n % 256] + ToLe(n / 256, k - 1)
  }

  /** The number a little-endian byte string stands for. */
  function FromLe(s: seq<byte>): (n: nat)
    ensures n < Pow256(|s|)
  {
    if s == [] then 0
    else
      var rest := FromLe(s[1..]);
      s[0] + 256 * rest
  }

  lemma {:induction false} FromToLe(n: nat, k: nat)
    requires n < Pow256(k)
    ensures FromLe(ToLe(n, k)) == n
  {
    if k > 0 {
      var s := ToLe(n, k);
      assert s[1..] == ToLe(n / 256, k - 1);
      FromToLe(n / 256, k - 1);
    }
  }

  lemma {:induction false} ToFromLe(s: seq<byte>)
    ensures ToLe(FromLe(s), |s|) == s
  {
    if s != [] {
      var rest := FromLe(s[1..]);
      assert (s[0] + 256 * rest) % 256 == s[0];
      assert (s[0] + 256 * rest) / 256 == rest;
      ToFromLe(s[1..]);
    }
  }

  lemma Limits()
    ensures Pow256(1) == 256 && Pow256(4) == U32_LIMIT && Pow256(8) == U64_LIMIT
  {
    assert Pow256(2) == 0x1_0000;
    assert Pow256(3) == 0x100_0000;
    assert Pow256(5) == 0x100_0000_0000;
    assert Pow256(6) == 0x1_0000_0000_0000;
    assert Pow256(7) == 0x100_0000_0000_0000;
  }

  function U32Le(n: u32): (s: seq<byte>)
    ensures |s| == 4
  {
    ToLe(n, 4)
  }

  function U64Le(n: u64): (s: seq<byte>)
    ensures |s| == 8
  {
    ToLe(n, 8)
  }

  function LeU32(s: seq<byte>): (n: u32)
    requires |s| == 4
    ensures U32Le(n) == s
  {
    Limits();
    ToFromLe(s);
    FromLe(s)
  }

  function LeU64(s: seq<byte>): (n: u64)
    requires |s| == 8
    ensures U64Le(n) == s
  {
    Limits();
    ToFromLe(s);
    FromLe(s)
  }

  lemma U32RoundTrip(n: u32)
    ensures LeU32(U32Le(n)) == n
  {
    Limits();
    FromToLe(n, 4);
  }

  lemma U64RoundTrip(n: u64)
    ensures LeU64(U64Le(n)) == n
  {
    Limits();
    FromToLe(n, 8);
  }

  // ---- bit patterns --------------------------------------------------------

  /** The 32-bit pattern of `n` (its low 32 bits). */
  function Bits(n: nat): bv32 {
    if n == 0 then 0 else (Bits(n / 2) << 1) | (if n % 2 == 1 then 1 else 0)
  }

  /** The number formed by the `k` low bits of `w`. */
  function LowBits(w: bv32, k: nat): nat
    decreases k
  {
    if k == 0 then 0 else 2 * LowBits(w >> 1, k - 1) + (if w & 1 == 1 then 1 else 0)
  }

  function Pow2(k: nat): (p: nat)
    ensures p > 0
  {
    if k == 0 then 1 else 2 * Pow2(k - 1)
  }

  lemma {:induction false} LowBitsBound(w: bv32, k: nat)
    ensures LowBits(w, k) < Pow2(k)
    decreases k
  {
    if k > 0 {
      LowBitsBound(w >> 1, k - 1);
    }
  }

  lemma Pow2Values()
    ensures Pow2(8) == 256 && Pow2(32) == U32_LIMIT
  {
    Pow2Add(8, 8);
    Pow2Add(16, 16);
    assert Pow2(4) == 16;
  }

  lemma {:induction false} Pow2Add(a: nat, b: nat)
    ensures Pow2(a + b) == Pow2(a) * Pow2(b)
  {
    if a > 0 {
      Pow2Add(a - 1, b);
    }
  }

  function BvValue(w: bv32): (n: u32) {
    LowBitsBound(w, 32);
    Pow2Values();
    LowBits(w, 32)
  }

  /** `w` has no bit set at position `k` or above. */
  predicate Fits(w: bv32, k: nat)
    decreases k
  {
    if k == 0 then w == 0 else Fits(w >> 1, k - 1)
  }

  lemma FitsByte(w: bv32, k: nat)
    requires Fits(w >> 8, k)
    ensures Fits(w, k + 8)
  {
    assert w >> 8 == (w >> 7) >> 1 && Fits(w >> 7, k + 1);
    assert w >> 7 == (w >> 6) >> 1 && Fits(w >> 6, k + 2);
    assert w >> 6 == (w >> 5) >> 1 && Fits(w >> 5, k + 3);
    assert w >> 5 == (w >> 4) >> 1 && Fits(w >> 4, k + 4);
    assert w >> 4 == (w >> 3) >> 1 && Fits(w >> 3, k + 5);
    assert w >> 3 == (w >> 2) >> 1 && Fits(w >> 2, k + 6);
    assert w >> 2 == (w >> 1) >> 1 && Fits(w >> 1, k + 7);
  }

  lemma FitsWord(w: bv32)
    ensures Fits(w, 32)
    ensures w & 0xFF == w ==> Fits(w, 8)
  {
    if w & 0xFF == w {
      assert w >> 8 == 0;
      FitsByte(w, 0);
    }
    assert ((w >> 24) >> 8) == 0;
    FitsByte(w >> 24, 0);
    assert (w >> 16) >> 8 == w >> 24;
    FitsByte(w >> 16, 8);
    assert (w >> 8) >> 8 == w >> 16;
    FitsByte(w >> 8, 16);
    FitsByte(w, 24);
  }

  lemma LowBitSplit(w: bv32)
    ensures ((w >> 1) << 1) | (if w & 1 == 1 then 1 else 0) == w
  {
    assert w & 1 == 0 || w & 1 == 1;
    assert ((w >> 1) << 1) | (w & 1) == w;
  }

  lemma BitsStep(h: nat, bit: bool)
    ensures Bits(2 * h + if bit then 1 else 0) == (Bits(h) << 1) | (if bit then 1 else 0)
  {
    var n := 2 * h + if bit then 1 else 0;
    assert n / 2 == h;
    if n == 0 {
      assert ((0 as bv32) << 1) | 0 == 0;
    }
  }

  /** Shifting out the low bit and putting it back gives the word again. */
  lemma {:induction false} BitsLowBits(w: bv32, k: nat)
    requires Fits(w, k)
    ensures Bits(LowBits(w, k)) == w
    decreases k
  {
    if k > 0 {
      var v, bit := w >> 1, w & 1 == 1;
      BitsLowBits(v, k - 1);
      BitsStep(LowBits(v, k - 1), bit);
      LowBitSplit(w);
    }
  }

  lemma {:induction false} LowBitsStable(w: bv32, k: nat, m: nat)
    requires Fits(w, k) && k <= m
    ensures LowBits(w, m) == LowBits(w, k)
    decreases k
  {
    if k > 0 {
      LowBitsStable(w >> 1, k - 1, m - 1);
    } else {
      LowBitsZero(m);
    }
  }

  lemma {:induction false} LowBitsZero(m: nat)
    ensures LowBits(0, m) == 0
  {
    if m > 0 {
      assert (0 as bv32) >> 1 == 0;
      LowBitsZero(m - 1);
    }
  }

  /** A word below 256 is a byte value, and the byte has that word as its pattern. */
  lemma ByteWord(w: bv32)
    requires w & 0xFF == w
    ensures BvValue(w) < 256
    ensures Bits(BvValue(w)) == w
  {
    FitsWord(w);
    LowBitsStable(w, 8, 32);
    LowBitsBound(w, 8);
    Pow2Values();
    BvRoundTrip(w);
  }

  lemma {:induction false} FitsMore(w: bv32, k: nat, m: nat)
    requires Fits(w, k) && k <= m
    ensures Fits(w, m)
    decreases m
  {
    if k > 0 {
      FitsMore(w >> 1, k - 1, m - 1);
    } else if m > 0 {
      assert w >> 1 == 0;
      FitsMore(w >> 1, 0, m - 1);
    }
  }

  lemma FitsByteBound(w: bv32)
    requires Fits(w, 8)
    ensures w & 0xFF == w
  {
    assert Fits(w >> 1, 7);
    assert Fits(w >> 1 >> 1, 6);
    assert Fits(w >> 1 >> 1 >> 1, 5);
    assert Fits(w >> 1 >> 1 >> 1 >> 1, 4);
    assert Fits(w >> 1 >> 1 >> 1 >> 1 >> 1, 3);
    assert Fits(w >> 1 >> 1 >> 1 >> 1 >> 1 >> 1, 2);
    assert Fits(w >> 1 >> 1 >> 1 >> 1 >> 1 >> 1 >> 1, 1);
    assert Fits(w >> 1 >> 1 >> 1 >> 1 >> 1 >> 1 >> 1 >> 1, 0);
  }

  lemma {:induction false} BitsFit(n: nat, k: nat)
    requires n < Pow2(k) && k <= 8
    ensures Fits(Bits(n), k) && LowBits(Bits(n), k) == n
  {
    if k > 0 {
      BitsFit(n / 2, k - 1);
      var h := Bits(n / 2);
      FitsMore(h, k - 1, 8);
      FitsByteBound(h);
      assert ((h << 1) | (if n % 2 == 1 then 1 else 0)) >> 1 == h;
      assert ((h << 1) | (if n % 2 == 1 then 1 else 0)) & 1 == (if n % 2 == 1 then 1 else 0);
      if n == 0 { LowBitsZero(k); }
    }
  }

  /** The pattern of a byte lies in the low eight bits, and determines the byte. */
  lemma ByteBits(b: byte)
    ensures Bits(b) & 0xFF == Bits(b)
    ensures BvValue(Bits(b)) == b
  {
    Pow2Values();
    BitsFit(b, 8);
    FitsByteBound(Bits(b));
    LowBitsStable(Bits(b), 8, 32);
  }

  lemma BvRoundTrip(w: bv32)
    ensures Bits(BvValue(w)) == w
  {
    FitsWord(w);
    BitsLowBits(w, 32);
  }

  lemma BvValueInjective(v: bv32, w: bv32)
    requires BvValue(v) == BvValue(w)
    ensures v == w
  {
    BvRoundTrip(v);
    BvRoundTrip(w);
  }
}
