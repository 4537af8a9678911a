/**
  Bit-level building blocks of the CRC engine: the shift semantics of a
  64-bit unsigned register, width masks and bit reflection.

  Registers are `bv64`, so the wrap-around of `<<` on a 64-bit unsigned
  value is native. Shift counts and bit positions are `bv7`: every count the
  engine uses lies in -8..64, and the shift operators below take the count
  modulo 64 exactly as the 64-bit shifts of CrcSharp's C# code do
  (`count & 63`).
  Computing a count modulo 128 and then keeping its low six bits gives the
  same value as computing it in 32-bit signed arithmetic and keeping its low
  six bits, so `bv7` arithmetic is faithful for those counts.
*/
module Bits {

  type Byte = bv8

  /** UInt64.MaxValue */
  const AllOnes: bv64 := 0xFFFF_FFFF_FFFF_FFFF

  /** Left shift of a 64-bit unsigned value; only the low six bits of the count are used. */
  function Shl(x: bv64, count: bv7): bv64
  {
    x << (count & 63)
  }

  /** Right shift of a 64-bit unsigned value; only the low six bits of the count are used. */
  function Shr(x: bv64, count: bv7): bv64
  {
    x >> (count & 63)
  }

  /** Bit `k` of `x` is set (counting from the least significant bit, 0). */
  predicate Bit(x: bv64, k: bv7)
    requires k < 64
  {
    (x >> k) & 1 == 1
  }

  /** `x` has no set bit at position `width` or above, i.e. it fits in `width` bits. */
  predicate FitsIn(x: bv64, width: bv7)
    requires width <= 64
  {
    x >> width == 0
  }

  /**
    The mask `UInt64.MaxValue >> (64 - width)`. For width 64 the count is 0
    and the mask is all ones; the value is 2^width - 1 for every width in
    1..64, stated here in 128-bit arithmetic where nothing overflows.
  */
  function Mask(width: bv7): bv64
    requires 1 <= width <= 64
  {
    Shr(AllOnes, 64 - width)
  }

  /** The mask is 2^width - 1, computed in 128-bit arithmetic where nothing overflows. */
  lemma MaskValue(width: bv7)
    requires 1 <= width <= 64
    ensures Mask(width) as bv128 == (1 << width) - 1
  {
  }

  /** A value is at most the width mask exactly when it fits in `width` bits. */
  lemma AtMostMask(x: bv64, width: bv7)
    requires 1 <= width <= 64
    ensures x <= Mask(width) <==> FitsIn(x, width)
  {
    AtMostMaskFits(x, width);
    FitsAtMostMask(x, width);
  }

  lemma AtMostMaskFits(x: bv64, width: bv7)
    requires 1 <= width <= 64
    ensures x <= Mask(width) ==> FitsIn(x, width)
  {
  }

  lemma FitsAtMostMask(x: bv64, width: bv7)
    requires 1 <= width <= 64
    ensures FitsIn(x, width) ==> x <= Mask(width)
  {
  }

  /** A value is at most the width mask exactly when masking leaves it unchanged. */
  lemma AtMostMaskUnchanged(x: bv64, width: bv7)
    requires 1 <= width <= 64
    ensures x <= Mask(width) <==> x & Mask(width) == x
  {
  }

  /** Masking never exceeds the mask. */
  lemma MaskedAtMostMask(x: bv64, width: bv7)
    requires 1 <= width <= 64
    ensures x & Mask(width) <= Mask(width)
  {
  }

  /** Masking to `width` bits keeps exactly the bits below `width`. */
  lemma MaskedBit(x: bv64, width: bv7, k: bv7)
    requires 1 <= width <= 64 && k < 64
    ensures Bit(x & Mask(width), k) <==> k < width && Bit(x, k)
  {
  }

  lemma XorBit(a: bv64, b: bv64, k: bv7)
    requires k < 64
    ensures Bit(a ^ b, k) <==> Bit(a, k) != Bit(b, k)
  {
  }

  /** A zero bit at `k` extends "no set bit below `k`" by one position. */
  lemma ZeroBelowStep(d: bv64, k: bv7)
    requires k < 64
    requires d << (64 - k) == 0
    requires !Bit(d, k)
    ensures d << (63 - k) == 0
  {
  }

  /** A register with no set bit below `k` has nothing left after shifting out its top `64 - k` bits. */
  lemma {:induction false} ZeroBelow(d: bv64, k: bv7)
    requires k <= 64
    requires forall j: bv7 | j < k :: !Bit(d, j)
    ensures d << (64 - k) == 0
    decreases k
  {
    if k > 0 {
      ZeroBelow(d, k - 1);
      ZeroBelowStep(d, k - 1);
    }
  }

  /** Registers are equal when all 64 bits are. */
  lemma BitsEqual(a: bv64, b: bv64)
    requires forall k: bv7 | k < 64 :: Bit(a, k) == Bit(b, k)
    ensures a == b
  {
    var d := a ^ b;
    forall k: bv7 | k < 64
      ensures !Bit(d, k)
    {
      XorBit(a, b, k);
    }
    ZeroBelow(d, 64);
  }

  /**
    The reflection loop after its first `done` iterations: bit `n` of `b`,
    for `n < done`, has been copied to position `bitCount - 1 - n`.
  */
  function ReflectPrefix(b: bv64, bitCount: bv7, done: bv7): bv64
    requires done <= bitCount <= 64
    decreases done
  {
    if done == 0 then 0
    else
      var bitNumber := done - 1;
      var acc := ReflectPrefix(b, bitCount, bitNumber);
      if Shr(b, bitNumber) & 1 == 1 then acc | Shl(1, (bitCount - 1) - bitNumber) else acc
  }

  /** Bit-reverses the low `bitCount` bits of `b`; all higher bits of the result are 0. */
  function ReflectBits(b: bv64, bitCount: bv7): bv64
    requires bitCount <= 64
  {
    ReflectPrefix(b, bitCount, bitCount)
  }

  /** One iteration of the reflection loop sets at most the mirror of the bit it reads. */
  lemma ReflectPrefixStep(b: bv64, bitCount: bv7, done: bv7, k: bv7)
    requires 0 < done <= bitCount <= 64 && k < 64
    ensures Bit(ReflectPrefix(b, bitCount, done), k) <==>
      Bit(ReflectPrefix(b, bitCount, done - 1), k) || (k == bitCount - done && Bit(b, done - 1))
  {
    SingleBit(bitCount - done, k);
  }

  lemma SingleBit(j: bv7, k: bv7)
    requires j < 64 && k < 64
    ensures Bit(Shl(1, j), k) <==> k == j
  {
  }

  lemma MirrorIndex(b: bv64, bitCount: bv7, done: bv7, k: bv7)
    requires 0 < done <= bitCount <= 64 && k < 64
    ensures k == bitCount - done ==> (Bit(b, bitCount - 1 - k) <==> Bit(b, done - 1))
    ensures bitCount - done <= k < bitCount <==> k == bitCount - done || bitCount - (done - 1) <= k < bitCount
  {
  }

  /** What the first `done` iterations of the reflection loop have set at bit `k`. */
  lemma {:induction false} ReflectPrefixBit(b: bv64, bitCount: bv7, done: bv7, k: bv7)
    requires done <= bitCount <= 64 && k < 64
    ensures Bit(ReflectPrefix(b, bitCount, done), k) <==>
      bitCount - done <= k < bitCount && Bit(b, bitCount - 1 - k)
    decreases done
  {
    if done > 0 {
      ReflectPrefixBit(b, bitCount, done - 1, k);
      ReflectPrefixStep(b, bitCount, done, k);
      MirrorIndex(b, bitCount, done, k);
    }
  }

  /** Output bit `bitCount - 1 - k` is input bit `k`; no bit at or above `bitCount` is set. */
  lemma ReflectBitsBit(b: bv64, bitCount: bv7, k: bv7)
    requires bitCount <= 64 && k < 64
    ensures Bit(ReflectBits(b, bitCount), k) <==> k < bitCount && Bit(b, bitCount - 1 - k)
  {
    ReflectPrefixBit(b, bitCount, bitCount, k);
  }

  /** `r` holds the low `bitCount` bits of `b` in reverse order, and nothing above them. */
  ghost predicate IsReflection(r: bv64, b: bv64, bitCount: bv7)
    requires bitCount <= 64
  {
    forall k: bv7 | k < 64 :: Bit(r, k) <==> k < bitCount && Bit(b, bitCount - 1 - k)
  }

  /** The reflection loop computes a reflection in the sense of `IsReflection`. */
  lemma ReflectBitsIsReflection(b: bv64, bitCount: bv7)
    requires bitCount <= 64
    ensures IsReflection(ReflectBits(b, bitCount), b, bitCount)
  {
    forall k: bv7 | k < 64
      ensures Bit(ReflectBits(b, bitCount), k) <==> k < bitCount && Bit(b, bitCount - 1 - k)
    {
      ReflectBitsBit(b, bitCount, k);
    }
  }

  /** A reflection over `bitCount` bits fits in `bitCount` bits. */
  lemma ReflectionBound(r: bv64, b: bv64, bitCount: bv7)
    requires 1 <= bitCount <= 64
    requires IsReflection(r, b, bitCount)
    ensures r == r & Mask(bitCount)
  {
    forall k: bv7 | k < 64
      ensures Bit(r, k) == Bit(r & Mask(bitCount), k)
    {
      MaskedBit(r, bitCount, k);
    }
    BitsEqual(r, r & Mask(bitCount));
  }

  /** The reflection of `b` over `bitCount` bits is below 2^bitCount. */
  lemma ReflectBitsBound(b: bv64, bitCount: bv7)
    requires 1 <= bitCount <= 64
    ensures ReflectBits(b, bitCount) <= Mask(bitCount)
    ensures FitsIn(ReflectBits(b, bitCount), bitCount)
  {
    var r := ReflectBits(b, bitCount);
    ReflectBitsIsReflection(b, bitCount);
    ReflectionBound(r, b, bitCount);
    AtMostMaskUnchanged(r, bitCount);
    AtMostMask(r, bitCount);
  }

  /** Two inputs that agree on their low `bitCount` bits agree on every bit the loop reads. */
  lemma SameLowBitRead(b: bv64, c: bv64, bitCount: bv7, bitNumber: bv7)
    requires bitNumber < bitCount <= 64
    requires b & Mask(bitCount) == c & Mask(bitCount)
    ensures Shr(b, bitNumber) & 1 == Shr(c, bitNumber) & 1
  {
  }

  lemma ReflectPrefixSameStep(b: bv64, c: bv64, bitCount: bv7, done: bv7)
    requires 0 < done <= bitCount <= 64
    requires ReflectPrefix(b, bitCount, done - 1) == ReflectPrefix(c, bitCount, done - 1)
    requires Shr(b, done - 1) & 1 == Shr(c, done - 1) & 1
    ensures ReflectPrefix(b, bitCount, done) == ReflectPrefix(c, bitCount, done)
  {
  }

  /** Every prefix of the reflection loop agrees on inputs with the same low `bitCount` bits. */
  lemma {:induction false} ReflectPrefixLowBits(b: bv64, c: bv64, bitCount: bv7, done: bv7)
    requires 1 <= bitCount <= 64 && done <= bitCount
    requires b & Mask(bitCount) == c & Mask(bitCount)
    ensures ReflectPrefix(b, bitCount, done) == ReflectPrefix(c, bitCount, done)
    decreases done
  {
    if done > 0 {
      ReflectPrefixLowBits(b, c, bitCount, done - 1);
      SameLowBitRead(b, c, bitCount, done - 1);
      ReflectPrefixSameStep(b, c, bitCount, done);
    }
  }

  /** Reflection looks only at the low `bitCount` bits of its input. */
  lemma ReflectBitsLowBits(b: bv64, c: bv64, bitCount: bv7)
    requires 1 <= bitCount <= 64
    requires b & Mask(bitCount) == c & Mask(bitCount)
    ensures ReflectBits(b, bitCount) == ReflectBits(c, bitCount)
  {
    ReflectPrefixLowBits(b, c, bitCount, bitCount);
  }

  lemma MirrorTwice(b: bv64, bitCount: bv7, k: bv7)
    requires k < bitCount <= 64
    ensures bitCount - 1 - k < 64
    ensures Bit(b, bitCount - 1 - (bitCount - 1 - k)) <==> Bit(b, k)
  {
  }

  /** The reflection of a reflection is the original value masked to `bitCount` bits. */
  lemma ReflectionTwice(b: bv64, r: bv64, rr: bv64, bitCount: bv7)
    requires 1 <= bitCount <= 64
    requires IsReflection(r, b, bitCount) && IsReflection(rr, r, bitCount)
    ensures rr == b & Mask(bitCount)
  {
    forall k: bv7 | k < 64
      ensures Bit(rr, k) == Bit(b & Mask(bitCount), k)
    {
      MaskedBit(b, bitCount, k);
      if k < bitCount {
        MirrorTwice(b, bitCount, k);
        assert Bit(r, bitCount - 1 - k) <==> Bit(b, k);
      }
    }
    BitsEqual(rr, b & Mask(bitCount));
  }

  /** Reflecting twice over the same width gives back the low `bitCount` bits. */
  lemma ReflectBitsInvolution(b: bv64, bitCount: bv7)
    requires 1 <= bitCount <= 64
    ensures ReflectBits(ReflectBits(b, bitCount), bitCount) == b & Mask(bitCount)
  {
    var r := ReflectBits(b, bitCount);
    ReflectBitsIsReflection(b, bitCount);
    ReflectBitsIsReflection(r, bitCount);
    ReflectionTwice(b, r, ReflectBits(r, bitCount), bitCount);
  }

  /** Reflecting zero gives zero, over any width. */
  lemma ReflectZero(bitCount: bv7)
    requires bitCount <= 64
    ensures ReflectBits(0, bitCount) == 0
  {
    forall k: bv7 | k < 64
      ensures Bit(ReflectBits(0, bitCount), k) == Bit(0, k)
    {
      ReflectBitsBit(0, bitCount, k);
    }
    BitsEqual(ReflectBits(0, bitCount), 0);
  }
}
