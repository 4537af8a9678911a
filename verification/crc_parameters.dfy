/**
  The parameter set of one CRC variant in the Rocksoft parameterised model:
  width, polynomial, initial value, xor-out value and the two reflection
  flags. A parameter set exists only once it has been validated.
*/
module CrcParameters {
  import opened Bits
  import opened Wrappers

  datatype Parameters = Parameters(
    width: bv7,
    polynomial: bv64,
    initialValue: bv64,
    xorOutValue: bv64,
    reflectIn: bool,
    reflectOut: bool)
  {
    /** What construction guarantees of every parameter set: a width of 2..64 bits and values that fit in it. */
    predicate Valid() {
      && 2 <= width <= 64
      && FitsIn(polynomial, width)
      && FitsIn(initialValue, width)
      && FitsIn(xorOutValue, width)
    }
  }

  /** `UInt64.MaxValue >> (64 - width)` for a width already known to be in range. */
  function WidthMask(width: int): bv64
    requires 2 <= width <= 64
  {
    Mask(width as bv7)
  }

  /**
    The checks made before a parameter set is built, in the order CrcSharp makes them:
    first the width range, then each value against the width mask with a
    strict `>`.
  */
  function CheckParameters(width: int, polynomial: bv64, initialValue: bv64, xorOutValue: bv64): (e: Option<Error>)
    ensures e.None? ==> 2 <= width <= 64
    ensures !(2 <= width <= 64) ==> e == Some(ArgumentOutOfRange(WidthArgument))
    ensures 2 <= width <= 64 ==>
      (e == Some(ArgumentOutOfRange(PolynomialArgument)) <==> !FitsIn(polynomial, width as bv7))
    ensures 2 <= width <= 64 && FitsIn(polynomial, width as bv7) ==>
      (e == Some(ArgumentOutOfRange(InitialValueArgument)) <==> !FitsIn(initialValue, width as bv7))
    ensures 2 <= width <= 64 && FitsIn(polynomial, width as bv7) && FitsIn(initialValue, width as bv7) ==>
      (e == Some(ArgumentOutOfRange(XorOutValueArgument)) <==> !FitsIn(xorOutValue, width as bv7))
    ensures e.None? <==>
      2 <= width <= 64 && FitsIn(polynomial, width as bv7) && FitsIn(initialValue, width as bv7)
      && FitsIn(xorOutValue, width as bv7)
  {
    if width < 2 || width > 64 then Some(ArgumentOutOfRange(WidthArgument))
    else
      var maxValue := WidthMask(width);
      ExceedsMask(polynomial, width);
      ExceedsMask(initialValue, width);
      ExceedsMask(xorOutValue, width);
      if polynomial > maxValue then Some(ArgumentOutOfRange(PolynomialArgument))
      else if initialValue > maxValue then Some(ArgumentOutOfRange(InitialValueArgument))
      else if xorOutValue > maxValue then Some(ArgumentOutOfRange(XorOutValueArgument))
      else None
  }

  /** A value exceeds the width mask exactly when it does not fit in `width` bits. */
  lemma ExceedsMask(x: bv64, width: int)
    requires 2 <= width <= 64
    ensures x > WidthMask(width) <==> !FitsIn(x, width as bv7)
  {
    AtMostMask(x, width as bv7);
  }

  /**
    Builds a parameter set. It succeeds exactly when the width is 2..64 and
    every value fits in `width` bits; the width is checked before any value,
    and the values in the order polynomial, initial value, xor-out value.
    On success every field holds its argument unchanged.
  */
  function NewParameters(width: int, polynomial: bv64, initialValue: bv64, xorOutValue: bv64,
                         reflectIn: bool, reflectOut: bool): (r: Result<Parameters, Error>)
    ensures r.Success? <==>
      && 2 <= width <= 64
      && FitsIn(polynomial, width as bv7)
      && FitsIn(initialValue, width as bv7)
      && FitsIn(xorOutValue, width as bv7)
    ensures r.Success? ==> r.value.Valid() && r.value.width as int == width
    ensures r.Success? ==>
      r.value == Parameters(width as bv7, polynomial, initialValue, xorOutValue, reflectIn, reflectOut)
    ensures !(2 <= width <= 64) ==> r == Failure(ArgumentOutOfRange(WidthArgument))
    ensures 2 <= width <= 64 && !FitsIn(polynomial, width as bv7) ==>
      r == Failure(ArgumentOutOfRange(PolynomialArgument))
    ensures 2 <= width <= 64 && FitsIn(polynomial, width as bv7) && !FitsIn(initialValue, width as bv7) ==>
      r == Failure(ArgumentOutOfRange(InitialValueArgument))
    ensures (&& 2 <= width <= 64 && FitsIn(polynomial, width as bv7) && FitsIn(initialValue, width as bv7)
             && !FitsIn(xorOutValue, width as bv7)) ==>
      r == Failure(ArgumentOutOfRange(XorOutValueArgument))
  {
    var check := CheckParameters(width, polynomial, initialValue, xorOutValue);
    if check.Some? then
      Failure(check.value)
    else
      ExceedsMask(polynomial, width);
      ExceedsMask(initialValue, width);
      ExceedsMask(xorOutValue, width);
      Success(Parameters(width as bv7, polynomial, initialValue, xorOutValue, reflectIn, reflectOut))
  }

  /** Width 65 is refused for its width even when every value is all ones. */
  lemma WidthCheckedFirst()
    ensures NewParameters(65, AllOnes, AllOnes, AllOnes, false, false) == Failure(ArgumentOutOfRange(WidthArgument))
    ensures NewParameters(1, 0, 0, 0, false, false) == Failure(ArgumentOutOfRange(WidthArgument))
  {
  }

  /** Each value one bit too wide for a 32-bit CRC is refused on its own. */
  lemma ValuesCheckedSeparately()
    ensures NewParameters(32, 0x1_FFFF_FFFF, 0xffff0000, 0xeeaa00b1, true, false) == Failure(ArgumentOutOfRange(PolynomialArgument))
    ensures NewParameters(32, 0xFFFF_FFFF, 0x1_FFFF_FFFF, 0xeeaa00b1, true, false) == Failure(ArgumentOutOfRange(InitialValueArgument))
    ensures NewParameters(32, 0xFFFF_FFFF, 0xFFFF_FFFF, 0x1_FFFF_FFFF, true, false) == Failure(ArgumentOutOfRange(XorOutValueArgument))
  {
  }

  /** Values equal to the mask are accepted: at width 64 all-ones initial and xor-out values pass. */
  lemma MaskItselfAccepted()
    ensures NewParameters(64, 0x42f0e1eba9ea3693, AllOnes, AllOnes, true, true).Success?
    ensures NewParameters(7, 0x0F, 0x0F, 0x0F, false, false).Success?
  {
  }
}
