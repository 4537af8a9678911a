/**
  The table-driven CRC engine. An engine owns one valid parameter set and
  the 256-entry lookup table derived from it once, at construction; a check
  value is the byte-wise fold of the data through that table, followed by
  the output reflection and the xor-out step.

  Widths below 8 are accepted, as CrcSharp accepts them: every shift there uses
  the count modulo 64, so `Width - 8` shifts by `56 + Width`. The model
  computes exactly what those shifts compute and claims nothing about
  whether that is a meaningful CRC.
*/
module CrcEngine {
  import opened Bits
  import opened Wrappers
  import opened LittleEndian
  import opened CrcParameters

  /** `UInt64.MaxValue >> (64 - Width)`, the register mask. */
  function RegisterMask(p: Parameters): bv64
    requires p.Valid()
  {
    Mask(p.width)
  }

  /** Truncating conversion of a 64-bit value to a byte, as the `(byte)` cast does. */
  function ToByte(x: bv64): Byte
  {
    (x & 0xFF) as Byte
  }

  /** A table index `x & 0xFF`, always within the 256 entries. */
  function TableIndex(x: bv64): (i: nat)
    ensures i < 256
  {
    ToByte(x) as nat
  }

  // ----- Table generation -----

  /** One turn of the inner table loop: shift left, xoring in the polynomial when the top bit was set. */
  function ShiftStep(r: bv64, polynomial: bv64, topBit: bv64): bv64
  {
    if r & topBit != 0 then (r << 1) ^ polynomial else r << 1
  }

  /** `count` turns of the inner table loop. */
  function ShiftSteps(r: bv64, polynomial: bv64, topBit: bv64, count: nat): bv64
    decreases count
  {
    if count == 0 then r else ShiftStep(ShiftSteps(r, polynomial, topBit, count - 1), polynomial, topBit)
  }

  /** The table input byte for index `i`: `i`, bit-reversed when the input is reflected. */
  function TableInput(i: Byte, reflectIn: bool): Byte
  {
    if reflectIn then ToByte(ReflectBits(i as bv64, 8)) else i
  }

  /**
    Table entry for byte `i` on explicit arguments: the input byte moved to
    the top of the register, eight shift steps keyed on the top bit
    `1 << (w - 1)`, reflected back over the width when the input is
    reflected, then masked to the width.
  */
  function Entry(i: Byte, w: bv7, polynomial: bv64, reflectIn: bool): (r: bv64)
    requires 2 <= w <= 64
    ensures r <= Mask(w)
  {
    var shifted := ShiftSteps(Shl(TableInput(i, reflectIn) as bv64, w - 8), polynomial, Shl(1, w - 1), 8);
    var r := if reflectIn then ReflectBits(shifted, w) else shifted;
    MaskedAtMostMask(r, w);
    r & Mask(w)
  }

  /** Entry `i` of the lookup table of parameter set `p`. */
  function TableEntry(p: Parameters, i: Byte): (r: bv64)
    requires p.Valid()
    ensures r <= RegisterMask(p)
  {
    Entry(i, p.width, p.polynomial, p.reflectIn)
  }

  /** The lookup table: 256 entries, each within the width. */
  function GenerateLookupTable(p: Parameters): (table: seq<bv64>)
    requires p.Valid()
    ensures |table| == 256
    ensures forall i | 0 <= i < 256 :: table[i] <= RegisterMask(p)
  {
    seq(256, i requires 0 <= i < 256 => TableEntry(p, i as Byte))
  }

  /** Entry `i` of the generated table is `TableEntry(p, i)`. */
  lemma LookupTableEntry(p: Parameters, i: Byte)
    requires p.Valid()
    ensures GenerateLookupTable(p)[i as int] == TableEntry(p, i)
  {
  }

  /** The loop's shift steps keep a zero register at zero. */
  lemma {:induction false} ShiftStepsZero(polynomial: bv64, topBit: bv64, count: nat)
    ensures ShiftSteps(0, polynomial, topBit, count) == 0
    decreases count
  {
    if count > 0 {
      ShiftStepsZero(polynomial, topBit, count - 1);
    }
  }

  /** Byte value 0 has table entry 0, whatever the width, polynomial and input reflection. */
  lemma EntryZero(w: bv7, polynomial: bv64, reflectIn: bool)
    requires 2 <= w <= 64
    ensures Entry(0, w, polynomial, reflectIn) == 0
  {
    ReflectZero(8);
    assert TableInput(0, reflectIn) == 0;
    ShiftStepsZero(polynomial, Shl(1, w - 1), 8);
    ReflectZero(w);
  }

  /** The generated table starts with entry 0: a zero byte leaves a zero register zero. */
  lemma LookupTableStartsAtZero(p: Parameters)
    requires p.Valid()
    ensures GenerateLookupTable(p)[0] == 0
  {
    LookupTableEntry(p, 0);
    EntryZero(p.width, p.polynomial, p.reflectIn);
  }

  /**
    The table depends on the width, the polynomial and the input reflection
    only: the initial value, the output reflection and the xor-out value
    play no part in it.
  */
  lemma TableInputSide(p: Parameters, q: Parameters)
    requires p.Valid() && q.Valid()
    requires p.width == q.width && p.polynomial == q.polynomial && p.reflectIn == q.reflectIn
    ensures GenerateLookupTable(p) == GenerateLookupTable(q)
  {
    forall i | 0 <= i < 256
      ensures GenerateLookupTable(p)[i] == GenerateLookupTable(q)[i]
    {
      LookupTableEntry(p, i as Byte);
      LookupTableEntry(q, i as Byte);
    }
  }

  // ----- The engine -----

  datatype Crc = Crc(parameters: Parameters, lookupTable: seq<bv64>) {
    /** An engine as construction leaves it: a valid parameter set and the table generated from it. */
    predicate Valid() {
      parameters.Valid() && lookupTable == GenerateLookupTable(parameters)
    }

    /**
      What a calculation needs of an engine: a valid parameter set and a
      table of 256 entries. The table is a public array in CrcSharp that
      callers can overwrite, so nothing is assumed about its entries.
    */
    predicate WellFormed() {
      parameters.Valid() && |lookupTable| == 256
    }
  }

  /**
    Builds an engine. A missing parameter set is refused; otherwise the
    engine keeps the parameter set as given and a table of 256 entries, each
    within the width, computed from it alone.
  */
  function NewCrc(parameters: Option<Parameters>): (r: Result<Crc, Error>)
    requires parameters.Some? ==> parameters.value.Valid()
    ensures parameters.None? <==> r == Failure(ArgumentNull(ParametersArgument))
    ensures parameters.Some? ==> r.Success? && r.value.Valid() && r.value.parameters == parameters.value
    ensures r.Success? ==> |r.value.lookupTable| == 256
    ensures r.Success? ==> forall i | 0 <= i < 256 :: r.value.lookupTable[i] <= RegisterMask(r.value.parameters)
  {
    match parameters
    case None => Failure(ArgumentNull(ParametersArgument))
    case Some(p) => Success(Crc(p, GenerateLookupTable(p)))
  }

  // ----- Computing a check value -----

  /** `x`, reflected over the width when `reflect` is set. */
  function Reflected(x: bv64, w: bv7, reflect: bool): bv64
    requires 1 <= w <= 64
  {
    if reflect then ReflectBits(x, w) else x
  }

  /** The register before any data: the initial value, reflected when the input is reflected. */
  function InitialRegister(p: Parameters): (r: bv64)
    requires p.Valid()
    ensures r <= RegisterMask(p)
  {
    var r := Reflected(p.initialValue, p.width, p.reflectIn);
    ReflectedWithin(p.initialValue, p.width, p.reflectIn);
    r
  }

  /** A value within the width stays within it whether or not it is reflected over the width. */
  lemma ReflectedWithin(x: bv64, w: bv7, reflect: bool)
    requires 1 <= w <= 64 && FitsIn(x, w)
    ensures Reflected(x, w, reflect) <= Mask(w)
  {
    if reflect {
      ReflectBitsBound(x, w);
    } else {
      AtMostMask(x, w);
    }
  }

  /**
    One data byte on explicit arguments: the table entry selected by the
    byte and the register's leading byte, xored with the rest of the
    register shifted along, masked to the width.
  */
  function Update(table: seq<bv64>, crc: bv64, b: Byte, w: bv7, reflectIn: bool): (r: bv64)
    requires 2 <= w <= 64 && |table| == 256
    ensures r <= Mask(w)
  {
    var next :=
      if reflectIn then table[TableIndex(crc ^ b as bv64)] ^ (crc >> 8)
      else table[TableIndex(Shr(crc, w - 8) ^ b as bv64)] ^ Shl(crc, 8);
    MaskedAtMostMask(next, w);
    next & Mask(w)
  }

  /** The register after one more data byte, masked to the width. */
  function UpdateRegister(p: Parameters, table: seq<bv64>, crc: bv64, b: Byte): (r: bv64)
    requires p.Valid() && |table| == 256
    ensures r <= RegisterMask(p)
  {
    Update(table, crc, b, p.width, p.reflectIn)
  }

  /** The register after folding `data`, byte by byte in order, into `crc`. */
  function Fold(p: Parameters, table: seq<bv64>, crc: bv64, data: seq<Byte>): (r: bv64)
    requires p.Valid() && |table| == 256
    ensures crc <= RegisterMask(p) ==> r <= RegisterMask(p)
    decreases |data|
  {
    if |data| == 0 then crc
    else UpdateRegister(p, table, Fold(p, table, crc, data[..|data| - 1]), data[|data| - 1])
  }

  /** The final xor of the output stage. */
  function XorOut(v: bv64, xorOut: bv64): bv64 {
    v ^ xorOut
  }

  /** The output stage on explicit arguments: optionally reflect, then xor with the xor-out value. */
  function Output(crc: bv64, w: bv7, reflect: bool, xorOut: bv64): bv64
    requires 1 <= w <= 64
  {
    XorOut(Reflected(crc, w, reflect), xorOut)
  }

  /** The output stage: reflect iff exactly one of the reflection flags is set, then xor with the xor-out value. */
  function Finalize(p: Parameters, crc: bv64): bv64
    requires p.Valid()
  {
    Output(crc, p.width, p.reflectIn != p.reflectOut, p.xorOutValue)
  }

  /** The check value of `data` as a number. */
  function FinalValue(c: Crc, data: seq<Byte>): (v: bv64)
    requires c.WellFormed()
    ensures FitsIn(v, c.parameters.width)
  {
    var p := c.parameters;
    var crc := Fold(p, c.lookupTable, InitialRegister(p), data);
    OutputWithin(crc, p.xorOutValue, p.width, p.reflectIn != p.reflectOut);
    Finalize(p, crc)
  }

  /** The output stage on a register within the width stays within the width. */
  lemma OutputWithin(crc: bv64, xorOut: bv64, w: bv7, reflect: bool)
    requires 1 <= w <= 64 && crc <= Mask(w) && FitsIn(xorOut, w)
    ensures FitsIn(Output(crc, w, reflect, xorOut), w)
  {
    AtMostMask(crc, w);
    ReflectedWithin(crc, w, reflect);
    XorWithin(Reflected(crc, w, reflect), xorOut, w);
  }

  /** Xor of two values within the width is within the width. */
  lemma XorWithin(a: bv64, b: bv64, w: bv7)
    requires 1 <= w <= 64 && a <= Mask(w) && FitsIn(b, w)
    ensures a ^ b <= Mask(w) && FitsIn(a ^ b, w)
  {
    AtMostMask(a, w);
    AtMostMask(a ^ b, w);
  }

  /** The number of bytes in a check value of `width` bits, `(width + 7) / 8`. */
  function ByteCount(width: bv7): (n: nat)
    requires 2 <= width <= 64
    ensures 1 <= n <= 8
    ensures 8 * (n as bv7) >= width
    ensures n == (width as int + 7) / 8
  {
    ((width + 7) / 8) as nat
  }

  /**
    A register value of `width` bits as its first `(width + 7) / 8`
    little-endian bytes. Nothing is lost: zero-extended back to eight bytes
    they decode to the value again.
  */
  function EncodeCheckValue(v: bv64, width: bv7): (out: seq<Byte>)
    requires 2 <= width <= 64
    ensures |out| == ByteCount(width)
    ensures forall i | 0 <= i < |out| :: out[i] == GetBytes(v)[i]
  {
    Take(GetBytes(v), ByteCount(width))
  }

  /** Zero-extended back to eight bytes, the encoded check value decodes to the value again. */
  lemma EncodeCheckValueRoundTrip(v: bv64, width: bv7)
    requires 2 <= width <= 64 && FitsIn(v, width)
    ensures ToUInt64(Resize(EncodeCheckValue(v, width), 8)) == v
  {
    var n := ByteCount(width);
    FitsInWider(v, width, 8 * (n as bv7));
    TruncatedRoundTrip(v, n);
  }

  lemma FitsInWider(x: bv64, narrow: bv7, wide: bv7)
    requires narrow <= wide <= 64 && FitsIn(x, narrow)
    ensures FitsIn(x, wide)
  {
  }

  /**
    The check value of `data` as bytes. Missing data is refused; otherwise
    the result is the first `(Width + 7) / 8` little-endian bytes of the
    final register value.
  */
  function CalculateCheckValue(c: Crc, data: Option<seq<Byte>>): (r: Result<seq<Byte>, Error>)
    requires c.WellFormed()
    ensures data.None? <==> r == Failure(ArgumentNull(DataArgument))
    ensures data.Some? ==> r.Success? && |r.value| == ByteCount(c.parameters.width)
    ensures data.Some? ==> forall i | 0 <= i < |r.value| :: r.value[i] == GetBytes(FinalValue(c, data.value))[i]
  {
    match data
    case None => Failure(ArgumentNull(DataArgument))
    case Some(bytes) => Success(EncodeCheckValue(FinalValue(c, bytes), c.parameters.width))
  }

  /**
    The check value as a number: the byte result zero-extended to eight
    bytes and decoded. Missing data is refused; otherwise the number is the
    final register value, which fits in the width.
  */
  function CalculateAsNumeric(c: Crc, data: Option<seq<Byte>>): (r: Result<bv64, Error>)
    requires c.WellFormed()
    ensures data.None? ==> r == Failure(ArgumentNull(DataArgument))
    ensures data.Some? ==> r == Success(FinalValue(c, data.value))
    ensures r.Success? ==> FitsIn(r.value, c.parameters.width)
  {
    var bytes :- CalculateCheckValue(c, data);
    var v := ToUInt64(Resize(bytes, 8));
    EncodeCheckValueRoundTrip(FinalValue(c, data.value), c.parameters.width);
    Success(v)
  }

  // ----- Properties of the fold -----

  /** Folding `a + b` is folding `b` from the register reached after `a`: the fold can be resumed. */
  lemma {:induction false} FoldAppend(p: Parameters, table: seq<bv64>, crc: bv64, a: seq<Byte>, b: seq<Byte>)
    requires p.Valid() && |table| == 256
    ensures Fold(p, table, crc, a + b) == Fold(p, table, Fold(p, table, crc, a), b)
    decreases |b|
  {
    if |b| == 0 {
      assert a + b == a;
    } else {
      var ab := a + b;
      assert ab[..|ab| - 1] == a + b[..|b| - 1];
      assert ab[|ab| - 1] == b[|b| - 1];
      FoldAppend(p, table, crc, a, b[..|b| - 1]);
    }
  }

  /**
    The fold depends on the width and the input reflection only, besides
    the table: the initial value, the output reflection and the xor-out
    value play no part in it.
  */
  lemma {:induction false} FoldInputSide(p: Parameters, q: Parameters, table: seq<bv64>, crc: bv64, data: seq<Byte>)
    requires p.Valid() && q.Valid() && |table| == 256
    requires p.width == q.width && p.reflectIn == q.reflectIn
    ensures Fold(p, table, crc, data) == Fold(q, table, crc, data)
    decreases |data|
  {
    if |data| > 0 {
      FoldInputSide(p, q, table, crc, data[..|data| - 1]);
    }
  }

  /**
    With no data the fold does nothing, so the check value is the initial
    value put through the output stage with only the output reflection: an
    input reflection of the initial value is undone by the output stage.
  */
  lemma EmptyDataCheckValue(c: Crc)
    requires c.WellFormed()
    ensures FinalValue(c, []) ==
      Output(c.parameters.initialValue, c.parameters.width, c.parameters.reflectOut, c.parameters.xorOutValue)
  {
    var p := c.parameters;
    assert Fold(p, c.lookupTable, InitialRegister(p), []) == InitialRegister(p);
    ReflectionsCancel(p.initialValue, p.width, p.reflectIn, p.reflectOut);
  }

  /**
    The output reflection applied to the input-reflected initial value
    leaves it reflected exactly when the output is reflected.
  */
  lemma ReflectionsCancel(init: bv64, w: bv7, reflectIn: bool, reflectOut: bool)
    requires 1 <= w <= 64 && FitsIn(init, w)
    ensures Reflected(Reflected(init, w, reflectIn), w, reflectIn != reflectOut) == Reflected(init, w, reflectOut)
  {
    if reflectIn && !reflectOut {
      ReflectBitsInvolution(init, w);
      AtMostMask(init, w);
      AtMostMaskUnchanged(init, w);
    }
  }

  /**
    The byte loop of the check-value computation: every byte in order is
    folded into the register, which stays within the width after each one.
  */
  method FoldLoop(p: Parameters, table: seq<bv64>, initial: bv64, data: seq<Byte>) returns (crc: bv64)
    requires p.Valid() && |table| == 256 && initial <= RegisterMask(p)
    ensures crc == Fold(p, table, initial, data)
  {
    crc := initial;
    var i := 0;
    while i < |data|
      invariant 0 <= i <= |data|
      invariant crc == Fold(p, table, initial, data[..i])
      invariant crc <= RegisterMask(p)
    {
      crc := UpdateRegister(p, table, crc, data[i]);
      assert data[..i + 1][..i] == data[..i];
      i := i + 1;
    }
    assert data[..i] == data;
  }
}
