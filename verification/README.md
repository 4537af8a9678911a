# CrcSharp in Dafny

A model of CrcSharp, a table-driven CRC engine that follows the Rocksoft
parameterised CRC model. A CRC variant is given by six values:
- width (2..64 bits);
- polynomial;
- initial register value;
- xor-out value;
- whether input bytes are reflected;
- whether the output is reflected.

The library has two parts:
- `CrcParameters` validates such a parameter set.
- `Crc` derives a 256-entry lookup table from it. It then folds a byte sequence through the table, applies the output reflection and the xor-out value, and returns the check value in one of two forms:
  - the first `(Width + 7) / 8` little-endian bytes; or
  - those bytes, zero-extended and decoded, as a 64-bit number.

Files:
- `bits.dfy` (module `Bits`): the shift semantics of a 64-bit unsigned register, width masks, and bit reflection (`ReflectBits`) with its properties.
  - Registers are `bv64`, and shift counts are `bv7`.
  - Every shift takes its count modulo 64, as the 64-bit shifts of CrcSharp's C# code do. A width below 8 therefore shifts by `Width - 8 + 64`, exactly as the C# code computes.
- `wrappers.dfy` (module `Wrappers`): `Option`, `Result`, and the two error kinds (argument out of range, argument missing) together with the argument they name.
- `crc_parameters.dfy` (module `CrcParameters`): the parameter record, its validity predicate, and the validating constructor.
- `little_endian.dfy` (module `LittleEndian`): the eight-byte little-endian encoding and decoding of a 64-bit value, plus the take and resize steps applied to it.
- `crc.dfy` (module `CrcEngine`): the lookup table, the engine, the byte fold, the output stage and both calculate operations. CrcSharp exposes the table as a public array, so callers can overwrite its entries. The calculations therefore assume only that the table has 256 entries (`Crc.WellFormed`), not that it is the generated one.
- `known_answers.dfy` (module `KnownAnswers`): proved check values of "123456789" for eight variants:
  - CRC-8/SMBUS and CRC-16/XMODEM, which reflect nothing;
  - CRC-8/SAE-J1850 (initial value and xor-out value 0xff) and CRC-8/ITU (xor-out value 0x55), which reflect nothing;
  - CRC-8/MAXIM and CRC-8/ROHC (initial value 0xff), which reflect input and output;
  - CRC-12/DECT, which reflects nothing, and CRC-12/UMTS, which reflects only the output. Both use polynomial 0x80f.

## Model

| member | source | states |
|---|---|---|
| Bits.MaskValue | src/CrcSharp/CrcParameters.cs:100 | `UInt64.MaxValue >> (64 - width)` is 2^width - 1 for every width 1..64, including width 64 where the shift count is 0 |
| Bits.AtMostMask | src/CrcSharp/CrcParameters.cs:100-109 | a value is at most the width mask exactly when it has no set bit at or above `width` |
| Bits.ReflectPrefixBit | src/CrcSharp/Crc.cs:161-169 | after the first `done` turns of the reflection loop, output bit `k` is set exactly when `k` mirrors an input bit already read and that input bit is set |
| Bits.ReflectBitsBit | src/CrcSharp/Crc.cs:159-172 | about `ReflectBits`, which has no contract of its own: output bit `k` is set iff `k < bitCount` and input bit `bitCount - 1 - k` is set |
| Bits.ReflectBitsIsReflection | src/CrcSharp/Crc.cs:159-172 | the result holds the low `bitCount` input bits in reverse order and nothing above them |
| Bits.ReflectBitsBound | src/CrcSharp/Crc.cs:159-172 | the reflection is below 2^bitCount |
| Bits.ReflectBitsLowBits | src/CrcSharp/Crc.cs:159-172 | two inputs with the same low `bitCount` bits have the same reflection |
| Bits.ReflectBitsInvolution | src/CrcSharp/Crc.cs:159-172 | reflecting twice over the same width gives the input masked to that width |
| Bits.ReflectZero | src/CrcSharp/Crc.cs:159-172 | reflecting zero gives zero over every width |
| CrcParameters.CheckParameters | src/CrcSharp/CrcParameters.cs:95-110 | width outside 2..64 is refused first; then the first of polynomial, initial value and xor-out value that does not fit in `width` bits is the one refused; no error iff everything fits |
| CrcParameters.ExceedsMask | src/CrcSharp/CrcParameters.cs:100-109 | `value > maxValue` holds exactly when the value does not fit in `width` bits |
| CrcParameters.NewParameters | src/CrcSharp/CrcParameters.cs:83-110 | construction succeeds iff 2 <= width <= 64 and all three values fit in `width` bits; on success every field holds its argument unchanged and the set is valid; each failure names the argument CrcSharp's check order blames |
| CrcParameters.WidthCheckedFirst | src/CrcSharp/CrcParameters.cs:97-98 | widths 65 and 1 are refused for the width, even when every value is all ones |
| CrcParameters.ValuesCheckedSeparately | src/CrcSharp/CrcParameters.cs:102-109 | at width 32, a polynomial, an initial value or an xor-out value of 0x1FFFFFFFF is each refused on its own, naming that argument |
| CrcParameters.MaskItselfAccepted | src/CrcSharp/CrcParameters.cs:97-108 | values equal to the mask pass (`>` is strict), including all-ones values at width 64; width 7 with in-range values is accepted |
| LittleEndian.ToUInt64GetBytes | src/CrcSharp/Crc.cs:73 | decoding the eight-byte little-endian encoding of a value gives the value back |
| LittleEndian.GetBytesToUInt64 | src/CrcSharp/Crc.cs:116 | encoding the decoding of eight bytes gives the bytes back |
| LittleEndian.TruncatedRoundTrip | src/CrcSharp/Crc.cs:69-74 | keeping the low `count` bytes of a value that fits in `count` bytes, then zero-extending to eight, restores its encoding and its value |
| CrcEngine.Entry | src/CrcSharp/Crc.cs:129-153 | a table entry built from one byte is within the width; `TableEntry` applies it to a parameter set's fields and carries the same bound |
| CrcEngine.GenerateLookupTable | src/CrcSharp/Crc.cs:124-156 | the table has exactly 256 entries, each at most 2^width - 1 |
| CrcEngine.ShiftStepsZero | src/CrcSharp/Crc.cs:136-146 | the eight shift steps of the inner table loop keep a zero register at zero, whatever the polynomial and top bit |
| CrcEngine.EntryZero | src/CrcSharp/Crc.cs:129-153 | byte value 0 has table entry 0 for every width, polynomial and input reflection |
| CrcEngine.LookupTableStartsAtZero | src/CrcSharp/Crc.cs:119-157 | the first entry of every generated table is 0 |
| CrcEngine.TableInputSide | src/CrcSharp/Crc.cs:119-157 | two parameter sets with the same width, polynomial and input reflection have the same table |
| CrcEngine.NewCrc | src/CrcSharp/Crc.cs:58-62 | a missing parameter set is refused with an argument-missing error; otherwise the engine keeps the parameters and a 256-entry table generated from them, each entry within the width |
| CrcEngine.InitialRegister | src/CrcSharp/Crc.cs:86-91 | the starting register, reflected when the input is reflected, is within the width |
| CrcEngine.Update | src/CrcSharp/Crc.cs:95-104 | the register after one byte is within the width; `UpdateRegister`, which `Fold` and `FoldLoop` call, applies it to a parameter set's fields |
| CrcEngine.Fold | src/CrcSharp/Crc.cs:93-105 | a register that starts within the width stays within it after every byte |
| CrcEngine.FoldLoop | src/CrcSharp/Crc.cs:86-105 | the byte loop computes the fold, keeping the register within the width after every byte |
| CrcEngine.FoldAppend | src/CrcSharp/Crc.cs:93-105 | folding `a + b` equals folding `b` from the register reached after `a` |
| CrcEngine.FoldInputSide | src/CrcSharp/Crc.cs:93-105 | given the same table, the fold depends only on the width and the input reflection |
| CrcEngine.ReflectionsCancel | src/CrcSharp/Crc.cs:86-113 | the output reflection, applied iff the two flags differ, leaves the input-reflected initial value reflected exactly when the output is reflected |
| CrcEngine.EmptyDataCheckValue | src/CrcSharp/Crc.cs:86-115 | for empty data the check value is `(ReflectOut ? reflect(init) : init) ^ xorout` |
| CrcEngine.OutputWithin | src/CrcSharp/Crc.cs:110-115 | about `Output`, and so `Finalize`, which applies it to a parameter set's fields: the output stage keeps a register that is within the width within the width |
| CrcEngine.FinalValue | src/CrcSharp/Crc.cs:86-115 | the final value fits in `width` bits |
| CrcEngine.ByteCount | src/CrcSharp/Crc.cs:116 | `(Width + 7) / 8` is 1..8 and those bytes hold at least `width` bits |
| CrcEngine.EncodeCheckValue | src/CrcSharp/Crc.cs:116 | the check value bytes are exactly `(Width + 7) / 8` in number, each one the matching little-endian byte of the value |
| CrcEngine.EncodeCheckValueRoundTrip | src/CrcSharp/Crc.cs:69-74 | a value that fits in the width, encoded, zero-extended to eight bytes and decoded, is the value again |
| CrcEngine.CalculateCheckValue | src/CrcSharp/Crc.cs:81-117 | missing data is refused with an argument-missing error; otherwise the result has `(Width + 7) / 8` bytes, least significant first, of the final value. This holds for any 256-entry table, since callers can overwrite the public `LookupTable` array |
| CrcEngine.CalculateAsNumeric | src/CrcSharp/Crc.cs:69-74 | missing data is refused; otherwise the decoded, zero-extended byte result equals the final value, which fits in the width |
| KnownAnswers.DectEntries | src/CrcSharp/Crc.cs:127-153 | the CRC-12/DECT table entries visited by "123456789" have their expected values |
| KnownAnswers.DectRegister | src/CrcSharp/Crc.cs:93-105 | the CRC-12/DECT register after "123456789" is 0xf5b |
| KnownAnswers.CheckValueBytes | src/CrcSharp/Crc.cs:116 | the proved check values are emitted least significant byte first, in `(Width + 7) / 8` bytes: 0xf5b and 0xdaf at width 12 as 5b 0f and af 0d, 0xf4, 0xa1, 0x4b and 0xd0 at width 8 as one byte, 0x31c3 at width 16 as c3 31 |
| KnownAnswers.UmtsReflection | src/CrcSharp/Crc.cs:110-113 | the output reflection turns 0xf5b into 0xdaf over twelve bits |
| KnownAnswers.DectCheckValue | test/CrcSharpTests/Crc12Tests.cs:62-67 | CRC-12/DECT of "123456789" is 0xf5b as a number and 5b 0f as bytes |
| KnownAnswers.UmtsCheckValue | test/CrcSharpTests/Crc12Tests.cs:70-75 | CRC-12/UMTS of "123456789" is 0xdaf as a number and af 0d as bytes |
| KnownAnswers.NineUpdates | src/CrcSharp/Crc.cs:93-105 | nine register updates in a row, one per byte of "123456789", are the fold of that input |
| KnownAnswers.SmbusEntries | src/CrcSharp/Crc.cs:127-153 | the CRC-8/SMBUS table entries visited by "123456789" have their expected values |
| KnownAnswers.SmbusRegister | src/CrcSharp/Crc.cs:93-105 | the CRC-8/SMBUS register after "123456789" is 0xf4 |
| KnownAnswers.SmbusCheckValue | test/CrcSharpTests/Crc8Tests.cs:53-58 | CRC-8/SMBUS of "123456789" is 0xf4 as a number and f4 as bytes |
| KnownAnswers.ItuCheckValue | test/CrcSharpTests/Crc8Tests.cs:109-114 | CRC-8/ITU of "123456789" is 0xa1 as a number and a1 as bytes: the CRC-8/SMBUS register, reached through the shared table and fold, xored with the nonzero xor-out value 0x55 |
| KnownAnswers.SaeJ1850Entries | src/CrcSharp/Crc.cs:127-153 | the CRC-8/SAE-J1850 table entries visited by "123456789" have their expected values |
| KnownAnswers.SaeJ1850Register | src/CrcSharp/Crc.cs:86-105 | the CRC-8/SAE-J1850 register, started from the nonzero initial value 0xff, is 0xb4 after "123456789" |
| KnownAnswers.SaeJ1850CheckValue | test/CrcSharpTests/Crc8Tests.cs:149-154 | CRC-8/SAE-J1850 of "123456789" is 0x4b as a number and 4b as bytes, the register 0xb4 xored with 0xff |
| KnownAnswers.MaximEntries | src/CrcSharp/Crc.cs:127-153 | the CRC-8/MAXIM table entries visited by "123456789" have their expected values; these are built through the input-reflection steps |
| KnownAnswers.MaximRegister | src/CrcSharp/Crc.cs:93-98 | the CRC-8/MAXIM register, updated by the reflected-input branch, is 0xa1 after "123456789" |
| KnownAnswers.MaximCheckValue | test/CrcSharpTests/Crc8Tests.cs:125-130 | CRC-8/MAXIM of "123456789" is 0xa1 as a number and a1 as bytes |
| KnownAnswers.RohcEntries | src/CrcSharp/Crc.cs:127-153 | the CRC-8/ROHC table entries visited by "123456789" have their expected values; these are built through the input-reflection steps |
| KnownAnswers.RohcRegister | src/CrcSharp/Crc.cs:86-105 | the CRC-8/ROHC register, started from the initial value 0xff reflected over eight bits and updated by the reflected-input branch, is 0xd0 after "123456789" |
| KnownAnswers.RohcCheckValue | test/CrcSharpTests/Crc8Tests.cs:141-146 | CRC-8/ROHC of "123456789" is 0xd0 as a number and d0 as bytes |
| KnownAnswers.XmodemEntries | src/CrcSharp/Crc.cs:127-153 | the CRC-16/XMODEM table entries visited by "123456789" have their expected values |
| KnownAnswers.XmodemRegister | src/CrcSharp/Crc.cs:93-105 | the CRC-16/XMODEM register after "123456789" is 0x31c3 |
| KnownAnswers.XmodemCheckValue | test/CrcSharpTests/Crc16Tests.cs:269-274 | CRC-16/XMODEM of "123456789" is 0x31c3 as a number and c3 31 as bytes |

## Left out

- Exceptions are not modelled as exceptions. They become `Failure` values that carry the error kind and the offending argument. Message strings are dropped.
- `BitConverter.GetBytes`, `BitConverter.ToUInt64`, LINQ `Take` and `Array.Resize` are library calls. They are written out as explicit functions (`GetBytes`, `ToUInt64`, `Take`, `Resize`), assuming a little-endian host.
- The `InvalidOperationException` guard in `GenerateLookupTable` (src/CrcSharp/Crc.cs:121-122) is not modelled. It cannot fire once the constructor has stored non-null parameters, and in the model an engine always holds a parameter set.
- Engines can be shared between threads, but that is not modelled: the code has no concurrency.
- The `for` loops of `ReflectBits` and `GenerateLookupTable` are modelled as recursive functions rather than as imperative loops:
  - `ReflectPrefix` is the reflection loop after a given number of turns.
  - `ShiftSteps` is the inner table loop.
  - `seq(256, …)` builds the outer table.
  Only the byte loop of `CalculateCheckValue` also has a loop-shaped method, `FoldLoop`.
- Widths 2..7 are computed exactly as the C# code computes them, including its wrapped shift counts. No claim is made that the result is a CRC at those widths.
- Some promises CrcSharp never makes are not modelled: equivalence to polynomial division over GF(2), and equivalence to a bitwise reference CRC.
- Only eight of the test vectors are proved: CRC-8/SMBUS, CRC-8/ITU, CRC-8/SAE-J1850, CRC-8/MAXIM, CRC-8/ROHC, CRC-12/DECT, CRC-12/UMTS and CRC-16/XMODEM. Between them they cover:
  - input reflection on and off, and output reflection equal to or different from it;
  - a nonzero initial value, both unreflected (SAE-J1850) and reflected (ROHC);
  - a nonzero xor-out value (ITU and SAE-J1850).

  The other vectors are not proved, for two reasons:
  - The reflected variants of width 16 and above (for example CRC-32 and CRC-64) need bit reflection evaluated on concrete values of 16 bits or more. That is beyond what the verifier evaluates cheaply.
  - The remaining variants that reflect nothing, or reflect only over 8 bits, combine the same branches with other polynomials, initial values and xor-out values. They are not proved, and their check values remain unverified.
- The width is stored as a 7-bit value. It is converted from the constructor's `int` argument only after the range check, so every stored width is 2..64.
- CrcParameters.MaskItselfAccepted: `test/CrcSharpTests/CrcParametersTests.cs:77` expects width 7 to be refused. The code's lower bound is 2 (src/CrcSharp/CrcParameters.cs:97), so the model follows the code and accepts width 7.
- CrcEngine.FinalValue: the contract states only that the value fits in the width. What the value is, is stated by the lemmas about it: `EmptyDataCheckValue`, the fold lemmas and the known answers.
- CrcEngine.Entry: the contract states only the bound. What the entries are, is stated by `EntryZero` and `TableInputSide` for all parameter sets, and by the visited entries of the proved variants in `SmbusEntries`, `MaximEntries`, `DectEntries` and `XmodemEntries`. The table's xor-linearity in the byte value (`Entry(i ^ j) == Entry(i) ^ Entry(j)`) is not proved.
