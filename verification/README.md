# Kefir: verified models

Kefir is a C compiler. This project models three parts of it in Dafny and proves what they promise.

**The `_BitInt` runtime** (`headers/kefir_bigint`). A bit-precise integer is a little-endian array of
8-bit digits with a bit width; the bits of the top digit beyond the width are padding and may hold
anything. `Digits.Val` and `Digits.SVal` are its unsigned and two's-complement values at a width. Every
routine is a method on arrays with the loops of the original, and its contract says what it does to
these values, for all contents of the padding. Covered are bitwise operations, addition, subtraction,
negation, shifts, casts, native and bit-range access, comparison, bit counts, schoolbook and Booth
multiplication, restoring and signed division, and conversion to and from `float`, `double` and x87
`long double`. Conversions to floating point are proved correctly rounded against a definition that
quantifies over every number of the format.

**Bit-field code generation** (`source/ast-translator/value.c`) and **integer conversions**
(`source/ast-translator/typeconv.c`). `StackMachine` gives the opcodes a meaning over a stack and a
partial byte memory: touching an unmapped byte is a fault, a load leaves the bits above the loaded
bytes undefined, and so do the bit-precise conversions above their width. The emitters append
instructions one by one to a builder; the blocks they build are proved to do what a C program expects
of them on every state, unless a bit-field exceeds its slot.

**Control flow and lowering.** Backpatching of jump targets refines a two-pass assembler. Jumps across
scopes of variable-length arrays are safe, and their stack unwinding is exact under a stated
condition. Range designators unroll to the ordered product of their ranges.

Where a natural property does not hold of the code, the exact condition is a lemma beside a concrete
failing input:

- `Divide.DivisionExact` and `Divide.DivisionFailure`, `Divide.SignedExact` and `Divide.SignedFailure`:
  divisors above half of the range of the dividend
- `Booth.BoothExact` and `Booth.BoothMinimum`: the minimum as a multiplicand
- `NarrowRounding.ComputedExact`, `NarrowRounding.PowerLost` and `NarrowRounding.CarryLost`: conversions to
  floating point at widths close to the precision, such as `_BitInt(65)` to `long double`
- the `FloatRoundTrip` methods and `FloatRoundTrip.Examples`: integers that do not come back from floating point
- `BitFieldEmitters.ReadsExactly` and `BitFieldEmitters.PackedField`: fields that exceed their slot
- `Jumps.JumpUnwinds` and `Jumps.EarlyExit`, `Jumps.JumpExact` and `Jumps.RefusedEntry`: blocks left or
  entered before their first array
- `Designators.CountIsProduct` and `Designators.BackwardRange`: ranges that run backward
- `Designators.LoopEnds` and `Designators.EndlessRange`, `EndlessRanges.FailureEnds` and
  `EndlessRanges.SilentRange`: ranges up to the largest size
- `BitField.MergeFieldRuns` and `BitFieldLaws.FullWidthUndefined`: a 128-bit wide field

## Layout

- `Options`, `Powers`, `Bitwise`, `BitRange`: the option type, arithmetic of powers of two, the C bitwise operators on numbers, bit ranges
- `Digits`, `BitwiseDigits`, `AddSub`, `SignExtension`, `Shift`, `Cast`, `Init`, `Get`, `Compare`, `Bits`,
  `Multiply`, `Booth`, `Divide`: the integer runtime
- `Rounding`, `FloatFormats`, `NarrowRounding`, `IntToFloat`, `FloatToInt`, `FloatRoundTrip`: floating point
- `StackMachine`, `BitField`, `BitFieldEmitters`, `BitFieldLaws`, `IntegerConversion`: emitted code
- `Backpatching`, `Jumps`, `JumpTranslator`, `Designators`, `EndlessRanges`,
  `DesignatorUnroll`: control flow and designators

`dafny verify dfyconfig.toml` checks the whole project.

## Model

| member | source | states |
|---|---|---|
| `Digits.PaddingIgnored` | headers/kefir_bigint/base.h:98 | the value at a width is determined by the bits below the width and determines them, so every contract on values holds whatever the padding of the top digit is |
| `BitwiseDigits.Invert` | headers/kefir_bigint/bitwise.h:35-43 | in-place complement: the value becomes 2^width - 1 minus the old one |
| `BitwiseDigits.AndInto` | headers/kefir_bigint/bitwise.h:45-58 | digit-wise and is the and of the values, padding of either operand aside |
| `BitwiseDigits.OrInto` | headers/kefir_bigint/bitwise.h:60-73 | digit-wise or is the or of the values |
| `BitwiseDigits.XorInto` | headers/kefir_bigint/bitwise.h:75-88 | digit-wise exclusive or is that of the values |
| `AddSub.AddDigit` | headers/kefir_bigint/addsub.h:35-52 | adding one digit with carry is addition modulo 2^width |
| `AddSub.Negate` | headers/kefir_bigint/addsub.h:54-60 | complement and increment is negation modulo 2^width |
| `AddSub.NegateSigned` | headers/kefir_bigint/addsub.h:54-60 | negation gives the opposite signed value, except for the minimum, which stays |
| `AddSub.Add` | headers/kefir_bigint/addsub.h:62-78 | addition modulo 2^width, with any padding and with aliased operands |
| `AddSub.Subtract` | headers/kefir_bigint/addsub.h:111-127 | subtraction modulo 2^width; the borrow read from a wrapped 32-bit word is the true borrow |
| `AddSub.BorrowWord` | headers/kefir_bigint/addsub.h:121-123 | bit 8 of the wrapped 32-bit difference is the borrow, its low byte the digit |
| `AddSub.AddZeroExtend` | headers/kefir_bigint/addsub.h:80-109 | addition of an operand of any width, read without its padding, the operands aliased or not |
| `AddSub.SubtractZeroExtend` | headers/kefir_bigint/addsub.h:129-158 | subtraction of an operand of any width, read without its padding, the operands aliased or not |
| `Shift.LeftShiftWholeDigits` | headers/kefir_bigint/shift.h:35-47 | moving whole digits up multiplies by 256^k modulo the size of the array |
| `Shift.LeftShift` | headers/kefir_bigint/shift.h:49-70 | left shift by any amount, width and more included, is multiplication by 2^shift modulo 2^width |
| `Shift.RightShiftWholeDigits` | headers/kefir_bigint/shift.h:72-93 | each digit becomes the one shift places above, the sign filler past the end |
| `Shift.RightShift` | headers/kefir_bigint/shift.h:95-120 | logical right shift by any amount is floor division of the unsigned value by 2^shift |
| `Shift.ArithmeticRightShift` | headers/kefir_bigint/shift.h:122-168 | arithmetic right shift by any amount is floor division of the signed value, and the padding is left sign-extended |
| `Shift.ShiftsCompose` | headers/kefir_bigint/shift.h:49-168 | two shifts in a row, of each kind, are one shift by the sum |
| `Shift.LeftShiftsAgree` | headers/kefir_bigint/shift.h:49-70 | run on two arrays of the same value, two left shifts and one by the sum leave the same value |
| `Shift.RightShiftsAgree` | headers/kefir_bigint/shift.h:95-120 | the same for logical right shifts |
| `Shift.ArithmeticShiftsAgree` | headers/kefir_bigint/shift.h:122-168 | the same for arithmetic right shifts |
| `Cast.CastSigned` | headers/kefir_bigint/cast.h:35-87 | signed width change: widening keeps the signed value, narrowing leaves that of the desired low bits, sign-extended through the last digit |
| `Cast.CastUnsigned` | headers/kefir_bigint/cast.h:89-125 | unsigned width change: widening keeps the value, narrowing leaves that of the desired low bits, zero-extended |
| `Cast.CastLaws` | headers/kefir_bigint/cast.h:35-125 | widening keeps the value, narrowing reduces it modulo 2^desired, and widening then narrowing is the identity |
| `Cast.SignedCastRoundTrip` | headers/kefir_bigint/cast.h:35-87 | running a widening signed cast and the narrowing one back leaves the signed value |
| `Cast.UnsignedCastRoundTrip` | headers/kefir_bigint/cast.h:89-125 | the same for the unsigned casts |
| `Init.SetSignedInteger` | headers/kefir_bigint/init.h:35-57 | the value becomes the 64-bit signed word modulo 2^width, sign-extended beyond 64 bits |
| `Init.SetUnsignedInteger` | headers/kefir_bigint/init.h:59-81 | the value becomes the 64-bit word modulo 2^width |
| `Init.Zero` | headers/kefir_bigint/init.h:83-90 | every digit of the width is cleared |
| `Init.Copy` | headers/kefir_bigint/init.h:92-100 | the destination takes the source value, padding included |
| `Init.SetBits` | headers/kefir_bigint/init.h:102-142 | chunk by chunk, exactly the bits of the range that lie below the width are replaced: bit j becomes bit j - offset of the value there and stays as it was elsewhere |
| `Get.NativeSignedWidth` | headers/kefir_bigint/get.h:35-42 | the returned width holds the value, and no smaller width does |
| `Get.NativeUnsignedWidth` | headers/kefir_bigint/get.h:44-51 | the same for unsigned values |
| `Get.GetSignedValue` | headers/kefir_bigint/get.h:53-81 | the signed value of the low min(width, 64) bits, whatever the padding |
| `Get.GetUnsignedValue` | headers/kefir_bigint/get.h:83-104 | the unsigned value of the low min(width, 64) bits |
| `Get.GetSign` | headers/kefir_bigint/get.h:106-115 | one exactly when the signed value is negative, zero for an empty width |
| `Get.IsZero` | headers/kefir_bigint/get.h:117-137 | true exactly when the value is zero, whatever the padding |
| `Get.GetBits` | headers/kefir_bigint/get.h:139-169 | the bits of the range that lie below the width: bit k of the result is bit offset + k of the array there and zero beyond |
| `Get.GetMinUnsignedWidth` | headers/kefir_bigint/get.h:171-185 | the least width, at least one, that holds the value |
| `Get.SignedRoundTrip` | headers/kefir_bigint/get.h:35-81 | storing a native value and reading it back gives it again if and only if the width is at least the one `NativeSignedWidth` returns |
| `Get.MinimalWidth` | headers/kefir_bigint/get.h:35-42 | the widths that hold a value are exactly those from the least one on |
| `Get.BitsRoundTrip` | headers/kefir_bigint/get.h:139-169 | setting a bit range and reading it back gives the bits of the value that lie in the range and below the width, so the value itself if and only if it has no others |
| `BitRange.InsertParts` | headers/kefir_bigint/init.h:102-142 | replacing a range keeps every bit below and above it and puts the value in it |
| `BitRange.InsertedBit` | headers/kefir_bigint/init.h:102-142 | each bit of a number with a range replaced: of the value in the range, of the number outside it |
| `BitRange.ExtractedBit` | headers/kefir_bigint/get.h:139-169 | each bit of a range read |
| `Init.ClippedRange` | headers/kefir_bigint/init.h:110-114 | a position is in the clipped range exactly when it is in the range and below the width |
| `BitRange.MaskedInsertValue` | headers/kefir_bigint/init.h:130-132 | clearing with a shifted mask and or-ing the chunk in is the replacement of that range |
| `Compare.UnsignedCompare` | headers/kefir_bigint/compare.h:35-57 | -1, 0 or 1 exactly when the first unsigned value is less, equal or greater, whatever the padding |
| `Compare.SignedCompare` | headers/kefir_bigint/compare.h:59-74 | the same for the signed values |
| `Bits.LeastSignificantNonzero` | headers/kefir_bigint/bits.h:35-58 | one past the lowest set bit of the array within the width, zero exactly for zero |
| `Bits.LeadingZeros` | headers/kefir_bigint/bits.h:60-84 | the zeros above the highest set bit within the width, the default for zero |
| `Bits.TrailingZeros` | headers/kefir_bigint/bits.h:86-115 | the position of the lowest set bit of the array within the width, the default for zero |
| `Bits.RedundantSignBits` | headers/kefir_bigint/bits.h:117-145 | width minus the result is the least signed width that holds the value |
| `Bits.NonzeroCount` | headers/kefir_bigint/bits.h:147-169 | the cardinality of the set of positions within the width whose bit is set |
| `Bits.Parity` | headers/kefir_bigint/bits.h:171-174 | that cardinality modulo two |
| `Bits.LowestUnique` | headers/kefir_bigint/bits.h:35-115 | the lowest set bit is unique, so the find-first-set result is the trailing zero count plus one |
| `Bits.LeadingZerosWidth` | headers/kefir_bigint/bits.h:60-84 | for nonzero values the leading zeros and the least unsigned width add up to the width |
| `Bits.PopCountComplement` | headers/kefir_bigint/bits.h:147-169 | a value and its complement have as many set bits together as the width |
| `Divide.UnsignedDivide` | headers/kefir_bigint/divide.h:35-68 | a zero divisor is reported and leaves the dividend; otherwise the rounds of restoring division are carried out in place, and they leave quotient and remainder if and only if `DividesRight` holds, a divisor wider than the dividend included |
| `Divide.RoundsDivide` | headers/kefir_bigint/divide.h:51-65 | after each round, quotient and remainder are those of the leading dividend bits |
| `Divide.DivisionExact` | headers/kefir_bigint/divide.h:51-65 | for every divisor the result is right exactly when the divisor is at most 2^(w - 1), or is 2^(w - 1) + 1 with the dividend at least 2^(w - 1), or, for a divisor of 2^w or more, when its low w bits happen to leave quotient zero and the dividend |
| `Divide.DivisionFailure` | headers/kefir_bigint/divide.h:51-65 | 0 divided by 130 at width 8 comes out as 128 or more |
| `Divide.SignedDivide` | headers/kefir_bigint/divide.h:70-97 | a zero divisor is reported and changes nothing; otherwise the rounds on the magnitudes with the signs of C, modulo 2^width, and what is stored are the quotient and remainder of C if and only if the magnitudes divide right |
| `Divide.SignedExact` | headers/kefir_bigint/divide.h:70-97 | for every pair of operands, whatever the width of the divisor, quotient and remainder are those of C, in the rounds and cut to the width, if and only if the rounds divide the magnitudes right |
| `Divide.NarrowerDivisor` | headers/kefir_bigint/divide.h:70-97 | a signed divisor no wider than the dividend has a magnitude of at most 2^(lhs_width - 1), so it is divided by right |
| `Divide.SignedFailure` | headers/kefir_bigint/divide.h:70-97 | 0 divided by the 9-bit 200 at width 8 stores a quotient other than zero |
| `Divide.TruncDivUnique` | headers/kefir_bigint/divide.h:70-97 | that quotient and remainder are the ones section 6.5.5 of C17 asks for, and the only ones |
| `Divide.TruncDivFits` | headers/kefir_bigint/divide.h:70-97 | only the minimum divided by -1 leaves the signed range |
| `Multiply.UnsignedMultiply` | headers/kefir_bigint/multiply.h:35-80 | schoolbook multiplication is the product modulo 2^result_width for every pair of widths |
| `Multiply.AddRow` | headers/kefir_bigint/multiply.h:57-76 | one row adds digit times operand; the final carry goes to a digit nothing was added to yet |
| `Multiply.ProductBound` | headers/kefir_bigint/multiply.h:57-76 | the intermediate sum is at most 65535 and the carry stays a digit |
| `Booth.SignedMultiply` | headers/kefir_bigint/multiply.h:82-120 | the result is the multiplier times the multiplicand as the accumulator reads it, modulo 2^result_width, and it is the signed product if and only if the multiplicand is not the minimum, the result is no wider than the operands, or the multiplier has enough trailing zeros |
| `Booth.BoothRound` | headers/kefir_bigint/multiply.h:99-112 | accumulator times 2^i plus the collected bits is the multiplicand times the recoded low bits of the multiplier |
| `Booth.AccumulatorRange` | headers/kefir_bigint/multiply.h:99-112 | the w-bit accumulator never overflows |
| `Booth.BoothExact` | headers/kefir_bigint/multiply.h:82-120 | the result is the signed product exactly when the multiplicand is not the minimum, the result is no wider than the operands, or the multiplier has enough trailing zeros |
| `Booth.BoothMinimum` | headers/kefir_bigint/multiply.h:82-120 | -128 times -128 with a 16-bit result comes out as -16384 |
| `IntToFloat.ToIeee` | headers/kefir_bigint/float.h:38-90 | sign word, exponent and significand at every width, the ones too narrow to round in included |
| `IntToFloat.RoundMagnitude` | headers/kefir_bigint/float.h:50-89 | the in-place rounding of a magnitude to the precision: shift up, or cut, round and renormalise on a carry; it is right if and only if the width leaves it room |
| `IntToFloat.TrickRounds` | headers/kefir_bigint/float.h:55-83 | the sticky and guard bit steps round to nearest, ties to even |
| `IntToFloat.SignedToFloat` | headers/kefir_bigint/float.h:92-111 | at every width, the bits denote the signed value correctly rounded to float, infinity on overflow, if and only if the value is zero or `RoomForFraction` holds, as it does from 27 bits on |
| `IntToFloat.SignedToDouble` | headers/kefir_bigint/float.h:113-132 | the same for double, from 56 bits on |
| `IntToFloat.SignedToLongDouble` | headers/kefir_bigint/float.h:134-153 | the same for x87 long double with `Room`, which holds from 67 bits on |
| `IntToFloat.UnsignedToFloat` | headers/kefir_bigint/float.h:155-174 | at every width, the bits denote the unsigned value correctly rounded to float if and only if it is zero or `RoomForFraction` holds |
| `IntToFloat.UnsignedToDouble` | headers/kefir_bigint/float.h:176-195 | the same for double |
| `IntToFloat.UnsignedToLongDouble` | headers/kefir_bigint/float.h:197-216 | the same for x87 long double |
| `NarrowRounding.ComputedExact` | headers/kefir_bigint/float.h:50-89 | exponent and significand are the correctly rounded ones exactly when the width holds the significand and the value needs no rounding, or the width has three bits more than the precision, or two more and the rounding does not carry |
| `NarrowRounding.PowerLost` | headers/kefir_bigint/float.h:50-89 | at width 65 and precision 64, 2^64 comes out with a zero significand |
| `NarrowRounding.CarryLost` | headers/kefir_bigint/float.h:50-89 | at width 66 and precision 64, 2^65 - 1 comes out one exponent too low and with a zero significand |
| `NarrowRounding.PackedRounded` | headers/kefir_bigint/float.h:92-132 | packed with an implied leading bit, the result is correctly rounded exactly when the fraction survives or nothing carries |
| `NarrowRounding.ExtendedRounded` | headers/kefir_bigint/float.h:134-153 | packed as a long double, whose leading bit is explicit, it is correctly rounded exactly when exponent and significand are |
| `Rounding.PartsRound` | headers/kefir_bigint/float.h:38-90 | exponent and significand rounded on an integer grid are the nearest number of the whole format, ties to even, or overflow as IEEE 754-2019 has it in sections 4.3.1 and 7.4 |
| `Rounding.GridNearest` | headers/kefir_bigint/float.h:55-83 | of all multiples of a power of two the rounded one is nearest, and even on a tie |
| `FloatFormats.PackFloatDenotes` | headers/kefir_bigint/float.h:103-109 | for every exponent and mantissa, the packed float denotes the sign, exponent and fraction it was built from, or infinity |
| `FloatFormats.PackDoubleDenotes` | headers/kefir_bigint/float.h:124-130 | the same for double |
| `FloatFormats.PackExtendedDenotes` | headers/kefir_bigint/float.h:145-151 | the same for the two words of a long double, which denote no number when the mantissa has no leading bit |
| `FloatFormats.KnownFloats` | headers/kefir_bigint/float.h:103-109 | the patterns of 1, -2, the least magnitude, infinity and a NaN in the float format |
| `FloatFormats.KnownDoubles` | headers/kefir_bigint/float.h:124-130 | the same in the double format |
| `FloatFormats.KnownExtended` | headers/kefir_bigint/float.h:145-151 | the same in the x87 format |
| `FloatToInt.SignedFromFloat` | headers/kefir_bigint/float.h:288-307 | for every bit pattern, infinities and NaNs included: the integer part of what the fields denote if it has at most width bits, else the least signed value, whatever the sign |
| `FloatToInt.SignedFromDouble` | headers/kefir_bigint/float.h:345-364 | the same for double |
| `FloatToInt.SignedFromLongDouble` | headers/kefir_bigint/float.h:401-418 | the same for x87 long double, invalid patterns included |
| `FloatToInt.UnsignedFromFloat` | headers/kefir_bigint/float.h:309-328 | for every bit pattern: the integer part modulo 2^width if it has at most width bits, else zero, or 2^(width - 1) for a negative |
| `FloatToInt.UnsignedFromDouble` | headers/kefir_bigint/float.h:366-385 | the same for double |
| `FloatToInt.UnsignedFromLongDouble` | headers/kefir_bigint/float.h:420-437 | the same for x87 long double |
| `FloatToInt.SignedFromIeee` | headers/kefir_bigint/float.h:225-249 | zero for an exponent below zero, the least signed value from the width on, and the placed significand between |
| `FloatToInt.UnsignedFromIeee` | headers/kefir_bigint/float.h:251-278 | the same with zero, or 2^(width - 1) for a negative, from the width on |
| `FloatToInt.FloatTruncates` | headers/kefir_bigint/float.h:288-328 | what the conversion from float gives is the integer part of the number the pattern denotes, an infinity counting as the power of two just above the format, or the out-of-range result if that part has more than width bits |
| `FloatToInt.DoubleTruncates` | headers/kefir_bigint/float.h:345-385 | the same for double |
| `FloatToInt.ExtendedTruncates` | headers/kefir_bigint/float.h:401-437 | the same for x87 long double |
| `FloatToInt.TruncatesValue` | headers/kefir_bigint/float.h:225-278 | a conversion whose integer part the target type holds gives that integer, as section 6.3.1.4 of C17 asks |
| `FloatToInt.OutOfRange` | headers/kefir_bigint/float.h:225-278 | a number or infinity whose integer part has more than width bits gives the least signed value for either sign, and without a sign zero, or 2^(width - 1) for a negative |
| `FloatToInt.ExponentOut` | headers/kefir_bigint/float.h:225-278 | the same by the exponent field, for every pattern |
| `FloatToInt.SignificantBitsSurvive` | headers/kefir_bigint/float.h:38-437 | any datum that is the correct rounding of an integer of at most `precision` significant bits below 2^limit has that integer as its integer part |
| `FloatToInt.IntegerSurvives` | headers/kefir_bigint/float.h:38-437 | so has the correct rounding of every integer the format can hold |
| `FloatRoundTrip.SignedThroughFloat` | headers/kefir_bigint/float.h:92-307 | run one after the other, the conversions to float and back leave the signed value if and only if its magnitude is zero, or has at most 24 significant bits, is at most 2^128 and leaves the width room for its fraction |
| `FloatRoundTrip.UnsignedThroughFloat` | headers/kefir_bigint/float.h:155-328 | the same for unsigned values |
| `FloatRoundTrip.SignedThroughDouble` | headers/kefir_bigint/float.h:113-364 | the same through double |
| `FloatRoundTrip.UnsignedThroughDouble` | headers/kefir_bigint/float.h:176-385 | the same through double for unsigned values |
| `FloatRoundTrip.SignedThroughLongDouble` | headers/kefir_bigint/float.h:134-418 | through long double, whose leading bit is explicit: if and only if the magnitude is zero, or has at most 64 significant bits and is at most 2^16384 at a width of at least 64, or of 66 for more than 64 bits |
| `FloatRoundTrip.UnsignedThroughLongDouble` | headers/kefir_bigint/float.h:197-437 | the same for unsigned values |
| `FloatRoundTrip.Examples` | headers/kefir_bigint/float.h:38-437 | 2^24 + 1 does not come back through float, nor 1 at width 40 through long double, while 2^128 comes back through the infinity of float |
| `BitFieldEmitters.EmitNativeLoad` | source/ast-translator/value.c:40-128 | appends the load block of its width and mode, which loads exactly the bytes of its span, and nothing for more than 64 bits, which is an error |
| `BitFieldEmitters.EmitNativeStore` | source/ast-translator/value.c:264-327 | appends the store block of its width, which writes exactly the bytes of its bits, and nothing for more than 64 bits, which is an error |
| `BitFieldEmitters.EmitLoadField` | source/ast-translator/value.c:130-179 | appends the code that loads the bytes of a field, and run on any state that code does so; fails exactly when the field exceeds its slot, with the first part of the load appended |
| `BitFieldEmitters.EmitReadField` | source/ast-translator/value.c:206-262 | never fails: appends the load and the extraction, which run on any state leave the field extended to the slot; for a field that exceeds its slot the failure of the load is dropped and the code leaves bits of the address, or shifts by too much |
| `BitFieldEmitters.EmitWriteField` | source/ast-translator/value.c:329-422 | appends load, merge and store; run on any state, the appended code replaces the field in memory; fails exactly when the field exceeds its slot |
| `BitFieldEmitters.EmitMerge` | source/ast-translator/value.c:357-391 | appends the insertion, for 128-bit fields spelled out in elementary operations; run on any state, it puts the value into the loaded bytes |
| `BitFieldEmitters.EmitStoreSlot` | source/ast-translator/value.c:398-420 | appends the store of a slot, for wide fields as two halves; run on any state, it writes exactly the bytes of the field |
| `BitFieldEmitters.ReadsExactly` | source/ast-translator/value.c:206-262 | the emitted code reads the field on every state if and only if the field does not exceed its slot |
| `BitFieldEmitters.PackedField` | source/ast-translator/value.c:206-262 | for a 64-bit field at bit 1 of a packed structure, the code leaves half of the address and reads no memory |
| `BitField.NativeLoadRuns` | source/ast-translator/value.c:40-128 | running a load block replaces the address by exactly the bytes of its span with no undefined bit left, and faults exactly when one of them is unmapped |
| `BitField.NativeStoreRuns` | source/ast-translator/value.c:264-327 | running a store block writes exactly the bytes the bits occupy, whatever the order of its partial stores |
| `BitField.LoadFieldRuns` | source/ast-translator/value.c:130-179 | running a field load gives the bytes of the field, native or 128-bit |
| `BitField.ReadFieldRuns` | source/ast-translator/value.c:206-262 | running a read gives the field, zero- or sign-extended to the slot |
| `BitField.ExcessRuns` | source/ast-translator/value.c:213-261 | what a read of a field that exceeds its slot leaves, for every state: an unsigned extraction from the address, and no defined result in a 128-bit slot |
| `BitField.MergeFieldRuns` | source/ast-translator/value.c:357-391 | running the merge replaces the field in the loaded bytes; a 128-bit wide field has no defined mask |
| `BitField.WriteFieldRuns` | source/ast-translator/value.c:329-422 | running a write pops value and address and replaces the field in memory |
| `BitField.SpanCovers` | source/ast-translator/value.c:40-128 | a precise load reads exactly the bytes the field overlaps, an imprecise one the least power of two of bytes that covers them |
| `BitFieldLaws.StoreThenLoad` | source/ast-translator/value.c:206-422 | run one after the other, with or without precise access in either, a write and a read of the same field give the value back, cut to the field and extended, with the rest of the stack as it was |
| `BitFieldLaws.FieldRoundTrip` | source/ast-translator/value.c:206-422 | in memory, a replaced field reads back as the value cut to its length |
| `BitFieldLaws.FieldBit` | source/ast-translator/value.c:206-262 | bit j of a field is bit j of memory counted from the start of the field |
| `BitFieldLaws.OtherBitsKept` | source/ast-translator/value.c:329-422 | replacing a field maps no byte, unmaps none and changes no other bit of memory |
| `BitFieldLaws.PreciseAgrees` | source/ast-translator/value.c:40-128 | precise and imprecise reads leave the same state |
| `BitFieldLaws.PreciseTouches` | source/ast-translator/value.c:40-128 | a precise read needs each byte the field overlaps and depends on no other |
| `BitFieldLaws.ImpreciseTouches` | source/ast-translator/value.c:40-179 | an imprecise read runs without a fault if and only if the bytes of the least loads that cover the field are mapped |
| `BitFieldLaws.ImpreciseWrites` | source/ast-translator/value.c:329-422 | so does an imprecise write |
| `BitFieldLaws.FourBytes` | source/ast-translator/value.c:65-68 | 20 bits at address 0 are read without a fault exactly when at least four bytes are mapped there |
| `BitFieldLaws.ValueKept` | source/ast-translator/value.c:206-262 | a value that fits the field is kept |
| `BitFieldLaws.FullWidthUndefined` | source/ast-translator/value.c:362-369 | a write to a 128-bit wide field of a 128-bit slot shifts by the full width and has no defined result |
| `StackMachine.LoadStored` | source/ast-translator/value.c:264-327 | reading back written bytes gives the written number |
| `StackMachine.StoreSplit` | source/ast-translator/value.c:264-327 | writing the upper bytes and then the lower ones is one write |
| `Backpatching.Translator.PatchCommand` | source/ast-translator/flow_control.c:90-106 | succeeds exactly for a jump, a label and a branch, and replaces the target and nothing else; other instructions are refused |
| `Backpatching.Translator.Reference` | source/ast-translator/flow_control.c:108-136 | a reference to a resolved point is patched at once, one to an unresolved point remembered last; fails exactly outside the block, or for a resolved point from anything but a jump, a label or a branch, and then changes nothing |
| `Backpatching.Translator.Resolve` | source/ast-translator/flow_control.c:138-158 | every remembered reference is patched in order; fails exactly for a second resolution, which changes nothing, or when a reference is not a jump, a label or a branch, and then the point stays unresolved |
| `Backpatching.PatchListEffect` | source/ast-translator/flow_control.c:149-153 | patching a list succeeds exactly when all its slots are jumps, labels or branches, and changes the targets of exactly those |
| `Backpatching.PatchListStops` | source/ast-translator/flow_control.c:149-153 | otherwise exactly the slots before the first other instruction are patched |
| `Backpatching.RunSucceeds` | source/ast-translator/flow_control.c:90-158 | over any history, a run succeeds exactly when each step finds what it needs in the emitted code, by its opcodes; an unresolved point remembers exactly its past references |
| `Backpatching.CarefulSucceeds` | source/ast-translator/flow_control.c:90-158 | every history that refers to existing points only from jumps, labels or branches in the emitted code and resolves no point twice succeeds |
| `Backpatching.OtherRefused` | source/ast-translator/flow_control.c:90-158 | a reference from any other instruction fails the run once its point is resolved, whichever comes first |
| `Backpatching.TwoPass` | source/ast-translator/flow_control.c:90-158 | whatever the interleaving, a successful run ends with the code of a two-pass assembler |
| `Backpatching.AddressStays` | source/ast-translator/flow_control.c:138-158 | once resolved, a point keeps its address in every later state |
| `JumpTranslator.TranslateJump` | source/ast-translator/jump.c:28-146 | refuses or accepts exactly as the checks say, and appends exactly the pops of each outcome, the refused ones included |
| `JumpTranslator.ContainsArrays` | source/ast/flow_control.c:467-478 | true exactly when some variable-length array lies directly in the block |
| `JumpTranslator.ArrayHead` | source/ast/flow_control.c:447-465 | the first of them |
| `JumpTranslator.FindCommonParent` | source/ast/flow_control.c:552-579 | a structure above both points with no later one above both, or none if there is none |
| `JumpTranslator.PointParents` | source/ast/flow_control.c:581-594 | exactly the structures above the point and under the common one, innermost first |
| `JumpTranslator.CheckEntered` | source/ast-translator/jump.c:36-45 | succeeds exactly when no entered block holds an array |
| `JumpTranslator.LeaveBlocks` | source/ast-translator/jump.c:47-65 | one pop per left block that holds arrays, innermost first, up to the common structure or, without one on the way, to the outermost |
| `JumpTranslator.PassSiblings` | source/ast-translator/jump.c:72-99 | fails exactly when an array lies between on the way forward; going backward pops the first array between, if there is one |
| `Jumps.JumpSafe` | source/ast-translator/jump.c:28-115 | an accepted jump brings no array into scope: the scope at the target is a prefix of the scope at the origin |
| `Jumps.JumpUnwinds` | source/ast-translator/jump.c:47-102 | the emitted pops leave exactly the arrays in scope at the target if and only if the first array of each left block precedes the origin |
| `Jumps.JumpExact` | source/ast-translator/jump.c:36-102 | a jump is accepted if and only if it brings no array into scope and no entered block declares its first array after the target |
| `Jumps.EarlyExit` | source/ast-translator/jump.c:52-61 | leaving a block before its first array pops a stack pointer that was never saved |
| `Jumps.RefusedEntry` | source/ast-translator/jump.c:38-43 | a jump to a label before the only array of its block is refused though nothing comes into scope |
| `DesignatorUnroll.Unroll` | source/ast/designator.c:192-204 | one call per chain the designator stands for, in order, until a call fails; a loop over a range up to the largest size, whose counter wraps, goes on until then |
| `DesignatorUnroll.UnrollFrom` | source/ast/designator.c:145-190 | through linked copies changed in place, each call sees a complete range-free chain |
| `DesignatorUnroll.UnrollRange` | source/ast/designator.c:179-187 | the loop over a range calls back for each index in ascending order and, if the range reaches the largest size, around again until a call fails |
| `Designators.PicksAll` | source/ast/designator.c:145-190 | the chains are exactly the picks of one element per level |
| `Designators.UnrolledOrdered` | source/ast/designator.c:145-190 | they come in strictly ascending lexicographic order, so each once |
| `Designators.CountIsProduct` | source/ast/designator.c:87-99 | their number is the product of the element counts exactly when every range runs forward or one is empty |
| `Designators.BackwardRange` | source/ast/designator.c:87-99 | [5 ... 3] unrolls to nothing, while the product of its element counts is the largest size |
| `Designators.BackwardTemporaries` | source/ast/designator.c:71-85 | the temporary indices of [5 ... 3] run from 5 around to 3, and there are none past them or for other designators |
| `Designators.LoopEnds` | source/ast/designator.c:179-187 | with the counter modulo 2^64, the guard of the loop over a range becomes false if and only if the range ends below the largest size |
| `Designators.CounterValue` | source/ast/designator.c:181 | after k rounds the counter is begin + k modulo 2^64 |
| `Designators.EndlessRange` | source/ast/designator.c:179-187 | over [0 ... -1] it never does |
| `EndlessRanges.FailureEnds` | source/ast/designator.c:145-190 | a callback that fails after n calls ends the unrolling if and only if it does not come to an endless loop over nothing |
| `EndlessRanges.SilentRange` | source/ast/designator.c:179-187 | [0 ... -1][5 ... 3] comes to such a loop |
| `EndlessRanges.SilentNothing` | source/ast/designator.c:145-190 | no call is made from such a loop, however many rounds it takes |
| `EndlessRanges.LoudGrows` | source/ast/designator.c:145-190 | any other endless loop makes at least one call per round |
| `EndlessRanges.EndlessChains` | source/ast/designator.c:179-187 | what an endless loop calls back for: all its indices in order and around again from zero, each with every chain of the rest, the loops around it staying at their first element |
| `EndlessRanges.EndingUnrolls` | source/ast/designator.c:145-190 | without an endless loop the calls are those of the chains the designator stands for |
| `Designators.TemporariesUnroll` | source/ast/designator.c:71-85 | unrolling a range is unrolling its temporary index designators one after another |
| `IntegerConversion.EmitConversion` | source/ast-translator/typeconv.c:952-1279 | appends the conversion code of the pair of types; run on any state, that code leaves the origin value modulo 2^target in the low target bits, whatever the slot holds above the origin, and changes nothing else |
| `IntegerConversion.ConversionRuns` | source/ast-translator/typeconv.c:952-1279 | running it leaves the origin value modulo 2^target in the low target bits, whatever the slot holds above the origin, and changes nothing else |
| `IntegerConversion.NamedOrigins` | source/ast-translator/typeconv.c:952-1279 | what the slot holds of each native type, in numbers |
| `IntegerConversion.NamedTargets` | source/ast-translator/typeconv.c:952-1279 | the value left modulo 2^8, 2^16, 2^32, 2^64 and 2^128 for each native target |
| `IntegerConversion.EmitToInt8` | source/ast-translator/typeconv.c:957-978 | the 8-bit target: wider types are truncated, narrower bit-precise ones extended |
| `IntegerConversion.EmitToInt16` | source/ast-translator/typeconv.c:980-1012 | the 16-bit target |
| `IntegerConversion.EmitToInt32` | source/ast-translator/typeconv.c:1014-1057 | the 32-bit target |
| `IntegerConversion.EmitToInt64` | source/ast-translator/typeconv.c:1059-1113 | the 64-bit target: extension of narrower types, truncation of wider ones |
| `IntegerConversion.EmitToInt128` | source/ast-translator/typeconv.c:1115-1188 | the 128-bit target |
| `IntegerConversion.EmitToBitInt` | source/ast-translator/typeconv.c:1190-1274 | the bit-precise targets |
| `IntegerConversion.GetMatches` | source/ast-translator/typeconv.c:959-969 | the get opcodes agree with what the runtime reads return |
| `IntegerConversion.CastSignedMatches` | source/ast-translator/typeconv.c:1259-1268 | the signed cast opcode agrees with what the runtime cast leaves, in every bit of the target |
| `IntegerConversion.CastUnsignedMatches` | source/ast-translator/typeconv.c:1259-1268 | so does the unsigned one |
| `IntegerConversion.FromSignedMatches` | source/ast-translator/typeconv.c:1190-1244 | the opcode that makes a bit-precise integer of a signed word agrees with what the runtime routine stores, in every bit of the target |
| `IntegerConversion.FromUnsignedMatches` | source/ast-translator/typeconv.c:1190-1244 | so does the unsigned one |

## Left out

- Softfloat routines (`headers/kefir_softfloat`): complex multiplication, division and scaling rest on hardware floating point.
- The union punning of floating-point values: bit patterns are numbers with a decoding function; a float occupies the low 32 bits of its word, and the conversions from float ignore what lies above.
- Signalling of NaNs: no exception flags are modelled.
- `unsigned int` loop counters in the runtime: indices are unbounded here, so the contracts are about widths whose digit counts, doubled for division (`source/codegen/amd64/lowering.c:2597-2607`), fit a 32-bit counter; `__BITINT_MAXWIDTH__` is 65535 (`source/compiler/predefined_defs.h:196`), but nothing modelled here enforces it.
- 64-bit width arithmetic such as `offset + length`: unbounded here; `BitFieldEmitters.ReadsExactly` is about fields whose end is a size.
- Null-pointer checks, allocation failures and cleanup paths.
- `_BitInt` and atomic memory opcodes of `value.c`, and its volatile flags, which do not change what is loaded or stored.
- Decimal, floating, complex and boolean conversions of `typeconv.c`.
- Shifts by the slot width or more on the stack machine: treated as faults, since no result is defined for them; an extraction that reaches past its 64-bit slot finds zeros there, as `source/optimizer/pipeline/const_fold.c:148-177` has it.
- Lifetime marks emitted around a jump, and the jump instruction itself: only the checks and the pops are modelled.
- Get.GetBits: a range that covers more than 64 bits below the width is excluded, since the routine would shift a 64-bit word by 64 or more, which is undefined; a longer range that the width clips to 64 bits is covered.
- Shift.RightShift: a width of zero is excluded, since the routine addresses the digit before the first one.
- Cast.CastSigned: a desired width of zero is excluded for the same reason, and for `Cast.CastUnsigned` too.
- Compare.SignedCompare: a width of zero is excluded for the same reason.
- FloatToInt.SignedFromFloat: a width of zero is excluded, as for the other conversions from floating point; there is no bit to hold a sign.
- DesignatorUnroll.Unroll: designators that come to an endless loop over nothing are excluded, since their unrolling does not end whatever the callback does (`EndlessRanges.FailureEnds`); the callback here fails at last, and with one that never does no endless loop is left (`Designators.LoopEnds`); a copy's link is null until it is set, where the original briefly points into the designator being unrolled.
- Jumps.JumpSafe: variable-length arrays are told apart by their tree node; the array identifiers stored in the nodes are not modelled.
- Designators, layouts and initializers beyond unrolling; type translation; the optimizer and the code generator.
