/** Bit patterns of float, double and x87 long double: what the packers of kefir_bigint/float.h build
    and what the patterns denote (section 3.4 of IEEE 754-2019). */
module FloatFormats {
  import opened Powers
  import opened Bitwise
  import opened BitRange
  import opened Init
  import opened Rounding

  /** The sign word of the conversions: all ones for negative values. */
  function SignWord(negative: bool): Word {
    if negative then 0xffff_ffff_ffff_ffff else 0
  }

  // ----- interchange formats -----

  /** The number in the fields of an interchange pattern, an exponent field of all ones read like any other. */
  function FieldsNumber(bits: nat, precision: nat, exponentBits: nat): Datum
    requires 0 < precision
  {
    var fraction := Wrap(bits, precision - 1);
    var exponent := ExtractBits(bits, precision - 1, exponentBits);
    var negative := Bit(bits, precision - 1 + exponentBits) == 1;
    if exponent == 0 then
      Finite(negative, fraction, 0)
    else
      Finite(negative, Pow2(precision - 1) + fraction, exponent - 1)
  }

  /** What an interchange pattern denotes, given its precision and exponent field width. */
  function Decode(bits: nat, precision: nat, exponentBits: nat): Datum
    requires 0 < precision
  {
    var fraction := Wrap(bits, precision - 1);
    var exponent := ExtractBits(bits, precision - 1, exponentBits);
    var negative := Bit(bits, precision - 1 + exponentBits) == 1;
    if exponent == Pow2(exponentBits) - 1 then
      if fraction == 0 then Infinite(negative) else NotANumber
    else
      FieldsNumber(bits, precision, exponentBits)
  }

  function DecodeFloat(bits: nat): Datum {
    Decode(bits, 24, 8)
  }

  function DecodeDouble(bits: nat): Datum {
    Decode(bits, 53, 11)
  }

  /** The packed word of kefir_bigint/float.h for float; an exponent of 128 or more saturates. */
  function PackFloat(sign: Word, exponent: nat, mantissa: Word): nat {
    var e := if exponent >= 128 then 128 else exponent;
    var m := if exponent >= 128 then 0 else mantissa;
    Or(Or(And(sign, 0x8000_0000), Shl(e + 127, 23)), And(m, 0x007f_ffff))
  }

  function PackDouble(sign: Word, exponent: nat, mantissa: Word): nat {
    var e := if exponent >= 1024 then 1024 else exponent;
    var m := if exponent >= 1024 then 0 else mantissa;
    Or(Or(Shl(And(sign, 0x8000_0000), 32), Shl(e + 1023, 52)), And(m, 0x000f_ffff_ffff_ffff))
  }

  /** The fields of a pattern put together from its fields. */
  lemma DecodeFields(fraction: nat, exponent: nat, sign: nat, p: nat, e: nat)
    requires 0 < p && fraction < Pow2(p - 1) && exponent < Pow2(e) && sign <= 1
    ensures var bits := fraction + Pow2(p - 1) * (exponent + Pow2(e) * sign);
            0 <= bits < Pow2(p + e) && Wrap(bits, p - 1) == fraction && ExtractBits(bits, p - 1, e) == exponent && Bit(bits, p - 1 + e) == sign
  {
    hide Pow2, Wrap, Shr;
    var upper := exponent + Pow2(e) * sign;
    var bits := fraction + Pow2(p - 1) * upper;
    MulMono(0, upper, Pow2(p - 1));
    FieldsBound(fraction, upper, p, e);
    ShrUnique(bits, upper, fraction, p - 1);
    ShrUnique(upper, sign, exponent, e);
    ShrShr(bits, p - 1, e);
    BitShr(bits, p - 1 + e);
  }

  lemma FieldsBound(fraction: nat, upper: nat, p: nat, e: nat)
    requires 0 < p && fraction < Pow2(p - 1) && upper < Pow2(e) + Pow2(e)
    ensures fraction + Pow2(p - 1) * upper < Pow2(p + e)
  {
    hide Pow2;
    Pow2Sub(e + 1, 1);
    Pow2Sub(p + e, p - 1);
    Pow2Bytes();
    MulDist(Pow2(p - 1), upper, 1);
    MulMono(upper + 1, Pow2(e + 1), Pow2(p - 1));
  }

  /** Or-ing the three fields into place adds them. */
  lemma OrFields(fraction: nat, exponent: nat, sign: nat, p: nat, e: nat)
    requires 0 < p && fraction < Pow2(p - 1) && exponent < Pow2(e) && sign <= 1
    ensures Or(Or(Pow2(p - 1 + e) * sign, Pow2(p - 1) * exponent), fraction) == fraction + Pow2(p - 1) * (exponent + Pow2(e) * sign)
  {
    hide Pow2, Or;
    var a, b := Pow2(p - 1), Pow2(e);
    Pow2Add(p - 1, e);
    assert a * exponent < a * b by {
      MulStrict(exponent, b, a);
    }
    OrDisjoint(sign, a * exponent, p - 1 + e);
    MulAssoc(a, b, sign);
    MulDist(a, exponent, b * sign);
    OrDisjoint(exponent + b * sign, fraction, p - 1);
  }

  lemma SignField(negative: bool)
    ensures And(SignWord(negative), 0x8000_0000) == Pow2(31) * (if negative then 1 else 0)
    ensures And(SignWord(negative), 0x8000) == Pow2(15) * (if negative then 1 else 0)
  {
    hide And;
    Pow2Words();
    assert Pow2(32) == 2 * Pow2(31);
    assert Pow2(16) == 2 * Pow2(15);
    AndCommutes(SignWord(negative), 0x8000_0000);
    AndCommutes(SignWord(negative), 0x8000);
    AndMask(0x8000_0000, 64);
    AndMask(0x8000, 64);
    AndZero(0x8000_0000);
    AndZero(0x8000);
  }

  lemma Pow2Fractions()
    ensures Pow2(23) == 0x0080_0000 && Pow2(52) == 0x0010_0000_0000_0000 && Pow2(63) == 0x8000_0000_0000_0000
    ensures Pow2(11) == 2048 && Pow2(15) == 0x8000 && Pow2(10) == 1024
  {
    hide Pow2;
    Pow2Words();
    Pow2Bytes();
    Pow2Add(8, 3);
    Pow2Add(8, 2);
    Pow2Add(8, 7);
    Pow2Add(16, 7);
    Pow2Add(32, 16);
    Pow2Add(48, 4);
    Pow2Sub(64, 1);
  }

  /** Dropping the leading one of a normal significand leaves its fraction. */
  lemma HiddenBit(m: nat, p: nat)
    requires 0 < p && Pow2(p - 1) <= m < Pow2(p)
    ensures Wrap(m, p - 1) == m - Pow2(p - 1)
  {
    hide Pow2, Wrap;
    Pow2Sub(p, 1);
    Pow2Bytes();
    WrapShift(m - Pow2(p - 1), 1, p - 1);
    WrapSmall(m - Pow2(p - 1), p - 1);
  }

  /** The packed float denotes the sign, exponent and fraction it was built from, or infinity; the leading
      bit of the significand is implied, whatever the word holds there. */
  lemma PackFloatDenotes(negative: bool, e: nat, m: Word)
    ensures DecodeFloat(PackFloat(SignWord(negative), e, m)) ==
            if e >= 128 then Infinite(negative) else Finite(negative, Pow2(23) + Wrap(m, 23), e + 126)
    ensures FieldsNumber(PackFloat(SignWord(negative), e, m), 24, 8) ==
            if e >= 128 then Finite(negative, Pow2(23), 254) else Finite(negative, Pow2(23) + Wrap(m, 23), e + 126)
    ensures PackFloat(SignWord(negative), e, m) < Pow2(32)
  {
    hide Pow2, And, Or, Wrap, Bit, ExtractBits, SignWord;
    Pow2Fractions();
    Pow2Bytes();
    SignField(negative);
    var sign := if negative then 1 else 0;
    var fraction := if e >= 128 then 0 else Wrap(m, 23);
    var exponent := (if e >= 128 then 128 else e) + 127;
    MaskLow(if e >= 128 then 0 else m, 23);
    WrapSmall(0, 23);
    OrFields(fraction, exponent, sign, 24, 8);
    DecodeFields(fraction, exponent, sign, 24, 8);
  }

  lemma PackDoubleDenotes(negative: bool, e: nat, m: Word)
    ensures DecodeDouble(PackDouble(SignWord(negative), e, m)) ==
            if e >= 1024 then Infinite(negative) else Finite(negative, Pow2(52) + Wrap(m, 52), e + 1022)
    ensures FieldsNumber(PackDouble(SignWord(negative), e, m), 53, 11) ==
            if e >= 1024 then Finite(negative, Pow2(52), 2046) else Finite(negative, Pow2(52) + Wrap(m, 52), e + 1022)
    ensures PackDouble(SignWord(negative), e, m) < Pow2(64)
  {
    hide Pow2, And, Or, Wrap, Bit, ExtractBits, SignWord;
    Pow2Fractions();
    SignField(negative);
    var sign := if negative then 1 else 0;
    var fraction := if e >= 1024 then 0 else Wrap(m, 52);
    var exponent := (if e >= 1024 then 1024 else e) + 1023;
    Pow2Add(32, 31);
    MulAssoc(Pow2(32), Pow2(31), sign);
    MaskLow(if e >= 1024 then 0 else m, 52);
    WrapSmall(0, 52);
    OrFields(fraction, exponent, sign, 53, 11);
    DecodeFields(fraction, exponent, sign, 53, 11);
  }

  // ----- x87 extended -----

  /** The two words of a long double: the significand with its explicit leading bit, then sign and exponent. */
  datatype Extended = Extended(mantissa: Word, head: nat)

  /** The number in the fields of a long double, invalid patterns and an exponent of all ones read like any other. */
  function ExtendedNumber(x: Extended): Datum {
    var exponent := Wrap(x.head, 15);
    Finite(Bit(x.head, 15) == 1, x.mantissa, if exponent == 0 then 0 else exponent - 1)
  }

  function DecodeExtended(x: Extended): Datum {
    var exponent := Wrap(x.head, 15);
    var negative := Bit(x.head, 15) == 1;
    if exponent == 0x7fff then
      if x.mantissa == 0x8000_0000_0000_0000 then Infinite(negative) else NotANumber
    else if exponent != 0 && x.mantissa < 0x8000_0000_0000_0000 then
      NotANumber
    else
      ExtendedNumber(x)
  }

  function PackExtended(sign: Word, exponent: nat, mantissa: Word): Extended {
    var e := if exponent >= 16384 then 16384 else exponent;
    var m: Word := if exponent >= 16384 then 0x8000_0000_0000_0000 else mantissa;
    Extended(m, Or(And(sign, 0x8000), And(e + 16383, 0x7fff)))
  }

  /** The long double denotes the same if its significand has the explicit leading bit, else nothing valid. */
  lemma PackExtendedDenotes(negative: bool, e: nat, m: Word)
    ensures DecodeExtended(PackExtended(SignWord(negative), e, m)) ==
            if e >= 16384 then Infinite(negative) else if m >= Pow2(63) then Finite(negative, m, e + 16382) else NotANumber
    ensures ExtendedNumber(PackExtended(SignWord(negative), e, m)) ==
            if e >= 16384 then Finite(negative, Pow2(63), 32766) else Finite(negative, m, e + 16382)
  {
    hide Pow2, And, Or, Wrap, Bit, Shr, SignWord;
    Pow2Fractions();
    SignField(negative);
    var sign := if negative then 1 else 0;
    var exponent := (if e >= 16384 then 16384 else e) + 16383;
    MaskLow(exponent, 15);
    WrapSmall(exponent, 15);
    OrDisjoint(sign, exponent, 15);
    ShrUnique(exponent + Pow2(15) * sign, sign, exponent, 15);
    BitShr(exponent + Pow2(15) * sign, 15);
  }

  // ----- known patterns -----

  /** In each format: one, minus two, the least magnitude, infinity and a NaN. */
  lemma KnownFloats()
    ensures FLOAT.Scale() == 149
    ensures DecodeFloat(0x3f80_0000).Finite? && !DecodeFloat(0x3f80_0000).negative && DecodeFloat(0x3f80_0000).Scaled() == Pow2(149)
    ensures DecodeFloat(0xc000_0000).Finite? && DecodeFloat(0xc000_0000).negative && DecodeFloat(0xc000_0000).Scaled() == Pow2(150)
    ensures DecodeFloat(1) == Finite(false, 1, 0) && DecodeFloat(0x7f80_0000) == Infinite(false) && DecodeFloat(0x7fc0_0000) == NotANumber
  {
    hide Pow2, Wrap, ExtractBits, Bit;
    Pow2Fractions();
    Pow2Bytes();
    DecodeFields(0, 127, 0, 24, 8);
    DecodeFields(0, 128, 1, 24, 8);
    DecodeFields(1, 0, 0, 24, 8);
    DecodeFields(0, 255, 0, 24, 8);
    DecodeFields(0x40_0000, 255, 0, 24, 8);
    Pow2Add(126, 23);
    Pow2Add(127, 23);
  }

  lemma KnownDoubles()
    ensures DOUBLE.Scale() == 1074
    ensures var one := DecodeDouble(0x3ff0_0000_0000_0000); one.Finite? && !one.negative && one.Scaled() == Pow2(1074)
    ensures var two := DecodeDouble(0xc000_0000_0000_0000); two.Finite? && two.negative && two.Scaled() == Pow2(1075)
    ensures DecodeDouble(1) == Finite(false, 1, 0)
    ensures DecodeDouble(0x7ff0_0000_0000_0000) == Infinite(false) && DecodeDouble(0x7ff8_0000_0000_0000) == NotANumber
  {
    hide Pow2, Wrap, ExtractBits, Bit;
    Pow2Fractions();
    Pow2Bytes();
    DecodeFields(0, 1023, 0, 53, 11);
    DecodeFields(0, 1024, 1, 53, 11);
    DecodeFields(1, 0, 0, 53, 11);
    DecodeFields(0, 2047, 0, 53, 11);
    DecodeFields(0x8_0000_0000_0000, 2047, 0, 53, 11);
    Pow2Add(1022, 52);
    Pow2Add(1023, 52);
  }

  lemma KnownExtended()
    ensures LONG_DOUBLE.Scale() == 16445
    ensures var one := DecodeExtended(Extended(0x8000_0000_0000_0000, 0x3fff)); one.Finite? && !one.negative && one.Scaled() == Pow2(16445)
    ensures var two := DecodeExtended(Extended(0x8000_0000_0000_0000, 0xc000)); two.Finite? && two.negative && two.Scaled() == Pow2(16446)
    ensures DecodeExtended(Extended(1, 0)) == Finite(false, 1, 0)
    ensures DecodeExtended(Extended(0x8000_0000_0000_0000, 0x7fff)) == Infinite(false)
    ensures DecodeExtended(Extended(0xc000_0000_0000_0000, 0x7fff)) == NotANumber
  {
    hide Pow2, Wrap, Bit;
    Pow2Fractions();
    HeadFields(0x3fff, 0);
    HeadFields(0x4000, 1);
    HeadFields(0, 0);
    HeadFields(0x7fff, 0);
    Pow2Add(16382, 63);
    Pow2Add(16383, 63);
  }

  lemma HeadFields(exponent: nat, sign: nat)
    requires exponent < 0x8000 && sign <= 1
    ensures Wrap(exponent + 0x8000 * sign, 15) == exponent && Bit(exponent + 0x8000 * sign, 15) == sign
  {
    hide Pow2, Wrap, Shr;
    Pow2Fractions();
    ShrUnique(exponent + 0x8000 * sign, sign, exponent, 15);
    BitShr(exponent + 0x8000 * sign, 15);
  }
}
