/** Conversion of floating point to bit-precise integers (kefir_bigint/float.h). */
module FloatToInt {
  import opened Powers
  import opened Bitwise
  import opened Digits
  import opened BitRange
  import opened AddSub
  import opened Shift
  import opened Init
  import opened Rounding
  import opened FloatFormats

  // ----- the integer part -----

  /** The magnitude of a finite datum with its fraction discarded. */
  function IntegerPart(d: Datum, f: Format): (r: int)
    requires d.Finite? && 2 <= f.precision < f.limit
  {
    Shr(d.Scaled(), f.Scale())
  }

  function Negated(negative: bool, x: int): int {
    if negative then -x else x
  }

  /** What cvts*2si leaves for a value out of range. */
  function Indefinite(negative: bool, signed: bool, width: nat): nat
    requires 0 < width
  {
    if signed || negative then Pow2(width - 1) else 0
  }

  /** The significand placed by its exponent, which counts from the leading bit. */
  function Placed(m: nat, e: nat, k: nat): int {
    if e < k then Shr(m, k - e) else Pow2(e - k) * m
  }

  lemma PlacedRange(m: nat, e: nat, k: nat)
    requires m < Pow2(k + 1)
    ensures 0 <= Placed(m, e, k) < Pow2(e + 1)
    ensures Pow2(k) <= m ==> Pow2(e) <= Placed(m, e, k)
  {
    hide Pow2, Shr;
    if e < k {
      ShrNat(m, k - e);
      ShrBelow(m, k - e, e + 1);
      ShrBelow(m, k - e, e);
    } else {
      Pow2Sub(e + 1, e - k);
      Pow2Sub(e, e - k);
      MulStrict(m, Pow2(k + 1), Pow2(e - k));
      MulMono(0, m, Pow2(e - k));
      if Pow2(k) <= m {
        MulMono(Pow2(k), m, Pow2(e - k));
      }
    }
  }

  /** The integer part of a normal significand is the significand placed by its exponent. */
  lemma NormalPart(negative: bool, m: nat, exponent: nat, f: Format)
    requires f.Valid() && m < Pow2(f.precision)
    ensures var d, e := Finite(negative, m, exponent), exponent - (f.limit - 2);
            if e < 0 then IntegerPart(d, f) == 0 else IntegerPart(d, f) == Placed(m, e, f.precision - 1)
  {
    hide Pow2, Shr;
    var p, e := f.precision, exponent - (f.limit - 2);
    ShrScaled(m, exponent, f.Scale());
    if e < 0 {
      Pow2Mono(p, f.Scale() - exponent);
      ShrNat(m, f.Scale() - exponent);
    }
  }

  lemma ShrScaled(m: nat, k: nat, shift: nat)
    ensures Shr(Pow2(k) * m, shift) == if k < shift then Shr(m, shift - k) else Pow2(k - shift) * m
  {
    hide Pow2, Shr;
    if k < shift {
      ShrUnique(Pow2(k) * m, m, 0, k);
      ShrShr(Pow2(k) * m, k, shift - k);
    } else {
      Pow2Sub(k, shift);
      MulAssoc(Pow2(shift), Pow2(k - shift), m);
      ShrUnique(Pow2(k) * m, Pow2(k - shift) * m, 0, shift);
    }
  }

  /** An integer the format can hold keeps its value through the rounding conversion and back. */
  lemma IntegerSurvives(x: int, d: Datum, f: Format)
    requires f.Valid() && CorrectlyRounded(x, d, f) && d.Finite?
    requires Representable(Pow2(f.Scale()) * Magnitude(x), f)
    ensures Negated(d.negative, IntegerPart(d, f)) == x
  {
    hide Pow2, Shr, Representable, NearestEven, OverflowThreshold;
    RepresentableExact(x, d, f);
    ShrUnique(Pow2(f.Scale()) * Magnitude(x), Magnitude(x), 0, f.Scale());
  }

  /** Every integer of at most `precision` significant bits below 2^limit, the minimum of a signed type
      among them, comes back from the conversion to the format. */
  lemma SignificantBitsSurvive(x: int, k: nat, m: nat, d: Datum, f: Format)
    requires f.Valid() && CorrectlyRounded(x, d, f)
    requires Magnitude(x) == Pow2(k) * m && m < Pow2(f.precision) && Magnitude(x) < Pow2(f.limit)
    ensures d.Finite? && Negated(d.negative, IntegerPart(d, f)) == x
  {
    hide Pow2, Shr, NearestEven, OverflowThreshold, IntegerPart;
    var n, t := Normalized(m, k, f);
    BelowThreshold(Magnitude(x), n, t, f);
    var scaled := Pow2(f.Scale()) * Magnitude(x);
    Pow2Add(f.Scale(), t);
    MulAssoc(Pow2(f.Scale()), Pow2(t), n);
    assert HasForm(scaled, n, f.Scale() + t, f);
    IntegerSurvives(x, d, f);
  }

  /** The significand shifted up as far as it goes, so that the power of two is as small as it can be. */
  lemma {:induction false} Normalized(m: nat, k: nat, f: Format) returns (n: nat, t: nat)
    requires f.Valid() && m < Pow2(f.precision) && Pow2(k) * m < Pow2(f.limit)
    ensures Pow2(t) * n == Pow2(k) * m && n < Pow2(f.precision) && t + f.precision <= f.limit
    decreases k
  {
    hide Pow2;
    if k + f.precision <= f.limit {
      n, t := m, k;
    } else if 2 * m < Pow2(f.precision) {
      Pow2Sub(k, 1);
      Pow2Bytes();
      MulAssoc(Pow2(k - 1), 2, m);
      n, t := Normalized(2 * m, k - 1, f);
    } else {
      Pow2Sub(f.precision, 1);
      Pow2Bytes();
      MulMono(Pow2(f.precision - 1), m, Pow2(k));
      Pow2Add(k, f.precision - 1);
      Pow2Mono(f.limit, k + f.precision - 1);
      assert false;
    }
  }

  lemma BelowThreshold(x: nat, n: nat, t: nat, f: Format)
    requires f.Valid() && x == Pow2(t) * n && n < Pow2(f.precision) && t + f.precision <= f.limit
    ensures x < OverflowThreshold(f)
  {
    hide Pow2;
    var p := f.precision;
    TopMultiple(n, t, p);
    Pow2Strict(f.limit - p - 1, f.limit);
    if t + p == f.limit {
      Pow2Strict(f.limit - p - 1, t);
    } else {
      Pow2Strict(t + p, f.limit);
    }
  }

  lemma TopMultiple(n: nat, t: nat, p: nat)
    requires n < Pow2(p)
    ensures Pow2(t) * n + Pow2(t) <= Pow2(t + p)
  {
    hide Pow2;
    Pow2Add(t, p);
    MulStrict(n, Pow2(p), Pow2(t));
  }

  // ----- the algorithm on digits -----

  /** A single one in the sign position. */
  method SetIndefinite(digits: array<Digit>, width: nat)
    requires 0 < width && DigitCount(width) <= digits.Length
    modifies digits
    ensures SameFrom(old(digits[..]), digits[..], DigitCount(width))
    ensures Val(digits[..], width) == Pow2(width - 1)
  {
    hide Pow2, Wrap, Val, Num, SameFrom;
    SameFromChain();
    SetUnsignedInteger(digits, width, 1);
    LeftShift(digits, width - 1, width);
    Pow2Strict(0, width);
    Pow2Bytes();
    WrapSmall(1, width);
    Pow2Strict(width - 1, width);
    WrapSmall(Pow2(width - 1), width);
  }

  /** Puts the significand in place, cut to the width. */
  method Place(digits: array<Digit>, width: nat, negative: bool, exponent: nat, mantissa: Word, k: nat)
    requires 0 < width && DigitCount(width) <= digits.Length
    modifies digits
    ensures SameFrom(old(digits[..]), digits[..], DigitCount(width))
    ensures Val(digits[..], width) == Wrap(Negated(negative, Placed(mantissa, exponent, k)), width)
  {
    hide Pow2, Wrap, Shr, Val, Num, SameFrom;
    SameFromChain();
    if exponent < k {
      ShrNat(mantissa, k - exponent);
      SetUnsignedInteger(digits, width, Shr(mantissa, k - exponent));
    } else {
      SetUnsignedInteger(digits, width, mantissa);
      LeftShift(digits, exponent - k, width);
      ShiftWrapped(mantissa, exponent - k, width);
    }
    if negative {
      Negate(digits, width);
      NegateWrapped(Placed(mantissa, exponent, k), width);
    }
  }

  lemma ShiftWrapped(x: int, k: nat, width: nat)
    ensures Wrap(Pow2(k) * Wrap(x, width), width) == Wrap(Pow2(k) * x, width)
  {
    hide Pow2, Wrap;
    WrapProduct(Pow2(k), x, width);
    WrapProduct(Pow2(k), Wrap(x, width), width);
    WrapWrap(x, width, width);
  }

  lemma NegateWrapped(x: int, width: nat)
    ensures Wrap(-(Wrap(x, width) as int), width) == Wrap(-x, width)
  {
    hide Pow2, Wrap;
    WrapDifference(0, x, width);
    WrapDifference(0, Wrap(x, width), width);
    WrapWrap(x, width, width);
  }

  ghost function FromParts(negative: bool, exponent: int, mantissa: nat, k: nat, signed: bool, width: nat): nat
    requires 0 < width
  {
    if exponent < 0 then
      0
    else if exponent >= width then
      Indefinite(negative, signed, width)
    else
      Wrap(Negated(negative, Placed(mantissa, exponent, k)), width)
  }

  method SignedFromIeee(digits: array<Digit>, width: nat, negative: bool, exponent: int, mantissa: Word, k: nat)
    requires 0 < width && DigitCount(width) <= digits.Length
    modifies digits
    ensures SameFrom(old(digits[..]), digits[..], DigitCount(width))
    ensures Val(digits[..], width) == FromParts(negative, exponent, mantissa, k, true, width)
    ensures exponent >= width ==> SVal(digits[..], width) == -(Pow2(width - 1) as int)
  {
    hide Pow2, Wrap, Shr, Val, Num, SameFrom, Placed;
    if exponent < 0 {
      Zero(digits, width);
    } else if exponent >= width {
      SetIndefinite(digits, width);
      TopBitAlone(digits[..], width);
    } else {
      Place(digits, width, negative, exponent, mantissa, k);
    }
  }

  method UnsignedFromIeee(digits: array<Digit>, width: nat, negative: bool, exponent: int, mantissa: Word, k: nat)
    requires 0 < width && DigitCount(width) <= digits.Length
    modifies digits
    ensures SameFrom(old(digits[..]), digits[..], DigitCount(width))
    ensures Val(digits[..], width) == FromParts(negative, exponent, mantissa, k, false, width)
    ensures exponent >= width ==> Val(digits[..], width) == if negative then Pow2(width - 1) else 0
  {
    hide Pow2, Wrap, Shr, Val, Num, SameFrom, Placed;
    if exponent < 0 {
      Zero(digits, width);
    } else if exponent >= width {
      if negative {
        SetIndefinite(digits, width);
      } else {
        Zero(digits, width);
      }
    } else {
      Place(digits, width, negative, exponent, mantissa, k);
    }
  }

  // ----- what the conversions leave -----

  /** The integer part when it has at most width bits, else the indefinite value. */
  ghost predicate TruncatesTo(v: nat, negative: bool, part: int, signed: bool, width: nat)
    requires 0 < width
  {
    v == if part < Pow2(width) then Wrap(Negated(negative, part), width) else Indefinite(negative, signed, width)
  }

  /** What a conversion leaves of what a pattern denotes; an infinity is read as the power of two its exponent
      field would stand for. */
  ghost predicate Truncates(v: nat, d: Datum, f: Format, signed: bool, width: nat)
    requires 0 < width && 2 <= f.precision < f.limit
  {
    match d
    case Finite(negative, _, _) => TruncatesTo(v, negative, IntegerPart(d, f), signed, width)
    case Infinite(negative) => TruncatesTo(v, negative, Pow2(f.limit), signed, width)
    case NotANumber => true
  }

  /** A conversion whose integer part the target type holds yields that integer (section 6.3.1.4 of C17). */
  lemma TruncatesValue(v: nat, d: Datum, f: Format, signed: bool, width: nat)
    requires 0 < width && f.Valid() && d.Finite? && v < Pow2(width) && Truncates(v, d, f, signed, width)
    ensures var x := Negated(d.negative, IntegerPart(d, f));
            (FitsSigned(x, width) ==> ToSigned(v, width) == x) &&
            (0 <= x < Pow2(width) ==> v == x)
  {
    hide Pow2, Wrap, IntegerPart, ToSigned;
    var x := Negated(d.negative, IntegerPart(d, f));
    Pow2Sub(width, 1);
    Pow2Bytes();
    if FitsSigned(x, width) {
      SignedWrap(x, width);
      if IntegerPart(d, f) < 0 {
        PartNonnegative(d, f);
      }
    }
    if 0 <= x < Pow2(width) {
      WrapSmall(x, width);
    }
  }

  lemma PartNonnegative(d: Datum, f: Format)
    requires f.Valid() && d.Finite?
    ensures IntegerPart(d, f) >= 0
  {
    hide Pow2, Shr;
    MulMono(0, d.significand, Pow2(d.exponent));
    ShrNat(d.Scaled(), f.Scale());
  }

  /** What the conversions leave for the number in a pattern's fields: its integer part cut to the width, or
      the indefinite value from the exponent on at which the leading bit lies outside. */
  ghost function Truncated(d: Datum, f: Format, signed: bool, width: nat): nat
    requires 0 < width && d.Finite? && 2 <= f.precision < f.limit
  {
    if d.exponent - (f.limit - 2) >= width then
      Indefinite(d.negative, signed, width)
    else
      Wrap(Negated(d.negative, IntegerPart(d, f)), width)
  }

  lemma PartsNumber(negative: bool, m: nat, exponent: nat, f: Format, signed: bool, width: nat)
    requires 0 < width && f.Valid() && m < Pow2(f.precision)
    ensures FromParts(negative, exponent - (f.limit - 2), m, f.precision - 1, signed, width) ==
            Truncated(Finite(negative, m, exponent), f, signed, width)
  {
    hide Pow2, Wrap, IntegerPart, Placed;
    NormalPart(negative, m, exponent, f);
    WrapSmall(0, width);
  }

  /** A subnormal has no integer part. */
  lemma SubnormalNumber(negative: bool, m: nat, mantissa: nat, e: int, f: Format, signed: bool, width: nat)
    requires 0 < width && f.Valid() && f.limit >= 3 && m < Pow2(f.precision) && e < 0
    ensures FromParts(negative, e, mantissa, f.precision - 1, signed, width) == Truncated(Finite(negative, m, 0), f, signed, width)
  {
    hide Pow2, Wrap, Shr, IntegerPart, Placed;
    NormalPart(negative, m, 0, f);
    WrapSmall(0, width);
  }

  /** For a significand with its leading bit, the exponent tells whether the integer part fits the width. */
  lemma NormalTruncates(d: Datum, f: Format, signed: bool, width: nat)
    requires 0 < width && f.Valid() && d.Finite? && d.significand < Pow2(f.precision)
    requires Pow2(f.precision - 1) <= d.significand || d.exponent < f.limit - 2
    ensures TruncatesTo(Truncated(d, f, signed, width), d.negative, IntegerPart(d, f), signed, width)
  {
    hide Pow2, Wrap, IntegerPart, Placed;
    var e := d.exponent - (f.limit - 2);
    NormalPart(d.negative, d.significand, d.exponent, f);
    if e >= 0 {
      PlacedRange(d.significand, e, f.precision - 1);
      if e < width {
        Pow2Mono(e + 1, width);
      } else {
        Pow2Mono(width, e);
      }
    }
  }

  /** The fields of an infinity hold the first power of two beyond the format. */
  lemma InfinityPart(negative: bool, f: Format)
    requires f.Valid()
    ensures IntegerPart(Finite(negative, Pow2(f.precision - 1), 2 * f.limit - 2), f) == Pow2(f.limit)
  {
    hide Pow2, Shr;
    var k := f.precision - 1;
    Pow2Strict(k, k + 1);
    Pow2Sub(f.limit, f.limit - k);
    NormalPart(negative, Pow2(k), 2 * f.limit - 2, f);
  }

  // ----- values out of range -----

  lemma TopBitAlone(s: seq<Digit>, width: nat)
    requires 0 < width && DigitCount(width) <= |s| && Val(s, width) == Pow2(width - 1)
    ensures SVal(s, width) == -(Pow2(width - 1) as int)
  {
    hide Num, Pow2, Wrap, Val;
    Pow2Sub(width, 1);
    Pow2Bytes();
  }

  /** A number or an infinity whose integer part has more than width bits: the least signed value, whatever the sign;
      without a sign, zero, and the top bit alone for a negative. */
  lemma OutOfRange(s: seq<Digit>, d: Datum, f: Format, signed: bool, width: nat)
    requires 0 < width && DigitCount(width) <= |s| && f.Valid() && Truncates(Val(s, width), d, f, signed, width)
    requires if d.Finite? then IntegerPart(d, f) >= Pow2(width) else d.Infinite? && width <= f.limit
    ensures signed ==> SVal(s, width) == -(Pow2(width - 1) as int)
    ensures !signed ==> Val(s, width) == if d.negative then Pow2(width - 1) else 0
  {
    hide Num, Pow2, Wrap, Val, SVal, IntegerPart;
    if d.Infinite? {
      Pow2Mono(width, f.limit);
    }
    if signed {
      TopBitAlone(s, width);
    }
  }

  /** The same by the exponent, for the number in the fields of any pattern. */
  lemma ExponentOut(s: seq<Digit>, d: Datum, f: Format, signed: bool, width: nat)
    requires 0 < width && DigitCount(width) <= |s| && f.Valid() && d.Finite? && d.exponent >= width + f.limit - 2
    requires Val(s, width) == Truncated(d, f, signed, width)
    ensures signed ==> SVal(s, width) == -(Pow2(width - 1) as int)
    ensures !signed ==> Val(s, width) == if d.negative then Pow2(width - 1) else 0
  {
    hide Num, Pow2, Wrap, Val, SVal, IntegerPart;
    if signed {
      TopBitAlone(s, width);
    }
  }

  // ----- taking patterns apart -----

  lemma MaskBit(x: nat, k: nat)
    ensures And(x, Pow2(k)) != 0 <==> Bit(x, k) == 1
  {
    hide Pow2, And, Shr, Wrap, Bit;
    var hi := Shr(x, k);
    ShrNat(x, k);
    ShrSplit(x, k);
    AndSplit(Wrap(x, k), hi, 0, 1, k);
    AndZero(Wrap(x, k));
    Pow2Bytes();
    MaskLow(hi, 1);
    BitShr(x, k);
    assert Wrap(hi, 1) == hi % 2 by {
      WrapOne(hi);
    }
    if hi % 2 == 1 {
      assert Pow2(k) * 1 != 0;
    }
  }

  lemma WrapOne(x: int)
    ensures Wrap(x, 1) == x % 2
  {
    Pow2Bytes();
  }

  /** The masked fields of a float, as the conversions read them. */
  lemma FloatFields(bits: Word, signed: bool, width: nat)
    requires 0 < width
    ensures 0 <= Shr(bits, 23) && Or(And(bits, 0x007f_ffff), 0x0080_0000) < Pow2(64)
    ensures FromParts(And(bits, 0x8000_0000) != 0, And(Shr(bits, 23), 0xff) - 127, Or(And(bits, 0x007f_ffff), 0x0080_0000), 23, signed, width) ==
            Truncated(FieldsNumber(bits, 24, 8), FLOAT, signed, width)
  {
    hide Pow2, And, Or, Shr, Wrap, Bit, Truncated, FromParts;
    Pow2Fractions();
    Pow2Words();
    Pow2Bytes();
    ShrNat(bits, 23);
    MaskBit(bits, 31);
    MaskLow(Shr(bits, 23), 8);
    MaskLow(bits, 23);
    var exponent: int, fraction := Wrap(Shr(bits, 23), 8), Wrap(bits, 23);
    Pow2Sub(24, 1);
    Pow2Sub(32, 1);
    OrDisjoint(1, fraction, 23);
    var negative := Bit(bits, 31) == 1;
    if exponent == 0 {
      SubnormalNumber(negative, fraction, Pow2(23) + fraction, -127, FLOAT, signed, width);
    } else {
      PartsNumber(negative, Pow2(23) + fraction, exponent - 1, FLOAT, signed, width);
    }
  }

  /** For a float that is a number, the truncation is that of what it denotes. */
  lemma FloatTruncates(bits: Word, signed: bool, width: nat)
    requires 0 < width
    ensures Truncates(Truncated(FieldsNumber(bits, 24, 8), FLOAT, signed, width), DecodeFloat(bits), FLOAT, signed, width)
  {
    hide Pow2, Shr, Wrap, Bit, Truncated, TruncatesTo, IntegerPart;
    Pow2Fractions();
    Pow2Bytes();
    Pow2Sub(24, 1);
    NormalTruncates(FieldsNumber(bits, 24, 8), FLOAT, signed, width);
    InfinityPart(Bit(bits, 31) == 1, FLOAT);
  }

  lemma FloatOut(s: seq<Digit>, bits: Word, signed: bool, width: nat)
    requires 0 < width && DigitCount(width) <= |s|
    requires Val(s, width) == Truncated(FieldsNumber(bits, 24, 8), FLOAT, signed, width)
    requires Truncates(Val(s, width), DecodeFloat(bits), FLOAT, signed, width)
    ensures DecodeFloat(bits).Finite? && IntegerPart(DecodeFloat(bits), FLOAT) >= Pow2(width) ==>
              (signed ==> SVal(s, width) == -(Pow2(width - 1) as int)) &&
              (!signed ==> Val(s, width) == if DecodeFloat(bits).negative then Pow2(width - 1) else 0)
    ensures ExtractBits(bits, 23, 8) >= width + 127 ==>
              (signed ==> SVal(s, width) == -(Pow2(width - 1) as int)) &&
              (!signed ==> Val(s, width) == if Bit(bits, 31) == 1 then Pow2(width - 1) else 0)
  {
    hide Num, Pow2, Wrap, Val, SVal, IntegerPart, Truncated, Truncates, Bit, ExtractBits, DecodeFloat;
    if DecodeFloat(bits).Finite? && IntegerPart(DecodeFloat(bits), FLOAT) >= Pow2(width) {
      OutOfRange(s, DecodeFloat(bits), FLOAT, signed, width);
    }
    if ExtractBits(bits, 23, 8) >= width + 127 {
      ExponentOut(s, FieldsNumber(bits, 24, 8), FLOAT, signed, width);
    }
  }

  method SignedFromFloat(digits: array<Digit>, bits: Word, width: nat)
    requires 0 < width && DigitCount(width) <= digits.Length
    modifies digits
    ensures SameFrom(old(digits[..]), digits[..], DigitCount(width))
    ensures Val(digits[..], width) == Truncated(FieldsNumber(bits, 24, 8), FLOAT, true, width)
    ensures Truncates(Val(digits[..], width), DecodeFloat(bits), FLOAT, true, width)
    ensures DecodeFloat(bits).Finite? && IntegerPart(DecodeFloat(bits), FLOAT) >= Pow2(width) ==> SVal(digits[..], width) == -(Pow2(width - 1) as int)
    ensures ExtractBits(bits, 23, 8) >= width + 127 ==> SVal(digits[..], width) == -(Pow2(width - 1) as int)
  {
    hide Pow2, And, Or, Shr, Val, Num, FromParts, Truncated, Truncates, IntegerPart, SVal, FieldsNumber, DecodeFloat, SameFrom;
    FloatFields(bits, true, width);
    FloatTruncates(bits, true, width);
    Pow2Words();
    var negative := And(bits, 0x8000_0000) != 0;
    var exponent := And(Shr(bits, 23), 0xff) - 127;
    var mantissa := Or(And(bits, 0x007f_ffff), 0x0080_0000);
    SignedFromIeee(digits, width, negative, exponent, mantissa, 23);
    FloatOut(digits[..], bits, true, width);
  }

  method UnsignedFromFloat(digits: array<Digit>, bits: Word, width: nat)
    requires 0 < width && DigitCount(width) <= digits.Length
    modifies digits
    ensures SameFrom(old(digits[..]), digits[..], DigitCount(width))
    ensures Val(digits[..], width) == Truncated(FieldsNumber(bits, 24, 8), FLOAT, false, width)
    ensures Truncates(Val(digits[..], width), DecodeFloat(bits), FLOAT, false, width)
    ensures DecodeFloat(bits).Finite? && IntegerPart(DecodeFloat(bits), FLOAT) >= Pow2(width) ==>
              Val(digits[..], width) == if DecodeFloat(bits).negative then Pow2(width - 1) else 0
    ensures ExtractBits(bits, 23, 8) >= width + 127 ==> Val(digits[..], width) == if Bit(bits, 31) == 1 then Pow2(width - 1) else 0
  {
    hide Pow2, And, Or, Shr, Val, Num, FromParts, Truncated, Truncates, IntegerPart, SVal, FieldsNumber, DecodeFloat, SameFrom;
    FloatFields(bits, false, width);
    FloatTruncates(bits, false, width);
    Pow2Words();
    var negative := And(bits, 0x8000_0000) != 0;
    var exponent := And(Shr(bits, 23), 0xff) - 127;
    var mantissa := Or(And(bits, 0x007f_ffff), 0x0080_0000);
    UnsignedFromIeee(digits, width, negative, exponent, mantissa, 23);
    FloatOut(digits[..], bits, false, width);
  }

  /** The masked fields of a double, as the conversions read them. */
  lemma DoubleFields(bits: Word, signed: bool, width: nat)
    requires 0 < width
    ensures 0 <= Shr(bits, 52) && Or(And(bits, 0x000f_ffff_ffff_ffff), 0x0010_0000_0000_0000) < Pow2(64)
    ensures FromParts(And(bits, 0x8000_0000_0000_0000) != 0, And(Shr(bits, 52), 0x7ff) - 1023,
                      Or(And(bits, 0x000f_ffff_ffff_ffff), 0x0010_0000_0000_0000), 52, signed, width) ==
            Truncated(FieldsNumber(bits, 53, 11), DOUBLE, signed, width)
  {
    hide Pow2, And, Or, Shr, Wrap, Bit, Truncated, FromParts;
    Pow2Fractions();
    Pow2Words();
    Pow2Bytes();
    ShrNat(bits, 52);
    MaskBit(bits, 63);
    MaskLow(Shr(bits, 52), 11);
    MaskLow(bits, 52);
    var exponent: int, fraction := Wrap(Shr(bits, 52), 11), Wrap(bits, 52);
    Pow2Sub(53, 1);
    Pow2Sub(64, 1);
    OrDisjoint(1, fraction, 52);
    var negative := Bit(bits, 63) == 1;
    if exponent == 0 {
      SubnormalNumber(negative, fraction, Pow2(52) + fraction, -1023, DOUBLE, signed, width);
    } else {
      PartsNumber(negative, Pow2(52) + fraction, exponent - 1, DOUBLE, signed, width);
    }
  }

  /** For a double that is a number, the truncation is that of what it denotes. */
  lemma DoubleTruncates(bits: Word, signed: bool, width: nat)
    requires 0 < width
    ensures Truncates(Truncated(FieldsNumber(bits, 53, 11), DOUBLE, signed, width), DecodeDouble(bits), DOUBLE, signed, width)
  {
    hide Pow2, Shr, Wrap, Bit, Truncated, TruncatesTo, IntegerPart;
    Pow2Fractions();
    Pow2Bytes();
    Pow2Sub(53, 1);
    NormalTruncates(FieldsNumber(bits, 53, 11), DOUBLE, signed, width);
    InfinityPart(Bit(bits, 63) == 1, DOUBLE);
  }

  lemma DoubleOut(s: seq<Digit>, bits: Word, signed: bool, width: nat)
    requires 0 < width && DigitCount(width) <= |s|
    requires Val(s, width) == Truncated(FieldsNumber(bits, 53, 11), DOUBLE, signed, width)
    requires Truncates(Val(s, width), DecodeDouble(bits), DOUBLE, signed, width)
    ensures DecodeDouble(bits).Finite? && IntegerPart(DecodeDouble(bits), DOUBLE) >= Pow2(width) ==>
              (signed ==> SVal(s, width) == -(Pow2(width - 1) as int)) &&
              (!signed ==> Val(s, width) == if DecodeDouble(bits).negative then Pow2(width - 1) else 0)
    ensures ExtractBits(bits, 52, 11) >= width + 1023 ==>
              (signed ==> SVal(s, width) == -(Pow2(width - 1) as int)) &&
              (!signed ==> Val(s, width) == if Bit(bits, 63) == 1 then Pow2(width - 1) else 0)
  {
    hide Num, Pow2, Wrap, Val, SVal, IntegerPart, Truncated, Truncates, Bit, ExtractBits, DecodeDouble;
    if DecodeDouble(bits).Finite? && IntegerPart(DecodeDouble(bits), DOUBLE) >= Pow2(width) {
      OutOfRange(s, DecodeDouble(bits), DOUBLE, signed, width);
    }
    if ExtractBits(bits, 52, 11) >= width + 1023 {
      ExponentOut(s, FieldsNumber(bits, 53, 11), DOUBLE, signed, width);
    }
  }

  method SignedFromDouble(digits: array<Digit>, bits: Word, width: nat)
    requires 0 < width && DigitCount(width) <= digits.Length
    modifies digits
    ensures SameFrom(old(digits[..]), digits[..], DigitCount(width))
    ensures Val(digits[..], width) == Truncated(FieldsNumber(bits, 53, 11), DOUBLE, true, width)
    ensures Truncates(Val(digits[..], width), DecodeDouble(bits), DOUBLE, true, width)
    ensures DecodeDouble(bits).Finite? && IntegerPart(DecodeDouble(bits), DOUBLE) >= Pow2(width) ==>
              SVal(digits[..], width) == -(Pow2(width - 1) as int)
    ensures ExtractBits(bits, 52, 11) >= width + 1023 ==> SVal(digits[..], width) == -(Pow2(width - 1) as int)
  {
    hide Pow2, And, Or, Shr, Val, Num, FromParts, Truncated, Truncates, IntegerPart, SVal, FieldsNumber, DecodeDouble, SameFrom;
    DoubleFields(bits, true, width);
    DoubleTruncates(bits, true, width);
    Pow2Words();
    var negative := And(bits, 0x8000_0000_0000_0000) != 0;
    var exponent := And(Shr(bits, 52), 0x7ff) - 1023;
    var mantissa := Or(And(bits, 0x000f_ffff_ffff_ffff), 0x0010_0000_0000_0000);
    SignedFromIeee(digits, width, negative, exponent, mantissa, 52);
    DoubleOut(digits[..], bits, true, width);
  }

  method UnsignedFromDouble(digits: array<Digit>, bits: Word, width: nat)
    requires 0 < width && DigitCount(width) <= digits.Length
    modifies digits
    ensures SameFrom(old(digits[..]), digits[..], DigitCount(width))
    ensures Val(digits[..], width) == Truncated(FieldsNumber(bits, 53, 11), DOUBLE, false, width)
    ensures Truncates(Val(digits[..], width), DecodeDouble(bits), DOUBLE, false, width)
    ensures DecodeDouble(bits).Finite? && IntegerPart(DecodeDouble(bits), DOUBLE) >= Pow2(width) ==>
              Val(digits[..], width) == if DecodeDouble(bits).negative then Pow2(width - 1) else 0
    ensures ExtractBits(bits, 52, 11) >= width + 1023 ==> Val(digits[..], width) == if Bit(bits, 63) == 1 then Pow2(width - 1) else 0
  {
    hide Pow2, And, Or, Shr, Val, Num, FromParts, Truncated, Truncates, IntegerPart, SVal, FieldsNumber, DecodeDouble, SameFrom;
    DoubleFields(bits, false, width);
    DoubleTruncates(bits, false, width);
    Pow2Words();
    var negative := And(bits, 0x8000_0000_0000_0000) != 0;
    var exponent := And(Shr(bits, 52), 0x7ff) - 1023;
    var mantissa := Or(And(bits, 0x000f_ffff_ffff_ffff), 0x0010_0000_0000_0000);
    UnsignedFromIeee(digits, width, negative, exponent, mantissa, 52);
    DoubleOut(digits[..], bits, false, width);
  }

  lemma ExtendedFields(x: Extended, signed: bool, width: nat)
    requires 0 < width
    ensures FromParts(And(x.head, 0x8000) != 0, And(x.head, 0x7fff) - 16383, x.mantissa, 63, signed, width) ==
            Truncated(ExtendedNumber(x), LONG_DOUBLE, signed, width)
  {
    hide Pow2, And, Shr, Wrap, Bit, Truncated, FromParts;
    Pow2Fractions();
    Pow2Words();
    MaskBit(x.head, 15);
    MaskLow(x.head, 15);
    var exponent: int := Wrap(x.head, 15);
    var negative := Bit(x.head, 15) == 1;
    if exponent == 0 {
      SubnormalNumber(negative, x.mantissa, x.mantissa, -16383, LONG_DOUBLE, signed, width);
    } else {
      PartsNumber(negative, x.mantissa, exponent - 1, LONG_DOUBLE, signed, width);
    }
  }

  /** For a long double that is a number, the truncation is that of what it denotes. */
  lemma ExtendedTruncates(x: Extended, signed: bool, width: nat)
    requires 0 < width
    ensures Truncates(Truncated(ExtendedNumber(x), LONG_DOUBLE, signed, width), DecodeExtended(x), LONG_DOUBLE, signed, width)
  {
    hide Pow2, Shr, Wrap, Bit, Truncated, TruncatesTo, IntegerPart;
    Pow2Fractions();
    Pow2Words();
    if DecodeExtended(x) != NotANumber {
      NormalTruncates(ExtendedNumber(x), LONG_DOUBLE, signed, width);
      InfinityPart(Bit(x.head, 15) == 1, LONG_DOUBLE);
    }
  }

  lemma ExtendedOut(s: seq<Digit>, x: Extended, signed: bool, width: nat)
    requires 0 < width && DigitCount(width) <= |s|
    requires Val(s, width) == Truncated(ExtendedNumber(x), LONG_DOUBLE, signed, width)
    requires Truncates(Val(s, width), DecodeExtended(x), LONG_DOUBLE, signed, width)
    ensures DecodeExtended(x).Finite? && IntegerPart(DecodeExtended(x), LONG_DOUBLE) >= Pow2(width) ==>
              (signed ==> SVal(s, width) == -(Pow2(width - 1) as int)) &&
              (!signed ==> Val(s, width) == if DecodeExtended(x).negative then Pow2(width - 1) else 0)
    ensures Wrap(x.head, 15) >= width + 16383 ==>
              (signed ==> SVal(s, width) == -(Pow2(width - 1) as int)) &&
              (!signed ==> Val(s, width) == if Bit(x.head, 15) == 1 then Pow2(width - 1) else 0)
  {
    hide Num, Pow2, Wrap, Val, SVal, IntegerPart, Truncated, Truncates, Bit, ExtractBits, DecodeExtended;
    if DecodeExtended(x).Finite? && IntegerPart(DecodeExtended(x), LONG_DOUBLE) >= Pow2(width) {
      OutOfRange(s, DecodeExtended(x), LONG_DOUBLE, signed, width);
    }
    if Wrap(x.head, 15) >= width + 16383 {
      ExponentOut(s, ExtendedNumber(x), LONG_DOUBLE, signed, width);
    }
  }

  method SignedFromLongDouble(digits: array<Digit>, x: Extended, width: nat)
    requires 0 < width && DigitCount(width) <= digits.Length
    modifies digits
    ensures SameFrom(old(digits[..]), digits[..], DigitCount(width))
    ensures Val(digits[..], width) == Truncated(ExtendedNumber(x), LONG_DOUBLE, true, width)
    ensures Truncates(Val(digits[..], width), DecodeExtended(x), LONG_DOUBLE, true, width)
    ensures DecodeExtended(x).Finite? && IntegerPart(DecodeExtended(x), LONG_DOUBLE) >= Pow2(width) ==>
              SVal(digits[..], width) == -(Pow2(width - 1) as int)
    ensures Wrap(x.head, 15) >= width + 16383 ==> SVal(digits[..], width) == -(Pow2(width - 1) as int)
  {
    hide Pow2, And, Val, Num, FromParts, Truncated, Truncates, IntegerPart, SVal, ExtendedNumber, DecodeExtended, SameFrom;
    ExtendedFields(x, true, width);
    ExtendedTruncates(x, true, width);
    SignedFromIeee(digits, width, And(x.head, 0x8000) != 0, And(x.head, 0x7fff) - 16383, x.mantissa, 63);
    ExtendedOut(digits[..], x, true, width);
  }

  method UnsignedFromLongDouble(digits: array<Digit>, x: Extended, width: nat)
    requires 0 < width && DigitCount(width) <= digits.Length
    modifies digits
    ensures SameFrom(old(digits[..]), digits[..], DigitCount(width))
    ensures Val(digits[..], width) == Truncated(ExtendedNumber(x), LONG_DOUBLE, false, width)
    ensures Truncates(Val(digits[..], width), DecodeExtended(x), LONG_DOUBLE, false, width)
    ensures DecodeExtended(x).Finite? && IntegerPart(DecodeExtended(x), LONG_DOUBLE) >= Pow2(width) ==>
              Val(digits[..], width) == if DecodeExtended(x).negative then Pow2(width - 1) else 0
    ensures Wrap(x.head, 15) >= width + 16383 ==> Val(digits[..], width) == if Bit(x.head, 15) == 1 then Pow2(width - 1) else 0
  {
    hide Pow2, And, Val, Num, FromParts, Truncated, Truncates, IntegerPart, SVal, ExtendedNumber, DecodeExtended, SameFrom;
    ExtendedFields(x, false, width);
    ExtendedTruncates(x, false, width);
    UnsignedFromIeee(digits, width, And(x.head, 0x8000) != 0, And(x.head, 0x7fff) - 16383, x.mantissa, 63);
    ExtendedOut(digits[..], x, false, width);
  }
}
