/** From a bit-precise integer to floating point and back (kefir_bigint/float.h): which integers come back, at
    every width. */
module FloatRoundTrip {
  import opened Powers
  import opened Digits
  import opened Rounding
  import opened FloatFormats
  import opened NarrowRounding
  import opened IntToFloat
  import opened FloatToInt

  /** The magnitudes that come back through a format with an implied leading bit: those of at most `precision`
      significant bits up to 2^limit, which an infinity stands for, if the width has room for their fraction. */
  ghost predicate ComesBack(a: nat, f: Format, w: nat)
    requires f.Valid()
  {
    var n, p := BitLength(a), f.precision;
    a == 0 || (a <= Pow2(f.limit) && if n <= p then RoomForFraction(a, p, w) else Wrap(a, n - p) == 0)
  }

  /** With an explicit leading bit the width must have room for that too. */
  ghost predicate ComesBackExtended(a: nat, w: nat) {
    var n := BitLength(a);
    a == 0 || (a <= Pow2(16384) && 64 <= w && (n <= 64 || (66 <= w && Wrap(a, n - 64) == 0)))
  }

  /** 2^24 + 1 does not come back through `float`, nor 1 at a width of 40 through `long double`; 2^128 does. */
  lemma Examples()
    ensures !ComesBack(0x100_0001, FLOAT, 32) && !ComesBackExtended(1, 40) && ComesBack(Pow2(128), FLOAT, 200)
  {
    hide Pow2, Wrap, BitLength;
    Pow2Bytes();
    Pow2Words();
    Pow2Add(16, 8);
    Pow2Sub(25, 1);
    BitLengthOf(0x100_0001, 25);
    ShrUnique(0x100_0001, 0x80_0000, 1, 1);
    Pow2Strict(128, 129);
    BitLengthOf(Pow2(128), 129);
    LimitBack(Pow2(128), 129, 24, 128);
  }

  // ----- the significand placed by its exponent -----

  lemma ShortPlaced(a: nat, n: nat, p: nat, m: nat)
    requires HasBits(a, n) && n <= p && m <= Pow2(p - n) * a
    ensures Placed(m, n - 1, p - 1) == a <==> m == Pow2(p - n) * a
  {
    hide Pow2, Shr, Wrap;
    Pow2Bytes();
    if n < p {
      ShrUnique(Pow2(p - n) * a, a, 0, p - n);
      if m < Pow2(p - n) * a {
        ShrSplit(m, p - n);
        if Shr(m, p - n) == a {
          assert false;
        }
      }
    }
  }

  /** A rounded magnitude is the magnitude exactly when no bit was dropped. */
  lemma RoundedSame(a: nat, s: nat)
    requires 0 < s
    ensures Pow2(s) * RoundShift(a, s) == a <==> Wrap(a, s) == 0
    ensures Pow2(s) * RoundShift(a, s) <= a + Pow2(s)
  {
    hide Pow2, Shr, Wrap;
    ShrSplit(a, s);
    ShrNat(a, s);
    Pow2Sub(s, 1);
    Pow2Bytes();
    MulDist(Pow2(s), Shr(a, s), 1);
  }

  lemma LongPlaced(a: nat, n: nat, p: nat)
    requires HasBits(a, n) && 2 <= p < n
    ensures var r := RoundShift(a, n - p);
            (Placed(r, n - 1, p - 1) == a <==> Wrap(a, n - p) == 0) &&
            (r == Pow2(p) ==> Wrap(a, n - p) != 0 && Placed(Pow2(p - 1), n, p - 1) != a && Placed(Pow2(p - 1), n - 1, p - 1) != a) &&
            Pow2(p - 1) <= r && Placed(r - Pow2(p - 1), n - 1, p - 1) < a
  {
    hide Pow2, Shr, Wrap, RoundShift;
    var r, s := RoundShift(a, n - p), n - p;
    RoundRange(a, n, p);
    RoundedSame(a, s);
    Pow2Sub(n - 1, s);
    Pow2Sub(n, s);
    Pow2Sub(n, s + 1);
    Pow2Strict(n - p - 1, n - 1);
    Pow2Strict(s, n - 1);
    Pow2Strict(n - 1, n);
    MulDist(Pow2(s), r - Pow2(p - 1), Pow2(p - 1));
    Pow2Sub(n, 1);
    Pow2Bytes();
  }

  /** An infinity places the first power of two beyond the format. */
  lemma LimitPlaced(f: Format)
    requires f.Valid()
    ensures Placed(Pow2(f.precision - 1), f.limit, f.precision - 1) == Pow2(f.limit)
  {
    hide Pow2;
    Pow2Sub(f.limit, f.limit - (f.precision - 1));
  }

  lemma LimitBack(a: nat, n: nat, p: nat, limit: nat)
    requires HasBits(a, n) && 2 <= p < limit && limit < n
    ensures a == Pow2(limit) <==> a <= Pow2(limit) && Wrap(a, n - p) == 0
  {
    hide Pow2, Wrap;
    Pow2Mono(limit, n - 1);
    if a == Pow2(limit) {
      if n - 1 > limit {
        Pow2Strict(limit, n - 1);
      }
      Pow2Sub(limit, n - p);
      WrapShift(0, Pow2(limit - (n - p)), n - p);
      WrapSmall(0, n - p);
    }
  }

  /** The parts packed with an implied leading bit place the magnitude exactly when it comes back. */
  lemma PackedPlaces(a: nat, n: nat, f: Format, w: nat)
    requires f.Valid() && HasBits(a, n) && n <= w
    ensures var d := PackedNumber(false, Computed(a, n, f.precision, w), f);
            d.exponent >= f.limit - 2 && d.significand < Pow2(f.precision) &&
            (Placed(d.significand, d.exponent - (f.limit - 2), f.precision - 1) == a <==> ComesBack(a, f, w))
  {
    hide Pow2, Wrap, Computed, Placed, PackedNumber, RoomForFraction;
    BitLengthOf(a, n);
    PackedBounds(Computed(a, n, f.precision, w), f);
    if n <= f.precision {
      ShortPacks(a, n, f, w);
    } else {
      LongPacks(a, n, f, w);
    }
  }

  lemma PackedBounds(parts: (nat, nat), f: Format)
    requires f.Valid()
    ensures PackedNumber(false, parts, f).significand < Pow2(f.precision) && PackedNumber(false, parts, f).exponent >= f.limit - 2
  {
    hide Pow2, Wrap;
    Pow2Sub(f.precision, 1);
    Pow2Bytes();
  }

  lemma ShortPacks(a: nat, n: nat, f: Format, w: nat)
    requires f.Valid() && HasBits(a, n) && n <= w && n <= f.precision
    ensures var d := PackedNumber(false, Computed(a, n, f.precision, w), f);
            a <= Pow2(f.limit) &&
            (Placed(d.significand, d.exponent - (f.limit - 2), f.precision - 1) == a <==> RoomForFraction(a, f.precision, w))
  {
    hide Pow2, Wrap, Placed;
    var p := f.precision;
    BitLengthOf(a, n);
    ShiftedRange(a, n, p);
    CutSignificand(Pow2(p - n) * a, p, w);
    ShortPlaced(a, n, p, Pow2(p - 1) + Wrap(Wrap(Pow2(p - n) * a, w), p - 1));
    Pow2Mono(n, f.limit);
  }

  lemma LongPacks(a: nat, n: nat, f: Format, w: nat)
    requires f.Valid() && HasBits(a, n) && f.precision < n <= w
    ensures var d := PackedNumber(false, Computed(a, n, f.precision, w), f);
            Placed(d.significand, d.exponent - (f.limit - 2), f.precision - 1) == a <==> a <= Pow2(f.limit) && Wrap(a, n - f.precision) == 0
  {
    hide Pow2, Wrap, RoundShift, Computed, Placed;
    var p, parts, r := f.precision, Computed(a, n, f.precision, w), RoundShift(a, n - f.precision);
    LongComputed(a, n, p, w);
    LongPlaced(a, n, p);
    RoundRange(a, n, p);
    FractionOf(r, p);
    Pow2Strict(p - 1, p);
    if parts.0 >= f.limit {
      LimitPlaced(f);
      if n > f.limit {
        LimitBack(a, n, p, f.limit);
      }
    } else {
      Pow2Mono(n, f.limit);
    }
  }

  /** The fraction of a significand, of its fraction and of a power of two. */
  lemma FractionOf(r: nat, p: nat)
    requires 0 < p && Pow2(p - 1) <= r <= Pow2(p)
    ensures r < Pow2(p) ==> Wrap(r, p - 1) == Wrap(r - Pow2(p - 1), p - 1) == r - Pow2(p - 1)
    ensures Wrap(0, p - 1) == 0 && Wrap(Pow2(p - 1), p - 1) == 0
  {
    hide Pow2, Wrap;
    Pow2Sub(p, 1);
    Pow2Bytes();
    WrapShift(0, 1, p - 1);
    WrapSmall(0, p - 1);
    if r < Pow2(p) {
      HiddenBit(r, p);
      WrapSmall(r - Pow2(p - 1), p - 1);
    }
  }

  /** So do the parts of a long double. */
  lemma ExtendedPlaces(a: nat, n: nat, w: nat)
    requires HasBits(a, n) && n <= w
    ensures var d := ExtendedPackedNumber(false, Computed(a, n, 64, w));
            d.exponent >= 16382 && d.significand < Pow2(64) &&
            (Placed(d.significand, d.exponent - 16382, 63) == a <==> ComesBackExtended(a, w))
  {
    hide Pow2, Wrap, RoundShift, Computed, Placed;
    BitLengthOf(a, n);
    Pow2Strict(63, 64);
    if n <= 64 {
      ShortExtends(a, n, w);
    } else {
      LongExtends(a, n, w);
    }
  }

  lemma ShortExtends(a: nat, n: nat, w: nat)
    requires HasBits(a, n) && n <= w && n <= 64
    ensures var parts := Computed(a, n, 64, w);
            parts.0 == n - 1 && parts.1 < Pow2(64) && a <= Pow2(16384) && (Placed(parts.1, n - 1, 63) == a <==> 64 <= w)
  {
    hide Pow2, Wrap, Placed;
    var t := Pow2(64 - n) * a;
    ShiftedRange(a, n, 64);
    CutSignificand(t, 64, w);
    WrapBelow(t, w);
    ShortPlaced(a, n, 64, Wrap(t, w));
    Pow2Mono(n, 16384);
  }

  lemma LongExtends(a: nat, n: nat, w: nat)
    requires HasBits(a, n) && 64 < n <= w
    ensures var d := ExtendedPackedNumber(false, Computed(a, n, 64, w));
            d.significand < Pow2(64) &&
            (Placed(d.significand, d.exponent - 16382, 63) == a <==> a <= Pow2(16384) && 66 <= w && Wrap(a, n - 64) == 0)
  {
    hide Pow2, Wrap, RoundShift, Computed, Placed;
    var parts, r := Computed(a, n, 64, w), RoundShift(a, n - 64);
    LongComputed(a, n, 64, w);
    LongPlaced(a, n, 64);
    RoundRange(a, n, 64);
    ZeroPlaced(n - 1, 63);
    Pow2Strict(63, 64);
    if parts.0 >= 16384 {
      LimitPlaced(LONG_DOUBLE);
      if n > 16384 {
        LimitBack(a, n, 64, 16384);
      }
    } else {
      Pow2Mono(n, 16384);
    }
  }

  lemma ZeroPlaced(e: nat, k: nat)
    ensures Placed(0, e, k) == 0
  {
    hide Pow2, Shr;
    if e < k {
      ShrUnique(0, 0, 0, k - e);
    }
  }

  // ----- what is read back -----

  /** A placed significand read back at the width is the integer exactly when it is its magnitude. */
  lemma ReadBack(x: int, m: nat, e: nat, f: Format, signed: bool, w: nat)
    requires f.Valid() && 0 < w && x != 0 && Magnitude(x) < Pow2(w) && m < Pow2(f.precision)
    requires e < w || (!signed && x > 0 && Placed(m, e, f.precision - 1) != Magnitude(x))
    ensures Truncated(Finite(x < 0, m, e + f.limit - 2), f, signed, w) == Wrap(x, w) <==> Placed(m, e, f.precision - 1) == Magnitude(x)
  {
    hide Pow2, Wrap, IntegerPart, Placed;
    NormalPart(x < 0, m, e + f.limit - 2, f);
    PlacedRange(m, e, f.precision - 1);
    if e < w {
      Pow2Mono(e + 1, w);
      SameWrap(Placed(m, e, f.precision - 1), Magnitude(x), w);
    } else {
      WrapSmall(x, w);
    }
  }

  /** Only an unsigned magnitude that fills the width can round up past it. */
  lemma ExponentFits(a: nat, n: nat, p: nat, w: nat)
    requires HasBits(a, n) && 2 <= p && n <= w
    ensures Computed(a, n, p, w).0 <= n
    ensures Computed(a, n, p, w).0 < w || (a > Pow2(w - 1) && p < n && Wrap(a, n - p) != 0)
  {
    hide Pow2, Wrap, RoundShift, Computed, Placed;
    if n <= p {
      ShortComputedExponent(a, n, p, w);
    } else {
      LongComputed(a, n, p, w);
      LongPlaced(a, n, p);
      RoundRange(a, n, p);
      Pow2Strict(n - p - 1, n - 1);
      Pow2Sub(n, 1);
      Pow2Bytes();
    }
  }

  lemma ShortComputedExponent(a: nat, n: nat, p: nat, w: nat)
    requires 0 < n <= p && n <= w
    ensures Computed(a, n, p, w).0 == n - 1
  {
    hide Pow2, Wrap;
  }

  /** An integer read back from what a pattern holds of it. */
  lemma HeldReturns(x: int, d: Datum, f: Format, signed: bool, w: nat)
    requires f.Valid() && 0 < w && HoldsPacked(d, x, f, w) && Magnitude(x) < Pow2(w)
    requires if signed then FitsSigned(x, w) else x >= 0
    ensures Truncated(d, f, signed, w) == Wrap(x, w) <==> ComesBack(Magnitude(x), f, w)
  {
    hide Pow2, Wrap, Computed, Placed, ComesBack, Truncated, BitLength;
    if x == 0 {
      ZeroReturns(f, signed, w);
    } else {
      var a, n := Magnitude(x), BitLength(Magnitude(x));
      PackedPlaces(a, n, f, w);
      ExponentFits(a, n, f.precision, w);
      NotPlaced(a, n, f, w);
      ReadBack(x, d.significand, d.exponent - (f.limit - 2), f, signed, w);
    }
  }

  lemma NotPlaced(a: nat, n: nat, f: Format, w: nat)
    requires f.Valid() && HasBits(a, n)
    ensures f.precision < n && Wrap(a, n - f.precision) != 0 ==> !ComesBack(a, f, w)
  {
    hide Pow2, Wrap, RoomForFraction;
    BitLengthOf(a, n);
  }

  lemma ZeroReturns(f: Format, signed: bool, w: nat)
    requires f.Valid() && 0 < w
    ensures Truncated(Finite(false, 0, 0), f, signed, w) == Wrap(0, w)
    ensures ComesBack(0, f, w)
  {
    hide Pow2, Wrap, Shr, IntegerPart;
    NormalPart(false, 0, 0, f);
    ZeroPlaced(0, f.precision - 1);
  }

  lemma ExtendedReturns(x: int, d: Datum, signed: bool, w: nat)
    requires 0 < w && HoldsExtended(d, x, w) && Magnitude(x) < Pow2(w)
    requires if signed then FitsSigned(x, w) else x >= 0
    ensures Truncated(d, LONG_DOUBLE, signed, w) == Wrap(x, w) <==> ComesBackExtended(Magnitude(x), w)
  {
    hide Pow2, Wrap, Computed, Placed, Truncated, BitLength;
    if x == 0 {
      ZeroReturns(LONG_DOUBLE, signed, w);
    } else {
      var a, n := Magnitude(x), BitLength(Magnitude(x));
      ExtendedPlaces(a, n, w);
      ExponentFits(a, n, 64, w);
      ReadBack(x, d.significand, d.exponent - 16382, LONG_DOUBLE, signed, w);
    }
  }

  // ----- through the formats and back -----

  lemma SameSigned(s: seq<Digit>, t: seq<Digit>, width: nat)
    requires DigitCount(width) <= |s| && DigitCount(width) <= |t|
    ensures Magnitude(SVal(s, width)) < Pow2(width) && Wrap(SVal(s, width), width) == Val(s, width)
    ensures SVal(t, width) == SVal(s, width) <==> Val(t, width) == Val(s, width)
  {
    hide Pow2, Wrap, Num;
    SignedRange(Val(s, width), width);
    SignedRange(Val(t, width), width);
    if width > 0 {
      Pow2Strict(width - 1, width);
    }
  }

  /** A signed integer through `float` and back. */
  method SignedThroughFloat(digits: array<Digit>, tmp: array<Digit>, width: nat)
    requires digits != tmp && 0 < width && DigitCount(width) <= digits.Length && DigitCount(width) <= tmp.Length
    modifies digits, tmp
    ensures SVal(digits[..], width) == old(SVal(digits[..], width)) <==> ComesBack(Magnitude(old(SVal(digits[..], width))), FLOAT, width)
  {
    hide Pow2, Wrap, Val, SVal, Num, SameFrom, Truncated, Truncates;
    hide FieldsNumber, DecodeFloat, HoldsPacked, ComesBack, CorrectlyRounded, RoomForFraction;
    Pow2Words();
    ghost var s := digits[..];
    var bits := SignedToFloat(digits, tmp, width);
    SignedFromFloat(digits, bits, width);
    SameSigned(s, digits[..], width);
    HeldReturns(SVal(s, width), FieldsNumber(bits, 24, 8), FLOAT, true, width);
  }

  method UnsignedThroughFloat(digits: array<Digit>, tmp: array<Digit>, width: nat)
    requires digits != tmp && 0 < width && DigitCount(width) <= digits.Length && DigitCount(width) <= tmp.Length
    modifies digits, tmp
    ensures Val(digits[..], width) == old(Val(digits[..], width)) <==> ComesBack(old(Val(digits[..], width)), FLOAT, width)
  {
    hide Pow2, Wrap, Val, SVal, Num, SameFrom, Truncated, Truncates;
    hide FieldsNumber, DecodeFloat, HoldsPacked, ComesBack, CorrectlyRounded, RoomForFraction;
    Pow2Words();
    ghost var x := Val(digits[..], width);
    var bits := UnsignedToFloat(digits, tmp, width);
    UnsignedFromFloat(digits, bits, width);
    WrapSmall(x, width);
    HeldReturns(x, FieldsNumber(bits, 24, 8), FLOAT, false, width);
  }

  /** A signed integer through `double` and back. */
  method SignedThroughDouble(digits: array<Digit>, tmp: array<Digit>, width: nat)
    requires digits != tmp && 0 < width && DigitCount(width) <= digits.Length && DigitCount(width) <= tmp.Length
    modifies digits, tmp
    ensures SVal(digits[..], width) == old(SVal(digits[..], width)) <==> ComesBack(Magnitude(old(SVal(digits[..], width))), DOUBLE, width)
  {
    hide Pow2, Wrap, Val, SVal, Num, SameFrom, Truncated, Truncates;
    hide FieldsNumber, DecodeDouble, HoldsPacked, ComesBack, CorrectlyRounded, RoomForFraction;
    Pow2Words();
    ghost var s := digits[..];
    var bits := SignedToDouble(digits, tmp, width);
    SignedFromDouble(digits, bits, width);
    SameSigned(s, digits[..], width);
    HeldReturns(SVal(s, width), FieldsNumber(bits, 53, 11), DOUBLE, true, width);
  }

  method UnsignedThroughDouble(digits: array<Digit>, tmp: array<Digit>, width: nat)
    requires digits != tmp && 0 < width && DigitCount(width) <= digits.Length && DigitCount(width) <= tmp.Length
    modifies digits, tmp
    ensures Val(digits[..], width) == old(Val(digits[..], width)) <==> ComesBack(old(Val(digits[..], width)), DOUBLE, width)
  {
    hide Pow2, Wrap, Val, SVal, Num, SameFrom, Truncated, Truncates;
    hide FieldsNumber, DecodeDouble, HoldsPacked, ComesBack, CorrectlyRounded, RoomForFraction;
    Pow2Words();
    ghost var x := Val(digits[..], width);
    var bits := UnsignedToDouble(digits, tmp, width);
    UnsignedFromDouble(digits, bits, width);
    WrapSmall(x, width);
    HeldReturns(x, FieldsNumber(bits, 53, 11), DOUBLE, false, width);
  }

  /** A signed integer through `long double` and back. */
  method SignedThroughLongDouble(digits: array<Digit>, tmp: array<Digit>, width: nat)
    requires digits != tmp && 0 < width && DigitCount(width) <= digits.Length && DigitCount(width) <= tmp.Length
    modifies digits, tmp
    ensures SVal(digits[..], width) == old(SVal(digits[..], width)) <==> ComesBackExtended(Magnitude(old(SVal(digits[..], width))), width)
  {
    hide Pow2, Wrap, Val, SVal, Num, SameFrom, Truncated, Truncates;
    hide ExtendedNumber, DecodeExtended, HoldsExtended, ComesBackExtended, CorrectlyRounded, Room;
    Pow2Words();
    ghost var s := digits[..];
    var bits := SignedToLongDouble(digits, tmp, width);
    SignedFromLongDouble(digits, bits, width);
    SameSigned(s, digits[..], width);
    ExtendedReturns(SVal(s, width), ExtendedNumber(bits), true, width);
  }

  method UnsignedThroughLongDouble(digits: array<Digit>, tmp: array<Digit>, width: nat)
    requires digits != tmp && 0 < width && DigitCount(width) <= digits.Length && DigitCount(width) <= tmp.Length
    modifies digits, tmp
    ensures Val(digits[..], width) == old(Val(digits[..], width)) <==> ComesBackExtended(old(Val(digits[..], width)), width)
  {
    hide Pow2, Wrap, Val, SVal, Num, SameFrom, Truncated, Truncates;
    hide ExtendedNumber, DecodeExtended, HoldsExtended, ComesBackExtended, CorrectlyRounded, Room;
    Pow2Words();
    ghost var x := Val(digits[..], width);
    var bits := UnsignedToLongDouble(digits, tmp, width);
    UnsignedFromLongDouble(digits, bits, width);
    WrapSmall(x, width);
    ExtendedReturns(x, ExtendedNumber(bits), false, width);
  }
}
