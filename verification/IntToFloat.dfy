/** Conversion of bit-precise integers to floating point (kefir_bigint/float.h). */
module IntToFloat {
  import opened Powers
  import opened Bitwise
  import opened Digits
  import opened BitRange
  import opened BitwiseDigits
  import opened AddSub
  import opened Shift
  import opened Cast
  import opened Init
  import opened Get
  import Divide
  import opened Rounding
  import opened FloatFormats
  import opened NarrowRounding

  // ----- the rounding trick on numbers -----

  /** The value cut to two bits below the significand, the lower of them sticky. */
  function Sticky(x: nat, n: nat, p: nat): nat
    requires p < n
  {
    if n == p + 1 then
      2 * x
    else if n == p + 2 then
      x
    else
      ShrNat(x, n - p - 2);
      Or(Shr(x, n - p - 2), if Wrap(x, n - p - 2) != 0 then 1 else 0)
  }

  /** The two extra bits say how the dropped bits compare with half a unit. */
  ghost predicate Guards(y: nat, q: nat, rest: int, u: int) {
    0 <= y - 4 * q <= 3 &&
    (y - 4 * q < 2 <==> 2 * rest < u) &&
    (y - 4 * q == 2 <==> 2 * rest == u) &&
    (y - 4 * q == 3 <==> 2 * rest > u)
  }

  /** Or-ing the significand's low bit into the sticky bit, adding one and dropping the two bits
      rounds to nearest, ties to even. */
  lemma RoundTrick(y: nat, q: nat, rest: int, u: int)
    requires Guards(y, q, rest, u)
    ensures (Or(y, Bit(y, 2)) + 1) / 4 == if 2 * rest > u || (2 * rest == u && q % 2 == 1) then q + 1 else q
  {
    hide Or, Bit;
    BitAboveGuards(y, q);
    OrFlag(y, Bit(y, 2));
    RoundCases(y, q, Bit(y, 2));
  }

  lemma BitAboveGuards(y: nat, q: nat)
    requires 0 <= y - 4 * q <= 3
    ensures Bit(y, 2) == q % 2
  {
    hide Bit, Pow2, Shr;
    Pow2Bytes();
    ShrUnique(y, q, y - 4 * q, 2);
    BitShr(y, 2);
  }

  lemma RoundCases(y: nat, q: nat, b: nat)
    requires 0 <= y - 4 * q <= 3 && b == q % 2
    ensures (y + (if b == 1 && y % 2 == 0 then 1 else 0) + 1) / 4 == if y - 4 * q == 3 || (y - 4 * q == 2 && b == 1) then q + 1 else q
  {
  }

  lemma StickyGuards(x: nat, n: nat, p: nat)
    requires p < n
    ensures 0 <= Shr(x, n - p)
    ensures Guards(Sticky(x, n, p), Shr(x, n - p), Wrap(x, n - p), Pow2(n - p))
  {
    hide Pow2, Or, Shr, Wrap;
    var s := n - p;
    Pow2Bytes();
    ShrNat(x, s);
    ShrSplit(x, s);
    if s >= 3 {
      StickyLong(x, s);
    }
  }

  /** With three or more bits dropped the sticky bit gathers all but the upper two of them. */
  lemma StickyLong(x: nat, s: nat)
    requires s >= 3
    ensures 0 <= Shr(x, s) && 0 <= Shr(x, s - 2)
    ensures Guards(Or(Shr(x, s - 2), if Wrap(x, s - 2) != 0 then 1 else 0), Shr(x, s), Wrap(x, s), Pow2(s))
  {
    hide Pow2, Or, Shr, Wrap;
    var v, q := Shr(x, s - 2), Shr(x, s);
    var low, u := Wrap(x, s - 2), Pow2(s - 2);
    ShrNat(x, s);
    ShrNat(x, s - 2);
    Pow2Sub(s, 2);
    Pow2Bytes();
    ShrShr(x, s - 2, 2);
    ShrSplit(v, 2);
    WrapPieces(x, s - 2, 2);
    OrFlag(v, if low != 0 then 1 else 0);
    StickyCompare(v, q, Wrap(v, 2), low, u);
  }

  lemma StickyCompare(v: nat, q: nat, g: nat, low: nat, u: nat)
    requires g < 4 && low < u && v == g + 4 * q
    ensures Guards(v + (if (if low != 0 then 1 else 0) == 1 && v % 2 == 0 then 1 else 0), q, low + u * g, u * 4)
  {
    if g == 0 {
      assert u * g == 0;
    } else if g == 1 {
      assert u * g == u;
    } else if g == 2 {
      assert u * g == 2 * u;
    } else {
      assert u * g == 3 * u;
    }
  }

  /** The algorithm's significand is the rounded quotient. */
  lemma TrickRounds(x: nat, n: nat, p: nat)
    requires p < n
    ensures Shr(Or(Sticky(x, n, p), Bit(Sticky(x, n, p), 2)) + 1, 2) == RoundShift(x, n - p)
  {
    hide Pow2, Or, Wrap, Sticky, Bit;
    StickyGuards(x, n, p);
    RoundTrick(Sticky(x, n, p), Shr(x, n - p), Wrap(x, n - p), Pow2(n - p));
    Pow2Bytes();
    ShrNat(x, n - p);
  }

  /** Two bits above the significand are enough room. */
  lemma StickyBound(x: nat, n: nat, p: nat)
    requires p < n && HasBits(x, n)
    ensures Sticky(x, n, p) < Pow2(p + 2)
    ensures Or(Sticky(x, n, p), Bit(Sticky(x, n, p), 2)) + 1 <= Pow2(p + 2)
  {
    hide Pow2, Or, Shr, Wrap, Bit;
    Pow2Add(1, p + 1);
    Pow2Bytes();
    Pow2Strict(0, p + 2);
    if n >= p + 3 {
      ShrNat(x, n - p - 2);
      ShrBelow(x, n - p - 2, p + 2);
      OrBound(Shr(x, n - p - 2), if Wrap(x, n - p - 2) != 0 then 1 else 0, p + 2);
    }
    OrBound(Sticky(x, n, p), Bit(Sticky(x, n, p), 2), p + 2);
  }

  // ----- the algorithm on digits -----

  lemma OnesShifted(width: nat, k: nat)
    requires 0 < width && k <= width
    ensures Shr(Wrap(ToSigned(0xffff_ffff_ffff_ffff, 64), width), width - k) == Pow2(k) - 1
  {
    hide Pow2, Wrap, Shr, ToSigned;
    Pow2Words();
    assert ToSigned(0xffff_ffff_ffff_ffff, 64) == -1 by {
      SignedWrap(-1, 64);
      WrapShift(-1, 1, 64);
      WrapSmall(Pow2(64) - 1, 64);
    }
    WrapShift(-1, 1, width);
    WrapSmall(Pow2(width) - 1, width);
    Pow2Sub(width, width - k);
    MulDist(Pow2(width - k), Pow2(k) - 1, 1);
    ShrUnique(Pow2(width) - 1, Pow2(k) - 1, Pow2(width - k) - 1, width - k);
  }

  /** Brings the significant bits to two more than the precision. */
  method CutToGuards(digits: array<Digit>, tmp: array<Digit>, width: nat, n: nat, p: nat)
    requires digits != tmp && DigitCount(width) <= digits.Length && DigitCount(width) <= tmp.Length
    requires p < n <= width && HasBits(Val(digits[..], width), n)
    modifies digits, tmp
    ensures SameFrom(old(digits[..]), digits[..], DigitCount(width)) && SameFrom(old(tmp[..]), tmp[..], DigitCount(width))
    ensures Val(digits[..], width) == Wrap(Sticky(old(Val(digits[..], width)), n, p), width)
  {
    hide Pow2, Or, And, Shr, Wrap, Val, SVal, Num, ToSigned, SameFrom;
    SameFromChain();
    Divide.SameFromSelf();
    ghost var x := Val(digits[..], width);
    if n == p + 1 {
      LeftShift(digits, 1, width);
      Pow2Bytes();
    } else {
      if n != p + 2 {
        Gather(digits, tmp, width, n - p - 2);
        RightShift(digits, n - (p + 2), width);
        OrInto(digits, tmp, width);
      }
      StickyBound(x, n, p);
      Pow2Mono(p + 2, width);
      WrapSmall(Sticky(x, n, p), width);
    }
  }

  /** Sets tmp to the sticky bit of the lower k bits. */
  method Gather(digits: array<Digit>, tmp: array<Digit>, width: nat, k: nat)
    requires digits != tmp && DigitCount(width) <= digits.Length && DigitCount(width) <= tmp.Length
    requires 0 < width && k <= width
    modifies tmp
    ensures SameFrom(old(tmp[..]), tmp[..], DigitCount(width))
    ensures Val(tmp[..], width) == if Wrap(Val(digits[..], width), k) != 0 then 1 else 0
  {
    hide Pow2, And, Shr, Wrap, Val, SVal, Num, ToSigned, SameFrom;
    SameFromChain();
    ghost var x := Val(digits[..], width);
    SetSignedInteger(tmp, width, 0xffff_ffff_ffff_ffff);
    RightShift(tmp, width - k, width);
    OnesShifted(width, k);
    AndInto(tmp, digits, width);
    AndCommutes(Pow2(k) - 1, x);
    MaskLow(x, k);
    var zero := IsZero(tmp, width);
    SetUnsignedInteger(tmp, width, if zero then 0 else 1);
    FlagWraps(width);
  }

  lemma FlagWraps(width: nat)
    requires 0 < width
    ensures Wrap(0, width) == 0 && Wrap(1, width) == 1
  {
    hide Pow2, Wrap;
    Pow2Strict(0, width);
    Pow2Bytes();
    WrapSmall(0, width);
    WrapSmall(1, width);
  }

  lemma MaskFour(x: nat)
    ensures And(x, 4) != 0 <==> Bit(x, 2) == 1
  {
    hide And;
    Pow2Bytes();
    AndNotMaskFour(x);
  }

  lemma AndNotMaskFour(x: nat)
    ensures And(x, 4) == 4 * (x / 4 % 2)
  {
    assert And(x, 4) == 2 * And(x / 2, 2);
    assert And(x / 2, 2) == 2 * And(x / 2 / 2, 1);
    assert x / 2 / 2 == x / 4;
  }

  /** Rounds away the two guard bits. */
  method RoundGuards(digits: array<Digit>, tmp: array<Digit>, width: nat, ghost x: nat, ghost n: nat, p: nat)
    requires digits != tmp && DigitCount(width) <= digits.Length && DigitCount(width) <= tmp.Length
    requires 2 <= p < n <= width && Val(digits[..], width) == Wrap(Sticky(x, n, p), width)
    modifies digits, tmp
    ensures SameFrom(old(digits[..]), digits[..], DigitCount(width)) && SameFrom(old(tmp[..]), tmp[..], DigitCount(width))
    ensures Val(digits[..], width) == Num(digits[..], DigitCount(width)) == Wrap(RoundShift(x, n - p), width - 2)
  {
    hide Pow2, Or, And, Shr, Wrap, Val, SVal, Num, SameFrom, Sticky, RoundShift, Bit;
    SameFromChain();
    ghost var y := Sticky(x, n, p);
    TrickRounds(x, n, p);
    var val := GetUnsignedValue(digits, width);
    MaskFour(val);
    GuardBit(digits[..], width);
    BitOfWrap(y, 2, width);
    SetUnsignedInteger(tmp, width, if And(val, 4) != 0 then 1 else 0);
    FlagWraps(width);
    BitRangeOf(y, 2);
    OrInto(digits, tmp, width);
    AddDigit(digits, 1, width);
    RightShift(digits, 2, width);
    RoundWrapped(y, Bit(y, 2), width);
  }

  /** Cutting to the width before the steps or after them is the same. */
  lemma RoundWrapped(y: nat, b: nat, w: nat)
    requires b <= 1 && 2 <= w
    ensures Shr(Wrap(Or(Wrap(y, w), b) + 1, w), 2) == Wrap(Shr(Or(y, b) + 1, 2), w - 2)
  {
    hide Pow2, Or, Shr, Wrap;
    Pow2Strict(0, w);
    Pow2Bytes();
    WrapSmall(b, w);
    WrapOr(y, b, w);
    WrapSum(Or(y, b), 1, w);
    ShrWrap(Or(y, b) + 1, 2, w - 2);
  }

  lemma BitRangeOf(x: int, k: nat)
    ensures Bit(x, k) == 0 || Bit(x, k) == 1
  {
  }

  lemma GuardBit(s: seq<Digit>, width: nat)
    requires DigitCount(width) <= |s| && width >= 3
    ensures DigitCount(Narrower(width, 64)) <= |s|
    ensures Bit(Val(s, Narrower(width, 64)), 2) == Bit(Val(s, width), 2)
  {
    hide Num, Pow2;
    ValNarrow(s, Narrower(width, 64), width);
    BitWrap(Val(s, width), 2, Narrower(width, 64));
  }

  /** The bit above the significand is set just when rounding carried all the way. */
  lemma CarryBit(r: nat, p: nat, width: nat)
    requires r <= Pow2(p) && p < width
    ensures ExtractBits(r, p, Clipped(p, 1, width)) != 0 <==> r == Pow2(p)
    ensures p > 0 && r == Pow2(p) ==> Shr(r, 1) == Pow2(p - 1)
  {
    hide Pow2, Shr, Wrap;
    Pow2Bytes();
    if r == Pow2(p) {
      ShrUnique(r, 1, 0, p);
      WrapSmall(1, 1);
      if p > 0 {
        Pow2Sub(p, 1);
        ShrUnique(r, Pow2(p - 1), 0, 1);
      }
    } else {
      ShrNat(r, p);
      WrapSmall(0, 1);
    }
  }

  ghost function Number(s: seq<Digit>, width: nat, signed: bool): int
    requires DigitCount(width) <= |s|
  {
    if signed then SVal(s, width) else Val(s, width)
  }

  /** Sign word, and the exponent and significand that the width leaves of the rounded value. */
  method ToIeee(digits: array<Digit>, tmp: array<Digit>, width: nat, p: nat, signed: bool)
    returns (sign: Word, exponent: nat, mantissa: Word)
    requires digits != tmp && DigitCount(width) <= digits.Length && DigitCount(width) <= tmp.Length
    requires 2 <= p <= 64 && Val(digits[..], width) != 0
    modifies digits, tmp
    ensures SameFrom(old(digits[..]), digits[..], DigitCount(width)) && SameFrom(old(tmp[..]), tmp[..], DigitCount(width))
    ensures var x := old(Number(digits[..], width, signed));
            var n := BitLength(Magnitude(x));
            sign == SignWord(x < 0) && HasBits(Magnitude(x), n) && n <= width &&
            (exponent, mantissa) == Computed(Magnitude(x), n, p, width)
  {
    hide Pow2, Val, SameFrom, SignWord, Computed, Number;
    SameFromChain();
    Divide.EmptyIsZero(digits[..], width);
    ghost var x := Number(digits[..], width, signed);
    sign := TakeMagnitude(digits, width, signed);
    var n := GetMinUnsignedWidth(digits, width);
    Pow2Bytes();
    BitLengthOf(Magnitude(x), n);
    exponent, mantissa := RoundMagnitude(digits, tmp, width, n, p);
  }

  /** The sign of a number, its magnitude left in its place. */
  method TakeMagnitude(digits: array<Digit>, width: nat, signed: bool) returns (sign: Word)
    requires DigitCount(width) <= digits.Length && Val(digits[..], width) != 0
    modifies digits
    ensures SameFrom(old(digits[..]), digits[..], DigitCount(width))
    ensures sign == SignWord(old(Number(digits[..], width, signed)) < 0)
    ensures Val(digits[..], width) == Magnitude(old(Number(digits[..], width, signed))) != 0
  {
    hide Pow2, Wrap, Val, SVal, Num, SameFrom, SignWord;
    Divide.SameFromSelf();
    Divide.EmptyIsZero(digits[..], width);
    sign := SignWord(false);
    if signed {
      var negative := GetSign(digits, width) == 1;
      sign := SignWord(negative);
      if negative {
        Negate(digits, width);
      }
    }
    MagnitudeBits(old(digits[..]), digits[..], width, signed);
    ZeroNumber(old(digits[..]), width);
  }

  /** Exponent and significand of a magnitude with n significant bits. */
  method RoundMagnitude(digits: array<Digit>, tmp: array<Digit>, width: nat, n: nat, p: nat) returns (exponent: nat, mantissa: Word)
    requires digits != tmp && DigitCount(width) <= digits.Length && DigitCount(width) <= tmp.Length
    requires 2 <= p <= 64 && n <= width && HasBits(Val(digits[..], width), n)
    modifies digits, tmp
    ensures SameFrom(old(digits[..]), digits[..], DigitCount(width)) && SameFrom(old(tmp[..]), tmp[..], DigitCount(width))
    ensures (exponent, mantissa) == Computed(old(Val(digits[..], width)), n, p, width)
    ensures (exponent, mantissa) == Parts(old(Val(digits[..], width)), n, p) <==> Room(old(Val(digits[..], width)), p, width)
  {
    hide Pow2, Val, Num, SameFrom, Room, Parts, Computed;
    Divide.SameFromSelf();
    ComputedExact(Val(digits[..], width), n, p, width);
    if n > p {
      exponent := RoundLong(digits, tmp, width, n, p);
    } else {
      exponent := n - 1;
      AlignShort(digits, width, n, p);
    }
    mantissa := GetUnsignedValue(digits, width);
    SignificandFits(digits[..], p, width);
  }

  /** More bits than the significand holds: round, and carry into the exponent. */
  method RoundLong(digits: array<Digit>, tmp: array<Digit>, width: nat, n: nat, p: nat) returns (exponent: nat)
    requires digits != tmp && DigitCount(width) <= digits.Length && DigitCount(width) <= tmp.Length
    requires 2 <= p < n <= width && HasBits(Val(digits[..], width), n)
    modifies digits, tmp
    ensures SameFrom(old(digits[..]), digits[..], DigitCount(width)) && SameFrom(old(tmp[..]), tmp[..], DigitCount(width))
    ensures (exponent, Val(digits[..], width)) == Computed(old(Val(digits[..], width)), n, p, width)
    ensures Val(digits[..], width) < Pow2(p)
  {
    hide Pow2, Or, And, Shr, Wrap, Val, Num, SameFrom, Sticky, RoundShift, ExtractBits;
    SameFromChain();
    Divide.SameFromSelf();
    ghost var a := Val(digits[..], width);
    exponent := n - 1;
    CutToGuards(digits, tmp, width, n, p);
    RoundGuards(digits, tmp, width, a, n, p);
    RoundedFits(a, n, p, width);
    CarryBit(Wrap(RoundShift(a, n - p), width - 2), p, width);
    var carry := GetBits(digits, p, 1, width);
    if carry != 0 {
      RightShift(digits, 1, width);
      exponent := exponent + 1;
    }
  }

  /** No more bits than the significand holds: move the highest one to its top. */
  method AlignShort(digits: array<Digit>, width: nat, n: nat, p: nat)
    requires DigitCount(width) <= digits.Length && n <= p && n <= width && HasBits(Val(digits[..], width), n)
    modifies digits
    ensures SameFrom(old(digits[..]), digits[..], DigitCount(width))
    ensures (n - 1, Val(digits[..], width)) == Computed(old(Val(digits[..], width)), n, p, width)
    ensures Val(digits[..], width) < Pow2(p)
  {
    hide Pow2, Wrap, Val, Num, SameFrom;
    Divide.SameFromSelf();
    ghost var a := Val(digits[..], width);
    if n != p {
      LeftShift(digits, p - n, width);
    } else {
      Pow2Bytes();
      WrapSmall(a, width);
    }
    ShiftedRange(a, n, p);
    WrapBelow(Pow2(p - n) * a, width);
  }

  lemma RoundedFits(a: nat, n: nat, p: nat, width: nat)
    requires HasBits(a, n) && 2 <= p < n <= width
    ensures Wrap(RoundShift(a, n - p), width - 2) <= Pow2(p)
    ensures Pow2(p - 1) < Pow2(p)
  {
    hide Pow2, Wrap, RoundShift;
    RoundRange(a, n, p);
    WrapBelow(RoundShift(a, n - p), width - 2);
    Pow2Strict(p - 1, p);
  }

  lemma MagnitudeBits(s: seq<Digit>, t: seq<Digit>, width: nat, signed: bool)
    requires DigitCount(width) <= |s| && DigitCount(width) <= |t| && 0 < width
    requires Val(t, width) == if Number(s, width, signed) < 0 then Wrap(-(Val(s, width) as int), width) else Val(s, width)
    ensures Val(t, width) == Magnitude(Number(s, width, signed))
  {
    hide Pow2, Num, Val, Wrap;
    var v := Val(s, width);
    Pow2Sub(width, 1);
    Pow2Bytes();
    WrapShift(-(v as int), 1, width);
    if Number(s, width, signed) < 0 {
      WrapSmall(Pow2(width) - v, width);
    }
  }

  lemma SignificandFits(s: seq<Digit>, p: nat, width: nat)
    requires DigitCount(width) <= |s| && p <= 64 && Val(s, width) < Pow2(p)
    ensures DigitCount(Narrower(width, 64)) <= |s|
    ensures Val(s, Narrower(width, 64)) == Val(s, width)
  {
    hide Pow2, Wrap, Val, Num;
    ValNarrow(s, Narrower(width, 64), width);
    Pow2Mono(p, 64);
    SmallMod(Val(s, width), Pow2(Narrower(width, 64)));
  }

  /** The packed value is the correctly rounded one exactly when the width leaves room for its fraction and rounding. */
  method SignedToFloat(digits: array<Digit>, tmp: array<Digit>, width: nat) returns (bits: nat)
    requires digits != tmp && DigitCount(width) <= digits.Length && DigitCount(width) <= tmp.Length
    modifies digits, tmp
    ensures SameFrom(old(digits[..]), digits[..], DigitCount(width)) && SameFrom(old(tmp[..]), tmp[..], DigitCount(width))
    ensures var x := old(SVal(digits[..], width));
            CorrectlyRounded(x, DecodeFloat(bits), FLOAT) <==> x == 0 || RoomForFraction(Magnitude(x), FLOAT.precision, width)
    ensures bits < Pow2(32) && HoldsPacked(FieldsNumber(bits, 24, 8), old(SVal(digits[..], width)), FLOAT, width)
  {
    hide Pow2, Val, SVal, Num, SameFrom, Computed, Wrap, CorrectlyRounded, RoomForFraction, DecodeFloat, PackFloat, SignWord, FieldsNumber;
    Divide.SameFromSelf();
    ghost var x := Number(digits[..], width, true);
    ZeroNumber(digits[..], width);
    var zero := IsZero(digits, width);
    if zero {
      ZeroFloat();
      ZeroFields(24, 8);
      return 0;
    }
    var sign, exponent, mantissa := ToIeee(digits, tmp, width, 24, true);
    PackedRounded(x, BitLength(Magnitude(x)), FLOAT, width);
    PackFloatDenotes(x < 0, exponent, mantissa);
    return PackFloat(sign, exponent, mantissa);
  }

  method SignedToDouble(digits: array<Digit>, tmp: array<Digit>, width: nat) returns (bits: nat)
    requires digits != tmp && DigitCount(width) <= digits.Length && DigitCount(width) <= tmp.Length
    modifies digits, tmp
    ensures SameFrom(old(digits[..]), digits[..], DigitCount(width)) && SameFrom(old(tmp[..]), tmp[..], DigitCount(width))
    ensures var x := old(SVal(digits[..], width));
            CorrectlyRounded(x, DecodeDouble(bits), DOUBLE) <==> x == 0 || RoomForFraction(Magnitude(x), DOUBLE.precision, width)
    ensures bits < Pow2(64) && HoldsPacked(FieldsNumber(bits, 53, 11), old(SVal(digits[..], width)), DOUBLE, width)
  {
    hide Pow2, Val, SVal, Num, SameFrom, Computed, Wrap, CorrectlyRounded, RoomForFraction, DecodeDouble, PackDouble, SignWord, FieldsNumber;
    Divide.SameFromSelf();
    ghost var x := Number(digits[..], width, true);
    ZeroNumber(digits[..], width);
    var zero := IsZero(digits, width);
    if zero {
      ZeroDouble();
      ZeroFields(53, 11);
      return 0;
    }
    var sign, exponent, mantissa := ToIeee(digits, tmp, width, 53, true);
    PackedRounded(x, BitLength(Magnitude(x)), DOUBLE, width);
    PackDoubleDenotes(x < 0, exponent, mantissa);
    return PackDouble(sign, exponent, mantissa);
  }

  method SignedToLongDouble(digits: array<Digit>, tmp: array<Digit>, width: nat) returns (bits: Extended)
    requires digits != tmp && DigitCount(width) <= digits.Length && DigitCount(width) <= tmp.Length
    modifies digits, tmp
    ensures SameFrom(old(digits[..]), digits[..], DigitCount(width)) && SameFrom(old(tmp[..]), tmp[..], DigitCount(width))
    ensures var x := old(SVal(digits[..], width));
            CorrectlyRounded(x, DecodeExtended(bits), LONG_DOUBLE) <==> x == 0 || Room(Magnitude(x), LONG_DOUBLE.precision, width)
    ensures HoldsExtended(ExtendedNumber(bits), old(SVal(digits[..], width)), width)
  {
    hide Pow2, Val, SVal, Num, SameFrom, Computed, CorrectlyRounded, Room, DecodeExtended, PackExtended, SignWord, ExtendedNumber;
    Divide.SameFromSelf();
    ghost var x := Number(digits[..], width, true);
    ZeroNumber(digits[..], width);
    var zero := IsZero(digits, width);
    if zero {
      ZeroLongDouble();
      return Extended(0, 0);
    }
    var sign, exponent, mantissa := ToIeee(digits, tmp, width, 64, true);
    ExtendedRounded(x, BitLength(Magnitude(x)), width, exponent, mantissa);
    PackExtendedDenotes(x < 0, exponent, mantissa);
    return PackExtended(sign, exponent, mantissa);
  }

  method UnsignedToFloat(digits: array<Digit>, tmp: array<Digit>, width: nat) returns (bits: nat)
    requires digits != tmp && DigitCount(width) <= digits.Length && DigitCount(width) <= tmp.Length
    modifies digits, tmp
    ensures SameFrom(old(digits[..]), digits[..], DigitCount(width)) && SameFrom(old(tmp[..]), tmp[..], DigitCount(width))
    ensures var x := old(Val(digits[..], width));
            CorrectlyRounded(x, DecodeFloat(bits), FLOAT) <==> x == 0 || RoomForFraction(Magnitude(x), FLOAT.precision, width)
    ensures bits < Pow2(32) && HoldsPacked(FieldsNumber(bits, 24, 8), old(Val(digits[..], width)), FLOAT, width)
  {
    hide Pow2, Val, SVal, Num, SameFrom, Computed, Wrap, CorrectlyRounded, RoomForFraction, DecodeFloat, PackFloat, SignWord, FieldsNumber;
    Divide.SameFromSelf();
    ghost var x := Number(digits[..], width, false);
    ZeroNumber(digits[..], width);
    var zero := IsZero(digits, width);
    if zero {
      ZeroFloat();
      ZeroFields(24, 8);
      return 0;
    }
    var sign, exponent, mantissa := ToIeee(digits, tmp, width, 24, false);
    PackedRounded(x, BitLength(Magnitude(x)), FLOAT, width);
    PackFloatDenotes(x < 0, exponent, mantissa);
    return PackFloat(sign, exponent, mantissa);
  }

  method UnsignedToDouble(digits: array<Digit>, tmp: array<Digit>, width: nat) returns (bits: nat)
    requires digits != tmp && DigitCount(width) <= digits.Length && DigitCount(width) <= tmp.Length
    modifies digits, tmp
    ensures SameFrom(old(digits[..]), digits[..], DigitCount(width)) && SameFrom(old(tmp[..]), tmp[..], DigitCount(width))
    ensures var x := old(Val(digits[..], width));
            CorrectlyRounded(x, DecodeDouble(bits), DOUBLE) <==> x == 0 || RoomForFraction(Magnitude(x), DOUBLE.precision, width)
    ensures bits < Pow2(64) && HoldsPacked(FieldsNumber(bits, 53, 11), old(Val(digits[..], width)), DOUBLE, width)
  {
    hide Pow2, Val, SVal, Num, SameFrom, Computed, Wrap, CorrectlyRounded, RoomForFraction, DecodeDouble, PackDouble, SignWord, FieldsNumber;
    Divide.SameFromSelf();
    ghost var x := Number(digits[..], width, false);
    ZeroNumber(digits[..], width);
    var zero := IsZero(digits, width);
    if zero {
      ZeroDouble();
      ZeroFields(53, 11);
      return 0;
    }
    var sign, exponent, mantissa := ToIeee(digits, tmp, width, 53, false);
    PackedRounded(x, BitLength(Magnitude(x)), DOUBLE, width);
    PackDoubleDenotes(x < 0, exponent, mantissa);
    return PackDouble(sign, exponent, mantissa);
  }

  method UnsignedToLongDouble(digits: array<Digit>, tmp: array<Digit>, width: nat) returns (bits: Extended)
    requires digits != tmp && DigitCount(width) <= digits.Length && DigitCount(width) <= tmp.Length
    modifies digits, tmp
    ensures SameFrom(old(digits[..]), digits[..], DigitCount(width)) && SameFrom(old(tmp[..]), tmp[..], DigitCount(width))
    ensures var x := old(Val(digits[..], width));
            CorrectlyRounded(x, DecodeExtended(bits), LONG_DOUBLE) <==> x == 0 || Room(Magnitude(x), LONG_DOUBLE.precision, width)
    ensures HoldsExtended(ExtendedNumber(bits), old(Val(digits[..], width)), width)
  {
    hide Pow2, Val, SVal, Num, SameFrom, Computed, CorrectlyRounded, Room, DecodeExtended, PackExtended, SignWord, ExtendedNumber;
    Divide.SameFromSelf();
    ghost var x := Number(digits[..], width, false);
    ZeroNumber(digits[..], width);
    var zero := IsZero(digits, width);
    if zero {
      ZeroLongDouble();
      return Extended(0, 0);
    }
    var sign, exponent, mantissa := ToIeee(digits, tmp, width, 64, false);
    ExtendedRounded(x, BitLength(Magnitude(x)), width, exponent, mantissa);
    PackExtendedDenotes(x < 0, exponent, mantissa);
    return PackExtended(sign, exponent, mantissa);
  }

  lemma ZeroNumber(s: seq<Digit>, width: nat)
    requires DigitCount(width) <= |s|
    ensures Val(s, width) == 0 <==> SVal(s, width) == 0
  {
    Divide.ZeroSigned(s, width);
  }

  /** The all-zero patterns denote zero, which is zero correctly rounded. */
  lemma ZeroFloat()
    ensures CorrectlyRounded(0, DecodeFloat(0), FLOAT)
  {
    hide CorrectlyRounded, Pow2, Wrap, Shr;
    ZeroFields(24, 8);
    ZeroRounds(FLOAT);
  }

  lemma ZeroDouble()
    ensures CorrectlyRounded(0, DecodeDouble(0), DOUBLE)
  {
    hide CorrectlyRounded, Pow2, Wrap, Shr;
    ZeroFields(53, 11);
    ZeroRounds(DOUBLE);
  }

  lemma ZeroFields(p: nat, e: nat)
    requires 0 < p && 0 < e
    ensures Decode(0, p, e) == FieldsNumber(0, p, e) == Finite(false, 0, 0)
  {
    hide Pow2, Wrap, Shr;
    Pow2Strict(0, e);
    Pow2Bytes();
    DecodeFields(0, 0, 0, p, e);
  }

  lemma ZeroLongDouble()
    ensures CorrectlyRounded(0, DecodeExtended(Extended(0, 0)), LONG_DOUBLE)
    ensures ExtendedNumber(Extended(0, 0)) == Finite(false, 0, 0)
  {
    hide CorrectlyRounded, Pow2, Wrap, Shr;
    WrapSmall(0, 15);
    ShrUnique(0, 0, 0, 15);
    BitShr(0, 15);
    ZeroRounds(LONG_DOUBLE);
  }
}
