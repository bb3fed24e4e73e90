/** Changing the width of a bit-precise integer in place (kefir_bigint/cast.h). */
module Cast {
  import opened Powers
  import opened Bitwise
  import opened Digits
  import opened SignExtension
  import opened Shift

  function Narrower(v: nat, w: nat): nat {
    if v <= w then v else w
  }

  /** At most 7 bits are padding: with none, masking changes nothing. */
  lemma SignMaskFull(d: Digit)
    ensures SignMask(d, 7) == d
  {
    hide SignMask;
    Pow2Bytes();
    SignMaskValue(d, 7);
  }

  /** Digits after the top one filled with the sign extend the signed value. */
  lemma SignedFill(s: seq<Digit>, t: seq<Digit>, c: nat, n: nat)
    requires 0 < c <= n <= |t| && c <= |s|
    requires SameBelow(s, t, c)
    requires forall k | c <= k < n :: t[k] == if s[c - 1] >= 128 then 255 else 0
    ensures ToSigned(Num(t, n), 8 * n) == ToSigned(Num(s, c), 8 * c)
  {
    hide Num, Pow2;
    NumEqual(s, t, c);
    NumFill(t, c, n, if s[c - 1] >= 128 then 1 else 0);
    NegativeTop(s, c);
    NegativeTop(t, n);
  }

  lemma WholeSigned(t: seq<Digit>, n: nat, width: nat, x: int)
    requires DigitCount(width) == n <= |t| && FitsSigned(x, width)
    requires ToSigned(Num(t, n), 8 * n) == x
    ensures Num(t, n) == Wrap(x, 8 * n) && SVal(t, width) == x
  {
    hide Num, Pow2, Wrap, SVal, FitsSigned;
    NumBound(t, n);
    SignedRange(Num(t, n), 8 * n);
    SignedAtWidth(t, width, x);
  }

  lemma FitsWider(x: int, v: nat, w: nat)
    requires v <= w && FitsSigned(x, v)
    ensures FitsSigned(x, w)
  {
    if v > 0 {
      Pow2Mono(v - 1, w - 1);
    }
  }

  /** Sets the digits from one index up to another, and no others. */
  method FillDigits(digits: array<Digit>, first: nat, end: nat, value: Digit)
    requires first <= end <= digits.Length
    modifies digits
    ensures forall k | 0 <= k < digits.Length :: digits[k] == if first <= k < end then value else old(digits[k])
  {
    for i := first to end
      invariant forall k | 0 <= k < digits.Length :: digits[k] == if first <= k < i then value else old(digits[k])
    {
      digits[i] := value;
    }
  }

  method CastSigned(digits: array<Digit>, current: nat, desired: nat)
    requires 0 < desired && DigitCount(desired) <= digits.Length
    modifies digits
    ensures SameFrom(old(digits[..]), digits[..], DigitCount(desired))
    ensures SVal(digits[..], desired) == old(SVal(digits[..], Narrower(current, desired)))
    ensures current <= desired ==> SVal(digits[..], desired) == old(SVal(digits[..], current))
    ensures desired <= current ==> SVal(digits[..], desired) == old(SVal(digits[..], desired))
    ensures Num(digits[..], DigitCount(desired)) == Wrap(old(SVal(digits[..], Narrower(current, desired))), 8 * DigitCount(desired))
  {
    hide Num, Pow2, Wrap, SVal, FitsSigned, SignMask, Bit, ToSigned;
    ghost var s := digits[..];
    ghost var n := DigitCount(desired);
    TopDigit(desired);
    if desired <= current {
      var index := TopIndex(desired);
      digits[index] := SignMask(digits[index], TopOffset(desired));
      assert digits[..] == s[index := digits[index]];
      SignExtendTop(s, digits[..], desired);
      WholeSigned(digits[..], n, desired, SVal(s, desired));
    } else if current == 0 {
      FillDigits(digits, 0, TopIndex(desired) + 1, 0);
      FitsWider(0, 0, desired);
      ClearedSigned(s, digits[..], n);
      WholeSigned(digits[..], n, desired, 0);
    } else {
      WidenSigned(digits, current, desired);
    }
  }

  /** Copies the sign into the rest of the top digit and into the digits above it. */
  method WidenSigned(digits: array<Digit>, current: nat, desired: nat)
    requires 0 < current < desired && DigitCount(desired) <= digits.Length
    modifies digits
    ensures SameFrom(old(digits[..]), digits[..], DigitCount(desired))
    ensures SVal(digits[..], desired) == old(SVal(digits[..], current))
    ensures Num(digits[..], DigitCount(desired)) == Wrap(old(SVal(digits[..], current)), 8 * DigitCount(desired))
  {
    hide Num, Pow2, Wrap, SVal, FitsSigned, SignMask, Bit, ToSigned;
    ghost var s := digits[..];
    ghost var n := DigitCount(desired);
    FitsWider(SVal(s, current), current, desired);
    TopDigit(desired);
    var index := TopIndex(current);
    var offset := TopOffset(current);
    TopDigit(current);
    var negative := Bit(digits[index], offset) == 1;
    SignMaskValue(digits[index], offset);
    if offset + 1 < 8 {
      digits[index] := SignMask(digits[index], offset);
    } else {
      SignMaskFull(digits[index]);
    }
    ghost var t := digits[..];
    assert t == s[index := SignMask(s[index], offset)];
    SignExtendTop(s, t, current);
    SignFills(t[index], negative, offset);
    FillDigits(digits, index + 1, TopIndex(desired) + 1, if negative then 255 else 0);
    SignedFill(t, digits[..], index + 1, n);
    WholeSigned(digits[..], n, desired, SVal(s, current));
  }

  lemma ClearedSigned(s: seq<Digit>, t: seq<Digit>, n: nat)
    requires 0 < n <= |t| && forall k | 0 <= k < n :: t[k] == 0
    ensures ToSigned(Num(t, n), 8 * n) == 0 && SVal(s, 0) == 0
  {
    NumZero(t, n);
  }

  method CastUnsigned(digits: array<Digit>, current: nat, desired: nat)
    requires 0 < desired && DigitCount(desired) <= digits.Length
    modifies digits
    ensures SameFrom(old(digits[..]), digits[..], DigitCount(desired))
    ensures Num(digits[..], DigitCount(desired)) == old(Val(digits[..], Narrower(current, desired)))
    ensures Val(digits[..], desired) == old(Val(digits[..], Narrower(current, desired)))
    ensures current <= desired ==> Val(digits[..], desired) == old(Val(digits[..], current))
    ensures desired <= current ==> Val(digits[..], desired) == old(Val(digits[..], desired))
  {
    hide Num, Pow2, Wrap, And, Val;
    ghost var s := digits[..];
    ghost var n := DigitCount(desired);
    TopDigit(desired);
    if desired <= current {
      var index := TopIndex(desired);
      MaskedTop(s, desired);
      digits[index] := And(digits[index], Pow2(TopOffset(desired) + 1) - 1);
      assert digits[..] == s[index := digits[index]];
      ValFits(digits[..], desired, Val(s, desired));
    } else if current == 0 {
      FillDigits(digits, 0, TopIndex(desired) + 1, 0);
      NumZero(digits[..], n);
      EmptyVal(s);
      ValFits(digits[..], desired, 0);
    } else {
      WidenUnsigned(digits, current, desired);
    }
  }

  lemma ValFits(s: seq<Digit>, width: nat, x: nat)
    requires DigitCount(width) <= |s| && Num(s, DigitCount(width)) == x < Pow2(width)
    ensures Val(s, width) == x
  {
    hide Num, Pow2, Wrap;
    WrapSmall(x, width);
  }

  lemma EmptyVal(s: seq<Digit>)
    ensures Val(s, 0) == 0 < Pow2(0)
  {
    hide Num;
    Pow2Bytes();
  }

  /** Clears the rest of the top digit and the digits above it. */
  method WidenUnsigned(digits: array<Digit>, current: nat, desired: nat)
    requires 0 < current < desired && DigitCount(desired) <= digits.Length
    modifies digits
    ensures SameFrom(old(digits[..]), digits[..], DigitCount(desired))
    ensures Num(digits[..], DigitCount(desired)) == old(Val(digits[..], current))
    ensures Val(digits[..], desired) == old(Val(digits[..], current))
  {
    hide Num, Pow2, Wrap, And, Val;
    ghost var s := digits[..];
    ghost var n := DigitCount(desired);
    TopDigit(desired);
    var index := TopIndex(current);
    TopDigit(current);
    MaskedTop(s, current);
    if TopOffset(current) + 1 < 8 {
      digits[index] := And(digits[index], Pow2(TopOffset(current) + 1) - 1);
    } else {
      Pow2Bytes();
      AndMask(digits[index], 8);
    }
    ghost var t := digits[..];
    assert t == s[index := And(s[index], Pow2(TopOffset(current) + 1) - 1)];
    FillDigits(digits, index + 1, TopIndex(desired) + 1, 0);
    NumEqual(t, digits[..], index + 1);
    NumFill(digits[..], index + 1, n, 0);
    Pow2Mono(current, desired);
    ValFits(digits[..], desired, Val(s, current));
  }

  /** Widening keeps the value; narrowing reduces it modulo 2^desired; widening and narrowing back is the identity. */
  lemma CastLaws(v: nat, current: nat, desired: nat)
    requires v < Pow2(current)
    ensures current <= desired ==> Wrap(v, desired) == v && ToSigned(Wrap(ToSigned(v, current), desired), desired) == ToSigned(v, current)
    ensures current <= desired ==> Wrap(Wrap(ToSigned(v, current), desired), current) == v
    ensures desired <= current ==> Wrap(ToSigned(v, current), desired) == Wrap(v, desired)
  {
    hide Pow2, Wrap, FitsSigned;
    var x := ToSigned(v, current);
    SignedRange(v, current);
    if current <= desired {
      Pow2Mono(current, desired);
      WrapSmall(v, desired);
      FitsWider(x, current, desired);
      SignedWrap(x, desired);
      WrapWrap(x, current, desired);
    }
    if desired <= current {
      WrapWrap(x, desired, current);
      WrapSmall(v, current);
    }
  }

  /** Widening and narrowing back leaves the value as it was. */
  method SignedCastRoundTrip(digits: array<Digit>, current: nat, desired: nat)
    requires 0 < current <= desired && DigitCount(desired) <= digits.Length
    modifies digits
    ensures SVal(digits[..], current) == old(SVal(digits[..], current))
  {
    hide Num, Pow2, Wrap, SVal, Val, SameFrom;
    ghost var s := digits[..];
    CastSigned(digits, current, desired);
    SharedSigned(s, digits[..], current, desired);
    CastSigned(digits, desired, current);
  }

  lemma SharedSigned(s: seq<Digit>, t: seq<Digit>, current: nat, desired: nat)
    requires current <= desired && DigitCount(desired) <= |s| && DigitCount(desired) <= |t|
    requires SVal(t, desired) == SVal(s, current)
    ensures DigitCount(current) <= |t| && SVal(t, current) == SVal(s, current)
  {
    hide Num, Pow2, Wrap, FitsSigned;
    SignedRange(Val(t, desired), desired);
    SignedRange(Val(s, current), current);
    ValNarrowed(t, current, desired);
    WrapWrap(SVal(t, desired), current, desired);
  }

  method UnsignedCastRoundTrip(digits: array<Digit>, current: nat, desired: nat)
    requires 0 < current <= desired && DigitCount(desired) <= digits.Length
    modifies digits
    ensures Val(digits[..], current) == old(Val(digits[..], current))
  {
    hide Num, Pow2, Wrap, Val, SameFrom;
    ghost var x := Val(digits[..], current);
    CastUnsigned(digits, current, desired);
    ValNarrowed(digits[..], current, desired);
    WrapSmall(x, current);
    CastUnsigned(digits, desired, current);
  }
}
