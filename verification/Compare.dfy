/** Comparison of bit-precise integers (kefir_bigint/compare.h). */
module Compare {
  import opened Powers
  import opened Bitwise
  import opened Digits
  import opened SignExtension
  import opened Shift

  /** Digit i with the padding of the top digit masked off. */
  function MaskedDigit(s: seq<Digit>, width: nat, i: nat): Digit
    requires i < DigitCount(width) <= |s|
  {
    if i == TopIndex(width) then And(s[i], Pow2(TopOffset(width) + 1) - 1) else s[i]
  }

  /** Masked digits are the digits of the value. */
  lemma MaskedDigitValue(s: seq<Digit>, width: nat, i: nat)
    requires i < DigitCount(width) <= |s|
    ensures Shr(Val(s, width), 8 * i) == 256 * Shr(Val(s, width), 8 * (i + 1)) + MaskedDigit(s, width, i)
  {
    hide Num, Pow2, And, Wrap, Shr;
    var top := TopIndex(width);
    TopDigit(width);
    MaskedTop(s, width);
    var t: seq<Digit> := s[top := And(s[top], Pow2(TopOffset(width) + 1) - 1)];
    var x := Num(t, top + 1);
    DigitAt(t, top + 1, i);
    ShrDivides(x, 8 * i);
    ShrShr(x, 8 * i, 8);
    ShrDivides(Shr(x, 8 * i), 8);
    Pow2Bytes();
  }

  lemma ShrDivides(x: int, k: nat)
    ensures Shr(x, k) == x / Pow2(k)
  {
  }

  lemma ShrLess(x: nat, y: nat, k: nat)
    requires Shr(x, k) < Shr(y, k)
    ensures x < y
  {
    if y <= x {
      DivMono(y, x, Pow2(k));
    }
  }

  method UnsignedCompare(lhs: array<Digit>, rhs: array<Digit>, width: nat) returns (order: int)
    requires DigitCount(width) <= lhs.Length && DigitCount(width) <= rhs.Length
    ensures order == -1 <==> Val(lhs[..], width) < Val(rhs[..], width)
    ensures order == 0 <==> Val(lhs[..], width) == Val(rhs[..], width)
    ensures order == 1 <==> Val(lhs[..], width) > Val(rhs[..], width)
  {
    hide Num, Pow2, And, Wrap, Shr, Bit, Val, MaskedDigit;
    var total := DigitCount(width);
    ghost var x, y := Val(lhs[..], width), Val(rhs[..], width);
    Pow2Mono(width, 8 * total);
    ShrNat(x, 8 * total);
    ShrNat(y, 8 * total);
    var i := total;
    while i > 0
      invariant 0 <= i <= total
      invariant Shr(x, 8 * i) == Shr(y, 8 * i)
    {
      var lhsDigit := MaskedDigit(lhs[..], width, i - 1);
      var rhsDigit := MaskedDigit(rhs[..], width, i - 1);
      MaskedDigitValue(lhs[..], width, i - 1);
      MaskedDigitValue(rhs[..], width, i - 1);
      if lhsDigit > rhsDigit {
        ShrLess(y, x, 8 * (i - 1));
        return 1;
      } else if lhsDigit < rhsDigit {
        ShrLess(x, y, 8 * (i - 1));
        return -1;
      }
      i := i - 1;
    }
    ShrZero(x);
    ShrZero(y);
    return 0;
  }

  method SignedCompare(lhs: array<Digit>, rhs: array<Digit>, width: nat) returns (order: int)
    requires 0 < width && DigitCount(width) <= lhs.Length && DigitCount(width) <= rhs.Length
    ensures order == -1 <==> SVal(lhs[..], width) < SVal(rhs[..], width)
    ensures order == 0 <==> SVal(lhs[..], width) == SVal(rhs[..], width)
    ensures order == 1 <==> SVal(lhs[..], width) > SVal(rhs[..], width)
  {
    hide Num, Pow2, Wrap, Bit;
    var index, offset := TopIndex(width), TopOffset(width);
    var lhsSign, rhsSign := Bit(lhs[index], offset), Bit(rhs[index], offset);
    TopBit(lhs[..], width);
    TopBit(rhs[..], width);
    if lhsSign == 1 && rhsSign == 0 {
      return -1;
    } else if lhsSign == 0 && rhsSign == 1 {
      return 1;
    }
    SignBit(Val(lhs[..], width), width);
    SignBit(Val(rhs[..], width), width);
    order := UnsignedCompare(lhs, rhs, width);
  }
}
