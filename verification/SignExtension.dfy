/** Filling the padding of the top digit with copies of the sign bit. */
module SignExtension {
  import opened Powers
  import opened Bitwise
  import opened Digits

  /** The digit with the bits above `offset` replaced by copies of bit `offset`. */
  function SignMask(d: Digit, offset: nat): (r: Digit)
    requires offset < 8
  {
    if Bit(d, offset) == 1 then
      SetHighBound(d, offset);
      Or(d, 256 - Pow2(offset))
    else
      And(d, Pow2(offset) - 1)
  }

  lemma SetHighBound(d: Digit, k: nat)
    requires k <= 8
    ensures 0 < Pow2(k) <= 256
    ensures Or(d, 256 - Pow2(k)) == Wrap(d, k) + 256 - Pow2(k)
    ensures Or(d, 256 - Pow2(k)) < 256
  {
    hide Or, Pow2;
    Pow2Bytes();
    OrHighMask(d, k, 8);
  }

  /** The masked digit is the two's-complement reading of the digit's significant bits. */
  lemma SignMaskValue(d: Digit, o: nat)
    requires o < 8
    ensures ToSigned(SignMask(d, o), 8) == ToSigned(d % Pow2(o + 1), o + 1)
    ensures Bit(d, o) == 1 ==> SignMask(d, o) >= 256 - Pow2(o)
    ensures Bit(d, o) == 0 ==> SignMask(d, o) < Pow2(o)
  {
    hide Or, And, Pow2;
    Pow2Bytes();
    SetHighBound(d, o);
    AndMask(d, o);
    BitPeel(d, o);
    Pow2Mono(o, 7);
    assert Pow2(o + 1) == 2 * Pow2(o) by {
      Pow2Add(1, o);
    }
  }

  /** The two's-complement reading of whole digits is that of the top digit in front of the rest. */
  lemma SignedNum(s: seq<Digit>, n: nat)
    requires 0 < n <= |s|
    ensures ToSigned(Num(s, n), 8 * n) == Num(s, n - 1) + Pow2(8 * (n - 1)) * ToSigned(s[n - 1], 8)
  {
    hide Num, Pow2;
    NumStep(s, n - 1);
    NumBound(s, n - 1);
    Pow2Bytes();
    SignedSplit(Num(s, n - 1), s[n - 1], 8 * (n - 1), 8);
  }

  lemma TopBit(s: seq<Digit>, width: nat)
    requires 0 < width && DigitCount(width) <= |s|
    ensures Bit(s[TopIndex(width)], TopOffset(width)) == Bit(Val(s, width), width - 1)
    ensures Bit(s[TopIndex(width)], TopOffset(width)) == 1 <==> SVal(s, width) < 0
  {
    hide Num, Pow2;
    assert (width - 1) / 8 == TopIndex(width) && (width - 1) % 8 == TopOffset(width);
    ValBit(s, width, width - 1);
    SignBit(Val(s, width), width);
  }

  /** The value at a width, read from the digits below the top one and the masked top digit. */
  lemma SignedTop(s: seq<Digit>, width: nat)
    requires 0 < width && DigitCount(width) <= |s|
    ensures SVal(s, width) == Num(s, TopIndex(width)) + Pow2(8 * TopIndex(width)) * ToSigned(SignMask(s[TopIndex(width)], TopOffset(width)), 8)
  {
    hide Num, Pow2, SignMask;
    var i, o := TopIndex(width), TopOffset(width);
    TopDigit(width);
    ValTop(s, width);
    NumBound(s, i);
    SignMaskValue(s[i], o);
    SignedSplit(Num(s, i), s[i] % Pow2(o + 1), 8 * i, o + 1);
  }

  /** Masking the top digit makes the whole digits hold the signed value. */
  lemma SignExtendTop(s: seq<Digit>, t: seq<Digit>, width: nat)
    requires 0 < width && DigitCount(width) <= |s|
    requires t == s[TopIndex(width) := SignMask(s[TopIndex(width)], TopOffset(width))]
    ensures ToSigned(Num(t, DigitCount(width)), 8 * DigitCount(width)) == SVal(s, width)
  {
    hide Num, Pow2, SignMask;
    SignedTop(s, width);
    SignedNum(t, DigitCount(width));
    TopDigit(width);
    NumEqual(s, t, TopIndex(width));
  }

  /** Whole digits that hold a value fitting the width hold it at the width. */
  lemma SignedAtWidth(s: seq<Digit>, width: nat, x: int)
    requires DigitCount(width) <= |s|
    requires Wrap(x, 8 * DigitCount(width)) == Num(s, DigitCount(width))
    ensures Val(s, width) == Wrap(x, width)
    ensures FitsSigned(x, width) ==> SVal(s, width) == x
  {
    hide Num, Pow2;
    ModModPow2(x, width, 8 * DigitCount(width));
    SignedWrap(x, width);
  }
}
