/** Reading a bit-precise integer (kefir_bigint/get.h). */
module Get {
  import opened Powers
  import opened Bitwise
  import opened Digits
  import opened SignExtension
  import opened Cast
  import opened Compare
  import opened BitRange
  import opened Init

  type SignedWord = x: int | -0x8000_0000_0000_0000 <= x < 0x8000_0000_0000_0000

  // ----- widths of native values -----

  /** Every bit from position b - 1 up is a copy of the sign exactly when b bits hold the value. */
  lemma FitsShr(x: int, b: nat)
    requires b > 0
    ensures FitsSigned(x, b) <==> Shr(x, b - 1) == if x < 0 then -1 else 0
  {
    hide Pow2;
    var p := Pow2(b - 1);
    DivLess(x, p, 0);
    DivLess(x, p, 1);
    DivLess(x, p, -1);
  }

  lemma ShrBit(x: int, k: nat)
    ensures Shr(x, k) == 2 * Shr(x, k + 1) + Bit(x, k)
  {
    hide Pow2;
    SplitPow2(x, k, 1);
    Pow2Bytes();
  }

  /** The top bit of a 64-bit word shifted left by k is bit 63 - k of the value. */
  lemma TopBitShifted(x: int, k: nat)
    requires k <= 63
    ensures Bit(Wrap(Pow2(k) * x, 64), 63) == Bit(x, 63 - k)
  {
    hide Pow2;
    BitWrap(Pow2(k) * x, 63, 64);
    ScalePow2(x, k, 63 - k);
  }

  method NativeSignedWidth(value: SignedWord) returns (bits: nat)
    ensures 1 <= bits <= 64
    ensures forall w: nat | w > 0 :: FitsSigned(value, w) <==> bits <= w
  {
    hide Pow2, Wrap, Shr, Bit, FitsSigned;
    Pow2Words();
    var uvalue: nat := Wrap(value, 64);
    ghost var sign := if value < 0 then -1 else 0;
    var msb := Bit(uvalue, 63);
    Pow2Bytes();
    assert Pow2(0) * value == value;
    TopBitShifted(value, 0);
    NativeSign(value);
    bits := 65;
    while bits > 1 && Bit(uvalue, 63) == msb
      invariant 1 <= bits <= 65
      invariant uvalue == Wrap(Pow2(65 - bits) * value, 64)
      invariant Shr(value, bits - 1) == sign
      invariant msb == -sign
      invariant bits == 65 ==> Bit(uvalue, 63) == msb
    {
      TopBitShifted(value, 65 - bits);
      ShrBit(value, bits - 2);
      WrapProduct(2, Pow2(65 - bits) * value, 64);
      Pow2Add(1, 65 - bits);
      assert 2 * (Pow2(65 - bits) * value) == Pow2(66 - bits) * value;
      uvalue := Wrap(2 * uvalue, 64);
      bits := bits - 1;
    }
    FitsShr(value, bits);
    if bits > 1 {
      TopBitShifted(value, 65 - bits);
      ShrBit(value, bits - 2);
      FitsShr(value, bits - 1);
    }
    MinimalWidth(value, bits);
  }

  lemma NativeSign(value: SignedWord)
    ensures Shr(value, 64) == if value < 0 then -1 else 0
    ensures Bit(value, 63) == if value < 0 then 1 else 0
  {
    hide Pow2, Shr;
    Pow2Words();
    Pow2Sub(64, 63);
    Pow2Bytes();
    ShrBig(value, 64);
    ShrBig(value, 63);
    ShrBit(value, 63);
  }

  /** The widths that hold a value are those from the least one on. */
  lemma MinimalWidth(x: int, least: nat)
    requires least > 0 && FitsSigned(x, least)
    requires least > 1 ==> !FitsSigned(x, least - 1)
    ensures forall w: nat | w > 0 :: FitsSigned(x, w) <==> least <= w
  {
    hide FitsSigned;
    forall w: nat | w > 0
      ensures FitsSigned(x, w) <==> least <= w
    {
      if least <= w {
        FitsWider(x, least, w);
      } else if FitsSigned(x, w) {
        FitsWider(x, w, least - 1);
      }
    }
  }

  method NativeUnsignedWidth(value: Word) returns (bits: nat)
    ensures bits >= 1
    ensures forall w: nat | w > 0 :: value < Pow2(w) <==> bits <= w
  {
    hide Pow2, Shr;
    var rest: nat := value;
    bits := 0;
    ShrZero(value);
    while rest != 0
      invariant rest == Shr(value, bits)
      invariant bits > 0 ==> Shr(value, bits - 1) != 0
    {
      ShrBit(value, bits);
      rest := rest / 2;
      bits := bits + 1;
    }
    ghost var used := bits;
    if bits == 0 {
      bits := 1;
    }
    forall w: nat | w > 0
      ensures value < Pow2(w) <==> bits <= w
    {
      UnsignedWidth(value, used, w);
    }
  }

  lemma UnsignedWidth(value: nat, used: nat, w: nat)
    requires Shr(value, used) == 0 && (used > 0 ==> Shr(value, used - 1) != 0)
    ensures value < Pow2(w) <==> used <= w
  {
    hide Pow2, Shr;
    ShrSplit(value, used);
    if used <= w {
      Pow2Mono(used, w);
    } else {
      ShrNat(value, used - 1);
      Pow2Mono(w, used - 1);
    }
  }

  // ----- signs and zeros -----

  function GetSign(digits: array<Digit>, width: nat): (sign: nat)
    requires DigitCount(width) <= digits.Length
    reads digits
    ensures sign == if SVal(digits[..], width) < 0 then 1 else 0
  {
    if width == 0 then
      0
    else
      TopBit(digits[..], width);
      Bit(digits[TopIndex(width)], TopOffset(width))
  }

  /** A value is zero exactly when all its digits are, padding aside. */
  lemma ZeroDigits(s: seq<Digit>, width: nat)
    requires 0 < width && DigitCount(width) <= |s|
    ensures Val(s, width) == 0 <==> forall k | 0 <= k < DigitCount(width) :: MaskedDigit(s, width, k) == 0
  {
    hide Num, Pow2, And, Wrap, Val;
    var index, offset := TopIndex(width), TopOffset(width);
    TopDigit(width);
    ValTop(s, width);
    AndMask(s[index], offset + 1);
    ZeroParts(s, index, s[index] % Pow2(offset + 1));
    if forall k | 0 <= k < DigitCount(width) :: MaskedDigit(s, width, k) == 0 {
      assert forall k | 0 <= k < index :: s[k] == MaskedDigit(s, width, k);
      assert MaskedDigit(s, width, index) == 0;
      NumZero(s, index);
    } else if Val(s, width) == 0 {
      NumZero(s, index);
    }
  }

  method IsZero(digits: array<Digit>, width: nat) returns (zero: bool)
    requires DigitCount(width) <= digits.Length
    ensures zero <==> Val(digits[..], width) == 0
  {
    hide Num, Pow2, Wrap, MaskedDigit;
    if width == 0 {
      Pow2Bytes();
      return true;
    }
    ZeroDigits(digits[..], width);
    for i := 0 to DigitCount(width)
      invariant forall k | 0 <= k < i :: MaskedDigit(digits[..], width, k) == 0
    {
      if MaskedDigit(digits[..], width, i) != 0 {
        return false;
      }
    }
    return true;
  }

  lemma ZeroParts(s: seq<Digit>, i: nat, top: nat)
    requires i <= |s|
    ensures Num(s, i) + Pow2(8 * i) * top == 0 <==> Num(s, i) == 0 && top == 0
  {
    hide Num, Pow2;
    if top > 0 {
      MulMono(1, top, Pow2(8 * i));
    }
  }

  // ----- native values -----

  /** The loop both getters run: digits are shifted in from the top. */
  method LoadDigits(digits: array<Digit>, total: nat) returns (value: nat)
    requires total <= digits.Length
    ensures value == Num(digits[..], total)
  {
    hide Num, Pow2, Or;
    ghost var s := digits[..];
    var i := total;
    value := 0;
    NumEmpty(s[total..]);
    while i > 0
      invariant 0 <= i <= total
      invariant value == Num(s[i..], total - i)
    {
      NumFront(s, i - 1, total);
      Pow2Bytes();
      OrDisjoint(value, digits[i - 1], 8);
      value := Or(256 * value, digits[i - 1]);
      i := i - 1;
    }
    assert s[0..] == s;
  }

  lemma NumFront(s: seq<Digit>, i: nat, n: nat)
    requires i < n <= |s|
    ensures Num(s[i..], n - i) == s[i] + 256 * Num(s[i + 1..], n - i - 1)
  {
    hide Num, Pow2;
    var t := s[i..];
    NumSplit(t, 1, n - i);
    assert t[1..] == s[i + 1..];
    NumStep(t, 0);
    NumEmpty(t);
    Pow2Bytes();
  }

  method GetUnsignedValue(digits: array<Digit>, width: nat) returns (value: Word)
    requires DigitCount(width) <= digits.Length
    ensures value == Val(digits[..], Narrower(width, 64))
    ensures value == if width < 64 then Val(digits[..], width) else Val(digits[..], 64)
  {
    hide Num, Pow2, Wrap, And;
    Pow2Words();
    var clipped := if width > VALUE_BIT then VALUE_BIT else width;
    var v := LoadDigits(digits, DigitCount(clipped));
    if clipped < VALUE_BIT {
      MaskLow(v, clipped);
      Pow2Mono(clipped, 64);
      v := And(v, Pow2(clipped) - 1);
    } else {
      NumBound(digits[..], 8);
      WrapSmall(v, 64);
    }
    value := v;
  }

  method GetSignedValue(digits: array<Digit>, width: nat) returns (value: SignedWord)
    requires DigitCount(width) <= digits.Length
    ensures value == SVal(digits[..], Narrower(width, 64))
    ensures value == if width < 64 then SVal(digits[..], width) else SVal(digits[..], 64)
  {
    hide Num, Pow2, Wrap, And, Or, Bit, FitsSigned;
    Pow2Words();
    var clipped := if width > VALUE_BIT then VALUE_BIT else width;
    var v := LoadDigits(digits, DigitCount(clipped));
    NumBound(digits[..], DigitCount(clipped));
    Pow2Mono(8 * DigitCount(clipped), 64);
    if clipped < VALUE_BIT {
      var sign := if clipped > 0 then Bit(v, clipped - 1) else 0;
      SignedWord64(v, clipped);
      if sign == 1 {
        v := Or(v, Pow2(64) - Pow2(clipped));
      } else {
        v := And(v, Pow2(clipped) - 1);
      }
    } else {
      WrapSmall(v, 64);
    }
    SignedRange64(v);
    value := ToSigned(v, 64);
  }

  lemma SignedRange64(v: nat)
    requires v < Pow2(64)
    ensures -0x8000_0000_0000_0000 <= ToSigned(v, 64) < 0x8000_0000_0000_0000
  {
    hide Pow2;
    Pow2Words();
    Pow2Sub(64, 1);
    Pow2Bytes();
  }

  /** Filling the bits of a 64-bit word above the width with the sign. */
  lemma SignedWord64(v: nat, width: nat)
    requires width < 64 && v < Pow2(64)
    ensures Pow2(width) <= Pow2(64)
    ensures width > 0 && Bit(v, width - 1) == 1 ==>
              Or(v, Pow2(64) - Pow2(width)) < Pow2(64) && ToSigned(Or(v, Pow2(64) - Pow2(width)), 64) == ToSigned(Wrap(v, width), width)
    ensures !(width > 0 && Bit(v, width - 1) == 1) ==>
              And(v, Pow2(width) - 1) < Pow2(64) && ToSigned(And(v, Pow2(width) - 1), 64) == ToSigned(Wrap(v, width), width)
  {
    hide Pow2, And, Or, Bit;
    OrHighMask(v, width, 64);
    MaskLow(v, width);
    Pow2Strict(width, 64);
    Pow2Sub(64, 1);
    Pow2Bytes();
    Pow2Mono(width, 63);
    if width > 0 {
      BitWrap(v, width - 1, width);
      SignBit(Wrap(v, width), width);
    } else {
      WrapNothing(v);
    }
  }

  /** Storing a native value and reading it back gives it again exactly from its native width on. */
  method SignedRoundTrip(digits: array<Digit>, width: nat, value: SignedWord) returns (read: SignedWord, bits: nat)
    requires 0 < width && DigitCount(width) <= digits.Length
    modifies digits
    ensures forall w: nat | w > 0 :: FitsSigned(value, w) <==> bits <= w
    ensures read == value <==> bits <= width
  {
    hide Num, Pow2, Wrap, Val, SVal, ToSigned, FitsSigned;
    bits := NativeSignedWidth(value);
    NativeFits(value);
    Pow2Words();
    var word: nat := Wrap(value, 64);
    SetSignedInteger(digits, width, word);
    read := GetSignedValue(digits, width);
    StoredReads(digits[..], width, value);
  }

  lemma NativeFits(value: SignedWord)
    ensures FitsSigned(value, 64)
  {
    Pow2Words();
    Pow2Sub(64, 1);
  }

  lemma StoredReads(s: seq<Digit>, width: nat, value: int)
    requires 0 < width && DigitCount(width) <= |s| && FitsSigned(value, 64)
    requires Val(s, width) == Wrap(ToSigned(Wrap(value, 64), 64), width)
    ensures var v := Narrower(width, 64);
            DigitCount(v) <= |s| && (SVal(s, v) == value <==> FitsSigned(value, v))
  {
    hide Num, Pow2, Wrap, Val;
    var v := Narrower(width, 64);
    SignedWrap(value, 64);
    ValNarrowed(s, v, width);
    WrapWrap(value, v, width);
    SignedWrap(value, v);
  }

  // ----- bit ranges and the least width -----

  method GetBits(digits: array<Digit>, offset: nat, length: nat, width: nat) returns (value: nat)
    requires DigitCount(width) <= digits.Length && Clipped(offset, length, width) <= 64
    ensures value == ExtractBits(Num(digits[..], DigitCount(width)), offset, Clipped(offset, length, width))
    ensures forall k: nat :: Bit(value, k) == if k < length && offset + k < width then DigitBit(digits[..], offset + k) else 0
  {
    hide Num, Pow2, ExtractBits, DigitBit, Bit;
    value := GetRange(digits, offset, length, width);
    GetBitsBits(digits[..], offset, length, width);
  }

  /** The read range, bit by bit. */
  lemma GetBitsBits(s: seq<Digit>, offset: nat, length: nat, width: nat)
    requires DigitCount(width) <= |s|
    ensures forall k: nat ::
              Bit(ExtractBits(Num(s, DigitCount(width)), offset, Clipped(offset, length, width)), k) ==
              if k < length && offset + k < width then DigitBit(s, offset + k) else 0
  {
    hide Num, Pow2, ExtractBits, Bit, Clipped;
    var n := DigitCount(width);
    forall k: nat
      ensures Bit(ExtractBits(Num(s, n), offset, Clipped(offset, length, width)), k) ==
              if k < length && offset + k < width then DigitBit(s, offset + k) else 0
    {
      ExtractedBit(Num(s, n), offset, Clipped(offset, length, width), k);
      ClippedRange(offset, length, width, k);
      if offset + k < width {
        NumBit(s, n, offset + k);
      }
    }
  }

  /** The loop: chunk by chunk, each within one digit. */
  method GetRange(digits: array<Digit>, offset: nat, length: nat, width: nat) returns (value: nat)
    requires DigitCount(width) <= digits.Length && Clipped(offset, length, width) <= 64
    ensures value == ExtractBits(Num(digits[..], DigitCount(width)), offset, Clipped(offset, length, width))
  {
    hide Num, Pow2, Wrap, Shr, Or, ExtractBits, ChunkEnd;
    ghost var s := digits[..];
    ghost var x := Num(s, DigitCount(width));
    var iter := offset;
    var end := if offset + length > width then width else offset + length;
    value := 0;
    ExtractNothing(x, offset);
    while iter < end
      invariant offset <= iter && (iter <= end || iter == offset)
      invariant value == ExtractBits(x, offset, iter - offset)
    {
      var chunkEnd := ChunkEnd(iter, end);
      ChunkShape(iter, end);
      var chunkWidth := chunkEnd - iter;
      var index := iter / 8;
      var target := iter - index * 8;
      var chunk := ExtractBits(digits[index], target, chunkWidth);
      ExtractChunk(s, DigitCount(width), offset, iter, index, target, chunkWidth);
      value := Or(value, Pow2(iter - offset) * chunk);
      iter := chunkEnd;
    }
  }

  /** The next chunk or-ed in above the bits read so far. */
  lemma ExtractChunk(s: seq<Digit>, n: nat, offset: nat, iter: nat, index: nat, target: nat, chunk: nat)
    requires index < n <= |s| && target + chunk <= 8 && offset <= iter == 8 * index + target
    ensures var x, bits := Num(s, n), ExtractBits(s[index], target, chunk);
            0 <= Pow2(iter - offset) * bits &&
            Or(ExtractBits(x, offset, iter - offset), Pow2(iter - offset) * bits) == ExtractBits(x, offset, iter - offset + chunk)
  {
    hide *;
    var x, k := Num(s, n), iter - offset;
    ExtractDigit(s, n, index, target, chunk);
    ExtractTwice(x, offset, k, chunk);
    JoinChunk(ExtractBits(x, offset, k), ExtractBits(s[index], target, chunk), k);
  }

  lemma JoinChunk(low: nat, bits: nat, k: nat)
    requires low < Pow2(k)
    ensures 0 <= Pow2(k) * bits && Or(low, Pow2(k) * bits) == low + Pow2(k) * bits
  {
    hide *;
    MulMono(0, bits, Pow2(k));
    OrDisjoint(bits, low, k);
  }

  lemma ExtractNothing(x: nat, offset: nat)
    ensures ExtractBits(x, offset, 0) == 0
  {
  }

  lemma ExtractDigit(s: seq<Digit>, n: nat, i: nat, offset: nat, length: nat)
    requires i < n <= |s| && offset + length <= 8
    ensures ExtractBits(Num(s, n), 8 * i + offset, length) == ExtractBits(s[i], offset, length)
  {
    hide *;
    NumThree(s, i, n);
    NumBound(s, i);
    ExtractAbove(Num(s, i), s[i] + 256 * Num(s[i + 1..], n - i - 1), 8 * i, offset, length);
    ExtractLift(s[i], Num(s[i + 1..], n - i - 1), offset, length);
  }

  /** Reading a range back after writing it gives the value cut to the range that lies below the width. */
  method BitsRoundTrip(digits: array<Digit>, value: Word, offset: nat, length: nat, width: nat) returns (read: nat)
    requires DigitCount(width) <= digits.Length && Clipped(offset, length, width) <= 64
    modifies digits
    ensures read == Wrap(value, Clipped(offset, length, width))
    ensures read == value <==> value < Pow2(Clipped(offset, length, width))
    ensures forall k: nat :: Bit(read, k) == if k < length && offset + k < width then Bit(value, k) else 0
  {
    hide Num, Pow2, Wrap, InsertBits, ExtractBits, DigitBit, Bit;
    ghost var x, bits := Num(digits[..], DigitCount(width)), Clipped(offset, length, width);
    SetBits(digits, value, offset, length, width);
    read := GetBits(digits, offset, length, width);
    InsertParts(x, offset, bits, value);
    if value < Pow2(bits) {
      WrapSmall(value, bits);
    }
  }

  method GetMinUnsignedWidth(digits: array<Digit>, width: nat) returns (minwidth: nat)
    requires 0 < width && DigitCount(width) <= digits.Length
    ensures 1 <= minwidth <= width
    ensures Val(digits[..], width) < Pow2(minwidth)
    ensures minwidth > 1 ==> Pow2(minwidth - 1) <= Val(digits[..], width)
  {
    hide Num, Pow2, Wrap, Bit;
    ghost var v := Val(digits[..], width);
    minwidth := width;
    while minwidth - 1 > 0
      invariant 1 <= minwidth <= width
      invariant v < Pow2(minwidth)
    {
      var index := (minwidth - 1) / 8;
      var offset := (minwidth - 1) - index * 8;
      ValBit(digits[..], width, minwidth - 1);
      SignBit(v, minwidth);
      if Bit(digits[index], offset) == 1 {
        break;
      }
      minwidth := minwidth - 1;
    }
  }
}
