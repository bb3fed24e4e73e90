/** Counting bits of a bit-precise integer (kefir_bigint/bits.h). */
module Bits {
  import opened Powers
  import opened Digits
  import opened SignExtension
  import opened BitRange
  import opened Get

  /** Bits of the value that digit i carries. */
  function DigitWidth(i: nat, total: nat, width: nat): nat
    requires 0 < total && 8 * (total - 1) <= width
  {
    if i + 1 < total then 8 else width - 8 * (total - 1)
  }

  /** Position k is the lowest set bit of x. */
  ghost predicate LowestSet(x: nat, k: nat) {
    Bit(x, k) == 1 && Wrap(x, k) == 0
  }

  lemma WrapPeel(x: int, k: nat)
    ensures Wrap(x, k + 1) == Bit(x, k) * Pow2(k) + Wrap(x, k)
  {
    BitPeel(x, k);
  }

  /** The bits of a zero digit are zero. */
  lemma {:induction false} ZeroDigit(s: seq<Digit>, width: nat, i: nat, j: nat)
    requires 0 < width && DigitCount(width) <= |s| && 8 * i + j <= width && j <= 8 && i < DigitCount(width)
    requires s[i] == 0 && Wrap(Val(s, width), 8 * i) == 0
    ensures Wrap(Val(s, width), 8 * i + j) == 0
  {
    hide Num, Pow2, Wrap;
    if j > 0 {
      ZeroDigit(s, width, i, j - 1);
      WrapPeel(Val(s, width), 8 * i + j - 1);
      ValBit(s, width, 8 * i + j - 1);
      NoBits(j - 1);
    }
  }

  lemma NoBits(k: nat)
    ensures Bit(0, k) == 0
  {
  }

  /** Position of the lowest set bit plus one, zero when there is none. */
  method LeastSignificantNonzero(digits: array<Digit>, width: nat) returns (position: nat)
    requires DigitCount(width) <= digits.Length
    ensures position == 0 <==> Val(digits[..], width) == 0
    ensures position > 0 ==> LowestSet(Val(digits[..], width), position - 1)
    ensures position > 0 ==>
              position <= width && DigitBit(digits[..], position - 1) == 1 && forall j: nat | j < position - 1 :: DigitBit(digits[..], j) == 0
  {
    hide Num, Pow2, Val, LowestSet, DigitBit;
    position := FirstSet(digits, width);
    if position > 0 {
      LowestDigit(digits[..], width, position - 1);
    }
  }

  /** The lowest set bit of the value is the lowest of the array. */
  lemma LowestDigit(s: seq<Digit>, width: nat, k: nat)
    requires DigitCount(width) <= |s| && LowestSet(Val(s, width), k)
    ensures k < width && DigitBit(s, k) == 1 && forall j: nat | j < k :: DigitBit(s, j) == 0
  {
    hide Num, Pow2, Bit, Wrap, Val;
    var v := Val(s, width);
    BitAbove(v, width);
    ValBit(s, width, k);
    forall j: nat | j < k
      ensures DigitBit(s, j) == 0
    {
      ValBit(s, width, j);
      BitOfWrap(v, j, k);
      NoBits(j);
    }
  }

  method FirstSet(digits: array<Digit>, width: nat) returns (position: nat)
    requires DigitCount(width) <= digits.Length
    ensures position == 0 <==> Val(digits[..], width) == 0
    ensures position > 0 ==> LowestSet(Val(digits[..], width), position - 1)
  {
    hide Num, Pow2, Wrap, Bit, Val, LowestSet;
    ghost var s := digits[..];
    ghost var v := Val(s, width);
    WrapSmall(v, width);
    if width == 0 {
      WrapNothing(v);
      return 0;
    }
    TopDigit(width);
    var total := DigitCount(width);
    WrapNothing(v);
    for i := 0 to total
      invariant Wrap(v, if i < total then 8 * i else width) == 0
    {
      var digitWidth := DigitWidth(i, total, width);
      if digits[i] == 0 {
        ZeroDigit(s, width, i, digitWidth);
      } else {
        for j := 0 to digitWidth
          invariant Wrap(v, 8 * i + j) == 0
        {
          ValBit(s, width, 8 * i + j);
          WrapPeel(v, 8 * i + j);
          if Bit(digits[i], j) == 1 {
            SetBitNonzero(v, 8 * i + j);
            return 8 * i + j + 1;
          }
        }
      }
    }
    return 0;
  }

  lemma SetBitNonzero(x: nat, k: nat)
    requires Bit(x, k) == 1 && Wrap(x, k) == 0
    ensures x != 0 && LowestSet(x, k)
  {
    NoBits(k);
  }

  method TrailingZeros(digits: array<Digit>, width: nat, default: nat) returns (count: nat)
    requires DigitCount(width) <= digits.Length
    ensures Val(digits[..], width) == 0 ==> count == default
    ensures Val(digits[..], width) != 0 ==> LowestSet(Val(digits[..], width), count)
    ensures Val(digits[..], width) != 0 ==>
              count < width && DigitBit(digits[..], count) == 1 && forall j: nat | j < count :: DigitBit(digits[..], j) == 0
  {
    hide Num, Pow2, Val, LowestSet, DigitBit;
    count := CountTrailing(digits, width, default);
    if Val(digits[..], width) != 0 {
      LowestDigit(digits[..], width, count);
    }
  }

  method CountTrailing(digits: array<Digit>, width: nat, default: nat) returns (count: nat)
    requires DigitCount(width) <= digits.Length
    ensures Val(digits[..], width) == 0 ==> count == default
    ensures Val(digits[..], width) != 0 ==> LowestSet(Val(digits[..], width), count)
  {
    hide Num, Pow2, Wrap, Bit, Val, LowestSet;
    ghost var s := digits[..];
    ghost var v := Val(s, width);
    WrapSmall(v, width);
    if width == 0 {
      WrapNothing(v);
      return default;
    }
    TopDigit(width);
    var total := DigitCount(width);
    count := 0;
    WrapNothing(v);
    for i := 0 to total
      invariant i < total ==> count == 8 * i
      invariant Wrap(v, if i < total then 8 * i else width) == 0
    {
      var digitWidth := DigitWidth(i, total, width);
      if digits[i] == 0 {
        ZeroDigit(s, width, i, digitWidth);
        count := count + 8;
      } else {
        for j := 0 to digitWidth
          invariant count == 8 * i + j
          invariant Wrap(v, 8 * i + j) == 0
        {
          ValBit(s, width, 8 * i + j);
          WrapPeel(v, 8 * i + j);
          if Bit(digits[i], j) == 1 {
            SetBitNonzero(v, count);
            return count;
          }
          count := count + 1;
        }
      }
    }
    return default;
  }

  /** The lowest set bit is unique, so the two searches agree: ffs is ctz plus one. */
  lemma LowestUnique(x: nat, j: nat, k: nat)
    requires LowestSet(x, j) && LowestSet(x, k)
    ensures j == k
  {
    hide Pow2;
    if j < k {
      BitWrap(x, j, k);
      NoBits(j);
    } else if k < j {
      BitWrap(x, k, j);
      NoBits(k);
    }
  }

  // ----- from the top -----

  lemma ShrPeel(x: nat, k: nat)
    requires k > 0
    ensures Shr(x, k - 1) == 2 * Shr(x, k) + Bit(x, k - 1)
  {
    ShrBit(x, k - 1);
  }

  method LeadingZeros(digits: array<Digit>, width: nat, default: nat) returns (count: nat)
    requires DigitCount(width) <= digits.Length
    ensures Val(digits[..], width) == 0 ==> count == default
    ensures Val(digits[..], width) != 0 ==>
              count < width && Pow2(width - count - 1) <= Val(digits[..], width) < Pow2(width - count)
  {
    hide Num, Pow2, Wrap, Bit, Val, Shr;
    ghost var s := digits[..];
    ghost var v := Val(s, width);
    if width == 0 {
      Pow2Bytes();
      return default;
    }
    TopDigit(width);
    var total := DigitCount(width);
    ShrNat(v, width);
    count := 0;
    for i := 0 to total
      invariant count == if i == 0 then 0 else width - 8 * (total - i)
      invariant Shr(v, width - count) == 0
    {
      var index := total - i - 1;
      var digitWidth := DigitWidth(index, total, width);
      for j := 0 to digitWidth
        invariant count == width - 8 * index - (digitWidth - j)
        invariant Shr(v, width - count) == 0
      {
        var offset := digitWidth - j - 1;
        ValBit(s, width, 8 * index + offset);
        ShrPeel(v, width - count);
        if Bit(digits[index], offset) == 1 {
          LeadingBit(v, width - count);
          return count;
        }
        count := count + 1;
      }
    }
    ShrZero(v);
    return default;
  }

  lemma LeadingBit(v: nat, k: nat)
    requires k > 0 && Shr(v, k) == 0 && Shr(v, k - 1) == 1
    ensures Pow2(k - 1) <= v < Pow2(k)
  {
    hide Pow2;
    ShrSplit(v, k);
    ShrSplit(v, k - 1);
  }

  /** For nonzero values the leading zeros and the least unsigned width fill the width. */
  lemma LeadingZerosWidth(v: nat, width: nat, zeros: nat, least: nat)
    requires 0 < v && zeros < width && Pow2(width - zeros - 1) <= v < Pow2(width - zeros)
    requires least >= 1 && v < Pow2(least) && (least > 1 ==> Pow2(least - 1) <= v)
    ensures zeros + least == width
  {
    Pow2Order(width - zeros - 1, least);
    if least > 1 {
      Pow2Order(least - 1, width - zeros);
    } else {
      Pow2Bytes();
      Pow2Order(0, width - zeros);
    }
  }

  /** Copies of the sign bit below the sign bit. */
  method RedundantSignBits(digits: array<Digit>, width: nat) returns (redundant: nat)
    requires DigitCount(width) <= digits.Length
    ensures width == 0 ==> redundant == 0
    ensures width > 0 ==> redundant < width
    ensures width > 0 ==> forall w: nat | w > 0 :: FitsSigned(SVal(digits[..], width), w) <==> width - redundant <= w
  {
    hide Num, Pow2, Wrap, Bit, Val, Shr, FitsSigned, SVal;
    ghost var s := digits[..];
    if width == 0 {
      return 0;
    }
    ghost var x := SVal(s, width);
    ghost var sign := if x < 0 then -1 else 0;
    TopDigit(width);
    var total := DigitCount(width);
    var msb := Bit(digits[total - 1], TopOffset(width));
    TopBit(s, width);
    FitsShr(x, width);
    ShrZeroTop(x, width, sign);
    var count := 0;
    for i := 0 to total
      invariant count == if i == 0 then 0 else width - 8 * (total - i)
      invariant Shr(x, width - count) == sign
    {
      var index := total - i - 1;
      var digitWidth := DigitWidth(index, total, width);
      for j := 0 to digitWidth
        invariant count == width - 8 * index - (digitWidth - j)
        invariant Shr(x, width - count) == sign
      {
        var offset := digitWidth - j - 1;
        var k := 8 * index + offset;
        SignedBit(s, width, k);
        ShrBit(x, k);
        if Bit(digits[index], offset) == msb {
          count := count + 1;
        } else {
          FirstBit(s, width, k);
          FitsShr(x, width - count + 1);
          FitsShr(x, width - count);
          MinimalWidth(x, width - count + 1);
          return count - 1;
        }
      }
    }
    FitsShr(x, 1);
    MinimalWidth(x, 1);
    return count - 1;
  }

  lemma ShrZeroTop(x: int, width: nat, sign: int)
    requires 0 < width && FitsSigned(x, width) && sign == if x < 0 then -1 else 0
    ensures Shr(x, width) == sign
  {
    hide Pow2;
    Pow2Mono(width - 1, width);
    ShrBig(x, width);
  }

  lemma SignedBit(s: seq<Digit>, width: nat, k: nat)
    requires k < width && DigitCount(width) <= |s|
    ensures Bit(s[k / 8], k % 8) == Bit(SVal(s, width), k)
  {
    hide Num, Pow2;
    ValBit(s, width, k);
    SignedRange(Val(s, width), width);
    BitWrap(SVal(s, width), k, width);
  }

  lemma FirstBit(s: seq<Digit>, width: nat, k: nat)
    requires k < width && DigitCount(width) <= |s|
    requires Bit(s[k / 8], k % 8) != Bit(s[TopIndex(width)], TopOffset(width))
    ensures k < width - 1
  {
    assert (width - 1) / 8 == TopIndex(width) && (width - 1) % 8 == TopOffset(width);
  }

  // ----- population count -----

  /** Number of set bits among the low n bits. */
  function PopCount(x: nat, n: nat): nat {
    if n == 0 then 0 else PopCount(x, n - 1) + Bit(x, n - 1)
  }

  /** The positions below n of the set bits of an array. */
  ghost function SetPositions(s: seq<Digit>, n: nat): set<nat>
    requires n <= 8 * |s|
  {
    set k: nat | k < n && DigitBit(s, k) == 1
  }

  /** The count is the number of set positions. */
  lemma {:induction false} PopCountPositions(s: seq<Digit>, width: nat, n: nat)
    requires DigitCount(width) <= |s| && n <= width
    ensures n <= 8 * |s| && PopCount(Val(s, width), n) == |SetPositions(s, n)|
  {
    hide Num, Pow2, Bit, Val;
    if n == 0 {
      assert SetPositions(s, 0) == {};
    } else {
      PopCountPositions(s, width, n - 1);
      ValBit(s, width, n - 1);
      PositionsGrow(s, n - 1);
    }
  }

  lemma PositionsGrow(s: seq<Digit>, n: nat)
    requires n < 8 * |s|
    ensures |SetPositions(s, n + 1)| == |SetPositions(s, n)| + DigitBit(s, n)
  {
    hide Bit;
    if DigitBit(s, n) == 1 {
      assert SetPositions(s, n + 1) == SetPositions(s, n) + {n};
    } else {
      assert SetPositions(s, n + 1) == SetPositions(s, n);
    }
  }

  method NonzeroCount(digits: array<Digit>, width: nat) returns (count: nat)
    requires DigitCount(width) <= digits.Length
    ensures count == PopCount(Val(digits[..], width), width)
    ensures count == |set k: nat | k < width && DigitBit(digits[..], k) == 1|
  {
    hide Num, Pow2, Wrap, Bit, Val, DigitBit;
    ghost var s := digits[..];
    ghost var v := Val(s, width);
    PopCountPositions(s, width, width);
    if width == 0 {
      return 0;
    }
    TopDigit(width);
    var total := DigitCount(width);
    count := 0;
    for i := 0 to total
      invariant count == PopCount(v, if i < total then 8 * i else width)
    {
      var digitWidth := DigitWidth(i, total, width);
      for j := 0 to digitWidth
        invariant count == PopCount(v, 8 * i + j)
      {
        ValBit(s, width, 8 * i + j);
        if Bit(digits[i], j) == 1 {
          count := count + 1;
        }
      }
    }
  }

  method Parity(digits: array<Digit>, width: nat) returns (parity: nat)
    requires DigitCount(width) <= digits.Length
    ensures parity == PopCount(Val(digits[..], width), width) % 2
    ensures parity == |set k: nat | k < width && DigitBit(digits[..], k) == 1| % 2
  {
    var count := NonzeroCount(digits, width);
    parity := count % 2;
  }

  /** Complementing a value turns its set bits into clear ones. */
  lemma {:induction false} PopCountComplement(x: nat, w: nat, n: nat)
    requires n <= w && x < Pow2(w)
    ensures PopCount(x, n) + PopCount(Pow2(w) - 1 - x, n) == n
  {
    hide Bit, Pow2;
    if n > 0 {
      PopCountComplement(x, w, n - 1);
      ComplementBit(x, w, n - 1);
    }
  }

  lemma ComplementBit(x: nat, w: nat, k: nat)
    requires k < w && x < Pow2(w)
    ensures Bit(Pow2(w) - 1 - x, k) == 1 - Bit(x, k)
  {
    hide Pow2, Shr;
    var p := Pow2(k);
    var q, r := Shr(x, k), Wrap(x, k);
    ShrSplit(x, k);
    Pow2Sub(w, k);
    var h := Pow2(w - k);
    assert p * (h - 1 - q) == p * h - p - p * q;
    ShrUnique(Pow2(w) - 1 - x, h - 1 - q, p - 1 - r, k);
    HalfComplement(q, w - k);
    BitShr(x, k);
    BitShr(Pow2(w) - 1 - x, k);
  }

  lemma HalfComplement(q: int, n: nat)
    requires n > 0
    ensures (Pow2(n) - 1 - q) % 2 == 1 - q % 2
  {
    assert Pow2(n) == 2 * Pow2(n - 1);
  }
}
