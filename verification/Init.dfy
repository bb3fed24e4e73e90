/** Setting a bit-precise integer from native values and bit ranges (kefir_bigint/init.h). */
module Init {
  import opened Powers
  import opened Digits
  import opened Cast
  import opened BitRange

  const VALUE_BIT: nat := 64

  type Word = x: int | 0 <= x < 0x1_0000_0000_0000_0000

  method Zero(digits: array<Digit>, width: nat)
    requires DigitCount(width) <= digits.Length
    modifies digits
    ensures SameFrom(old(digits[..]), digits[..], DigitCount(width))
    ensures Num(digits[..], DigitCount(width)) == 0
    ensures Val(digits[..], width) == 0
  {
    ghost var s := digits[..];
    for i := 0 to DigitCount(width)
      invariant forall k | 0 <= k < i :: digits[k] == 0
      invariant forall k | i <= k < digits.Length :: digits[k] == s[k]
    {
      digits[i] := 0;
    }
    NumZero(digits[..], DigitCount(width));
  }

  method Copy(dst: array<Digit>, src: array<Digit>, width: nat)
    requires DigitCount(width) <= dst.Length && DigitCount(width) <= src.Length
    modifies dst
    ensures SameFrom(old(dst[..]), dst[..], DigitCount(width))
    ensures Num(dst[..], DigitCount(width)) == old(Num(src[..], DigitCount(width)))
    ensures Val(dst[..], width) == old(Val(src[..], width))
  {
    ghost var s, r := dst[..], src[..];
    for i := 0 to DigitCount(width)
      invariant forall k | 0 <= k < i :: dst[k] == r[k]
      invariant forall k | i <= k < dst.Length :: dst[k] == s[k]
      invariant forall k | i <= k < src.Length :: src[k] == r[k]
    {
      dst[i] := src[i];
    }
    NumEqual(r, dst[..], DigitCount(width));
  }

  /** The loop both setters run: digits are peeled off the low end of the value. */
  method StoreDigits(digits: array<Digit>, total: nat, value: Word)
    requires total <= digits.Length
    modifies digits
    ensures SameFrom(old(digits[..]), digits[..], total)
    ensures Num(digits[..], total) == Wrap(value, 8 * total)
  {
    hide Num, Pow2, Wrap, Shr;
    ghost var s := digits[..];
    var rest: nat := value;
    NumEmpty(s);
    ShrZero(value);
    WrapNothing(value);
    for i := 0 to total
      invariant rest == Shr(value, 8 * i)
      invariant Num(digits[..], i) == Wrap(value, 8 * i)
      invariant forall k | i <= k < digits.Length :: digits[k] == s[k]
    {
      ghost var t := digits[..];
      PeelDigit(value, i);
      NumUpdate(t, i, rest % 256);
      digits[i] := rest % 256;
      assert digits[..] == t[i := digits[i]];
      rest := rest / 256;
    }
  }

  lemma PeelDigit(x: int, i: nat)
    ensures Wrap(x, 8 * (i + 1)) == Wrap(x, 8 * i) + Pow2(8 * i) * (Shr(x, 8 * i) % 256)
    ensures Shr(x, 8 * (i + 1)) == Shr(x, 8 * i) / 256
  {
    hide Pow2;
    Pow2Bytes();
    SplitPow2(x, 8 * i, 8);
  }

  lemma StoredVal(s: seq<Digit>, width: nat, value: nat)
    requires DigitCount(width) <= |s|
    requires Num(s, DigitCount(width)) == Wrap(value, 8 * DigitCount(width))
    ensures Val(s, width) == Wrap(value, width)
  {
    hide Num, Pow2, Wrap;
    WrapWrap(value, width, 8 * DigitCount(width));
  }

  method SetSignedInteger(digits: array<Digit>, width: nat, value: Word)
    requires DigitCount(width) <= digits.Length
    modifies digits
    ensures SameFrom(old(digits[..]), digits[..], DigitCount(width))
    ensures Val(digits[..], width) == if width == 0 then old(Val(digits[..], width)) else Wrap(ToSigned(value, 64), width)
  {
    hide Num, Pow2, Wrap, FitsSigned;
    if width == 0 {
      return;
    }
    Pow2Words();
    var fit := if width > VALUE_BIT then VALUE_BIT else width;
    StoreDigits(digits, DigitCount(fit), value);
    StoredVal(digits[..], fit, value);
    WrapSmall(value, 64);
    if fit < width {
      CastSigned(digits, fit, width);
      SValUnfold(digits[..], width);
    } else {
      CastLaws(value, 64, width);
    }
  }

  lemma SValUnfold(s: seq<Digit>, width: nat)
    requires DigitCount(width) <= |s|
    ensures Val(s, width) == Wrap(SVal(s, width), width)
  {
    SignedRange(Val(s, width), width);
  }

  method SetUnsignedInteger(digits: array<Digit>, width: nat, value: Word)
    requires DigitCount(width) <= digits.Length
    modifies digits
    ensures SameFrom(old(digits[..]), digits[..], DigitCount(width))
    ensures Val(digits[..], width) == if width == 0 then old(Val(digits[..], width)) else Wrap(value, width)
    ensures width > 64 ==> Num(digits[..], DigitCount(width)) == value
  {
    hide Num, Pow2, Wrap;
    if width == 0 {
      return;
    }
    Pow2Words();
    var fit := if width > VALUE_BIT then VALUE_BIT else width;
    StoreDigits(digits, DigitCount(fit), value);
    StoredVal(digits[..], fit, value);
    WrapSmall(value, 64);
    if fit < width {
      CastUnsigned(digits, fit, width);
      Pow2Mono(64, width);
      WrapSmall(value, width);
    }
  }

  // ----- bit ranges -----

  /** The end of the part of the range that lies in the same digit. */
  function ChunkEnd(iter: nat, end: nat): nat {
    var next := if iter % 8 != 0 then (iter + 7) / 8 * 8 else iter + 8;
    if next > end then end else next
  }

  lemma ChunkShape(iter: nat, end: nat)
    requires iter < end
    ensures iter < ChunkEnd(iter, end) <= end
    ensures iter % 8 + (ChunkEnd(iter, end) - iter) <= 8
  {
  }

  /** What the read-modify-write of one digit stores. */
  function InsertDigit(d: Digit, offset: nat, length: nat, chunk: nat): (r: Digit)
    requires offset + length <= 8 && chunk < Pow2(length)
  {
    Pow2Bytes();
    MaskedInsertValue(d, offset, length, chunk, 8);
    MaskedInsert(d, offset, length, chunk, 8)
  }

  method SetBits(digits: array<Digit>, value: Word, offset: nat, length: nat, width: nat)
    requires DigitCount(width) <= digits.Length
    modifies digits
    ensures SameFrom(old(digits[..]), digits[..], DigitCount(width))
    ensures Num(digits[..], DigitCount(width)) ==
            InsertBits(old(Num(digits[..], DigitCount(width))), offset, Clipped(offset, length, width), value)
    ensures forall j: nat | j < 8 * DigitCount(width) ::
              DigitBit(digits[..], j) == if offset <= j < offset + length && j < width then Bit(value, j - offset) else old(DigitBit(digits[..], j))
  {
    hide Num, Pow2, Wrap, Shr, InsertBits, DigitBit, Bit;
    ghost var s := digits[..];
    SetRange(digits, value, offset, length, width);
    SetBitsBits(s, digits[..], value, offset, length, width);
  }

  /** The replaced range, bit by bit. */
  lemma SetBitsBits(s: seq<Digit>, t: seq<Digit>, value: Word, offset: nat, length: nat, width: nat)
    requires DigitCount(width) <= |s| && DigitCount(width) <= |t|
    requires Num(t, DigitCount(width)) == InsertBits(Num(s, DigitCount(width)), offset, Clipped(offset, length, width), value)
    ensures forall j: nat | j < 8 * DigitCount(width) ::
              DigitBit(t, j) == if offset <= j < offset + length && j < width then Bit(value, j - offset) else DigitBit(s, j)
  {
    hide Num, Pow2, InsertBits, Bit, Clipped;
    var n := DigitCount(width);
    forall j: nat | j < 8 * n
      ensures DigitBit(t, j) == if offset <= j < offset + length && j < width then Bit(value, j - offset) else DigitBit(s, j)
    {
      NumBit(s, n, j);
      NumBit(t, n, j);
      InsertedBit(Num(s, n), offset, Clipped(offset, length, width), value, j);
      if offset <= j {
        ClippedRange(offset, length, width, j - offset);
      }
    }
  }

  /** The loop: chunk by chunk, each within one digit. */
  method SetRange(digits: array<Digit>, value: Word, offset: nat, length: nat, width: nat)
    requires DigitCount(width) <= digits.Length
    modifies digits
    ensures SameFrom(old(digits[..]), digits[..], DigitCount(width))
    ensures Num(digits[..], DigitCount(width)) ==
            InsertBits(old(Num(digits[..], DigitCount(width))), offset, Clipped(offset, length, width), value)
  {
    hide Num, Pow2, Wrap, Shr, InsertBits, InsertDigit, ChunkEnd;
    ghost var s := digits[..];
    ghost var n := DigitCount(width);
    InsertNothing(Num(s, n), offset, value);
    if width == 0 || offset >= width {
      return;
    }
    var iter := offset;
    var end := if offset + length > width then width else offset + length;
    var rest: nat := value;
    ShrZero(value);
    while iter < end
      invariant offset <= iter <= end
      invariant rest == Shr(value, iter - offset)
      invariant SameFrom(s, digits[..], n)
      invariant Num(digits[..], n) == InsertBits(Num(s, n), offset, iter - offset, value)
    {
      var chunkEnd := ChunkEnd(iter, end);
      ChunkShape(iter, end);
      var chunkWidth := chunkEnd - iter;
      var chunk := Wrap(rest, chunkWidth);
      var index := iter / 8;
      var target := iter - index * 8;
      ghost var t := digits[..];
      InsertDigitRange(t, n, index, target, chunkWidth, chunk);
      if chunkWidth < 8 {
        digits[index] := InsertDigit(digits[index], target, chunkWidth, chunk);
      } else {
        WholeDigit(digits[index], chunk);
        digits[index] := chunk;
      }
      assert digits[..] == t[index := digits[index]];
      InsertWrapped(Num(t, n), iter, chunkWidth, rest);
      InsertTwice(Num(s, n), offset, iter - offset, chunkWidth, value);
      ShrShr(value, iter - offset, chunkWidth);
      ShrNat(rest, chunkWidth);
      rest := Shr(rest, chunkWidth);
      iter := chunkEnd;
    }
  }

  /** The part of a bit range that lies below the width. */
  function Clipped(offset: nat, length: nat, width: nat): nat {
    if offset >= width then 0 else if offset + length > width then width - offset else length
  }

  /** A position lies in the clipped range exactly when it lies in the range and below the width. */
  lemma ClippedRange(offset: nat, length: nat, width: nat, k: nat)
    ensures k < Clipped(offset, length, width) <==> k < length && offset + k < width
  {
  }

  lemma WholeDigit(d: Digit, chunk: nat)
    requires chunk < Pow2(8)
    ensures InsertDigit(d, 0, 8, chunk) == chunk < 256
  {
    hide Pow2, Wrap, Shr, MaskedInsert;
    Pow2Bytes();
    MaskedInsertValue(d, 0, 8, chunk, 8);
    WrapNothing(d);
    WrapSmall(chunk, 8);
    ShrNat(d, 8);
  }

  /** Inserting into one digit inserts into the number. */
  lemma InsertDigitRange(s: seq<Digit>, n: nat, i: nat, offset: nat, length: nat, chunk: nat)
    requires i < n <= |s| && offset + length <= 8 && chunk < Pow2(length)
    ensures Num(s[i := InsertDigit(s[i], offset, length, chunk)], n) == InsertBits(Num(s, n), 8 * i + offset, length, chunk)
  {
    hide Num, Pow2, Wrap, Shr, InsertBits, MaskedInsert;
    var d := InsertDigit(s[i], offset, length, chunk);
    var t := s[i := d];
    Pow2Bytes();
    MaskedInsertValue(s[i], offset, length, chunk, 8);
    var hi := Num(s[i + 1..], n - i - 1);
    NumThree(s, i, n);
    NumThree(t, i, n);
    assert s[i + 1..] == t[i + 1..];
    NumEqual(s, t, i);
    NumBound(s, i);
    InsertLift(s[i], hi, offset, length, chunk);
    InsertAbove(Num(s, i), s[i] + 256 * hi, 8 * i, offset, length, chunk);
  }

  lemma NumThree(s: seq<Digit>, i: nat, n: nat)
    requires i < n <= |s|
    ensures Num(s, n) == Num(s, i) + Pow2(8 * i) * (s[i] + 256 * Num(s[i + 1..], n - i - 1))
  {
    hide Num, Pow2;
    NumSplit(s, i + 1, n);
    NumStep(s, i);
    Pow2Digit(i);
    var p, r := Pow2(8 * i), Num(s[i + 1..], n - i - 1);
    assert (256 * p) * r == p * (256 * r);
    assert p * (s[i] + 256 * r) == p * s[i] + p * (256 * r);
  }
}
