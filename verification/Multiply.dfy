/** Schoolbook multiplication (kefir_bigint/multiply.h). */
module Multiply {
  import opened Powers
  import opened Bitwise
  import opened Digits
  import opened Shift
  import opened Init
  import opened Compare
  import opened Divide

  // ----- schoolbook -----

  /** The operand's digits with the padding masked off. */
  ghost function MaskedDigits(s: seq<Digit>, width: nat): (t: seq<Digit>)
    requires DigitCount(width) <= |s|
    ensures |t| == DigitCount(width) && forall i | 0 <= i < |t| :: t[i] == MaskedDigit(s, width, i)
  {
    seq(DigitCount(width), i requires 0 <= i < DigitCount(width) => MaskedDigit(s, width, i))
  }

  lemma MaskedDigitsNum(s: seq<Digit>, width: nat)
    requires 0 < width && DigitCount(width) <= |s|
    ensures Num(MaskedDigits(s, width), DigitCount(width)) == Val(s, width)
  {
    hide Num, Pow2, And, Wrap, MaskedDigits;
    var top := TopIndex(width);
    TopDigit(width);
    MaskedTop(s, width);
    NumEqual(s[top := MaskedDigit(s, width, top)], MaskedDigits(s, width), top + 1);
  }

  /** A product of digits plus a digit and a carry fits 16 bits, so the carry stays a digit. */
  lemma ProductBound(d: Digit, carry: Digit, l: Digit, r: Digit)
    ensures 0 <= d + carry + l * r <= 65535
    ensures 0 <= (d + carry + l * r) / 256 < 256
  {
    MulMono(l, 255, r);
    MulMono(0, l, r);
    DigitQuotient(d + carry + l * r);
  }

  lemma DigitQuotient(x: int)
    requires 0 <= x <= 65535
    ensures 0 <= x / 256 < 256
  {
  }

  lemma RowStep(x: int, p: int, m: int, d: int, carry: int, l: int, r: int, before: int)
    requires x + (p * m) * carry == before
    ensures var value := d + carry + l * r;
            (x + (p * m) * (value % 256 - d)) + (256 * (p * m)) * (value / 256) == before + (p * r) * (m * l)
  {
    var value := d + carry + l * r;
    var q := p * m;
    assert value == 256 * (value / 256) + value % 256;
    assert q * (value % 256 - d) + (256 * q) * (value / 256) == q * (value - d);
    MulDist(q, carry, l * r);
    MulSwap(p, m, r, l);
  }

  /** One row: the left operand times one digit of the right one, added in from digit j on. */
  method AddRow(result: array<Digit>, lhs: array<Digit>, rhsDigit: Digit, j: nat, total: nat, resultTotal: nat, width: nat, ghost l: seq<Digit>)
    requires result != lhs && resultTotal <= result.Length
    requires 0 < width && total == DigitCount(width) <= lhs.Length
    requires l == MaskedDigits(lhs[..], width)
    requires forall k | j + total <= k < resultTotal :: result[k] == 0
    modifies result
    ensures SameFrom(old(result[..]), result[..], resultTotal)
    ensures forall k | j + total < k < resultTotal :: result[k] == 0
    ensures Num(result[..], resultTotal) == Wrap(old(Num(result[..], resultTotal)) + (Pow2(8 * j) * rhsDigit) * Num(l, total), 8 * resultTotal)
  {
    hide Num, Pow2, And, Wrap, MaskedDigit, MaskedDigits;
    ghost var s := result[..];
    ghost var a := Pow2(8 * j) * rhsDigit;
    var carry: Digit := 0;
    var i := 0;
    NumEmpty(l);
    NumBound(s, resultTotal);
    WrapSmall(Num(s, resultTotal), 8 * resultTotal);
    while i < total
      invariant 0 <= i <= total
      invariant SameFrom(s, result[..], resultTotal)
      invariant forall k | i + j <= k < resultTotal :: result[k] == s[k]
      invariant Num(result[..], resultTotal) + Pow2(8 * (i + j)) * carry == Num(s, resultTotal) + a * Num(l, i)
    {
      var index := i + j;
      if index >= resultTotal {
        break;
      }
      var lhsDigit := MaskedDigit(lhs[..], width, i);
      ProductBound(result[index], carry, lhsDigit, rhsDigit);
      var value: int := result[index] + carry + lhsDigit * rhsDigit;
      ghost var t := result[..];
      NumChange(t, index, value % 256, resultTotal);
      Pow2Add(8 * j, 8 * i);
      Pow2Digit(index);
      RowStep(Num(t, resultTotal), Pow2(8 * j), Pow2(8 * i), result[index], carry, lhsDigit, rhsDigit, Num(s, resultTotal) + a * Num(l, i));
      NumStep(l, i);
      MulDist(a, Num(l, i), Pow2(8 * i) * l[i]);
      result[index] := value % 256;
      assert result[..] == t[index := result[index]];
      carry := value / 256;
      i := i + 1;
    }
    ghost var u := result[..];
    NumBound(u, resultTotal);
    if i < total {
      RowCut(Num(u, resultTotal), carry, Num(s, resultTotal), a, l, i, j, total, resultTotal, rhsDigit);
    }
    if j + total < resultTotal {
      NumChange(u, j + total, carry, resultTotal);
      result[j + total] := carry;
      assert result[..] == u[j + total := carry];
      NumBound(result[..], resultTotal);
      WrapSmall(Num(result[..], resultTotal), 8 * resultTotal);
    } else if i == total {
      CarryCut(Num(u, resultTotal), carry, 8 * (j + total), 8 * resultTotal);
    }
  }

  /** A carry beyond the result does not change it modulo its size. */
  lemma CarryCut(x: nat, carry: int, k: nat, n: nat)
    requires n <= k && x < Pow2(n)
    ensures x == Wrap(x + Pow2(k) * carry, n)
  {
    hide Pow2, Wrap;
    Pow2Sub(k, n);
    MulAssoc(Pow2(n), Pow2(k - n), carry);
    WrapShift(x, Pow2(k - n) * carry, n);
    WrapSmall(x, n);
  }

  /** Stopping a row at the end of the result drops only multiples of its size. */
  lemma RowCut(x: nat, carry: nat, before: nat, a: nat, l: seq<Digit>, i: nat, j: nat, total: nat, resultTotal: nat, rhsDigit: nat)
    requires i <= total <= |l| && resultTotal <= i + j && x < Pow2(8 * resultTotal)
    requires a == Pow2(8 * j) * rhsDigit
    requires x + Pow2(8 * (i + j)) * carry == before + a * Num(l, i)
    ensures x == Wrap(before + a * Num(l, total), 8 * resultTotal)
  {
    hide Num, Pow2, Wrap;
    NumSplit(l, i, total);
    var rest := Num(l[i..], total - i);
    Pow2Add(8 * j, 8 * i);
    var p := Pow2(8 * (i + j));
    MulDist(a, Num(l, i), Pow2(8 * i) * rest);
    MulSwap(Pow2(8 * j), rhsDigit, Pow2(8 * i), rest);
    MulDist(p, carry, rhsDigit * rest);
    CarryCut(x, carry + rhsDigit * rest, 8 * (i + j), 8 * resultTotal);
  }

  method UnsignedMultiply(result: array<Digit>, lhs: array<Digit>, rhs: array<Digit>, resultWidth: nat, operandWidth: nat)
    requires result != lhs && result != rhs
    requires DigitCount(resultWidth) <= result.Length && DigitCount(operandWidth) <= lhs.Length && DigitCount(operandWidth) <= rhs.Length
    modifies result
    ensures SameFrom(old(result[..]), result[..], DigitCount(resultWidth))
    ensures Val(result[..], resultWidth) == Wrap(Val(lhs[..], operandWidth) * Val(rhs[..], operandWidth), resultWidth)
  {
    hide Num, Pow2, And, Wrap, MaskedDigit, MaskedDigits, Val;
    ghost var s0 := result[..];
    Zero(result, resultWidth);
    if resultWidth == 0 || operandWidth == 0 {
      EmptyProduct(lhs[..], rhs[..], resultWidth, operandWidth);
      return;
    }
    var total := DigitCount(operandWidth);
    var resultTotal := DigitCount(resultWidth);
    ghost var l, r := MaskedDigits(lhs[..], operandWidth), MaskedDigits(rhs[..], operandWidth);
    ghost var x := Num(l, total);
    NumZero(result[..], resultTotal);
    NumEmpty(r);
    WrapZero(8 * resultTotal);
    for j := 0 to total
      invariant SameFrom(s0, result[..], resultTotal)
      invariant forall k | j + total <= k < resultTotal :: result[k] == 0
      invariant Num(result[..], resultTotal) == Wrap(x * Num(r, j), 8 * resultTotal)
    {
      var rhsDigit := MaskedDigit(rhs[..], operandWidth, j);
      AddRow(result, lhs, rhsDigit, j, total, resultTotal, operandWidth, l);
      NumStep(r, j);
      WrapSum(x * Num(r, j), (Pow2(8 * j) * rhsDigit) * x, 8 * resultTotal);
      assert x * (Num(r, j) + Pow2(8 * j) * rhsDigit) == x * Num(r, j) + (Pow2(8 * j) * rhsDigit) * x;
    }
    MaskedDigitsNum(lhs[..], operandWidth);
    MaskedDigitsNum(rhs[..], operandWidth);
    WrapWrap(x * Num(r, total), resultWidth, 8 * resultTotal);
    ValDef(result[..], resultWidth);
  }

  lemma WrapZero(w: nat)
    ensures Wrap(0, w) == 0
  {
  }

  lemma EmptyProduct(s: seq<Digit>, t: seq<Digit>, resultWidth: nat, width: nat)
    requires DigitCount(width) <= |s| && DigitCount(width) <= |t|
    requires resultWidth == 0 || width == 0
    ensures Wrap(Val(s, width) * Val(t, width), resultWidth) == 0
  {
    Pow2Bytes();
  }
}
