/** Shifts in place (kefir_bigint/shift.h). */
module Shift {
  import opened Powers
  import opened Bitwise
  import opened Digits
  import opened SignExtension
  import opened BitRange

  // ----- shifting a pair of neighbouring digits -----

  /** What a left shift by less than a digit stores, given the digit and the one below it. */
  function ShlDigit(hi: Digit, lo: Digit, shift: nat): Digit
    requires shift < 8
  {
    CutDigit(lo, 8 - shift);
    Or(Pow2(shift) * hi, lo / Pow2(8 - shift)) % 256
  }

  /** What a right shift by less than a digit stores, given the digit and the one above it. */
  function ShrDigit(lo: Digit, hi: Digit, shift: nat): Digit
    requires shift < 8
  {
    CutDigit(lo, shift);
    Or(lo / Pow2(shift), Pow2(8 - shift) * hi) % 256
  }

  /** A digit cut at bit k. */
  lemma CutDigit(d: Digit, k: nat)
    requires k <= 8
    ensures 0 <= d / Pow2(k) < Pow2(8 - k)
    ensures Pow2(k) * Pow2(8 - k) == 256
  {
    hide Pow2;
    Pow2Bytes();
    Pow2Sub(8, k);
    DivLess(d, Pow2(k), Pow2(8 - k));
    DivLess(d, Pow2(k), 0);
  }

  lemma OrShifted(hi: Digit, lo: nat, k: nat)
    requires k <= 8 && lo < Pow2(k)
    ensures Or(Pow2(k) * hi, lo) % 256 == Pow2(k) * (hi % Pow2(8 - k)) + lo
    ensures Or(lo, Pow2(k) * hi) % 256 == Pow2(k) * (hi % Pow2(8 - k)) + lo
    ensures Pow2(k) * hi == 256 * (hi / Pow2(8 - k)) + Pow2(k) * (hi % Pow2(8 - k))
  {
    hide *;
    OrDisjoint(hi, lo, k);
    CutDigit(hi, k);
    ScaleSplit(hi, Pow2(k), Pow2(8 - k));
    DivModUnique(Pow2(k) * hi + lo, 256, hi / Pow2(8 - k), Pow2(k) * (hi % Pow2(8 - k)) + lo);
  }

  lemma ShlDigitSum(hi: Digit, lo: Digit, shift: nat)
    requires shift < 8
    ensures ShlDigit(hi, lo, shift) + 256 * (hi / Pow2(8 - shift)) == Pow2(shift) * hi + lo / Pow2(8 - shift)
  {
    hide Or, Pow2;
    CutDigit(lo, 8 - shift);
    OrShifted(hi, lo / Pow2(8 - shift), shift);
  }

  lemma ScaleSum(p: int, q: int, x: int, y: int)
    ensures p * (q * x + y) == (p * q) * x + p * y
  {
  }

  lemma ShrDigitSum(lo: Digit, hi: Digit, shift: nat)
    requires shift < 8
    ensures Pow2(shift) * ShrDigit(lo, hi, shift) + lo % Pow2(shift) == lo + 256 * (hi % Pow2(shift))
  {
    hide Or, Pow2;
    var p, q := Pow2(shift), Pow2(8 - shift);
    CutDigit(lo, shift);
    OrShifted(hi, lo / p, 8 - shift);
    ScaleSum(p, q, hi % p, lo / p);
    DivModDef(lo, p);
  }

  // ----- left shift -----

  method LeftShiftWholeDigits(digits: array<Digit>, shift: nat, width: nat)
    requires 0 < shift <= DigitCount(width) <= digits.Length
    modifies digits
    ensures SameFrom(old(digits[..]), digits[..], DigitCount(width))
    ensures Num(digits[..], DigitCount(width)) == Wrap(Pow2(8 * shift) * old(Num(digits[..], DigitCount(width))), 8 * DigitCount(width))
  {
    var total := DigitCount(width);
    ghost var s := digits[..];
    var i := total;
    while i > shift
      invariant shift <= i <= total
      invariant forall k | i <= k < total :: digits[k] == s[k - shift]
      invariant forall k | 0 <= k < i :: digits[k] == s[k]
      invariant forall k | total <= k < digits.Length :: digits[k] == s[k]
    {
      i := i - 1;
      digits[i] := digits[i - shift];
    }
    i := 0;
    while i < shift
      invariant i <= shift
      invariant forall k | 0 <= k < i :: digits[k] == 0
      invariant forall k | shift <= k < total :: digits[k] == s[k - shift]
      invariant forall k | total <= k < digits.Length :: digits[k] == s[k]
    {
      digits[i] := 0;
      i := i + 1;
    }
    NumMovedUp(s, digits[..], shift, total);
  }

  lemma NumMovedUp(s: seq<Digit>, t: seq<Digit>, shift: nat, n: nat)
    requires shift <= n <= |s| && n <= |t|
    requires forall k | 0 <= k < n :: t[k] == (if k < shift then 0 else s[k - shift])
    ensures Num(t, n) == Wrap(Pow2(8 * shift) * Num(s, n), 8 * n)
  {
    hide *;
    var x := Num(s, n);
    NumAboveZeros(t, shift, n);
    NumEqual(s, t[shift..], n - shift);
    NumLow(s, n - shift, n);
    ScaleWrap(x, 8 * shift, 8 * (n - shift));
  }

  lemma NumAboveZeros(t: seq<Digit>, shift: nat, n: nat)
    requires shift <= n <= |t| && forall k | 0 <= k < shift :: t[k] == 0
    ensures Num(t, n) == Pow2(8 * shift) * Num(t[shift..], n - shift)
  {
    hide *;
    NumZero(t, shift);
    NumSplit(t, shift, n);
  }

  lemma NumLow(s: seq<Digit>, i: nat, n: nat)
    requires i <= n <= |s|
    ensures Num(s, i) == Wrap(Num(s, n), 8 * i)
  {
    hide Num, Pow2;
    NumSplit(s, i, n);
  }

  method LeftShift(digits: array<Digit>, shift: nat, width: nat)
    requires DigitCount(width) <= digits.Length
    modifies digits
    ensures SameFrom(old(digits[..]), digits[..], DigitCount(width))
    ensures Val(digits[..], width) == Wrap(Pow2(shift) * old(Val(digits[..], width)), width)
  {
    hide Num, Pow2, Or, ShlDigit, Wrap;
    var clipped := if shift > width then width else shift;
    var total := DigitCount(width);
    ghost var s := digits[..];
    var whole := clipped / 8;
    if whole > 0 {
      LeftShiftWholeDigits(digits, whole, width);
      WrapWrap(Pow2(8 * whole) * Num(s, total), width, 8 * total);
    }
    var rest := clipped - whole * 8;
    ghost var t := digits[..];
    if rest > 0 {
      ShiftUpBits(digits, rest, width);
    }
    Pow2Bytes();
    LeftShiftVal(s, t, digits[..], whole, rest, clipped, width);
    if shift > width {
      LeftShiftClip(Val(s, width), shift, width);
      LeftShiftClip(Val(s, width), width, width);
    }
  }

  lemma {:induction false} NumShiftedUp(s: seq<Digit>, t: seq<Digit>, shift: nat, n: nat)
    requires 0 < n <= |s| && n <= |t| && 0 < shift < 8
    requires t[0] == Pow2(shift) * s[0] % 256
    requires forall k | 0 < k < n :: t[k] == ShlDigit(s[k], s[k - 1], shift)
    ensures Num(t, n) + Pow2(8 * n) * (s[n - 1] / Pow2(8 - shift)) == Pow2(shift) * Num(s, n)
  {
    hide Num, Pow2, Or, ShlDigit;
    NumStep(s, n - 1);
    NumStep(t, n - 1);
    if n == 1 {
      NumEmpty(s);
      NumEmpty(t);
      Pow2Bytes();
      ShlFirst(s[0], shift);
    } else {
      Pow2Digit(n - 1);
      ShlDigitSum(s[n - 1], s[n - 2], shift);
      NumShiftedUp(s, t, shift, n - 1);
      ShiftUpStep(Pow2(8 * (n - 1)), Pow2(shift), s[n - 1], t[n - 1], s[n - 1] / Pow2(8 - shift), s[n - 2] / Pow2(8 - shift),
                  Num(s, n - 1), Num(t, n - 1));
    }
  }

  lemma ShlFirst(d: Digit, shift: nat)
    requires 0 < shift < 8
    ensures Pow2(shift) * d % 256 + 256 * (d / Pow2(8 - shift)) == Pow2(shift) * d
  {
    hide Pow2, Or;
    ShlDigitSum(d, 0, shift);
    SmallMod(0, Pow2(8 - shift));
    OrZero(Pow2(shift) * d);
  }

  lemma ShiftUpStep(p: int, m: int, d: int, e: int, carry: int, below: int, x: int, y: int)
    requires e + 256 * carry == m * d + below
    requires y + p * below == m * x
    ensures y + p * e + (256 * p) * carry == m * (x + p * d)
  {
    assert p * (e + 256 * carry) == p * e + (256 * p) * carry;
    assert p * (m * d + below) == m * (p * d) + p * below;
    assert m * (x + p * d) == m * x + m * (p * d);
  }

  /** The bit-by-bit rest of a left shift, after the whole digits. */
  method ShiftUpBits(digits: array<Digit>, rest: nat, width: nat)
    requires 0 < width && DigitCount(width) <= digits.Length && 0 < rest < 8
    modifies digits
    ensures SameFrom(old(digits[..]), digits[..], DigitCount(width))
    ensures Val(digits[..], width) == Wrap(Pow2(rest) * old(Num(digits[..], DigitCount(width))), width)
  {
    hide Num, Pow2, Or, ShlDigit, Wrap;
    var total := DigitCount(width);
    ghost var t := digits[..];
    var i := total - 1;
    while i > 0
      invariant 0 <= i < total
      invariant forall k | i < k < total :: digits[k] == ShlDigit(t[k], t[k - 1], rest)
      invariant forall k | 0 <= k <= i :: digits[k] == t[k]
      invariant forall k | total <= k < digits.Length :: digits[k] == t[k]
    {
      digits[i] := ShlDigit(digits[i], digits[i - 1], rest);
      i := i - 1;
    }
    digits[0] := Pow2(rest) * digits[0] % 256;
    NumShiftedUp(t, digits[..], rest, total);
    WrapCarry(Pow2(rest) * Num(t, total), Num(digits[..], total), t[total - 1] / Pow2(8 - rest), width, 8 * total);
  }

  lemma LeftShiftVal(s: seq<Digit>, t: seq<Digit>, u: seq<Digit>, whole: nat, rest: nat, shift: nat, width: nat)
    requires DigitCount(width) <= |s| && DigitCount(width) <= |t| && DigitCount(width) <= |u|
    requires shift == 8 * whole + rest
    requires Val(t, width) == Wrap(Pow2(8 * whole) * Num(s, DigitCount(width)), width)
    requires Val(u, width) == Wrap(Pow2(rest) * Num(t, DigitCount(width)), width)
    ensures Val(u, width) == Wrap(Pow2(shift) * Val(s, width), width)
  {
    hide Num, Pow2, Wrap;
    var x, y := Num(s, DigitCount(width)), Num(t, DigitCount(width));
    var a, b := Pow2(8 * whole), Pow2(rest);
    Pow2Add(8 * whole, rest);
    WrapProduct(b, y, width);
    WrapProduct(b, a * x, width);
    assert b * (a * x) == (a * b) * x;
    WrapProduct(Pow2(shift), x, width);
  }

  lemma WrapCarry(x: int, y: int, carry: int, width: nat, n: nat)
    requires width <= n && y + Pow2(n) * carry == x
    ensures Wrap(y, width) == Wrap(x, width)
  {
    hide *;
    WrapShift(y, carry, n);
    WrapDown(x, y, width, n);
  }

  /** A shift by more than the width clears the value, as a shift by exactly the width does. */
  lemma LeftShiftClip(v: nat, shift: nat, width: nat)
    requires shift >= width
    ensures Wrap(Pow2(shift) * v, width) == 0
  {
    hide Pow2, Wrap;
    var k := Pow2(shift - width) * v;
    Pow2Sub(shift, width);
    assert Pow2(shift) * v == 0 + Pow2(width) * k;
    WrapShift(0, k, width);
    WrapSmall(0, width);
  }

  // ----- right shifts -----

  method RightShiftWholeDigits(digits: array<Digit>, shift: nat, sign: bool, width: nat)
    requires DigitCount(width) <= digits.Length
    modifies digits
    ensures SameFrom(old(digits[..]), digits[..], DigitCount(width))
    ensures forall k | 0 <= k < DigitCount(width) ::
              digits[k] == if k + shift < DigitCount(width) then old(digits[k + shift]) else if sign then 255 else 0
  {
    var total := DigitCount(width);
    var extension: Digit := if sign then 255 else 0;
    ghost var s := digits[..];
    if shift >= total {
      for i := 0 to total
        invariant forall k | 0 <= k < i :: digits[k] == extension
        invariant forall k | total <= k < digits.Length :: digits[k] == s[k]
      {
        digits[i] := extension;
      }
    } else {
      var i := 0;
      while i < total - shift
        invariant i <= total - shift
        invariant forall k | 0 <= k < i :: digits[k] == s[k + shift]
        invariant forall k | i <= k < digits.Length :: digits[k] == s[k]
      {
        digits[i] := digits[i + shift];
        i := i + 1;
      }
      while i < total
        invariant total - shift <= i <= total
        invariant forall k | 0 <= k < total - shift :: digits[k] == s[k + shift]
        invariant forall k | total - shift <= k < i :: digits[k] == extension
        invariant forall k | total <= k < digits.Length :: digits[k] == s[k]
      {
        digits[i] := extension;
        i := i + 1;
      }
    }
  }

  /** Digits of all ones from index i on, when b is 1; zeros when b is 0. */
  lemma {:induction false} NumFill(t: seq<Digit>, i: nat, n: nat, b: nat)
    requires i <= n <= |t| && b <= 1
    requires forall k | i <= k < n :: t[k] == 255 * b
    ensures Num(t, n) == Num(t, i) + b * (Pow2(8 * n) - Pow2(8 * i))
    decreases n
  {
    hide Num, Pow2;
    if n > i {
      NumFill(t, i, n - 1, b);
      NumStep(t, n - 1);
      Pow2Digit(n - 1);
    }
  }

  lemma NumMovedDown(s: seq<Digit>, t: seq<Digit>, shift: nat, n: nat, b: nat)
    requires shift <= n <= |s| && n <= |t| && b <= 1
    requires forall k | 0 <= k < n :: t[k] == (if k + shift < n then s[k + shift] else 255 * b)
    ensures Num(t, n) == Shr(Num(s, n), 8 * shift) + b * (Pow2(8 * n) - Pow2(8 * (n - shift)))
  {
    hide Num, Pow2;
    var m := n - shift;
    NumSplit(s, shift, n);
    NumEqual(s[shift..], t, m);
    NumFill(t, m, n, b);
  }

  /** The signed form: moving whole digits down divides the signed value. */
  lemma SignedMovedDown(s: seq<Digit>, t: seq<Digit>, shift: nat, n: nat)
    requires 0 < n && shift <= n <= |s| && n <= |t|
    requires forall k | 0 <= k < n :: t[k] == (if k + shift < n then s[k + shift] else if s[n - 1] >= 128 then 255 else 0)
    ensures ToSigned(Num(t, n), 8 * n) == Shr(ToSigned(Num(s, n), 8 * n), 8 * shift)
    ensures t[n - 1] >= 128 <==> s[n - 1] >= 128
  {
    hide Num, Pow2, Shr;
    var b := if s[n - 1] >= 128 then 1 else 0;
    NumMovedDown(s, t, shift, n, b);
    NegativeTop(s, n);
    NegativeTop(t, n);
    var q := Pow2(8 * (n - shift));
    Pow2Sub(8 * n, 8 * shift);
    ShrShift(Num(s, n), -(q as int), 8 * shift);
  }

  lemma NegativeTop(s: seq<Digit>, n: nat)
    requires 0 < n <= |s|
    ensures ToSigned(Num(s, n), 8 * n) == Num(s, n) - (if s[n - 1] >= 128 then Pow2(8 * n) else 0)
  {
    hide Num, Pow2;
    NumStep(s, n - 1);
    SignedNum(s, n);
    Pow2Bytes();
    Pow2Digit(n - 1);
  }

  lemma {:induction false} NumShiftedDown(s: seq<Digit>, t: seq<Digit>, shift: nat, n: nat)
    requires n < |s| && n <= |t| && shift < 8
    requires forall k | 0 <= k < n :: t[k] == ShrDigit(s[k], s[k + 1], shift)
    ensures Pow2(shift) * Num(t, n) + Wrap(s[0], shift) == Num(s, n) + Pow2(8 * n) * Wrap(s[n], shift)
  {
    hide Num, Pow2, Or, ShrDigit;
    var m := Pow2(shift);
    if n == 0 {
      NumEmpty(s);
      NumEmpty(t);
      Pow2Bytes();
    } else {
      NumShiftedDown(s, t, shift, n - 1);
      NumStep(s, n - 1);
      NumStep(t, n - 1);
      Pow2Digit(n - 1);
      ShrDigitSum(s[n - 1], s[n], shift);
      ShiftDownStep(Pow2(8 * (n - 1)), m, s[n - 1], t[n - 1], s[n - 1] % m, s[n] % m, Num(s, n - 1), Num(t, n - 1), s[0] % m);
    }
  }

  lemma ShiftDownStep(p: int, m: int, d: int, e: int, lo: int, above: int, x: int, y: int, out: int)
    requires m * e + lo == d + 256 * above
    requires m * y + out == x + p * lo
    ensures m * (y + p * e) + out == (x + p * d) + (256 * p) * above
  {
    assert p * (m * e + lo) == m * (p * e) + p * lo;
    assert p * (d + 256 * above) == p * d + (256 * p) * above;
    assert m * (y + p * e) == m * y + m * (p * e);
  }

  /** The top digit, read as `top`, divides like the rest; the quotient is rounded down. */
  lemma ShiftDownTop(s: seq<Digit>, t: seq<Digit>, shift: nat, n: nat, top: int)
    requires n < |s| && n <= |t| && shift < 8
    requires forall k | 0 <= k < n :: t[k] == ShrDigit(s[k], s[k + 1], shift)
    requires Wrap(top, shift) == Wrap(s[n], shift)
    ensures Num(t, n) + Pow2(8 * n) * Shr(top, shift) == Shr(Num(s, n) + Pow2(8 * n) * top, shift)
  {
    hide Num, Pow2, Or, ShrDigit, Wrap, Shr;
    var m, p, out := Pow2(shift), Pow2(8 * n), Wrap(s[0], shift);
    var q, r := Shr(top, shift), Wrap(top, shift);
    NumShiftedDown(s, t, shift, n);
    ShrSplit(top, shift);
    MulDist(p, r, m * q);
    MulAssoc(p, m, q);
    MulAssoc(m, p, q);
    MulDist(m, Num(t, n), p * q);
    ShrUnique(Num(s, n) + p * top, Num(t, n) + p * q, out, shift);
  }

  /** The loop both right shifts run over the digits below the top one. */
  method ShiftDownBits(digits: array<Digit>, shift: nat, total: nat)
    requires 0 < total <= digits.Length && 0 < shift < 8
    modifies digits
    ensures forall k | 0 <= k < total - 1 :: digits[k] == ShrDigit(old(digits[k]), old(digits[k + 1]), shift)
    ensures forall k | total - 1 <= k < digits.Length :: digits[k] == old(digits[k])
  {
    hide *;
    for i := 0 to total - 1
      invariant forall k | 0 <= k < i :: digits[k] == ShrDigit(old(digits[k]), old(digits[k + 1]), shift)
      invariant forall k | i <= k < digits.Length :: digits[k] == old(digits[k])
    {
      digits[i] := ShrDigit(digits[i], digits[i + 1], shift);
    }
  }

  method RightShift(digits: array<Digit>, shift: nat, width: nat)
    requires 0 < width && DigitCount(width) <= digits.Length
    modifies digits
    ensures SameFrom(old(digits[..]), digits[..], DigitCount(width))
    ensures Num(digits[..], DigitCount(width)) == Shr(old(Val(digits[..], width)), shift)
    ensures Val(digits[..], width) == Shr(old(Val(digits[..], width)), shift)
  {
    hide Num, Pow2, Or, And, ShrDigit, Wrap, Shr;
    var clipped := if shift > width then width else shift;
    var total := DigitCount(width);
    var whole := clipped / 8;
    var maskOffset := width - (total - 1) * 8;
    ghost var s := digits[..];
    TopDigit(width);
    MaskedTop(s, width);
    digits[total - 1] := And(digits[total - 1], Pow2(maskOffset) - 1);
    ghost var t := digits[..];
    assert t == s[TopIndex(width) := t[TopIndex(width)]];
    if whole > 0 {
      RightShiftWholeDigits(digits, whole, false, width);
      NumMovedDown(t, digits[..], whole, total, 0);
    }
    var rest := clipped - whole * 8;
    RightShiftVal(Val(s, width), whole, rest, clipped, shift, width);
    if rest > 0 {
      ShiftWithinDigits(digits, rest, width, Val(s, width), whole);
    }
    WrapSmall(Shr(Val(s, width), shift), width);
  }

  /** The bit-by-bit rest of a right shift, after the whole digits. */
  method ShiftWithinDigits(digits: array<Digit>, rest: nat, width: nat, ghost v: nat, ghost whole: nat)
    requires 0 < width && DigitCount(width) <= digits.Length && 0 < rest < 8
    requires v < Pow2(width) && Num(digits[..], DigitCount(width)) == Shr(v, 8 * whole)
    modifies digits
    ensures SameFrom(old(digits[..]), digits[..], DigitCount(width))
    ensures Num(digits[..], DigitCount(width)) == Shr(old(Num(digits[..], DigitCount(width))), rest)
  {
    hide Num, Pow2, Or, And, ShrDigit, Wrap, Shr;
    var total := DigitCount(width);
    var maskOffset := width - (total - 1) * 8;
    TopDigit(width);
    ghost var u := digits[..];
    ShiftDownBits(digits, rest, total);
    TopStays(u, width, v, whole);
    digits[total - 1] := And(digits[total - 1], Pow2(maskOffset) - 1);
    digits[total - 1] := ShiftedDigit(digits[total - 1], rest);
    LogicalTop(u, digits[..], rest, total);
  }

  function ShiftedDigit(d: Digit, shift: nat): (r: Digit)
    requires shift < 8
    ensures r == Shr(d, shift)
  {
    ShrNat(d, shift);
    Shr(d, shift)
  }

  lemma MaskedTop(s: seq<Digit>, width: nat)
    requires 0 < width && DigitCount(width) <= |s|
    ensures var i, o := TopIndex(width), TopOffset(width) + 1;
            And(s[i], Pow2(o) - 1) < 256 &&
            Num(s[i := And(s[i], Pow2(o) - 1)], i + 1) == Val(s, width)
  {
    hide Num, Pow2, And;
    var i, o := TopIndex(width), TopOffset(width) + 1;
    TopDigit(width);
    ValTop(s, width);
    AndMask(s[i], o);
    NumUpdate(s, i, s[i] % Pow2(o));
  }

  /** A quotient of a w-bit value still fits under the mask. */
  lemma TopStays(u: seq<Digit>, width: nat, v: nat, whole: nat)
    requires 0 < width && DigitCount(width) <= |u| && v < Pow2(width)
    requires Num(u, DigitCount(width)) == Shr(v, 8 * whole)
    ensures And(u[TopIndex(width)], Pow2(TopOffset(width) + 1) - 1) == u[TopIndex(width)]
  {
    hide Num, Pow2, And, Shr;
    var i, o := TopIndex(width), TopOffset(width) + 1;
    TopDigit(width);
    NumStep(u, i);
    ShrNat(v, 8 * whole);
    Pow2Add(8 * i, o);
    MulCancel(u[i], Pow2(o), Pow2(8 * i));
    AndMask(u[i], o);
    SmallMod(u[i], Pow2(o));
  }

  lemma LogicalTop(u: seq<Digit>, t: seq<Digit>, shift: nat, n: nat)
    requires 0 < n <= |u| && n <= |t| && shift < 8
    requires forall k | 0 <= k < n - 1 :: t[k] == ShrDigit(u[k], u[k + 1], shift)
    requires t[n - 1] == Shr(u[n - 1], shift)
    ensures Num(t, n) == Shr(Num(u, n), shift)
  {
    hide Num, Pow2, ShrDigit, Shr;
    NumStep(u, n - 1);
    NumStep(t, n - 1);
    ShiftDownTop(u, t, shift, n - 1, u[n - 1]);
  }

  lemma RightShiftVal(v: nat, whole: nat, rest: nat, clipped: nat, shift: nat, width: nat)
    requires v < Pow2(width) && clipped == 8 * whole + rest
    requires clipped == if shift > width then width else shift
    ensures Shr(Shr(v, 8 * whole), rest) == Shr(v, shift)
    ensures Shr(v, 0) == v && Shr(Shr(v, 8 * whole), 0) == Shr(v, 8 * whole)
    ensures 0 <= Shr(v, shift) < Pow2(width)
  {
    hide Pow2, Shr;
    ShrShr(v, 8 * whole, rest);
    ShrNat(v, shift);
    ShrZero(v);
    ShrZero(Shr(v, 8 * whole));
    if shift > width {
      Pow2Mono(width, shift);
      ShrNat(v, width);
    }
  }

  // ----- arithmetic right shift -----

  /** The top digit after the shift and the second mask. */
  function ArithmeticTop(d: Digit, negative: bool, offset: nat, shift: nat): (r: Digit)
    requires 0 < shift < 8 && offset < 8
  {
    var shifted := ShiftedDigit(d, shift);
    var maskOffset := if offset >= shift then offset - shift + 1 else 0;
    if negative then
      SetHighBound(shifted, maskOffset);
      Or(shifted, 256 - Pow2(maskOffset))
    else
      And(shifted, Pow2(maskOffset) - 1)
  }

  lemma ShrLower(d: int, shift: nat)
    requires shift < 8
    ensures Shr(d - 256, shift) == Shr(d, shift) - Pow2(8 - shift)
  {
    hide Pow2, Shr;
    Pow2Bytes();
    Pow2Sub(8, shift);
    var q := Pow2(8 - shift);
    assert Pow2(shift) * -(q as int) == -256;
    ShrShift(d, -(q as int), shift);
  }

  lemma ArithmeticTopNegative(d: Digit, offset: nat, shift: nat)
    requires 0 < shift < 8 && offset < 8 && d >= 256 - Pow2(offset)
    ensures ArithmeticTop(d, true, offset, shift) == Shr((d as int) - 256, shift) + 256
  {
    hide Or, And, Pow2, Shr, Wrap, ShiftedDigit;
    var mo := if offset >= shift then offset - shift + 1 else 0;
    ShrNat(d, shift);
    SetHighBound(Shr(d, shift), mo);
    ShrLower(d, shift);
    NegativeQuotient(d, offset, shift, mo);
  }

  lemma ArithmeticTopPositive(d: Digit, offset: nat, shift: nat)
    requires 0 < shift < 8 && offset < 8 && d < Pow2(offset)
    ensures ArithmeticTop(d, false, offset, shift) == Shr(d, shift)
  {
    hide Or, And, Pow2, Shr;
    var mo := if offset >= shift then offset - shift + 1 else 0;
    ShrNat(d, shift);
    PositiveQuotient(d, offset, shift, mo);
    AndMask(Shr(d, shift), mo);
    SmallMod(Shr(d, shift), Pow2(mo));
  }

  /** On a sign-extended digit that is the signed quotient, rounded down. */
  lemma ArithmeticTopValue(d: Digit, negative: bool, offset: nat, shift: nat)
    requires 0 < shift < 8 && offset < 8
    requires if negative then d >= 256 - Pow2(offset) else d < Pow2(offset)
    ensures ToSigned(ArithmeticTop(d, negative, offset, shift), 8) == Shr(ToSigned(d, 8), shift)
  {
    hide Or, And, Pow2, Shr, ArithmeticTop;
    Pow2Bytes();
    Pow2Mono(offset, 7);
    if negative {
      ArithmeticTopNegative(d, offset, shift);
      ShrNegative((d as int) - 256, shift);
    } else {
      ArithmeticTopPositive(d, offset, shift);
      ShrNat(d, shift);
    }
  }

  lemma PositiveQuotient(d: Digit, offset: nat, shift: nat, mo: nat)
    requires 0 < shift < 8 && offset < 8 && d < Pow2(offset)
    requires mo == if offset >= shift then offset - shift + 1 else 0
    ensures 0 <= Shr(d, shift) < Pow2(mo)
  {
    hide Pow2, Shr;
    ShrNat(d, shift);
    Pow2Mono(offset, if offset >= shift then shift + mo else shift);
    if offset >= shift {
      ShrBelow(d, shift, mo);
    }
  }

  /** All the bits the second mask sets are ones already, up to the shift. */
  lemma NegativeQuotient(d: Digit, offset: nat, shift: nat, mo: nat)
    requires 0 < shift < 8 && offset < 8 && d >= 256 - Pow2(offset)
    requires mo == if offset >= shift then offset - shift + 1 else 0
    ensures Shr(d, shift) == Pow2(8 - shift) - Pow2(mo) + Wrap(Shr(d, shift), mo)
  {
    hide Pow2, Shr, Wrap;
    ShrLower(d, shift);
    Pow2Bytes();
    var r := Shr((d as int) - 256, shift);
    assert Shr(d, shift) == r + Pow2(8 - shift);
    QuotientRange((d as int) - 256, offset, shift, mo);
    Pow2Sub(8 - shift, mo);
    var h := Pow2(8 - shift - mo);
    MulDist(Pow2(mo), h, -1);
    WrapShift(r + Pow2(mo), h - 1, mo);
    WrapSmall(r + Pow2(mo), mo);
  }

  lemma QuotientRange(e: int, offset: nat, shift: nat, mo: nat)
    requires -(Pow2(offset) as int) <= e < 0
    requires mo == if offset >= shift then offset - shift + 1 else 0
    ensures -(Pow2(mo) as int) <= Shr(e, shift) < 0
  {
    hide Pow2;
    var p := Pow2(shift);
    Pow2Mono(offset, shift + mo);
    Pow2Add(shift, mo);
    DivLess(e, p, 0);
    DivLess(e, p, -(Pow2(mo) as int));
    assert -(Pow2(mo) as int) * p == -((p * Pow2(mo)) as int);
  }

  /** The bits left over after whole digits: the top digit keeps the sign. */
  method ShiftSignedBits(digits: array<Digit>, shift: nat, negative: bool, offset: nat, total: nat)
    requires 0 < total <= digits.Length && 0 < shift < 8 && offset < 8
    requires if negative then digits[total - 1] >= 256 - Pow2(offset) else digits[total - 1] < Pow2(offset)
    modifies digits
    ensures forall k | total <= k < digits.Length :: digits[k] == old(digits[k])
    ensures ToSigned(Num(digits[..], total), 8 * total) == Shr(old(ToSigned(Num(digits[..], total), 8 * total)), shift)
  {
    hide Num, Pow2, Or, And, ShrDigit, Wrap, Shr, ArithmeticTop, ToSigned;
    ghost var u := digits[..];
    ShiftDownBits(digits, shift, total);
    digits[total - 1] := ArithmeticTop(digits[total - 1], negative, offset, shift);
    ArithmeticTopValue(u[total - 1], negative, offset, shift);
    SignedShiftedDown(u, digits[..], shift, total);
  }

  method ArithmeticRightShift(digits: array<Digit>, shift: nat, width: nat)
    requires DigitCount(width) <= digits.Length
    modifies digits
    ensures SameFrom(old(digits[..]), digits[..], DigitCount(width))
    ensures Num(digits[..], DigitCount(width)) == Wrap(Shr(old(SVal(digits[..], width)), shift), 8 * DigitCount(width))
    ensures SVal(digits[..], width) == Shr(old(SVal(digits[..], width)), shift)
  {
    hide Num, Pow2, Or, And, ShrDigit, Wrap, Shr, SignMask, ArithmeticTop, SVal, Bit, ToSigned;
    if width == 0 {
      EmptySigned(digits[..], shift);
      return;
    }
    var clipped := if shift > width then width else shift;
    var total := DigitCount(width);
    var offset := TopOffset(width);
    ghost var s := digits[..];
    TopDigit(width);
    var negative := Bit(digits[total - 1], offset) == 1;
    SignMaskValue(digits[total - 1], offset);
    digits[total - 1] := SignMask(digits[total - 1], offset);
    ghost var t := digits[..];
    assert t == s[TopIndex(width) := t[TopIndex(width)]];
    SignExtendTop(s, t, width);
    SignFills(t[total - 1], negative, offset);
    var whole := clipped / 8;
    if whole > 0 {
      RightShiftWholeDigits(digits, whole, negative, width);
      SignedMovedDown(t, digits[..], whole, total);
    }
    var rest := clipped - whole * 8;
    ghost var u := digits[..];
    ArithmeticVal(SVal(s, width), whole, rest, clipped, shift, width);
    if rest > 0 {
      SignFills(u[total - 1], negative, offset);
      ShiftSignedBits(digits, rest, negative, offset, total);
    }
    SignedDigits(s, digits[..], width, shift);
  }

  /** A digit filled with the sign has that sign, and stays filled when whole digits move over it. */
  lemma SignFills(d: Digit, negative: bool, offset: nat)
    requires offset < 8
    ensures Pow2(offset) <= 128
    ensures (if negative then d >= 256 - Pow2(offset) else d < Pow2(offset)) ==> (d >= 128 <==> negative)
    ensures 0 < Pow2(offset)
  {
    hide Pow2;
    Pow2Bytes();
    Pow2Mono(offset, 7);
  }

  lemma EmptySigned(s: seq<Digit>, shift: nat)
    ensures SVal(s, 0) == 0 && Num(s, 0) == Wrap(Shr(SVal(s, 0), shift), 0) && SVal(s, 0) == Shr(SVal(s, 0), shift)
  {
    ShrNat(0, shift);
  }

  lemma SignedShiftedDown(u: seq<Digit>, t: seq<Digit>, shift: nat, n: nat)
    requires 0 < n <= |u| && n <= |t| && 0 < shift < 8
    requires forall k | 0 <= k < n - 1 :: t[k] == ShrDigit(u[k], u[k + 1], shift)
    requires ToSigned(t[n - 1], 8) == Shr(ToSigned(u[n - 1], 8), shift)
    ensures ToSigned(Num(t, n), 8 * n) == Shr(ToSigned(Num(u, n), 8 * n), shift)
  {
    hide Num, Pow2, ShrDigit, Shr, Wrap;
    SignedNum(u, n);
    SignedNum(t, n);
    Pow2Bytes();
    SignedRange(u[n - 1], 8);
    WrapWrap(ToSigned(u[n - 1], 8), shift, 8);
    ShiftDownTop(u, t, shift, n - 1, ToSigned(u[n - 1], 8));
  }

  lemma ArithmeticVal(x: int, whole: nat, rest: nat, clipped: nat, shift: nat, width: nat)
    requires 0 < width && FitsSigned(x, width) && clipped == 8 * whole + rest
    requires clipped == if shift > width then width else shift
    ensures Shr(Shr(x, 8 * whole), rest) == Shr(x, shift)
    ensures Shr(x, 0) == x && Shr(Shr(x, 8 * whole), 0) == Shr(x, 8 * whole)
    ensures FitsSigned(Shr(x, shift), width)
  {
    hide Pow2, Shr;
    ShrShr(x, 8 * whole, rest);
    ShrZero(x);
    ShrZero(Shr(x, 8 * whole));
    Pow2Mono(width - 1, width);
    if shift > width {
      Pow2Mono(width, shift);
      ShrBig(x, width);
      ShrBig(x, shift);
    } else if x >= 0 {
      ShrNat(x, shift);
    } else {
      ShrNegative(x, shift);
    }
  }

  lemma ShrNegative(x: int, k: nat)
    requires x < 0
    ensures x <= Shr(x, k) < 0
  {
    hide Pow2;
    var p := Pow2(k);
    DivLess(x, p, 0);
    DivLess(x, p, x);
    assert x * p <= x by {
      MulMono(1, p, -x);
    }
  }

  lemma SignedDigits(s: seq<Digit>, t: seq<Digit>, width: nat, shift: nat)
    requires 0 < width && DigitCount(width) <= |s| && DigitCount(width) <= |t|
    requires ToSigned(Num(t, DigitCount(width)), 8 * DigitCount(width)) == Shr(SVal(s, width), shift)
    requires FitsSigned(Shr(SVal(s, width), shift), width)
    ensures Num(t, DigitCount(width)) == Wrap(Shr(SVal(s, width), shift), 8 * DigitCount(width))
    ensures SVal(t, width) == Shr(SVal(s, width), shift)
  {
    hide Num, Pow2, Shr, Wrap, SVal, FitsSigned;
    NumBound(t, DigitCount(width));
    SignedRange(Num(t, DigitCount(width)), 8 * DigitCount(width));
    SignedAtWidth(t, width, Shr(SVal(s, width), shift));
  }

  // ----- composition -----

  /** Consecutive shifts at one width are one shift by the sum. */
  lemma ShiftsCompose(v: nat, width: nat, i: nat, j: nat)
    ensures Wrap(Pow2(j) * Wrap(Pow2(i) * v, width), width) == Wrap(Pow2(i + j) * v, width)
    ensures Shr(Shr(v, i), j) == Shr(v, i + j)
    ensures Shr(Shr(ToSigned(v, width), i), j) == Shr(ToSigned(v, width), i + j)
  {
    hide *;
    Pow2Add(i, j);
    WrapProduct(Pow2(j), Pow2(i) * v, width);
    assert Pow2(j) * (Pow2(i) * v) == (Pow2(i) * Pow2(j)) * v;
    ShrShr(v, i, j);
    ShrShr(ToSigned(v, width), i, j);
  }

  /** Shifting twice and shifting once by the sum leave the same value. */
  method LeftShiftsAgree(once: array<Digit>, twice: array<Digit>, i: nat, j: nat, width: nat)
    requires once != twice && DigitCount(width) <= once.Length && DigitCount(width) <= twice.Length
    requires Val(once[..], width) == Val(twice[..], width)
    modifies once, twice
    ensures Val(once[..], width) == Val(twice[..], width)
  {
    hide Num, Pow2, Wrap, Shr, Val, SVal, SameFrom;
    ShiftsCompose(Val(twice[..], width), width, i, j);
    LeftShift(twice, i, width);
    LeftShift(twice, j, width);
    LeftShift(once, i + j, width);
  }

  method RightShiftsAgree(once: array<Digit>, twice: array<Digit>, i: nat, j: nat, width: nat)
    requires once != twice && 0 < width && DigitCount(width) <= once.Length && DigitCount(width) <= twice.Length
    requires Val(once[..], width) == Val(twice[..], width)
    modifies once, twice
    ensures Val(once[..], width) == Val(twice[..], width)
  {
    hide Num, Pow2, Wrap, Shr, Val, SVal, SameFrom;
    ShiftsCompose(Val(twice[..], width), width, i, j);
    RightShift(twice, i, width);
    RightShift(twice, j, width);
    RightShift(once, i + j, width);
  }

  method ArithmeticShiftsAgree(once: array<Digit>, twice: array<Digit>, i: nat, j: nat, width: nat)
    requires once != twice && DigitCount(width) <= once.Length && DigitCount(width) <= twice.Length
    requires SVal(once[..], width) == SVal(twice[..], width)
    modifies once, twice
    ensures SVal(once[..], width) == SVal(twice[..], width)
  {
    hide Num, Pow2, Wrap, Shr, Val, ToSigned, SameFrom;
    ShiftsCompose(Val(twice[..], width), width, i, j);
    ArithmeticRightShift(twice, i, width);
    ArithmeticRightShift(twice, j, width);
    ArithmeticRightShift(once, i + j, width);
  }
}
