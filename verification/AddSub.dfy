/** Addition, subtraction and negation in place (kefir_bigint/addsub.h). */
module AddSub {
  import opened Powers
  import opened Bitwise
  import opened Digits
  import opened BitwiseDigits

  // ----- the carry and borrow chains, one digit at a time -----

  lemma CarryStep(p: nat, lo: int, carry: int, a: int, b: int, l: int, r: int)
    requires lo + p * carry == a + b
    ensures var sum: int := carry + l + r;
            (lo + p * (sum % 256)) + (256 * p) * (sum / 256) == (a + p * l) + (b + p * r)
  {
    var sum: int := carry + l + r;
    assert sum == 256 * (sum / 256) + sum % 256;
    assert p * sum == p * carry + p * l + p * r;
    assert p * sum == p * (256 * (sum / 256)) + p * (sum % 256);
    assert p * (256 * (sum / 256)) == (256 * p) * (sum / 256);
  }

  /** The difference is formed in a 32-bit unsigned word; bit 8 of the wrapped word is the borrow. */
  lemma BorrowWord(l: Digit, r: Digit, borrow: nat)
    requires borrow <= 1
    ensures var diff := (l - r - borrow) % 0x1_0000_0000;
            diff % 256 == (l - r - borrow) % 256 &&
            diff / 256 % 2 == (if l < r + borrow then 1 else 0) &&
            l - r - borrow == diff % 256 - 256 * (diff / 256 % 2)
  {
  }

  lemma BorrowStep(p: nat, lo: int, borrow: int, a: int, b: int, l: int, r: int, d: int, next: int)
    requires lo - p * borrow == a - b
    requires l - r - borrow == d - 256 * next
    ensures (lo + p * d) - (256 * p) * next == (a + p * l) - (b + p * r)
  {
    assert p * (l - r - borrow) == p * l - p * r - p * borrow;
    assert p * (d - 256 * next) == p * d - (256 * p) * next;
  }

  /** A digit-array result that is right up to a multiple of 2^(8n) is right at the width. */
  lemma CongruentVal(s: seq<Digit>, width: nat, x: int, k: int)
    requires DigitCount(width) <= |s|
    requires Num(s, DigitCount(width)) + Pow2(8 * DigitCount(width)) * k == x
    ensures Val(s, width) == Wrap(x, width)
  {
    hide Num, Pow2;
    CongruentNum(Num(s, DigitCount(width)), k, width, 8 * DigitCount(width));
  }

  lemma CongruentNum(v: int, k: int, width: nat, n: nat)
    requires width <= n
    ensures Wrap(v + Pow2(n) * k, width) == Wrap(v, width)
  {
    hide Pow2, Wrap;
    Pow2Sub(n, width);
    MulAssoc(Pow2(width), Pow2(n - width), k);
    WrapShift(v, Pow2(n - width) * k, width);
  }

  // ----- addition of one digit, negation -----

  method AddDigit(lhs: array<Digit>, rhsDigit: Digit, width: nat)
    requires DigitCount(width) <= lhs.Length
    modifies lhs
    ensures SameFrom(old(lhs[..]), lhs[..], DigitCount(width))
    ensures Val(lhs[..], width) == Wrap(old(Val(lhs[..], width)) + rhsDigit, width)
  {
    hide Pow2, Num;
    var total := DigitCount(width);
    ghost var s := lhs[..];
    ghost var z: seq<Digit> := seq(total, i => if i == 0 then rhsDigit else 0);
    var carry: int := 0;
    NumEmpty(s);
    NumEmpty(z);
    for i := 0 to total
      invariant 0 <= carry <= 1
      invariant Num(lhs[..], i) + Pow2(8 * i) * carry == Num(s, i) + Num(z, i)
      invariant forall k | i <= k < lhs.Length :: lhs[k] == s[k]
    {
      var digit := if i == 0 then rhsDigit else 0;
      var sum: int := carry + lhs[i] + digit;
      ghost var t := lhs[..];
      CarryStep(Pow2(8 * i), Num(t, i), carry, Num(s, i), Num(z, i), lhs[i], digit);
      Pow2Digit(i);
      NumStep(s, i);
      NumStep(z, i);
      NumUpdate(t, i, sum % 256);
      lhs[i] := sum % 256;
      assert lhs[..] == t[i := lhs[i]];
      carry := sum / 256;
    }
    AddVal(s, lhs[..], width, rhsDigit, carry, z);
  }

  lemma AddVal(s: seq<Digit>, t: seq<Digit>, width: nat, d: Digit, carry: nat, z: seq<Digit>)
    requires DigitCount(width) <= |s| && DigitCount(width) <= |t| && |z| == DigitCount(width)
    requires forall i | 0 <= i < |z| :: z[i] == (if i == 0 then d else 0)
    requires Num(t, |z|) + Pow2(8 * |z|) * carry == Num(s, |z|) + Num(z, |z|)
    ensures Val(t, width) == (Val(s, width) + d) % Pow2(width)
  {
    hide Num, Pow2;
    CongruentVal(t, width, Num(s, |z|) + Num(z, |z|), carry);
    ModAdd(Num(s, |z|), d, Pow2(width));
    if width > 0 {
      LowDigit(z, |z|);
    } else {
      Pow2Bytes();
    }
  }

  lemma {:induction false} LowDigit(z: seq<Digit>, n: nat)
    requires 0 < n <= |z|
    requires forall i | 0 < i < |z| :: z[i] == 0
    ensures Num(z, n) == z[0]
  {
    if n > 1 {
      LowDigit(z, n - 1);
    }
  }

  method Negate(digits: array<Digit>, width: nat)
    requires DigitCount(width) <= digits.Length
    modifies digits
    ensures SameFrom(old(digits[..]), digits[..], DigitCount(width))
    ensures Val(digits[..], width) == Wrap(-(old(Val(digits[..], width)) as int), width)
  {
    hide *;
    ghost var s := digits[..];
    Invert(digits, width);
    AddDigit(digits, 1, width);
    NegateVal(Val(s, width), width);
    SameFromChain();
  }

  lemma NegateVal(v: int, width: nat)
    ensures Wrap(Pow2(width) - 1 - v + 1, width) == Wrap(-v, width)
  {
    WrapShift(-v, 1, width);
  }

  /** Negating a representable value gives its opposite, except the minimum, which stays put. */
  lemma NegateSigned(v: nat, width: nat)
    requires 0 < width && v < Pow2(width)
    ensures var x := ToSigned(v, width);
            ToSigned(Wrap(-(v as int), width), width) == (if x == -(Pow2(width - 1) as int) then x else -x)
  {
    var x := ToSigned(v, width);
    SignedRange(v, width);
    ModSub(0, x, Pow2(width));
    assert -(v as int) % Pow2(width) == Wrap(-x, width);
    if x == -(Pow2(width - 1) as int) {
      SmallMod(Pow2(width - 1), Pow2(width));
    } else {
      SignedWrap(-x, width);
    }
  }

  lemma SameFromChain()
    ensures forall s: seq<Digit>, t: seq<Digit>, u: seq<Digit>, n: nat ::
              SameFrom(s, t, n) && SameFrom(t, u, n) ==> SameFrom(s, u, n)
  {
  }

  // ----- equal widths -----

  method Add(lhs: array<Digit>, rhs: array<Digit>, width: nat)
    requires DigitCount(width) <= lhs.Length && DigitCount(width) <= rhs.Length
    modifies lhs
    ensures SameFrom(old(lhs[..]), lhs[..], DigitCount(width))
    ensures Val(lhs[..], width) == Wrap(old(Val(lhs[..], width)) + old(Val(rhs[..], width)), width)
  {
    hide Pow2, Num;
    var total := DigitCount(width);
    ghost var s, r := lhs[..], rhs[..];
    var carry: int := 0;
    NumEmpty(s);
    NumEmpty(r);
    for i := 0 to total
      invariant 0 <= carry <= 1
      invariant Num(lhs[..], i) + Pow2(8 * i) * carry == Num(s, i) + Num(r, i)
      invariant forall k | i <= k < lhs.Length :: lhs[k] == s[k]
      invariant forall k | i <= k < rhs.Length :: rhs[k] == r[k]
    {
      var sum: int := carry + lhs[i] + rhs[i];
      ghost var t := lhs[..];
      CarryStep(Pow2(8 * i), Num(t, i), carry, Num(s, i), Num(r, i), lhs[i], rhs[i]);
      Pow2Digit(i);
      NumStep(s, i);
      NumStep(r, i);
      NumUpdate(t, i, sum % 256);
      lhs[i] := sum % 256;
      assert lhs[..] == t[i := lhs[i]];
      carry := sum / 256;
    }
    CongruentVal(lhs[..], width, Num(s, total) + Num(r, total), carry);
    SumVal(Num(s, total), Num(r, total), Pow2(width));
  }

  lemma SumVal(x: int, y: int, m: int)
    requires 0 < m
    ensures (x + y) % m == (x % m + y % m) % m
    ensures (x - y) % m == (x % m - y % m) % m
  {
    ModAdd(x, y, m);
    ModAdd(x % m, y, m);
    ModSub(x, y, m);
    ModSub(x % m, y, m);
  }

  /** One digit of a subtraction: the digits so far, less the borrow, stay the difference so far. */
  lemma SubtractStep(s: seq<Digit>, z: seq<Digit>, t: seq<Digit>, i: nat, borrow: nat, diff: int)
    requires i < |s| && i < |z| && i < |t| && t[i] == s[i] && borrow <= 1
    requires Num(t, i) - Pow2(8 * i) * borrow == Num(s, i) - Num(z, i)
    requires diff == (t[i] - z[i] - borrow) % 0x1_0000_0000
    ensures Num(t[i := diff % 256], i + 1) - Pow2(8 * (i + 1)) * (diff / 256 % 2) == Num(s, i + 1) - Num(z, i + 1)
  {
    hide *;
    BorrowWord(t[i], z[i], borrow);
    BorrowStep(Pow2(8 * i), Num(t, i), borrow, Num(s, i), Num(z, i), t[i], z[i], diff % 256, diff / 256 % 2);
    Pow2Digit(i);
    NumStep(s, i);
    NumStep(z, i);
    NumUpdate(t, i, diff % 256);
  }

  method Subtract(lhs: array<Digit>, rhs: array<Digit>, width: nat)
    requires DigitCount(width) <= lhs.Length && DigitCount(width) <= rhs.Length
    modifies lhs
    ensures SameFrom(old(lhs[..]), lhs[..], DigitCount(width))
    ensures Val(lhs[..], width) == Wrap(old(Val(lhs[..], width)) - old(Val(rhs[..], width)), width)
  {
    hide Pow2, Num;
    var total := DigitCount(width);
    ghost var s, r := lhs[..], rhs[..];
    var borrow: int := 0;
    NumEmpty(s);
    NumEmpty(r);
    for i := 0 to total
      invariant 0 <= borrow <= 1
      invariant Num(lhs[..], i) - Pow2(8 * i) * borrow == Num(s, i) - Num(r, i)
      invariant forall k | i <= k < lhs.Length :: lhs[k] == s[k]
      invariant forall k | i <= k < rhs.Length :: rhs[k] == r[k]
    {
      var diff: int := (lhs[i] - rhs[i] - borrow) % 0x1_0000_0000;
      ghost var t := lhs[..];
      SubtractStep(s, r, t, i, borrow, diff);
      lhs[i] := diff % 256;
      assert lhs[..] == t[i := lhs[i]];
      borrow := diff / 256 % 2;
    }
    CongruentVal(lhs[..], width, Num(s, total) - Num(r, total), -borrow);
    SumVal(Num(s, total), Num(r, total), Pow2(width));
  }

  // ----- a right operand of its own width, extended with zeros -----

  /** Digit i of the right operand once its padding is masked off and zeros follow. */
  function ZeroExtended(r: seq<Digit>, width: nat, i: nat): Digit
    requires DigitCount(width) <= |r|
  {
    var total := DigitCount(width);
    if i + 1 < total then
      r[i]
    else if i + 1 == total then
      And(r[i], Pow2(width - (width - 1) / 8 * 8) - 1)
    else
      0
  }

  lemma ZeroExtendedAt(r: seq<Digit>, t: seq<Digit>, width: nat, i: nat)
    requires DigitCount(width) <= |r| == |t| && (i < |r| ==> r[i] == t[i])
    ensures ZeroExtended(r, width, i) == ZeroExtended(t, width, i)
  {
    hide And;
  }

  ghost function ZeroExtendedDigits(r: seq<Digit>, width: nat, n: nat): (z: seq<Digit>)
    requires DigitCount(width) <= |r|
    ensures |z| == n && forall i | 0 <= i < n :: z[i] == ZeroExtended(r, width, i)
  {
    seq(n, i requires 0 <= i < n => ZeroExtended(r, width, i))
  }

  /** The first n extended digits hold the operand's value modulo 2^(8n). */
  lemma {:induction false} ZeroExtendedNum(r: seq<Digit>, width: nat, z: seq<Digit>, n: nat)
    requires DigitCount(width) <= |r| && n <= |z|
    requires forall i | 0 <= i < n :: z[i] == ZeroExtended(r, width, i)
    ensures Num(z, n) == Val(r, width) % Pow2(8 * n)
  {
    hide Num, Pow2;
    var c := DigitCount(width);
    if n < c {
      forall k | 0 <= k < n
        ensures z[k] == r[k]
      {
      }
      NumEqual(r, z, n);
      NumSplit(r, n, c);
      TopDigit(width);
      ModModPow2(Num(r, c), 8 * n, width);
    } else if n == c {
      ZeroExtendedTop(r, width, z);
    } else {
      ZeroExtendedNum(r, width, z, n - 1);
      NumStep(z, n - 1);
      Pow2Mono(width, 8 * (n - 1));
      Pow2Mono(width, 8 * n);
      SmallMod(Val(r, width), Pow2(8 * (n - 1)));
      SmallMod(Val(r, width), Pow2(8 * n));
    }
  }

  lemma ZeroExtendedTop(r: seq<Digit>, width: nat, z: seq<Digit>)
    requires DigitCount(width) <= |r| && DigitCount(width) <= |z|
    requires forall i | 0 <= i < DigitCount(width) :: z[i] == ZeroExtended(r, width, i)
    ensures Num(z, DigitCount(width)) == Val(r, width) % Pow2(8 * DigitCount(width))
  {
    hide Num, Pow2, ZeroExtended;
    var c := DigitCount(width);
    Pow2Mono(width, 8 * c);
    SmallMod(Val(r, width), Pow2(8 * c));
    if width == 0 {
      NumEmpty(z);
      Pow2Bytes();
    } else {
      ZeroExtendedWhole(r, width, z);
    }
  }

  lemma ZeroExtendedWhole(r: seq<Digit>, width: nat, z: seq<Digit>)
    requires 0 < width && DigitCount(width) <= |r| && DigitCount(width) <= |z|
    requires forall i | 0 <= i < DigitCount(width) :: z[i] == ZeroExtended(r, width, i)
    ensures Num(z, DigitCount(width)) == Val(r, width)
  {
    hide Num, Pow2, And, Val;
    var i, o := TopIndex(width), TopOffset(width) + 1;
    ValTop(r, width);
    AndMask(r[i], o);
    NumEqual(r, z, i);
    NumStep(z, i);
  }

  method AddZeroExtend(lhs: array<Digit>, rhs: array<Digit>, lhsWidth: nat, rhsWidth: nat)
    requires DigitCount(lhsWidth) <= lhs.Length && DigitCount(rhsWidth) <= rhs.Length
    modifies lhs
    ensures SameFrom(old(lhs[..]), lhs[..], DigitCount(lhsWidth))
    ensures Val(lhs[..], lhsWidth) == Wrap(old(Val(lhs[..], lhsWidth)) + old(Val(rhs[..], rhsWidth)), lhsWidth)
  {
    hide Pow2, Num, And, Val, Wrap, ZeroExtended, ZeroExtendedDigits;
    var total := DigitCount(lhsWidth);
    ghost var s, r := lhs[..], rhs[..];
    ghost var z: seq<Digit> := ZeroExtendedDigits(r, rhsWidth, total);
    var carry: int := 0;
    NumEmpty(s);
    NumEmpty(z);
    for i := 0 to total
      invariant 0 <= carry <= 1
      invariant Num(lhs[..], i) + Pow2(8 * i) * carry == Num(s, i) + Num(z, i)
      invariant forall k | i <= k < lhs.Length :: lhs[k] == s[k]
      invariant forall k | i <= k < rhs.Length :: rhs[k] == r[k]
    {
      var digit := ZeroExtended(rhs[..], rhsWidth, i);
      ZeroExtendedAt(rhs[..], r, rhsWidth, i);
      var sum: int := carry + lhs[i] + digit;
      ghost var t := lhs[..];
      CarryStep(Pow2(8 * i), Num(t, i), carry, Num(s, i), Num(z, i), lhs[i], digit);
      Pow2Digit(i);
      NumStep(s, i);
      NumStep(z, i);
      NumUpdate(t, i, sum % 256);
      lhs[i] := sum % 256;
      assert lhs[..] == t[i := lhs[i]];
      carry := sum / 256;
    }
    CongruentVal(lhs[..], lhsWidth, Num(s, total) + Num(z, total), carry);
    ExtendedVal(s, r, z, lhsWidth, rhsWidth);
  }

  lemma ExtendedVal(s: seq<Digit>, r: seq<Digit>, z: seq<Digit>, lhsWidth: nat, rhsWidth: nat)
    requires DigitCount(lhsWidth) <= |s| && DigitCount(rhsWidth) <= |r| && |z| == DigitCount(lhsWidth)
    requires forall i | 0 <= i < |z| :: z[i] == ZeroExtended(r, rhsWidth, i)
    ensures Wrap(Num(s, |z|) + Num(z, |z|), lhsWidth) == Wrap(Val(s, lhsWidth) + Val(r, rhsWidth), lhsWidth)
    ensures Wrap(Num(s, |z|) - Num(z, |z|), lhsWidth) == Wrap(Val(s, lhsWidth) - Val(r, rhsWidth), lhsWidth)
  {
    hide Num, Pow2, And, ZeroExtended;
    ZeroExtendedNum(r, rhsWidth, z, |z|);
    ModModPow2(Val(r, rhsWidth), lhsWidth, 8 * |z|);
    SumVal(Num(s, |z|), Num(z, |z|), Pow2(lhsWidth));
    SumVal(Val(s, lhsWidth), Val(r, rhsWidth), Pow2(lhsWidth));
    SmallMod(Val(s, lhsWidth), Pow2(lhsWidth));
  }

  method SubtractZeroExtend(lhs: array<Digit>, rhs: array<Digit>, lhsWidth: nat, rhsWidth: nat)
    requires DigitCount(lhsWidth) <= lhs.Length && DigitCount(rhsWidth) <= rhs.Length
    modifies lhs
    ensures SameFrom(old(lhs[..]), lhs[..], DigitCount(lhsWidth))
    ensures Val(lhs[..], lhsWidth) == Wrap(old(Val(lhs[..], lhsWidth)) - old(Val(rhs[..], rhsWidth)), lhsWidth)
  {
    hide Pow2, Num, And, Val, Wrap, ZeroExtended, ZeroExtendedDigits;
    var total := DigitCount(lhsWidth);
    ghost var s, r := lhs[..], rhs[..];
    ghost var z: seq<Digit> := ZeroExtendedDigits(r, rhsWidth, total);
    var borrow: int := 0;
    NumEmpty(s);
    NumEmpty(z);
    for i := 0 to total
      invariant 0 <= borrow <= 1
      invariant Num(lhs[..], i) - Pow2(8 * i) * borrow == Num(s, i) - Num(z, i)
      invariant forall k | i <= k < lhs.Length :: lhs[k] == s[k]
      invariant forall k | i <= k < rhs.Length :: rhs[k] == r[k]
    {
      var digit := ZeroExtended(rhs[..], rhsWidth, i);
      ZeroExtendedAt(rhs[..], r, rhsWidth, i);
      var diff: int := (lhs[i] - digit - borrow) % 0x1_0000_0000;
      ghost var t := lhs[..];
      SubtractStep(s, z, t, i, borrow, diff);
      lhs[i] := diff % 256;
      assert lhs[..] == t[i := lhs[i]];
      borrow := diff / 256 % 2;
    }
    CongruentVal(lhs[..], lhsWidth, Num(s, total) - Num(z, total), -borrow);
    ExtendedVal(s, r, z, lhsWidth, rhsWidth);
  }
}
