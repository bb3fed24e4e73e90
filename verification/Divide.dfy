/** Restoring division and the signed division built on it (kefir_bigint/divide.h). */
module Divide {
  import opened Powers
  import opened Bitwise
  import opened Digits
  import opened SignExtension
  import opened AddSub
  import opened Shift
  import opened Init
  import opened Get

  datatype Status = Ok | DivisionByZero

  // ----- the algorithm on numbers -----

  /** Accumulator and quotient bits after i of the w rounds. Every quantity is a w-bit word, and a
      round decides by the top bit of the difference. */
  datatype Round = Round(acc: nat, quotient: nat)

  function Rounds(n: nat, d: nat, w: nat, i: nat): (r: Round)
    requires 0 < w && i <= w
    ensures r.acc < Pow2(w)
  {
    if i == 0 then
      Round(0, 0)
    else
      var before := Rounds(n, d, w, i - 1);
      var t := Wrap(2 * before.acc + Bit(n, w - i), w);
      var u := Wrap(t - d, w);
      if u >= Pow2(w - 1) then
        Round(Wrap(u + d, w), 2 * before.quotient)
      else
        Round(u, 2 * before.quotient + 1)
  }

  /** One round, from the partial remainder t of the dividend's leading bits. */
  lemma RoundDecides(t: nat, d: nat, w: nat)
    requires 0 < w && t < Pow2(w) && d < Pow2(w)
    ensures var u := Wrap(t - d, w);
            Wrap(u + d, w) == t &&
            (t >= d ==> u == t - d) &&
            (t < d ==> u == t - d + Pow2(w))
  {
    hide Pow2, Wrap;
    WrapSum(t - d, d, w);
    WrapSmall(t, w);
    if t >= d {
      WrapSmall(t - d, w);
    } else {
      WrapShift(t - d, 1, w);
      WrapSmall(t - d + Pow2(w), w);
    }
  }

  /** A round decides rightly when the difference, or its opposite, stays within half the range. */
  lemma NextRound(n: nat, d: nat, w: nat, i: nat, t: nat)
    requires 0 < i <= w && d < Pow2(w)
    requires t == 2 * Rounds(n, d, w, i - 1).acc + Bit(n, w - i) < Pow2(w)
    requires t >= d ==> t - d < Pow2(w - 1)
    requires t < d ==> d - t <= Pow2(w - 1)
    ensures Rounds(n, d, w, i).acc == if t >= d then t - d else t
    ensures Rounds(n, d, w, i).quotient == 2 * Rounds(n, d, w, i - 1).quotient + (if t >= d then 1 else 0)
  {
    hide Pow2, Wrap, Bit;
    WrapSmall(t, w);
    RoundDecides(t, d, w);
    Pow2Sub(w, 1);
    Pow2Bytes();
  }

  /** With a divisor of at most 2^(w-1) each round keeps the quotient and remainder of the leading bits. */
  lemma {:induction false} RoundsDivide(n: nat, d: nat, w: nat, i: nat)
    requires 0 < w && i <= w && n < Pow2(w) && 1 <= d <= Pow2(w - 1)
    ensures Shr(n, w - i) == Rounds(n, d, w, i).quotient * d + Rounds(n, d, w, i).acc
    ensures Rounds(n, d, w, i).acc < d
  {
    hide Pow2, Wrap, Shr, Bit;
    if i == 0 {
      ShrNat(n, w);
    } else {
      hide Rounds;
      RoundsDivide(n, d, w, i - 1);
      ShrBit(n, w - i);
      var before, b := Rounds(n, d, w, i - 1), Bit(n, w - i);
      Pow2Sub(w, 1);
      Pow2Bytes();
      NextRound(n, d, w, i, 2 * before.acc + b);
      DoubleStep(before.quotient, before.acc, b, d);
    }
  }

  lemma DoubleStep(q: int, r: int, b: int, d: int)
    ensures 2 * (q * d + r) + b == (2 * q + 1) * d + (2 * r + b - d)
    ensures 2 * (q * d + r) + b == (2 * q + 0) * d + (2 * r + b)
  {
  }

  /** Quotient bits once set stay set. */
  lemma {:induction false} QuotientGrows(n: nat, d: nat, w: nat, i: nat)
    requires 0 < i <= w
    ensures Rounds(n, d, w, i).quotient >= Pow2(i - 1) * Rounds(n, d, w, 1).quotient
  {
    hide Pow2, Wrap, Bit;
    if i == 1 {
      Pow2Bytes();
    } else {
      QuotientGrows(n, d, w, i - 1);
      Pow2Add(1, i - 2);
      Pow2Bytes();
      var q := Rounds(n, d, w, 1).quotient;
      assert Pow2(i - 1) * q == 2 * (Pow2(i - 2) * q);
    }
  }

  /** The one divisor above 2^(w-1) that can work: 2^(w-1) + 1, when the dividend's top bit is set. */
  lemma {:induction false} RoundsNearHalf(n: nat, w: nat, i: nat)
    requires 1 < w && 0 < i < w && Pow2(w - 1) <= n < Pow2(w)
    ensures Rounds(n, Pow2(w - 1) + 1, w, i).acc == Shr(n, w - i)
    ensures Rounds(n, Pow2(w - 1) + 1, w, i).quotient == 0
  {
    hide Pow2, Wrap, Shr, Bit;
    var d := Pow2(w - 1) + 1;
    Pow2Sub(w, 1);
    Pow2Bytes();
    Pow2Strict(0, w - 1);
    ShrBit(n, w - i);
    LeadingBits(n, w, i);
    Pow2Mono(i, w - 1);
    if i == 1 {
      ShrNat(n, w);
      assert Rounds(n, d, w, 0) == Round(0, 0);
    } else {
      RoundsNearHalf(n, w, i - 1);
    }
    hide Rounds;
    NextRound(n, d, w, i, Shr(n, w - i));
  }

  lemma LastRoundNearHalf(n: nat, w: nat)
    requires 1 < w && Pow2(w - 1) <= n < Pow2(w)
    ensures var d := Pow2(w - 1) + 1;
            Rounds(n, d, w, w).acc == n % d && Rounds(n, d, w, w).quotient == n / d
  {
    hide Pow2, Wrap, Shr, Bit, Rounds;
    var d := Pow2(w - 1) + 1;
    Pow2Sub(w, 1);
    Pow2Bytes();
    Pow2Strict(0, w - 1);
    RoundsNearHalf(n, w, w - 1);
    ShrBit(n, 0);
    ShrZero(n);
    NextRound(n, d, w, w, n);
    if n >= d {
      DivModUnique(n, d, 1, n - d);
    } else {
      SmallMod(n, d);
    }
  }

  lemma LeadingBits(n: nat, w: nat, i: nat)
    requires 0 < i <= w && Pow2(w - 1) <= n < Pow2(w)
    ensures 1 <= Shr(n, w - i) < Pow2(i)
  {
    hide Pow2;
    Pow2Sub(w, w - i);
    DivLess(n, Pow2(w - i), Pow2(i));
    Pow2Mono(w - i, w - 1);
    DivLess(n, Pow2(w - i), 1);
  }

  lemma FirstRoundWrong(n: nat, d: nat, w: nat)
    requires 1 < w && n < Pow2(w) && Pow2(w - 1) < d < Pow2(w)
    requires d > Pow2(w - 1) + 1 || n < Pow2(w - 1)
    ensures Rounds(n, d, w, 1).quotient == 1
  {
    hide Pow2, Wrap, Bit;
    var t := Bit(n, w - 1);
    SignBit(n, w);
    Pow2Sub(w, 1);
    Pow2Bytes();
    Pow2Strict(0, w);
    WrapSmall(t, w);
    RoundDecides(t, d, w);
    assert Rounds(n, d, w, 0) == Round(0, 0);
    assert Rounds(n, d, w, 1).quotient == 1;
  }

  /** When the rounds come out right. A divisor of at most 2^(w-1) does, and 2^(w-1) + 1 if the dividend's top bit is
      set; a divisor that does not fit the width is cut to it, and comes out right if the dividend is below what is left. */
  ghost predicate DividesRight(n: nat, d: nat, w: nat)
    requires 0 < w
  {
    var e := Wrap(d, w);
    if d < Pow2(w) then
      d <= Pow2(w - 1) || (d == Pow2(w - 1) + 1 && n >= Pow2(w - 1))
    else
      (e <= Pow2(w - 1) && n < e) || (e == Pow2(w - 1) + 1 && n == Pow2(w - 1)) || (w == 1 && e == 0 && n == 1)
  }

  /** The rounds divide exactly when the divisor and the dividend are such. */
  lemma DivisionExact(n: nat, d: nat, w: nat)
    requires 0 < w && n < Pow2(w) && 1 <= d
    ensures Rounds(n, d, w, w).acc == n % d && Rounds(n, d, w, w).quotient == n / d <==> DividesRight(n, d, w)
  {
    hide Pow2, Wrap, Rounds;
    if d < Pow2(w) {
      NarrowDivisor(n, d, w);
    } else {
      WideDivisor(n, d, w);
      DivModUnique(n, d, 0, n);
    }
  }

  lemma NarrowDivisor(n: nat, d: nat, w: nat)
    requires 0 < w && n < Pow2(w) && 1 <= d < Pow2(w)
    ensures Rounds(n, d, w, w).acc == n % d && Rounds(n, d, w, w).quotient == n / d <==>
            d <= Pow2(w - 1) || (d == Pow2(w - 1) + 1 && n >= Pow2(w - 1))
    ensures d <= Pow2(w - 1) || (d == Pow2(w - 1) + 1 && n >= Pow2(w - 1)) || Rounds(n, d, w, w).quotient != 0
  {
    hide Pow2, Wrap, Shr, Bit, Rounds;
    Pow2Bytes();
    if d <= Pow2(w - 1) {
      RoundsDivide(n, d, w, w);
      ShrZero(n);
      DivModUnique(n, d, Rounds(n, d, w, w).quotient, Rounds(n, d, w, w).acc);
    } else if w > 1 {
      if d == Pow2(w - 1) + 1 && n >= Pow2(w - 1) {
        LastRoundNearHalf(n, w);
      } else {
        FirstRoundWrong(n, d, w);
        QuotientGrows(n, d, w, w);
        Pow2Sub(w, 1);
        Pow2Strict(0, w - 1);
        DivLess(n, d, 2);
        assert n < 2 * d;
      }
    }
  }

  /** A divisor acts through its lower w bits. */
  lemma {:induction false} RoundsCut(n: nat, d: nat, w: nat, i: nat)
    requires 0 < w && i <= w
    ensures Rounds(n, d, w, i) == Rounds(n, Wrap(d, w), w, i)
  {
    hide Pow2, Wrap, Bit;
    if i > 0 {
      RoundsCut(n, d, w, i - 1);
      var t := Wrap(2 * Rounds(n, d, w, i - 1).acc + Bit(n, w - i), w);
      WrapDifference(t, d, w);
      WrapWrap(d, w, w);
      WrapDifference(t, Wrap(d, w), w);
      WrapSum(Wrap(t - d, w), d, w);
    }
  }

  lemma WideDivisor(n: nat, d: nat, w: nat)
    requires 0 < w && n < Pow2(w) && Pow2(w) <= d
    ensures Rounds(n, d, w, w) == Round(n, 0) <==> DividesRight(n, d, w)
  {
    hide Pow2, Wrap, Rounds;
    var e := Wrap(d, w);
    RoundsCut(n, d, w, w);
    Pow2Strict(w - 1, w);
    if e == 0 {
      ZeroDivisor(n, w);
    } else {
      NarrowDivisor(n, e, w);
      SmallQuotient(n, e);
    }
  }

  lemma SmallQuotient(n: nat, e: nat)
    requires e > 0
    ensures (n % e == n && n / e == 0) <==> n < e
  {
    if n < e {
      DivModUnique(n, e, 0, n);
    }
  }

  lemma ZeroDivisor(n: nat, w: nat)
    requires 0 < w && n < Pow2(w)
    ensures Rounds(n, 0, w, w) == Round(n, 0) <==> w == 1 && n == 1
  {
    hide Pow2, Wrap, Bit, Rounds;
    FirstRoundZero(n, w);
    Pow2Bytes();
    if w > 1 {
      QuotientGrows(n, 0, w, w);
      Pow2Strict(0, w - 1);
    }
  }

  lemma FirstRoundZero(n: nat, w: nat)
    requires 0 < w && n < Pow2(w)
    ensures w > 1 ==> Rounds(n, 0, w, 1).quotient == 1
    ensures w == 1 ==> Rounds(n, 0, w, 1) == if n == 1 then Round(1, 0) else Round(0, 1)
  {
    hide Pow2, Wrap, Bit, Rounds;
    var t := Bit(n, w - 1);
    RoundUnfold(n, 0, w, 0);
    NoRounds(n, 0, w);
    SignBit(n, w);
    Pow2Bytes();
    Pow2Mono(0, w - 1);
    Pow2Sub(w, 1);
    WrapSmall(t, w);
    if w > 1 {
      Pow2Strict(0, w - 1);
    }
  }

  lemma NoRounds(n: nat, d: nat, w: nat)
    requires 0 < w
    ensures Rounds(n, d, w, 0) == Round(0, 0)
  {
  }

  /** At equal widths a divisor with its top bit set goes wrong: 0 / 130 at width 8 yields a quotient of at least 128. */
  lemma DivisionFailure()
    ensures Rounds(0, 130, 8, 8).quotient >= 128
  {
    hide Rounds, Pow2;
    Pow2Bytes();
    FirstRoundWrong(0, 130, 8);
    QuotientGrows(0, 130, 8, 8);
  }

  // ----- the algorithm on digits -----

  lemma {:induction false} QuotientBelow(n: nat, d: nat, w: nat, i: nat)
    requires 0 < w && i <= w
    ensures Rounds(n, d, w, i).quotient < Pow2(i)
  {
    hide Wrap, Bit;
    if i > 0 {
      QuotientBelow(n, d, w, i - 1);
    }
  }

  lemma RoundUnfold(n: nat, d: nat, w: nat, i: nat)
    requires 0 < w && i < w
    ensures var before, after := Rounds(n, d, w, i), Rounds(n, d, w, i + 1);
            var u := Wrap(Wrap(2 * before.acc + Bit(n, w - 1 - i), w) - d, w);
            if u >= Pow2(w - 1) then after.acc == Wrap(u + d, w) && after.quotient == 2 * before.quotient
            else after.acc == u && after.quotient == 2 * before.quotient + 1
  {
    hide Wrap, Bit, Pow2;
  }

  /** The top bit left by the subtraction says whether it is undone and which bit the quotient gets. */
  lemma RoundEnds(s: seq<Digit>, n: nat, d: nat, w: nat, i: nat)
    requires 0 < w && i < w && DigitCount(w) <= |s|
    requires Val(s, w) == Wrap(Wrap(2 * Rounds(n, d, w, i).acc + Bit(n, w - 1 - i), w) - d, w)
    ensures var msb := Bit(s[TopIndex(w)], TopOffset(w));
            msb <= 1 && Rounds(n, d, w, i + 1).quotient == 2 * Rounds(n, d, w, i).quotient + (1 - msb) &&
            Rounds(n, d, w, i + 1).acc == if msb == 1 then Wrap(Val(s, w) + d, w) else Val(s, w)
  {
    hide Wrap, Bit, Pow2, Rounds, Num, Val;
    RoundUnfold(n, d, w, i);
    TopBit(s, w);
    SignBit(Val(s, w), w);
  }

  /** The top bit of the shifted dividend is its next bit. */
  lemma NextBit(n: nat, q: nat, w: nat, i: nat)
    requires i < w && q < Pow2(i)
    ensures Bit(Wrap(Pow2(i) * n + q, w), w - 1) == Bit(n, w - 1 - i)
  {
    hide Pow2;
    BitWrap(Pow2(i) * n + q, w - 1, w);
    ShrUnique(Pow2(i) * n + q, n, q, i);
    ShrShr(Pow2(i) * n + q, i, w - 1 - i);
  }

  /** Writing bit zero of an even value. */
  lemma SetLowBit(s: seq<Digit>, t: seq<Digit>, width: nat, b: nat)
    requires 0 < width && DigitCount(width) <= |s| && b <= 1
    requires Val(s, width) % 2 == 0
    requires Or(s[0], b) < 256 && t == s[0 := Or(s[0], b)]
    ensures Val(t, width) == Val(s, width) + b
  {
    hide Num, Pow2, Or, Wrap, Val;
    var n := DigitCount(width);
    ValDef(s, width);
    ValDef(t, width);
    EvenDigit(s, width);
    OrFlag(s[0], b);
    NumChange(s, 0, s[0] + b, n);
    Pow2Bytes();
    Pow2Sub(width, 1);
    WrapSum(Num(s, n), b, width);
    WrapSmall(Val(s, width) + b, width);
  }

  lemma EvenDigit(s: seq<Digit>, width: nat)
    requires 0 < width && DigitCount(width) <= |s|
    ensures s[0] % 2 == Val(s, width) % 2
  {
    hide Num, Pow2;
    ValBit(s, width, 0);
    Pow2Bytes();
  }

  lemma {:induction false} NumChange(s: seq<Digit>, i: nat, d: Digit, n: nat)
    requires i < n <= |s|
    ensures Num(s[i := d], n) == Num(s, n) + Pow2(8 * i) * (d as int - s[i] as int)
    decreases n
  {
    hide Pow2;
    var p := Pow2(8 * i);
    if n == i + 1 {
      NumUpdate(s, i, d);
      assert p * (d as int - s[i] as int) == p * d - p * s[i];
    } else {
      NumChange(s, i, d, n - 1);
    }
  }

  lemma EvenShift(v: nat, w: nat)
    requires 0 < w
    ensures Wrap(Pow2(1) * v, w) % 2 == 0
    ensures Wrap(Pow2(1) * v, w) == Wrap(2 * v, w)
  {
    hide Pow2;
    Pow2Bytes();
    Pow2Sub(w, 1);
    ScaleMod(v, 2, Pow2(w - 1));
  }

  /** Bit zero of an even value below 2^w can be set without leaving the range. */
  lemma EvenFlag(v: nat, b: nat, w: nat)
    requires 0 < w && b <= 1
    ensures Wrap(2 * v, w) + b == Wrap(2 * v + b, w)
  {
    hide Pow2, Wrap;
    EvenShift(v, w);
    Pow2Sub(w, 1);
    Pow2Bytes();
    WrapSum(2 * v, b, w);
    WrapSmall(Wrap(2 * v, w) + b, w);
  }

  lemma QuotientShift(n: nat, q: nat, b: nat, w: nat, i: nat)
    requires 0 < w && b <= 1
    ensures Wrap(2 * Wrap(Pow2(i) * n + q, w), w) + b == Wrap(Pow2(i + 1) * n + (2 * q + b), w)
  {
    hide Pow2, Wrap;
    var v := Pow2(i) * n + q;
    WrapProduct(2, v, w);
    EvenFlag(v, b, w);
    Pow2Add(1, i);
    Pow2Bytes();
    assert 2 * v == Pow2(i + 1) * n + 2 * q;
  }

  lemma ClearLowBit(s: seq<Digit>, width: nat)
    requires 0 < width && DigitCount(width) <= |s| && Val(s, width) % 2 == 0
    ensures And(s[0], 254) == s[0]
  {
    hide Num, Pow2, And, Wrap;
    EvenDigit(s, width);
    AndBit(s[0], 254);
    Pow2Bytes();
    AndMask(s[0] / 2, 7);
  }

  method UnsignedDivide(lhs: array<Digit>, accumulator: array<Digit>, rhs: array<Digit>, lhsWidth: nat, rhsWidth: nat) returns (status: Status)
    requires lhs != accumulator && lhs != rhs && accumulator != rhs
    requires DigitCount(lhsWidth) <= lhs.Length && DigitCount(lhsWidth) <= accumulator.Length && DigitCount(rhsWidth) <= rhs.Length
    modifies lhs, accumulator
    ensures SameFrom(old(lhs[..]), lhs[..], DigitCount(lhsWidth)) && SameFrom(old(accumulator[..]), accumulator[..], DigitCount(lhsWidth))
    ensures lhsWidth == 0 ==> status == Ok && lhs[..] == old(lhs[..])
    ensures lhsWidth > 0 ==> (status == DivisionByZero <==> Val(rhs[..], rhsWidth) == 0)
    ensures status == DivisionByZero ==> lhs[..] == old(lhs[..])
    ensures lhsWidth > 0 && status == Ok ==>
              Round(Val(accumulator[..], lhsWidth), Val(lhs[..], lhsWidth)) ==
              Rounds(old(Val(lhs[..], lhsWidth)), Val(rhs[..], rhsWidth), lhsWidth, lhsWidth)
    ensures lhsWidth > 0 && status == Ok ==>
              (Val(lhs[..], lhsWidth) == old(Val(lhs[..], lhsWidth)) / Val(rhs[..], rhsWidth) &&
               Val(accumulator[..], lhsWidth) == old(Val(lhs[..], lhsWidth)) % Val(rhs[..], rhsWidth) <==>
               DividesRight(old(Val(lhs[..], lhsWidth)), Val(rhs[..], rhsWidth), lhsWidth))
  {
    hide *;
    SameFromChain();
    SameFromSelf();
    Zero(accumulator, lhsWidth);
    if lhsWidth == 0 {
      return Ok;
    }
    var zero := IsZero(rhs, rhsWidth);
    if zero {
      return DivisionByZero;
    }
    var w := lhsWidth;
    ghost var n, d := Val(lhs[..], w), Val(rhs[..], rhsWidth);
    RoundsStart(n, d, w);
    for i := 0 to w
      invariant SameFrom(old(lhs[..]), lhs[..], DigitCount(w)) && SameFrom(old(accumulator[..]), accumulator[..], DigitCount(w))
      invariant Val(accumulator[..], w) == Rounds(n, d, w, i).acc
      invariant Val(lhs[..], w) == Wrap(Pow2(i) * n + Rounds(n, d, w, i).quotient, w)
    {
      DivideRound(lhs, accumulator, rhs, w, rhsWidth, n, i);
    }
    RoundsFinish(n, d, w);
    DivisionExact(n, d, w);
    return Ok;
  }

  lemma SameFromSelf()
    ensures forall s: seq<Digit>, n: nat :: SameFrom(s, s, n)
  {
  }

  lemma RoundsStart(n: nat, d: nat, w: nat)
    requires 0 < w && n < Pow2(w)
    ensures Rounds(n, d, w, 0) == Round(0, 0)
    ensures n == Wrap(Pow2(0) * n + 0, w)
  {
    hide Wrap;
    WrapSmall(n, w);
  }

  lemma RoundsFinish(n: nat, d: nat, w: nat)
    requires 0 < w
    ensures Wrap(Pow2(w) * n + Rounds(n, d, w, w).quotient, w) == Rounds(n, d, w, w).quotient
  {
    hide *;
    var q := Rounds(n, d, w, w).quotient;
    QuotientBelow(n, d, w, w);
    WrapShift(q, n, w);
    WrapSmall(q, w);
  }

  /** The body of the division loop. */
  method DivideRound(lhs: array<Digit>, accumulator: array<Digit>, rhs: array<Digit>, w: nat, rhsWidth: nat, ghost n: nat, ghost i: nat)
    requires lhs != accumulator && lhs != rhs && accumulator != rhs
    requires 0 < w && i < w
    requires DigitCount(w) <= lhs.Length && DigitCount(w) <= accumulator.Length && DigitCount(rhsWidth) <= rhs.Length
    requires Val(accumulator[..], w) == Rounds(n, Val(rhs[..], rhsWidth), w, i).acc
    requires Val(lhs[..], w) == Wrap(Pow2(i) * n + Rounds(n, Val(rhs[..], rhsWidth), w, i).quotient, w)
    modifies lhs, accumulator
    ensures SameFrom(old(lhs[..]), lhs[..], DigitCount(w)) && SameFrom(old(accumulator[..]), accumulator[..], DigitCount(w))
    ensures Val(accumulator[..], w) == Rounds(n, Val(rhs[..], rhsWidth), w, i + 1).acc
    ensures Val(lhs[..], w) == Wrap(Pow2(i + 1) * n + Rounds(n, Val(rhs[..], rhsWidth), w, i + 1).quotient, w)
  {
    hide Num, Pow2, Or, And, Wrap, Bit, Val, SVal, Rounds, SameFrom;
    SameFromChain();
    ghost var d := Val(rhs[..], rhsWidth);
    ghost var before := Rounds(n, d, w, i);
    var index, offset := TopIndex(w), TopOffset(w);
    TopDigit(w);
    QuotientBelow(n, d, w, i);
    NextBit(n, before.quotient, w, i);
    BringDown(lhs, accumulator, w);

    SubtractZeroExtend(accumulator, rhs, w, rhsWidth);
    RoundEnds(accumulator[..], n, d, w, i);
    var accMsb := Bit(accumulator[index], offset);
    SetQuotientBit(lhs, w, 1 - accMsb);
    QuotientShift(n, before.quotient, 1 - accMsb, w, i);
    if accMsb == 1 {
      AddZeroExtend(accumulator, rhs, w, rhsWidth);
    }
  }

  /** Clears or sets bit zero of an even value. */
  method SetQuotientBit(lhs: array<Digit>, w: nat, bit: nat)
    requires 0 < w && DigitCount(w) <= lhs.Length && Val(lhs[..], w) % 2 == 0 && bit <= 1
    modifies lhs
    ensures SameFrom(old(lhs[..]), lhs[..], DigitCount(w))
    ensures Val(lhs[..], w) == old(Val(lhs[..], w)) + bit
  {
    hide Num, Pow2, Or, And, Val, SameFrom;
    SameFromSelf();
    TopDigit(w);
    ghost var t := lhs[..];
    if bit == 0 {
      ClearLowBit(t, w);
      lhs[0] := And(lhs[0], 254);
      assert lhs[..] == t;
    } else {
      DigitFlag(lhs[0], 1);
      lhs[0] := Or(lhs[0], 1);
      assert lhs[..] == t[0 := lhs[0]];
      FirstDigitFrame(t, lhs[0], DigitCount(w));
      SetLowBit(t, lhs[..], w, 1);
    }
  }

  /** Moves the top bit of the dividend to the bottom of the accumulator. */
  method BringDown(lhs: array<Digit>, accumulator: array<Digit>, w: nat)
    requires lhs != accumulator && 0 < w && DigitCount(w) <= lhs.Length && DigitCount(w) <= accumulator.Length
    modifies lhs, accumulator
    ensures SameFrom(old(lhs[..]), lhs[..], DigitCount(w)) && SameFrom(old(accumulator[..]), accumulator[..], DigitCount(w))
    ensures Val(accumulator[..], w) == Wrap(2 * old(Val(accumulator[..], w)) + Bit(old(Val(lhs[..], w)), w - 1), w)
    ensures Val(lhs[..], w) == Wrap(2 * old(Val(lhs[..], w)), w) && Val(lhs[..], w) % 2 == 0
  {
    hide Num, Pow2, Or, Wrap, Bit, Val, SVal, SameFrom;
    SameFromChain();
    ghost var a, v := Val(accumulator[..], w), Val(lhs[..], w);
    TopDigit(w);
    var lhsMsb := Bit(lhs[TopIndex(w)], TopOffset(w));
    TopBit(lhs[..], w);
    LeftShift(accumulator, 1, w);
    LeftShift(lhs, 1, w);
    Pow2Bytes();
    EvenShift(a, w);
    EvenShift(v, w);
    ghost var s := accumulator[..];
    DigitFlag(accumulator[0], lhsMsb);
    accumulator[0] := Or(accumulator[0], lhsMsb);
    assert accumulator[..] == s[0 := accumulator[0]];
    FirstDigitFrame(s, accumulator[0], DigitCount(w));
    SetLowBit(s, accumulator[..], w, lhsMsb);
    EvenFlag(a, lhsMsb, w);
  }

  lemma FirstDigitFrame(s: seq<Digit>, d: Digit, n: nat)
    requires 0 < n <= |s|
    ensures SameFrom(s, s[0 := d], n)
  {
  }

  lemma DigitFlag(d: Digit, b: nat)
    requires b <= 1
    ensures Or(d, b) < 256
  {
    OrFlag(d, b);
  }

  // ----- signed division -----

  /** Division of integers truncated toward zero. */
  function TruncDiv(x: int, y: int): int
    requires y != 0
  {
    if (x < 0) == (y < 0) then Magnitude(x) / Magnitude(y) else -((Magnitude(x) / Magnitude(y)) as int)
  }

  /** The remainder that goes with it: it takes the dividend's sign. */
  function TruncMod(x: int, y: int): int
    requires y != 0
  {
    if x < 0 then -((Magnitude(x) % Magnitude(y)) as int) else Magnitude(x) % Magnitude(y)
  }

  /** Quotient and remainder as section 6.5.5 of C17 requires them, and no others. */
  lemma TruncDivUnique(x: int, y: int, q: int, r: int)
    requires y != 0
    ensures x == TruncDiv(x, y) * y + TruncMod(x, y)
    ensures Magnitude(TruncMod(x, y)) < Magnitude(y) && (TruncMod(x, y) != 0 ==> (TruncMod(x, y) < 0 <==> x < 0))
    ensures x == q * y + r && Magnitude(r) < Magnitude(y) && (r != 0 ==> (r < 0 <==> x < 0)) ==> q == TruncDiv(x, y) && r == TruncMod(x, y)
  {
    hide TruncDiv, TruncMod;
    TruncExists(x, y);
    if x == q * y + r && Magnitude(r) < Magnitude(y) && (r != 0 ==> (r < 0 <==> x < 0)) {
      TruncUnique(x, y, q, r);
    }
  }

  lemma TruncExists(x: int, y: int)
    requires y != 0
    ensures x == TruncDiv(x, y) * y + TruncMod(x, y)
    ensures Magnitude(TruncMod(x, y)) < Magnitude(y) && (TruncMod(x, y) != 0 ==> (TruncMod(x, y) < 0 <==> x < 0))
  {
    var q, r := Magnitude(x) / Magnitude(y), Magnitude(x) % Magnitude(y);
    DivModDef(Magnitude(x), Magnitude(y));
    SignProducts(q, Magnitude(y));
  }

  lemma SignProducts(q: int, b: int)
    ensures (-q) * b == -(q * b) && q * (-b) == -(q * b) && (-q) * (-b) == q * b
  {
  }

  lemma TruncUnique(x: int, y: int, q: int, r: int)
    requires y != 0 && x == q * y + r && Magnitude(r) < Magnitude(y) && (r != 0 ==> (r < 0 <==> x < 0))
    ensures q == TruncDiv(x, y) && r == TruncMod(x, y)
  {
    var a, b := Magnitude(x), Magnitude(y);
    var k, m := if (x < 0) == (y < 0) then q else -q, if x < 0 then -r else r;
    SignProducts(q, y);
    assert a == k * b + m;
    DivModUnique(a, b, k, m);
  }

  /** Only MIN / -1 leaves the signed range. */
  lemma TruncDivFits(x: int, y: int, w: nat)
    requires 0 < w && y != 0 && FitsSigned(x, w)
    ensures FitsSigned(TruncDiv(x, y), w) <==> !(x == -(Pow2(w - 1) as int) && y == -1)
  {
    hide Pow2;
    var a, b := Magnitude(x), Magnitude(y);
    DivModDef(a, b);
    DivLess(a, b, 0);
    MulMono(1, b, a / b);
    if b >= 2 && a > 0 {
      DivLess(a, b, a);
      MulMono(2, b, a);
    }
    if b == 1 {
      DivModUnique(a, 1, a, 0);
    }
  }

  method SignedDivide(lhs: array<Digit>, accumulator: array<Digit>, rhs: array<Digit>, lhsWidth: nat, rhsWidth: nat) returns (status: Status)
    requires lhs != accumulator && lhs != rhs && accumulator != rhs
    requires DigitCount(lhsWidth) <= lhs.Length && DigitCount(lhsWidth) <= accumulator.Length && DigitCount(rhsWidth) <= rhs.Length
    modifies lhs, accumulator, rhs
    ensures SameFrom(old(lhs[..]), lhs[..], DigitCount(lhsWidth)) && SameFrom(old(accumulator[..]), accumulator[..], DigitCount(lhsWidth))
    ensures SameFrom(old(rhs[..]), rhs[..], DigitCount(rhsWidth))
    ensures status == DivisionByZero <==> old(SVal(rhs[..], rhsWidth)) == 0
    ensures status == DivisionByZero ==> lhs[..] == old(lhs[..]) && accumulator[..] == old(accumulator[..]) && rhs[..] == old(rhs[..])
    ensures status == Ok ==> Val(rhs[..], rhsWidth) == Magnitude(old(SVal(rhs[..], rhsWidth)))
    ensures status == Ok && lhsWidth > 0 ==>
              var x, y := old(SVal(lhs[..], lhsWidth)), old(SVal(rhs[..], rhsWidth));
              Val(lhs[..], lhsWidth) == Wrap(SignedRounds(x, y, lhsWidth).0, lhsWidth) &&
              Val(accumulator[..], lhsWidth) == Wrap(SignedRounds(x, y, lhsWidth).1, lhsWidth)
    ensures status == Ok && lhsWidth > 0 && Magnitude(old(SVal(rhs[..], rhsWidth))) <= Pow2(lhsWidth - 1) ==>
              Val(lhs[..], lhsWidth) == Wrap(TruncDiv(old(SVal(lhs[..], lhsWidth)), old(SVal(rhs[..], rhsWidth))), lhsWidth) &&
              SVal(accumulator[..], lhsWidth) == TruncMod(old(SVal(lhs[..], lhsWidth)), old(SVal(rhs[..], rhsWidth)))
    ensures status == Ok && lhsWidth > 0 ==>
              var x, y := old(SVal(lhs[..], lhsWidth)), old(SVal(rhs[..], rhsWidth));
              (Val(lhs[..], lhsWidth) == Wrap(TruncDiv(x, y), lhsWidth) &&
               Val(accumulator[..], lhsWidth) == Wrap(TruncMod(x, y), lhsWidth) <==>
               DividesRight(Magnitude(x), Magnitude(y), lhsWidth))
  {
    hide Num, Pow2, Wrap, Val, SVal, Rounds, SameFrom, FitsSigned, TruncDiv, TruncMod, DividesRight;
    SameFromChain();
    SameFromSelf();
    ghost var x, y := SVal(lhs[..], lhsWidth), SVal(rhs[..], rhsWidth);
    var lhsSign := GetSign(lhs, lhsWidth);
    var rhsSign := GetSign(rhs, rhsWidth);
    ZeroSigned(rhs[..], rhsWidth);
    var zero := IsZero(rhs, rhsWidth);
    if zero {
      return DivisionByZero;
    }
    EmptyIsZero(rhs[..], rhsWidth);
    if lhsWidth > 0 {
      SignedMagnitude(lhs[..], lhsWidth);
    }
    SignedMagnitude(rhs[..], rhsWidth);
    if lhsSign == 1 {
      Negate(lhs, lhsWidth);
    }
    if rhsSign == 1 {
      Negate(rhs, rhsWidth);
    }
    var _ := UnsignedDivide(lhs, accumulator, rhs, lhsWidth, rhsWidth);
    if lhsSign != rhsSign {
      Negate(lhs, lhsWidth);
    }
    if lhsSign == 1 {
      Negate(accumulator, lhsWidth);
    }
    if lhsWidth > 0 {
      RoundsWrapped(x, y, lhsWidth);
      SignedExact(x, y, lhsWidth);
      if Magnitude(y) <= Pow2(lhsWidth - 1) {
        SignedRight(x, y, lhsWidth);
        SValOf(accumulator[..], lhsWidth, TruncMod(x, y));
      }
    }
    return Ok;
  }

  /** Quotient and remainder of the rounds on the magnitudes, with the signs put back. */
  ghost function SignedRounds(x: int, y: int, w: nat): (int, int)
    requires 0 < w
  {
    var r := Rounds(Magnitude(x), Magnitude(y), w, w);
    (if (x < 0) == (y < 0) then r.quotient else -(r.quotient as int), if x < 0 then -(r.acc as int) else r.acc)
  }

  lemma RoundsWrapped(x: int, y: int, w: nat)
    requires 0 < w
    ensures var r := Rounds(Magnitude(x), Magnitude(y), w, w);
            Wrap(r.quotient, w) == r.quotient && Wrap(r.acc, w) == r.acc
  {
    hide Pow2, Wrap, Rounds;
    var r := Rounds(Magnitude(x), Magnitude(y), w, w);
    QuotientBelow(Magnitude(x), Magnitude(y), w, w);
    WrapSmall(r.quotient, w);
    WrapSmall(r.acc, w);
  }

  /** A divisor of at most half the range in magnitude divides as section 6.5.5 of C17 has it. */
  lemma SignedRight(x: int, y: int, w: nat)
    requires 0 < w && FitsSigned(x, w) && y != 0 && Magnitude(y) <= Pow2(w - 1)
    ensures SignedRounds(x, y, w) == (TruncDiv(x, y), TruncMod(x, y))
    ensures FitsSigned(TruncMod(x, y), w)
  {
    hide Pow2, Wrap, Rounds;
    MagnitudeBound(x, w, w);
    Pow2Strict(w - 1, w);
    NarrowDivisor(Magnitude(x), Magnitude(y), w);
    SignedParts(x, y, w);
  }

  /** Any divisor divides so exactly when the magnitudes do, in the rounds and in what is stored of them. */
  lemma SignedExact(x: int, y: int, w: nat)
    requires 0 < w && FitsSigned(x, w) && y != 0
    ensures SignedRounds(x, y, w) == (TruncDiv(x, y), TruncMod(x, y)) <==> DividesRight(Magnitude(x), Magnitude(y), w)
    ensures Wrap(SignedRounds(x, y, w).0, w) == Wrap(TruncDiv(x, y), w) && Wrap(SignedRounds(x, y, w).1, w) == Wrap(TruncMod(x, y), w) <==>
            DividesRight(Magnitude(x), Magnitude(y), w)
  {
    hide Pow2, Wrap, Rounds, DividesRight;
    MagnitudeBound(x, w, w);
    Pow2Strict(w - 1, w);
    var a, b, r := Magnitude(x), Magnitude(y), Rounds(Magnitude(x), Magnitude(y), w, w);
    DivisionExact(a, b, w);
    QuotientBelow(a, b, w, w);
    PartsBelow(a, b);
    SameWrap(r.quotient, a / b, w);
    SameWrap(r.acc, a % b, w);
  }

  lemma PartsBelow(a: nat, b: nat)
    requires 0 < b
    ensures 0 <= a / b <= a && 0 <= a % b <= a
  {
    DivModDef(a, b);
    MulMono(1, b, a / b);
  }

  /** A signed divisor of one bit more than the dividend: 0 / 200 at width 8 stores a quotient other than zero. */
  lemma SignedFailure()
    ensures FitsSigned(200, 9) && Wrap(SignedRounds(0, 200, 8).0, 8) != Wrap(TruncDiv(0, 200), 8)
  {
    hide Rounds, Pow2, Wrap;
    Pow2Bytes();
    FirstRoundWrong(0, 200, 8);
    QuotientGrows(0, 200, 8, 8);
    QuotientBelow(0, 200, 8, 8);
    SameWrap(Rounds(0, 200, 8, 8).quotient, 0, 8);
  }

  /** A divisor no wider than the dividend is at most half the range in magnitude. */
  lemma NarrowerDivisor(y: int, rhsWidth: nat, lhsWidth: nat)
    requires 0 < rhsWidth <= lhsWidth && FitsSigned(y, rhsWidth)
    ensures Magnitude(y) <= Pow2(lhsWidth - 1)
  {
    hide Pow2;
    MagnitudeBound(y, rhsWidth, lhsWidth);
  }

  lemma ZeroSigned(s: seq<Digit>, width: nat)
    requires DigitCount(width) <= |s|
    ensures SVal(s, width) == 0 <==> Val(s, width) == 0
  {
    hide Num, Wrap;
    if width > 0 {
      Pow2Sub(width, 1);
    }
  }

  lemma EmptyIsZero(s: seq<Digit>, width: nat)
    requires DigitCount(width) <= |s| && Val(s, width) != 0
    ensures width > 0
  {
    Pow2Bytes();
  }

  /** The magnitude of a signed value as an unsigned word, minimum included. */
  lemma SignedMagnitude(s: seq<Digit>, width: nat)
    requires 0 < width && DigitCount(width) <= |s|
    ensures SVal(s, width) >= 0 ==> Val(s, width) == Magnitude(SVal(s, width))
    ensures SVal(s, width) < 0 ==> Wrap(-(Val(s, width) as int), width) == Magnitude(SVal(s, width))
  {
    hide Num, Pow2, Wrap;
    var v := Val(s, width);
    Pow2Sub(width, 1);
    Pow2Bytes();
    if v >= Pow2(width - 1) {
      WrapShift(-(v as int), 1, width);
      WrapSmall(Pow2(width) - v, width);
    }
  }

  lemma MagnitudeBound(x: int, v: nat, w: nat)
    requires 0 < v <= w && FitsSigned(x, v)
    ensures Magnitude(x) <= Pow2(w - 1) < Pow2(w)
    ensures Magnitude(x) == 0 <==> x == 0
  {
    hide Pow2;
    Pow2Mono(v - 1, w - 1);
    Pow2Strict(w - 1, w);
  }

  lemma SignedParts(x: int, y: int, w: nat)
    requires 0 < w && y != 0 && Magnitude(x) <= Pow2(w - 1) && Magnitude(y) <= Pow2(w - 1)
    ensures FitsSigned(TruncMod(x, y), w)
  {
    hide Pow2;
    DivModDef(Magnitude(x), Magnitude(y));
  }

  lemma SValOf(s: seq<Digit>, width: nat, x: int)
    requires DigitCount(width) <= |s| && FitsSigned(x, width) && Val(s, width) == Wrap(x, width)
    ensures SVal(s, width) == x
  {
    hide Num, Pow2, Wrap, FitsSigned;
    SignedWrap(x, width);
  }
}
