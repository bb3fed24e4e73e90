/** Booth multiplication (kefir_bigint/multiply.h). */
module Booth {
  import opened Powers
  import opened Bitwise
  import opened Digits
  import opened BitwiseDigits
  import opened AddSub
  import opened Shift
  import opened Cast
  import opened BitRange
  import opened Init
  import opened Get
  import opened Divide

  // ----- the algorithm on numbers -----

  /** The multiplicand as the accumulator sees it: a w-bit word read in the range above -2^(w-1), up
      to 2^(w-1) included. Negating the minimum in w bits gives the minimum back, so the algorithm
      works with its opposite. */
  function Multiplicand(v: nat, w: nat): int
    requires 0 < w
  {
    if v > Pow2(w - 1) then v - Pow2(w) else v
  }

  ghost predicate MultiplicandRange(m: int, w: nat)
    requires 0 < w
  {
    -(Pow2(w - 1) as int) < m <= Pow2(w - 1)
  }

  /** Multiplier bits below position i, recoded with the bit just below i as a sign. */
  function Recoded(x: nat, i: nat): int {
    Wrap(x, i) - (if i == 0 then 0 else Bit(x, i - 1) * Pow2(i))
  }

  /** Adding bit i and removing the previous sign completes the recoding one bit further. */
  lemma RecodedNext(x: nat, i: nat)
    ensures Recoded(x, i + 1) == Recoded(x, i) + Pow2(i) * ((if i == 0 then 0 else Bit(x, i - 1)) - Bit(x, i))
    ensures Recoded(x, i + 1) == Wrap(x, i) - Bit(x, i) * Pow2(i)
  {
    hide Bit;
    BitPeel(x, i);
    var b, p := Bit(x, i), Pow2(i);
    var a := if i == 0 then 0 else Bit(x, i - 1);
    assert p * (a - b) == a * p - b * p;
  }

  /** The recoding of all w bits is the two's-complement value. */
  lemma RecodedAll(x: nat, w: nat)
    requires 0 < w && x < Pow2(w)
    ensures Recoded(x, w) == ToSigned(x, w)
  {
    hide Pow2, Bit;
    WrapSmall(x, w);
    SignBit(x, w);
  }

  /** A product of n >= 0 and a signed number below p in magnitude. */
  lemma ProductRange(n: nat, t: int, p: nat)
    requires -(p as int) <= t < p
    ensures -(p * n) <= n * t
    ensures n * t <= p * n - n
  {
    MulMono(t, p - 1, n);
    MulMono(-(p as int), t, n);
    assert (p - 1) * n == p * n - n;
    assert -(p as int) * n == -(p * n);
  }

  /** The accumulator never leaves the signed range: a * 2^i + c is m times a signed (i+1)-bit number. */
  lemma AccumulatorRange(a: int, c: nat, m: int, t: int, p: nat, w: nat)
    requires 0 < w && MultiplicandRange(m, w) && 0 < p && c < p
    requires -(p as int) <= t < p && p * a + c == m * t
    ensures FitsSigned(a, w)
  {
    hide Pow2;
    var n := if m >= 0 then m else -m;
    ProductRange(n, t, p);
    assert m * t == if m >= 0 then n * t else -(n * t) by {
      assert (-n) * t == -(n * t);
    }
    if m > 0 {
      MulCancel(a, n, p);
    } else {
      MulDist(p, n, 1);
      MulCancel(a, n + 1, p);
    }
    assert p * (-n - 1) == -(p * n) - p;
    MulCancel(-n - 1, a, p);
  }

  /** One step on the pair accumulator and collected bits, before the shift. */
  lemma AddStep(a: int, c: int, m: int, x: nat, i: nat)
    requires Pow2(i) * a + c == m * Recoded(x, i)
    ensures var prev := if i == 0 then 0 else Bit(x, i - 1);
            Pow2(i) * (a + m * (prev - Bit(x, i))) + c == m * Recoded(x, i + 1)
  {
    hide Pow2, Bit, Recoded;
    var prev := if i == 0 then 0 else Bit(x, i - 1);
    var e, p := prev - Bit(x, i), Pow2(i);
    RecodedNext(x, i);
    MulDist(p, a, m * e);
    MulDist(m, Recoded(x, i), p * e);
    MulAssoc(p, m, e);
    MulAssoc(m, p, e);
  }

  /** Shifting the pair right by one bit moves the accumulator's low bit to the collected ones. */
  lemma ShiftStep(a: int, c: nat, i: nat)
    ensures Pow2(i + 1) * Shr(a, 1) + (c + Pow2(i) * Bit(a, 0)) == Pow2(i) * a + c
  {
    hide Pow2, Bit;
    ShrBit(a, 0);
    ShrZero(a);
    Pow2Add(1, i);
    Pow2Bytes();
    var p, q := Pow2(i), Shr(a, 1);
    assert (2 * p) * q == p * (2 * q);
    MulDist(p, 2 * q, Bit(a, 0));
  }

  lemma RecodedRange(x: nat, i: nat)
    ensures -(Pow2(i) as int) <= Recoded(x, i + 1) < Pow2(i)
  {
    hide Pow2, Bit, Recoded;
    RecodedNext(x, i);
  }

  // ----- the multiplier register -----

  /** The multiplier register after i steps: collected bits on top, the rest of the multiplier below. */
  function Register(c: nat, x: nat, w: nat, i: nat): int
    requires i <= w
  {
    Pow2(w - i) * c + Shr(x, i)
  }

  lemma RegisterBit(c: nat, x: nat, w: nat, i: nat)
    requires i < w && Register(c, x, w, i) >= 0
    ensures Bit(Register(c, x, w, i), 0) == Bit(x, i)
    ensures Shr(Register(c, x, w, i), 1) == Pow2(w - i - 1) * c + Shr(x, i + 1)
  {
    hide Pow2, Shr;
    Pow2Sub(w - i, 1);
    Pow2Bytes();
    var h := Pow2(w - i - 1) * c;
    MulAssoc(2, Pow2(w - i - 1), c);
    ShrBit(x, i);
    var r := Register(c, x, w, i);
    assert r == Bit(x, i) + Pow2(1) * (h + Shr(x, i + 1));
    ShrUnique(r, h + Shr(x, i + 1), Bit(x, i), 1);
    BitZero(r);
  }

  lemma BitZero(x: int)
    ensures Bit(x, 0) == Wrap(x, 1)
  {
  }

  lemma RegisterNext(c: nat, x: nat, w: nat, i: nat, b: nat)
    requires i < w && b <= 1
    ensures Register(c + Pow2(i) * b, x, w, i + 1) == Pow2(w - i - 1) * c + Shr(x, i + 1) + Pow2(w - 1) * b
  {
    hide Pow2, Shr;
    Pow2Sub(w - 1, i);
    MulDist(Pow2(w - i - 1), c, Pow2(i) * b);
    MulAssoc(Pow2(w - i - 1), Pow2(i), b);
  }

  /** Setting the top bit of a value that leaves it clear. */
  lemma SetTopBit(s: seq<Digit>, t: seq<Digit>, width: nat, b: nat)
    requires 0 < width && DigitCount(width) <= |s| && b <= 1
    requires Num(s, DigitCount(width)) < Pow2(width - 1)
    ensures Or(s[TopIndex(width)], b * Pow2(TopOffset(width))) < 256
    ensures t == s[TopIndex(width) := Or(s[TopIndex(width)], b * Pow2(TopOffset(width)))] ==>
              Num(t, DigitCount(width)) == Num(s, DigitCount(width)) + Pow2(width - 1) * b
  {
    hide Num, Pow2, Or;
    var i, o := TopIndex(width), TopOffset(width);
    TopDigit(width);
    NumStep(s, i);
    Pow2Add(8 * i, o);
    var d, p, q := s[i], Pow2(8 * i), Pow2(o);
    assert d < q by {
      if d >= q {
        MulMono(q, d, p);
      }
    }
    OrDisjoint(b, d, o);
    Pow2Bytes();
    Pow2Mono(o, 7);
    if t == s[i := d + b * q] {
      NumUpdate(s, i, d + b * q);
      MulDist(p, d, b * q);
      assert p * (b * q) == (p * q) * b;
    }
  }

  // ----- the algorithm on digits -----

  lemma MultiplicandWraps(v: nat, w: nat)
    requires 0 < w && v < Pow2(w)
    ensures Wrap(Multiplicand(v, w), w) == v && MultiplicandRange(Multiplicand(v, w), w)
  {
    hide Pow2, Wrap;
    WrapSmall(v, w);
    WrapShift(v, -1, w);
    Pow2Sub(w, 1);
    Pow2Bytes();
  }

  /** Adding or subtracting w-bit words that stand for the accumulator and the multiplicand. */
  lemma WordStep(s: seq<Digit>, t: seq<Digit>, w: nat, v: nat, sign: int)
    requires 0 < w && DigitCount(w) <= |s| && DigitCount(w) <= |t| && v < Pow2(w) && -1 <= sign <= 1
    requires Val(t, w) == Wrap(Val(s, w) + sign * v, w)
    requires FitsSigned(SVal(s, w) + Multiplicand(v, w) * sign, w)
    ensures SVal(t, w) == SVal(s, w) + Multiplicand(v, w) * sign
  {
    hide Num, Pow2, Wrap, SVal, FitsSigned, Multiplicand, Val;
    var a, m := SVal(s, w), Multiplicand(v, w);
    MultiplicandWraps(v, w);
    SValUnfold(s, w);
    WrapSum(a, sign * v, w);
    WrapProduct(sign, m, w);
    WrapSum(a, sign * m, w);
    WrapSum(a, sign * v, w);
    assert Wrap(a + sign * v, w) == Wrap(a + sign * m, w);
    assert sign * m == m * sign;
    SValOf(t, w, a + m * sign);
  }

  lemma LowBit(s: seq<Digit>, w: nat)
    requires 0 < w && DigitCount(w) <= |s|
    ensures s[0] % 2 == Bit(Val(s, w), 0) == Bit(SVal(s, w), 0)
  {
    hide Num, Pow2;
    ValBit(s, w, 0);
    Pow2Bytes();
    SignedRange(Val(s, w), w);
    BitWrap(SVal(s, w), 0, w);
  }

  /** Adds the multiplicand times the recoded bit. */
  method AddRecoded(accumulator: array<Digit>, rhs: array<Digit>, w: nat, bit: nat, prevBit: nat)
    requires accumulator != rhs && 0 < w && DigitCount(w) <= accumulator.Length && DigitCount(w) <= rhs.Length
    requires bit <= 1 && prevBit <= 1
    requires FitsSigned(SVal(accumulator[..], w) + Multiplicand(Val(rhs[..], w), w) * (prevBit - bit), w)
    modifies accumulator
    ensures SameFrom(old(accumulator[..]), accumulator[..], DigitCount(w))
    ensures SVal(accumulator[..], w) == old(SVal(accumulator[..], w)) + Multiplicand(Val(rhs[..], w), w) * (prevBit - bit)
  {
    hide Num, Pow2, Wrap, Val, SVal, Multiplicand, SameFrom, FitsSigned;
    SameFromSelf();
    ghost var s := accumulator[..];
    if bit == 1 && prevBit == 0 {
      Subtract(accumulator, rhs, w);
      WordStep(s, accumulator[..], w, Val(rhs[..], w), -1);
    } else if bit == 0 && prevBit == 1 {
      Add(accumulator, rhs, w);
      WordStep(s, accumulator[..], w, Val(rhs[..], w), 1);
    }
  }

  /** Shifts accumulator and multiplier down as one number: the bit that leaves the one enters the other. */
  method ShiftPair(lhs: array<Digit>, accumulator: array<Digit>, w: nat, ghost x: nat, ghost c: nat, ghost i: nat)
    requires lhs != accumulator && i < w && x < Pow2(w)
    requires DigitCount(w) <= lhs.Length && DigitCount(w) <= accumulator.Length
    requires c < Pow2(i) && Val(lhs[..], w) == Register(c, x, w, i)
    modifies lhs, accumulator
    ensures SameFrom(old(lhs[..]), lhs[..], DigitCount(w)) && SameFrom(old(accumulator[..]), accumulator[..], DigitCount(w))
    ensures SVal(accumulator[..], w) == Shr(old(SVal(accumulator[..], w)), 1)
    ensures Num(accumulator[..], DigitCount(w)) == Wrap(SVal(accumulator[..], w), 8 * DigitCount(w))
    ensures var collected := c + Pow2(i) * Bit(old(SVal(accumulator[..], w)), 0);
            0 <= collected < Pow2(i + 1) && Num(lhs[..], DigitCount(w)) == Val(lhs[..], w) == Register(collected, x, w, i + 1)
  {
    hide Num, Pow2, Or, Wrap, Bit, Val, SVal, Shr, Register, SameFrom;
    SameFromChain();
    LowBit(accumulator[..], w);
    var lsb := accumulator[0] % 2;
    ArithmeticRightShift(accumulator, 1, w);
    RightShift(lhs, 1, w);
    ShrBelow(Register(c, x, w, i), 1, w - 1);
    ghost var t := lhs[..];
    var index := TopIndex(w);
    SetTopBit(t, t[index := SafeOr(t[index], lsb * Pow2(TopOffset(w)))], w, lsb);
    TopDigit(w);
    lhs[index] := Or(lhs[index], lsb * Pow2(TopOffset(w)));
    assert lhs[..] == t[index := lhs[index]];
    TopFrame(t, index, lhs[index], DigitCount(w));
    RegisterNext(c, x, w, i, lsb);
    RegisterBit(c, x, w, i);
    CollectedBound(c, lsb, i);
    RegisterFits(t, lhs[..], w, lsb);
  }

  /** The body of Booth's loop. */
  method BoothRound(lhs: array<Digit>, accumulator: array<Digit>, rhs: array<Digit>, w: nat, prevBit: nat, ghost x: nat, ghost c: nat, ghost i: nat)
    returns (bit: nat, ghost collected: nat)
    requires lhs != accumulator && lhs != rhs && accumulator != rhs
    requires i < w && x < Pow2(w)
    requires DigitCount(w) <= lhs.Length && DigitCount(w) <= accumulator.Length && DigitCount(w) <= rhs.Length
    requires prevBit == if i == 0 then 0 else Bit(x, i - 1)
    requires c < Pow2(i) && Val(lhs[..], w) == Register(c, x, w, i)
    requires Pow2(i) * SVal(accumulator[..], w) + c == Multiplicand(Val(rhs[..], w), w) * Recoded(x, i)
    modifies lhs, accumulator
    ensures SameFrom(old(lhs[..]), lhs[..], DigitCount(w)) && SameFrom(old(accumulator[..]), accumulator[..], DigitCount(w))
    ensures bit == Bit(x, i) && collected < Pow2(i + 1)
    ensures Num(lhs[..], DigitCount(w)) == Val(lhs[..], w) == Register(collected, x, w, i + 1)
    ensures Num(accumulator[..], DigitCount(w)) == Wrap(SVal(accumulator[..], w), 8 * DigitCount(w))
    ensures Pow2(i + 1) * SVal(accumulator[..], w) + collected == Multiplicand(Val(rhs[..], w), w) * Recoded(x, i + 1)
  {
    hide Num, Pow2, Or, Wrap, Bit, Val, SVal, Shr, Register, Multiplicand, MultiplicandRange, Recoded, SameFrom, FitsSigned;
    SameFromChain();
    SameFromSelf();
    ghost var m := Multiplicand(Val(rhs[..], w), w);
    MultiplicandWraps(Val(rhs[..], w), w);
    ghost var s, l := accumulator[..], lhs[..];
    LowBit(l, w);
    RegisterBit(c, x, w, i);
    bit := lhs[0] % 2;
    ghost var a := SVal(s, w) + m * (prevBit - bit);
    AddStep(SVal(s, w), c, m, x, i);
    RecodedRange(x, i);
    AccumulatorRange(a, c, m, Recoded(x, i + 1), Pow2(i), w);
    AddRecoded(accumulator, rhs, w, bit, prevBit);

    collected := c + Pow2(i) * Bit(a, 0);
    ShiftStep(a, c, i);
    ShiftPair(lhs, accumulator, w, x, c, i);
  }

  /** The digit that or-ing stores, as a digit. */
  ghost function SafeOr(d: Digit, b: nat): (r: Digit)
    ensures Or(d, b) < 256 ==> r == Or(d, b)
  {
    if Or(d, b) < 256 then Or(d, b) else 0
  }

  lemma TopFrame(s: seq<Digit>, i: nat, d: Digit, n: nat)
    requires i < n <= |s|
    ensures SameFrom(s, s[i := d], n)
  {
  }

  lemma CollectedBound(c: nat, b: nat, i: nat)
    requires c < Pow2(i) && b <= 1
    ensures 0 <= c + Pow2(i) * b < Pow2(i + 1)
  {
  }

  lemma RegisterFits(s: seq<Digit>, t: seq<Digit>, w: nat, b: nat)
    requires 0 < w && DigitCount(w) <= |s| && DigitCount(w) <= |t| && b <= 1
    requires Num(s, DigitCount(w)) < Pow2(w - 1)
    requires Num(t, DigitCount(w)) == Num(s, DigitCount(w)) + Pow2(w - 1) * b
    ensures Val(t, w) == Num(t, DigitCount(w))
  {
    hide Num, Pow2, Wrap;
    Pow2Sub(w, 1);
    Pow2Bytes();
    WrapSmall(Num(t, DigitCount(w)), w);
  }

  // ----- putting the product together -----

  /** Or-ing whole digits into cleared ones, and the low word into a shifted one. */
  lemma Assemble(b: int, c: nat, w: nat, rw: nat)
    requires c < Pow2(w) && w <= rw
    ensures Wrap(Pow2(w) * b, rw) + c == Wrap(Pow2(w) * b + c, rw) < Pow2(rw)
    ensures Wrap(Wrap(Pow2(w) * b, rw), w) == 0
  {
    hide *;
    var x, h := Pow2(w) * b, Wrap(b, rw - w);
    var y := Pow2(w) * h;
    ScaleWrap(b, w, rw - w);
    AssembleRoom(h, w, rw);
    AssembleSum(x, y, c, w, rw);
    WrapShift(0, h, w);
    WrapSmall(0, w);
  }

  lemma AssembleRoom(h: nat, w: nat, rw: nat)
    requires w <= rw && h < Pow2(rw - w)
    ensures 0 <= Pow2(w) * h && Pow2(w) * h + Pow2(w) <= Pow2(rw)
  {
    hide *;
    Pow2Sub(rw, w);
    MulStrict(h, Pow2(rw - w), Pow2(w));
    MulMono(0, h, Pow2(w));
  }

  lemma AssembleSum(x: int, y: nat, c: nat, w: nat, rw: nat)
    requires Wrap(x, rw) == y && y + Pow2(w) <= Pow2(rw) && c < Pow2(w)
    ensures y + c == Wrap(x + c, rw)
  {
    hide Pow2, Wrap;
    WrapSum(x, c, rw);
    WrapSmall(y + c, rw);
  }

  /** The accumulator's whole digits stand for it up to 2^(8n), enough for the double width. */
  lemma WholeAccumulator(a: int, c: nat, w: nat, n: nat, rw: nat)
    requires rw <= w + n
    ensures Wrap(Pow2(w) * Wrap(a, n) + c, rw) == Wrap(Pow2(w) * a + c, rw)
  {
    hide Pow2, Wrap, Shr;
    var k := Shr(a, n);
    ShrSplit(a, n);
    MulDist(Pow2(w), Wrap(a, n), Pow2(n) * k);
    Pow2Add(w, n);
    MulAssoc(Pow2(w), Pow2(n), k);
    WrapShift(Pow2(w) * Wrap(a, n) + c, k, w + n);
    WrapDown(Pow2(w) * Wrap(a, n) + c, Pow2(w) * a + c, rw, w + n);
  }

  /** The product always fits the double width. */
  lemma ProductFits(x: int, m: int, w: nat)
    requires 0 < w && FitsSigned(x, w) && MultiplicandRange(m, w)
    ensures FitsSigned(x * m, 2 * w)
  {
    hide Pow2;
    var h := Pow2(w - 1);
    var a: int, b: int := Magnitude(x), Magnitude(m);
    MulMono(a, h, b);
    MulMono(b, h, h);
    assert h * b == b * h;
    assert Magnitude(x * m) == a * b by {
      assert x * m == a * b || x * m == -(a * b);
    }
    Pow2Add(w - 1, w - 1);
    Pow2Strict(2 * w - 2, 2 * w - 1);
  }

  /** When the product with what the accumulator reads is the product with the value. */
  lemma SignedProduct(s: seq<Digit>, t: seq<Digit>, w: nat, rw: nat)
    requires 0 < w && DigitCount(w) <= |s| && DigitCount(w) <= |t|
    ensures Wrap(SVal(s, w) * Multiplicand(Val(t, w), w), rw) == Wrap(SVal(s, w) * SVal(t, w), rw) <==>
            SVal(t, w) != -(Pow2(w - 1) as int) || rw <= w || Wrap(SVal(s, w), rw - w) == 0
  {
    hide Num, Pow2, Wrap, Multiplicand, Val;
    Pow2Sub(w, 1);
    Pow2Bytes();
    BoothExact(SVal(s, w), Val(t, w), w, rw);
  }

  method SignedMultiply(result: array<Digit>, accumulator: array<Digit>, lhs: array<Digit>, rhs: array<Digit>, resultWidth: nat, operandWidth: nat)
    requires result != accumulator && result != lhs && result != rhs && accumulator != lhs && accumulator != rhs && lhs != rhs
    requires DigitCount(resultWidth) <= result.Length && DigitCount(operandWidth) <= result.Length
    requires DigitCount(operandWidth) <= accumulator.Length && DigitCount(operandWidth) <= lhs.Length && DigitCount(operandWidth) <= rhs.Length
    modifies result, accumulator, lhs
    ensures SameFrom(old(result[..]), result[..], Larger(DigitCount(resultWidth), DigitCount(operandWidth)))
    ensures SameFrom(old(accumulator[..]), accumulator[..], DigitCount(operandWidth))
    ensures SameFrom(old(lhs[..]), lhs[..], DigitCount(operandWidth))
    ensures Val(result[..], resultWidth) ==
            if operandWidth == 0 then 0
            else Wrap(old(SVal(lhs[..], operandWidth)) * Multiplicand(Val(rhs[..], operandWidth), operandWidth), resultWidth)
    ensures operandWidth > 0 ==>
              var x, y := old(SVal(lhs[..], operandWidth)), SVal(rhs[..], operandWidth);
              (Val(result[..], resultWidth) == Wrap(x * y, resultWidth) <==>
               y != -(Pow2(operandWidth - 1) as int) || resultWidth <= operandWidth || Wrap(x, resultWidth - operandWidth) == 0)
  {
    hide Num, Pow2, Wrap, Val, SVal, Multiplicand, SameFrom;
    if operandWidth > 0 {
      SignedProduct(lhs[..], rhs[..], operandWidth, resultWidth);
    }
    MultiplyRecoded(result, accumulator, lhs, rhs, resultWidth, operandWidth);
  }

  /** The recoding loop and the joining of accumulator and collected bits. */
  method MultiplyRecoded(result: array<Digit>, accumulator: array<Digit>, lhs: array<Digit>, rhs: array<Digit>, resultWidth: nat, operandWidth: nat)
    requires result != accumulator && result != lhs && result != rhs && accumulator != lhs && accumulator != rhs && lhs != rhs
    requires DigitCount(resultWidth) <= result.Length && DigitCount(operandWidth) <= result.Length
    requires DigitCount(operandWidth) <= accumulator.Length && DigitCount(operandWidth) <= lhs.Length && DigitCount(operandWidth) <= rhs.Length
    modifies result, accumulator, lhs
    ensures SameFrom(old(result[..]), result[..], Larger(DigitCount(resultWidth), DigitCount(operandWidth)))
    ensures SameFrom(old(accumulator[..]), accumulator[..], DigitCount(operandWidth))
    ensures SameFrom(old(lhs[..]), lhs[..], DigitCount(operandWidth))
    ensures Val(result[..], resultWidth) ==
            if operandWidth == 0 then 0
            else Wrap(old(SVal(lhs[..], operandWidth)) * Multiplicand(Val(rhs[..], operandWidth), operandWidth), resultWidth)
  {
    hide Num, Pow2, Or, Wrap, Bit, Val, SVal, Shr, Register, Multiplicand, MultiplicandRange, Recoded, SameFrom, FitsSigned;
    SameFromChain();
    SameFromSelf();
    Zero(result, resultWidth);
    SameFromLarger(old(result[..]), result[..], DigitCount(resultWidth), DigitCount(operandWidth));
    ghost var cleared := result[..];
    if resultWidth == 0 || operandWidth == 0 {
      WrapNothing(if operandWidth == 0 then 0 else SVal(lhs[..], operandWidth) * Multiplicand(Val(rhs[..], operandWidth), operandWidth));
      return;
    }
    var w := operandWidth;
    ghost var x, n := Val(lhs[..], w), DigitCount(w);
    ghost var m := Multiplicand(Val(rhs[..], w), w);
    MultiplicandWraps(Val(rhs[..], w), w);
    Zero(accumulator, w);
    ghost var c: nat := 0;
    BoothStart(accumulator[..], x, w, m);
    var prevBit := 0;
    for i := 0 to w
      invariant result[..] == cleared
      invariant SameFrom(old(accumulator[..]), accumulator[..], n) && SameFrom(old(lhs[..]), lhs[..], n)
      invariant prevBit == if i == 0 then 0 else Bit(x, i - 1)
      invariant c < Pow2(i) && Val(lhs[..], w) == Register(c, x, w, i)
      invariant i > 0 ==> Num(lhs[..], n) == Val(lhs[..], w)
      invariant i > 0 ==> Num(accumulator[..], n) == Wrap(SVal(accumulator[..], w), 8 * n)
      invariant Pow2(i) * SVal(accumulator[..], w) + c == m * Recoded(x, i)
    {
      prevBit, c := BoothRound(lhs, accumulator, rhs, w, prevBit, x, c, i);
    }
    BoothFinish(old(lhs[..]), w, c, x);
    ghost var a := SVal(accumulator[..], w);
    ghost var product := old(SVal(lhs[..], w)) * m;
    assert Pow2(w) * a + c == product;
    ProductFits(old(SVal(lhs[..], w)), m, w);
    Combine(result, accumulator, lhs, resultWidth, w, a, c);
  }

  lemma BoothStart(s: seq<Digit>, x: nat, w: nat, m: int)
    requires 0 < w && DigitCount(w) <= |s| && Val(s, w) == 0 && x < Pow2(w)
    ensures SVal(s, w) == 0 && x == Register(0, x, w, 0) && 0 < Pow2(0)
    ensures Pow2(0) * 0 + 0 == m * Recoded(x, 0)
  {
    hide Num, Wrap, Shr, Val;
    ShrZero(x);
    WrapNothing(x);
    Pow2Mono(0, w - 1);
    assert Recoded(x, 0) == 0;
    assert m * 0 == 0;
  }

  lemma BoothFinish(s: seq<Digit>, w: nat, c: nat, x: nat)
    requires 0 < w && DigitCount(w) <= |s| && Val(s, w) == x
    ensures Recoded(x, w) == SVal(s, w) && Register(c, x, w, w) == c
  {
    hide Recoded;
    RecodedAll(x, w);
    ShrNat(x, w);
  }

  function Larger(m: nat, n: nat): nat {
    if m < n then n else m
  }

  lemma SameFromLarger(s: seq<Digit>, t: seq<Digit>, m: nat, n: nat)
    requires SameFrom(s, t, m)
    ensures SameFrom(s, t, Larger(m, n))
  {
  }

  lemma FourSteps(s0: seq<Digit>, s1: seq<Digit>, s2: seq<Digit>, s3: seq<Digit>, s4: seq<Digit>, n: nat, m: nat)
    requires SameFrom(s0, s1, n) && SameFrom(s1, s2, m) && SameFrom(s2, s3, n) && SameFrom(s3, s4, m)
    ensures SameFrom(s0, s4, Larger(m, n))
  {
  }

  /** The steps after the loop: the accumulator above the multiplier register, cast to the result width. */
  method Combine(result: array<Digit>, accumulator: array<Digit>, lhs: array<Digit>, resultWidth: nat, w: nat, ghost a: int, ghost c: nat)
    requires result != accumulator && result != lhs && accumulator != lhs
    requires 0 < w && 0 < resultWidth
    requires DigitCount(resultWidth) <= result.Length && DigitCount(w) <= result.Length
    requires DigitCount(w) <= accumulator.Length && DigitCount(w) <= lhs.Length
    requires Num(result[..], DigitCount(resultWidth)) == 0
    requires Num(accumulator[..], DigitCount(w)) == Wrap(a, 8 * DigitCount(w))
    requires Num(lhs[..], DigitCount(w)) == c < Pow2(w)
    requires FitsSigned(Pow2(w) * a + c, 2 * w)
    modifies result
    ensures SameFrom(old(result[..]), result[..], Larger(DigitCount(resultWidth), DigitCount(w)))
    ensures Val(result[..], resultWidth) == Wrap(Pow2(w) * a + c, resultWidth)
  {
    hide Num, Pow2, Or, Wrap, Val, SVal, Shr, FitsSigned;
    var rw := resultWidth;
    ghost var n, b := DigitCount(w), Wrap(a, 8 * DigitCount(w));
    ghost var s0 := result[..];
    OrInto(result, accumulator, w);
    ghost var s1 := result[..];
    LeftShift(result, w, rw);
    ghost var s2 := result[..];
    OrInto(result, lhs, w);
    ghost var s3 := result[..];
    if rw < w {
      ValDef(lhs[..], w);
      NarrowResult(s1, s2, s3, w, rw, c);
      WrapShiftDown(a, c, w, rw);
    } else {
      WideResult(s0, s1, s2, s3, w, rw, b, c);
      WholeAccumulator(a, c, w, 8 * n, Narrower(2 * w, rw));
      WrapWrap(Pow2(w) * b + c, Narrower(2 * w, rw), rw);
    }
    ValNarrowed(s3, Narrower(2 * w, rw), rw);
    assert Val(s3, Narrower(2 * w, rw)) == Wrap(Pow2(w) * a + c, Narrower(2 * w, rw));
    CastSigned(result, 2 * w, rw);
    FourSteps(s0, s1, s2, s3, result[..], n, DigitCount(rw));
    SignedResult(s3, result[..], Pow2(w) * a + c, w, rw);
  }

  /** With a result narrower than the operands only the multiplier register's low bits remain. */
  lemma NarrowResult(s1: seq<Digit>, s2: seq<Digit>, s3: seq<Digit>, w: nat, rw: nat, c: nat)
    requires rw < w && DigitCount(w) <= |s1| && |s1| == |s2| == |s3| && c < Pow2(w)
    requires Val(s2, rw) == Wrap(Pow2(w) * Val(s1, rw), rw)
    requires Val(s3, w) == Or(Val(s2, w), Wrap(c, w))
    ensures Val(s3, rw) == Wrap(c, rw)
  {
    hide Num, Pow2, Or, Wrap, Val;
    LeftShiftClip(Val(s1, rw), w, rw);
    ValNarrowed(s2, rw, w);
    ValNarrowed(s3, rw, w);
    WrapSmall(c, w);
    WrapOr(Val(s2, w), c, rw);
    OrZero(Wrap(c, rw));
  }

  lemma WrapShiftDown(a: int, c: int, w: nat, rw: nat)
    requires rw <= w
    ensures Wrap(Pow2(w) * a + c, rw) == Wrap(c, rw)
  {
    hide Pow2, Wrap;
    WrapShift(c, a, w);
    WrapDown(c, Pow2(w) * a + c, rw, w);
  }

  lemma WideResult(s0: seq<Digit>, s1: seq<Digit>, s2: seq<Digit>, s3: seq<Digit>, w: nat, rw: nat, b: nat, c: nat)
    requires w <= rw && DigitCount(rw) <= |s0| && |s0| == |s1| == |s2| == |s3| && c < Pow2(w) && b < Pow2(8 * DigitCount(w))
    requires Num(s0, DigitCount(rw)) == 0
    requires SameFrom(s0, s1, DigitCount(w)) && Num(s1, DigitCount(w)) == Or(Num(s0, DigitCount(w)), b)
    requires Val(s2, rw) == Wrap(Pow2(w) * Val(s1, rw), rw)
    requires SameFrom(s2, s3, DigitCount(w)) && Num(s3, DigitCount(w)) == Or(Num(s2, DigitCount(w)), c)
    ensures Val(s3, rw) == Wrap(Pow2(w) * b + c, rw)
  {
    hide Num, Pow2, Or, Wrap;
    var n, rn := DigitCount(w), DigitCount(rw);
    assert Num(s1, rn) == b by {
      NumZero(s0, rn);
      NumZero(s0, n);
      OrZero(b);
      NumTail(s0, s1, n, rn);
    }
    WrapProduct(Pow2(w), b, rw);
    Assemble(b, c, w, rw);
    assert Num(s3, n) == Num(s2, n) + c by {
      ValNarrowed(s2, w, rw);
      OrCleared(Num(s2, n), c, w);
    }
    NumTail(s2, s3, n, rn);
    WrapSum(Num(s2, rn), c, rw);
    WrapSum(Pow2(w) * b, c, rw);
  }

  lemma OrCleared(x: nat, c: nat, w: nat)
    requires c < Pow2(w) && Wrap(x, w) == 0
    ensures Or(x, c) == x + c
  {
    hide Pow2, Or, Wrap, Shr;
    ShrSplit(x, w);
    ShrNat(x, w);
    OrDisjoint(Shr(x, w), c, w);
  }

  /** Numbers that agree from digit n on differ as their low parts do. */
  lemma NumTail(s: seq<Digit>, t: seq<Digit>, n: nat, m: nat)
    requires SameFrom(s, t, n) && n <= m <= |s|
    ensures Num(t, m) - Num(t, n) == Num(s, m) - Num(s, n)
  {
    hide Num, Pow2;
    NumSplit(s, n, m);
    NumSplit(t, n, m);
    assert s[n..] == t[n..];
  }

  lemma SignedResult(s: seq<Digit>, t: seq<Digit>, product: int, w: nat, rw: nat)
    requires 0 < w && 0 < rw && DigitCount(rw) <= |s| && DigitCount(rw) <= |t|
    requires FitsSigned(product, 2 * w)
    requires Val(s, Narrower(2 * w, rw)) == Wrap(product, Narrower(2 * w, rw))
    requires SVal(t, rw) == SVal(s, Narrower(2 * w, rw))
    ensures Val(t, rw) == Wrap(product, rw)
  {
    hide Num, Pow2, Wrap, SVal, FitsSigned, Val;
    SValUnfold(t, rw);
    SValUnfold(s, Narrower(2 * w, rw));
    if 2 * w <= rw {
      SValOf(s, 2 * w, product);
    }
  }

  // ----- when the full product is right -----

  /** The result is the signed product modulo 2^rw for every multiplicand but the minimum. For the
      minimum it is right exactly when the result is no wider than the operands or the multiplier has
      rw - w trailing zero bits. */
  lemma BoothExact(x: int, v: nat, w: nat, rw: nat)
    requires 0 < w && v < Pow2(w)
    ensures Wrap(x * Multiplicand(v, w), rw) == Wrap(x * ToSigned(v, w), rw) <==>
            v != Pow2(w - 1) || rw <= w || Wrap(x, rw - w) == 0
  {
    hide Pow2, Wrap;
    Pow2Sub(w, 1);
    Pow2Bytes();
    if v == Pow2(w - 1) {
      var y := ToSigned(v, w);
      assert x * Multiplicand(v, w) == x * y + Pow2(w) * x by {
        MulDist(x, y, Pow2(w));
      }
      if rw <= w {
        WrapShiftDown(x, x * y, w, rw);
      } else {
        ScaledZero(x, x * y, w, rw);
      }
    }
  }

  lemma ScaledZero(x: int, z: int, w: nat, rw: nat)
    requires w <= rw
    ensures Wrap(z + Pow2(w) * x, rw) == Wrap(z, rw) <==> Wrap(x, rw - w) == 0
  {
    hide Pow2, Wrap;
    Pow2Sub(rw, w);
    if Wrap(x, rw - w) == 0 {
      ShrSplit(x, rw - w);
      MulAssoc(Pow2(w), Pow2(rw - w), Shr(x, rw - w));
      WrapShift(z, Shr(x, rw - w), rw);
    }
    if Wrap(z + Pow2(w) * x, rw) == Wrap(z, rw) {
      var k := WrapEqual(z + Pow2(w) * x, z, rw);
      MulAssoc(Pow2(w), Pow2(rw - w), k);
      MulInjective(Pow2(w), x, Pow2(rw - w) * k);
      WrapShift(0, k, rw - w);
      WrapSmall(0, rw - w);
    }
  }

  lemma MulInjective(p: int, x: int, y: int)
    requires 0 < p && p * x == p * y
    ensures x == y
  {
    if x < y {
      MulStrict(x, y, p);
    } else if y < x {
      MulStrict(y, x, p);
    }
  }

  /** (-128) * (-128) at width 8 with a 16-bit result comes out as -16384. */
  lemma BoothMinimum()
    ensures Wrap(-128 * Multiplicand(128, 8), 16) == Wrap(-16384, 16) != Wrap(-128 * ToSigned(128, 8), 16)
  {
    hide Wrap;
    Pow2Bytes();
    Pow2Words();
    BoothExact(-128, 128, 8, 16);
    WrapShift(-128, 1, 8);
    WrapSmall(128, 8);
  }
}
