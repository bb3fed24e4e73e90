/**
 The representation of a bit-precise integer: a little-endian array of 8-bit digits and a bit
 width. The width need not be a multiple of eight, so the top digit may carry padding bits, which
 hold anything.
 */
module Digits {
  import opened Powers

  type Digit = d: int | 0 <= d < 256

  /** Digits needed for a width in bits. */
  function DigitCount(width: nat): nat {
    (width + 7) / 8
  }

  /** Index of the digit that holds the top bit. */
  function TopIndex(width: nat): nat
    requires width > 0
  {
    (width - 1) / 8
  }

  /** Position of the top bit inside its digit. */
  function TopOffset(width: nat): (o: nat)
    requires width > 0
    ensures o < 8
  {
    width - 1 - TopIndex(width) * 8
  }

  lemma TopDigit(width: nat)
    requires width > 0
    ensures DigitCount(width) == TopIndex(width) + 1
    ensures width == 8 * TopIndex(width) + TopOffset(width) + 1
    ensures width <= 8 * DigitCount(width) < width + 8
  {
  }

  /** The number held by the first n digits, padding included. */
  function Num(s: seq<Digit>, n: nat): (v: nat)
    requires n <= |s|
  {
    if n == 0 then 0 else Num(s, n - 1) + Pow2(8 * (n - 1)) * s[n - 1]
  }

  /** The unsigned value at a width: the padding is ignored. */
  function Val(s: seq<Digit>, width: nat): (v: nat)
    requires DigitCount(width) <= |s|
    ensures v < Pow2(width)
  {
    Wrap(Num(s, DigitCount(width)), width)
  }

  lemma ValDef(s: seq<Digit>, width: nat)
    requires DigitCount(width) <= |s|
    ensures Val(s, width) == Wrap(Num(s, DigitCount(width)), width)
  {
  }

  /** The two's-complement value at a width. */
  function SVal(s: seq<Digit>, width: nat): (x: int)
    requires DigitCount(width) <= |s|
    ensures FitsSigned(x, width)
  {
    SignedRange(Val(s, width), width);
    ToSigned(Val(s, width), width)
  }

  /** t has the digits of s from index n on. */
  ghost predicate SameFrom(s: seq<Digit>, t: seq<Digit>, n: nat) {
    |s| == |t| && forall k | n <= k < |s| :: t[k] == s[k]
  }

  /** t has the digits of s below index n. */
  ghost predicate SameBelow(s: seq<Digit>, t: seq<Digit>, n: nat) {
    n <= |s| && n <= |t| && forall k | 0 <= k < n :: t[k] == s[k]
  }

  lemma {:induction false} NumEqual(s: seq<Digit>, t: seq<Digit>, n: nat)
    requires SameBelow(s, t, n)
    ensures Num(s, n) == Num(t, n)
  {
    if n > 0 {
      NumEqual(s, t, n - 1);
    }
  }

  lemma NumStep(s: seq<Digit>, n: nat)
    requires n < |s|
    ensures Num(s, n + 1) == Num(s, n) + Pow2(8 * n) * s[n]
  {
  }

  lemma NumUpdate(s: seq<Digit>, i: nat, d: Digit)
    requires i < |s|
    ensures Num(s[i := d], i) == Num(s, i)
    ensures Num(s[i := d], i + 1) == Num(s, i) + Pow2(8 * i) * d
  {
    NumEqual(s, s[i := d], i);
  }

  lemma Pow2Digit(n: nat)
    ensures Pow2(8 * (n + 1)) == 256 * Pow2(8 * n)
  {
    Pow2Add(8, 8 * n);
    Pow2Bytes();
  }

  lemma {:induction false} NumBound(s: seq<Digit>, n: nat)
    requires n <= |s|
    ensures Num(s, n) < Pow2(8 * n)
  {
    hide Pow2;
    if n == 0 {
      Pow2Bytes();
    } else {
      NumBound(s, n - 1);
      Pow2Digit(n - 1);
      MulMono(s[n - 1], 255, Pow2(8 * (n - 1)));
      assert Pow2(8 * (n - 1)) * s[n - 1] == s[n - 1] * Pow2(8 * (n - 1));
    }
  }

  /** The first i digits are the remainder, the rest are the quotient. */
  lemma {:induction false} NumSplit(s: seq<Digit>, i: nat, n: nat)
    requires i <= n <= |s|
    ensures Num(s, n) == Num(s, i) + Pow2(8 * i) * Num(s[i..], n - i)
    ensures Num(s, n) % Pow2(8 * i) == Num(s, i)
    ensures Num(s, n) / Pow2(8 * i) == Num(s[i..], n - i)
  {
    hide Num, Pow2;
    NumSplitSum(s, i, n);
    NumBound(s, i);
    DivModUnique(Num(s, n), Pow2(8 * i), Num(s[i..], n - i), Num(s, i));
  }

  lemma {:induction false} NumSplitSum(s: seq<Digit>, i: nat, n: nat)
    requires i <= n <= |s|
    ensures Num(s, n) == Num(s, i) + Pow2(8 * i) * Num(s[i..], n - i)
    decreases n
  {
    hide Num, Pow2;
    var t, p := s[i..], Pow2(8 * i);
    if n == i {
      NumEmpty(t);
    } else {
      var m := n - 1 - i;
      NumSplitSum(s, i, n - 1);
      NumStep(s, n - 1);
      NumStep(t, m);
      assert t[m] == s[n - 1];
      var q := Pow2(8 * m);
      Pow2Add(8 * i, 8 * m);
      assert p * (Num(t, m) + q * t[m]) == p * Num(t, m) + (p * q) * t[m];
    }
  }

  lemma NumEmpty(s: seq<Digit>)
    ensures Num(s, 0) == 0
  {
  }

  /** Digits are recovered from the number. */
  lemma DigitAt(s: seq<Digit>, n: nat, i: nat)
    requires i < n <= |s|
    ensures s[i] == Num(s, n) / Pow2(8 * i) % 256
  {
    hide Num, Pow2;
    NumSplit(s, i, n);
    NumSplit(s[i..], 1, n - i);
    NumStep(s[i..], 0);
    NumEmpty(s[i..]);
    Pow2Bytes();
  }

  /** Any number of digits that covers the width gives the same value. */
  lemma ValOfNum(s: seq<Digit>, width: nat, n: nat)
    requires DigitCount(width) <= n <= |s|
    ensures Num(s, n) % Pow2(width) == Val(s, width)
  {
    hide Num, Pow2;
    var c := DigitCount(width);
    NumSplit(s, c, n);
    ModModPow2(Num(s, n), width, 8 * c);
  }

  lemma ValNarrow(s: seq<Digit>, v: nat, w: nat)
    requires v <= w && DigitCount(w) <= |s|
    ensures Val(s, w) % Pow2(v) == Val(s, v)
  {
    hide Num, Pow2;
    ModModPow2(Num(s, DigitCount(w)), v, w);
    ValOfNum(s, v, DigitCount(w));
  }

  lemma ValNarrowed(s: seq<Digit>, v: nat, w: nat)
    requires v <= w && DigitCount(w) <= |s|
    ensures DigitCount(v) <= |s| && Wrap(Val(s, w), v) == Val(s, v)
  {
    hide Num, Pow2;
    ValNarrow(s, v, w);
  }

  /** Bit k of the number is bit k % 8 of digit k / 8. */
  lemma NumBit(s: seq<Digit>, n: nat, k: nat)
    requires k < 8 * n && n <= |s|
    ensures Bit(s[k / 8], k % 8) == Bit(Num(s, n), k)
  {
    hide Num, Pow2;
    var i, j := k / 8, k % 8;
    var x := Num(s, n);
    DigitAt(s, n, i);
    Pow2Bytes();
    BitWrap(x / Pow2(8 * i), j, 8);
    SplitPow2(x, 8 * i, j);
  }

  lemma ValBit(s: seq<Digit>, width: nat, k: nat)
    requires k < width && DigitCount(width) <= |s|
    ensures Bit(s[k / 8], k % 8) == Bit(Val(s, width), k)
  {
    hide Num, Pow2;
    NumBit(s, DigitCount(width), k);
    BitWrap(Num(s, DigitCount(width)), k, width);
  }

  /** The number is the masked top digit in front of the digits below it. */
  lemma ValTop(s: seq<Digit>, width: nat)
    requires 0 < width && DigitCount(width) <= |s|
    ensures Val(s, width) == Num(s, TopIndex(width)) + Pow2(8 * TopIndex(width)) * (s[TopIndex(width)] % Pow2(TopOffset(width) + 1))
    ensures s[TopIndex(width)] % Pow2(TopOffset(width) + 1) < 256
  {
    hide Num, Pow2;
    var i, o := TopIndex(width), TopOffset(width) + 1;
    TopDigit(width);
    var x, p, q := Num(s, i + 1), Pow2(8 * i), Pow2(o);
    var d := s[i];
    NumStep(s, i);
    NumBound(s, i);
    DivModUnique(x, p, d, Num(s, i));
    SplitPow2(x, 8 * i, o);
    DivModDef(d, q);
    DivLess(d, q, 0);
    MulMono(0, d / q, q);
  }

  /** The value is zero exactly when every digit is, the top one after masking. */
  lemma {:induction false} NumZero(s: seq<Digit>, n: nat)
    requires n <= |s|
    ensures Num(s, n) == 0 <==> forall k | 0 <= k < n :: s[k] == 0
  {
    if n > 0 {
      NumZero(s, n - 1);
      if s[n - 1] > 0 {
        MulMono(1, s[n - 1], Pow2(8 * (n - 1)));
      }
    }
  }

  /** Bit k of the array. */
  function DigitBit(s: seq<Digit>, k: nat): int
    requires k / 8 < |s|
  {
    Bit(s[k / 8], k % 8)
  }

  /** The value is determined by the bits below the width, and determines them; padding plays no part. */
  lemma PaddingIgnored(s: seq<Digit>, t: seq<Digit>, width: nat)
    requires DigitCount(width) <= |s| && DigitCount(width) <= |t|
    ensures Val(s, width) == Val(t, width) <==> forall k | 0 <= k < width :: DigitBit(s, k) == DigitBit(t, k)
  {
    hide Num, Val, Bit, Pow2;
    forall k | 0 <= k < width
      ensures DigitBit(s, k) == Bit(Val(s, width), k) && DigitBit(t, k) == Bit(Val(t, width), k)
    {
      ValBit(s, width, k);
      ValBit(t, width, k);
    }
    if forall k | 0 <= k < width :: DigitBit(s, k) == DigitBit(t, k) {
      forall k | 0 <= k < width
        ensures Bit(Val(s, width), k) == Bit(Val(t, width), k)
      {
        assert DigitBit(s, k) == DigitBit(t, k);
      }
      SameBits(Val(s, width), Val(t, width), width);
    }
  }

  lemma {:induction false} SameBits(x: nat, y: nat, w: nat)
    requires x < Pow2(w) && y < Pow2(w) && forall k | 0 <= k < w :: Bit(x, k) == Bit(y, k)
    ensures x == y
  {
    hide Bit, Pow2;
    if w == 0 {
      Pow2Bytes();
    } else {
      var p := Pow2(w - 1);
      assert Bit(x, w - 1) == Bit(y, w - 1);
      BitPeel(x, w - 1);
      BitPeel(y, w - 1);
      SmallMod(x, Pow2(w));
      SmallMod(y, Pow2(w));
      forall k | 0 <= k < w - 1
        ensures Bit(x % p, k) == Bit(y % p, k)
      {
        assert Bit(x, k) == Bit(y, k);
        BitWrap(x, k, w - 1);
        BitWrap(y, k, w - 1);
      }
      SameBits(x % p, y % p, w - 1);
    }
  }
}
