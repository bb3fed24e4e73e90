/** Rounding in a word of limited width: what the steps of kefir_bigint/float.h compute at every width,
    and exactly when that is the correctly rounded value. */
module NarrowRounding {
  import opened Powers
  import opened Init
  import opened Rounding
  import opened FloatFormats

  function BitLength(x: nat): nat {
    if x == 0 then 0 else 1 + BitLength(x / 2)
  }

  lemma {:induction false} BitLengthOf(x: nat, n: nat)
    requires HasBits(x, n)
    ensures n == BitLength(x)
  {
    if n == 1 {
      Pow2Bytes();
      assert BitLength(1) == 1 + BitLength(0);
    } else {
      assert Pow2(n) == 2 * Pow2(n - 1) && Pow2(n - 1) == 2 * Pow2(n - 2);
      BitLengthOf(x / 2, n - 1);
    }
  }

  /** Exponent and significand that the steps leave for a magnitude of n bits in a word of w bits. */
  function Computed(a: nat, n: nat, p: nat, w: nat): (r: (nat, nat))
    requires 0 < n <= w && 0 < p
  {
    if n <= p then
      (n - 1, Wrap(Pow2(p - n) * a, w))
    else
      var v := Wrap(RoundShift(a, n - p), w - 2);
      if v == Pow2(p) then (n, Pow2(p - 1)) else (n - 1, v)
  }

  /** The magnitude rounds up to a power of two, one exponent higher. */
  ghost predicate Carries(a: nat, p: nat) {
    var n := BitLength(a);
    p < n && a >= Pow2(n) - Pow2(n - p - 1)
  }

  /** The word has room for the significand and, unless no bit is dropped, for the rounding. */
  ghost predicate Room(a: nat, p: nat, w: nat) {
    p <= w && (BitLength(a) <= p || p + 3 <= w || (w == p + 2 && !Carries(a, p)))
  }

  /** With the leading bit implied, less is enough: a fraction that fits the word, or a rounding that does not carry. */
  ghost predicate RoomForFraction(a: nat, p: nat, w: nat)
    requires 0 < p
  {
    var n := BitLength(a);
    if n <= p then p <= w || Pow2(p - n) * a - Pow2(p - 1) < Pow2(w) else p + 3 <= w || !Carries(a, p)
  }

  // ----- magnitudes that need no rounding -----

  lemma ShiftedRange(a: nat, n: nat, p: nat)
    requires HasBits(a, n) && n <= p
    ensures Pow2(p - 1) <= Pow2(p - n) * a < Pow2(p)
  {
    hide Pow2;
    Pow2Sub(p, p - n);
    Pow2Sub(p - 1, p - n);
    MulStrict(a, Pow2(n), Pow2(p - n));
    MulMono(Pow2(n - 1), a, Pow2(p - n));
  }

  lemma ShortComputed(a: nat, n: nat, p: nat, w: nat)
    requires HasBits(a, n) && n <= w && n <= p
    ensures p <= w ==> Computed(a, n, p, w) == Parts(a, n, p)
    ensures w < p ==> Computed(a, n, p, w).1 < Pow2(p - 1) <= Parts(a, n, p).1
    ensures Pow2(p - 1) + Wrap(Computed(a, n, p, w).1, p - 1) == Parts(a, n, p).1 <==>
            p <= w || Pow2(p - n) * a - Pow2(p - 1) < Pow2(w)
  {
    hide Pow2, Wrap;
    ShiftedRange(a, n, p);
    CutSignificand(Pow2(p - n) * a, p, w);
  }

  /** A significand of p bits cut to w: whole, or without its leading bit, or short of part of its fraction. */
  lemma CutSignificand(t: nat, p: nat, w: nat)
    requires 0 < p && Pow2(p - 1) <= t < Pow2(p)
    ensures p <= w ==> Wrap(t, w) == t
    ensures w < p ==> Wrap(t, w) < Pow2(p - 1)
    ensures Pow2(p - 1) + Wrap(Wrap(t, w), p - 1) == t <==> p <= w || t - Pow2(p - 1) < Pow2(w)
    ensures Pow2(p - 1) + Wrap(Wrap(t, w), p - 1) <= t
  {
    hide Pow2, Wrap;
    var h := Pow2(p - 1);
    if p <= w {
      Pow2Mono(p, w);
      WrapSmall(t, w);
      HiddenBit(t, p);
    } else {
      Pow2Mono(w, p - 1);
      WrapSmall(Wrap(t, w), p - 1);
      Pow2Sub(p - 1, w);
      WrapShift(t - h, Pow2(p - 1 - w), w);
      WrapSmall(t - h, w);
      WrapBelow(t - h, w);
    }
  }

  // ----- magnitudes that are rounded -----

  lemma LongComputed(a: nat, n: nat, p: nat, w: nat)
    requires HasBits(a, n) && n <= w && 0 < p < n
    ensures var r := RoundShift(a, n - p);
            (p + 3 <= w ==> Computed(a, n, p, w) == Parts(a, n, p)) &&
            (w <= p + 2 && r == Pow2(p) ==> Computed(a, n, p, w) == (n - 1, 0)) &&
            (w == p + 2 && r < Pow2(p) ==> Computed(a, n, p, w) == Parts(a, n, p)) &&
            (w == p + 1 && r < Pow2(p) ==> Computed(a, n, p, w) == (n - 1, r - Pow2(p - 1)))
  {
    hide Pow2, Wrap, RoundShift;
    var r := RoundShift(a, n - p);
    RoundRange(a, n, p);
    Pow2Strict(p - 1, p);
    if p + 3 <= w {
      Pow2Strict(p, w - 2);
      WrapSmall(r, w - 2);
    } else if r == Pow2(p) {
      Pow2Sub(p, w - 2);
      WrapShift(0, Pow2(p - (w - 2)), w - 2);
      WrapSmall(0, w - 2);
    } else if w == p + 2 {
      WrapSmall(r, p);
    } else {
      HiddenBit(r, p);
    }
  }

  lemma CarriesRounds(a: nat, n: nat, p: nat)
    requires HasBits(a, n) && 0 < p < n
    ensures n == BitLength(a)
    ensures Carries(a, p) <==> RoundShift(a, n - p) == Pow2(p)
    ensures RoundShift(a, n - p) <= Pow2(p)
  {
    hide Pow2, RoundShift;
    BitLengthOf(a, n);
    RoundRange(a, n, p);
  }

  /** The steps leave the rounded exponent and significand exactly when there is room. */
  lemma ComputedExact(a: nat, n: nat, p: nat, w: nat)
    requires HasBits(a, n) && n <= w && 0 < p
    ensures Computed(a, n, p, w) == Parts(a, n, p) <==> Room(a, p, w)
  {
    hide Pow2, Wrap, RoundShift, Computed, Carries;
    BitLengthOf(a, n);
    if n <= p {
      ShortComputed(a, n, p, w);
    } else {
      LongComputed(a, n, p, w);
      CarriesRounds(a, n, p);
      RoundRange(a, n, p);
      Pow2Strict(p - 1, p);
    }
  }

  /** 2^64 in 65 bits loses its only bit when it is shifted up to make the guard bits. */
  lemma PowerLost()
    ensures Computed(Pow2(64), 65, 64, 65) == (64, 0)
    ensures Parts(Pow2(64), 65, 64) == (64, Pow2(63))
  {
    hide Pow2, Wrap, RoundShift, Computed;
    Pow2Sub(65, 1);
    Pow2Bytes();
    LongComputed(Pow2(64), 65, 64, 65);
    HalfExactly();
    Pow2Strict(63, 64);
  }

  lemma HalfExactly()
    ensures RoundShift(Pow2(64), 1) == Pow2(63)
  {
    hide Pow2, Wrap, Shr;
    Pow2Sub(64, 1);
    Pow2Bytes();
    ShrUnique(Pow2(64), Pow2(63), 0, 1);
  }

  /** 2^65 - 1 in 66 bits, the greatest signed value there, rounds up past the word. */
  lemma CarryLost()
    ensures Computed(Pow2(65) - 1, 65, 64, 66) == (64, 0)
    ensures Parts(Pow2(65) - 1, 65, 64) == (65, Pow2(63))
  {
    hide Pow2, Wrap, RoundShift, Computed;
    Pow2Sub(65, 1);
    Pow2Bytes();
    Pow2Strict(0, 64);
    RoundRange(Pow2(65) - 1, 65, 64);
    LongComputed(Pow2(65) - 1, 65, 64, 66);
  }

  // ----- formats with an implied leading bit -----

  /** What an interchange pattern packed from the computed parts denotes. */
  ghost function Packed(negative: bool, parts: (nat, nat), f: Format): Datum
    requires f.Valid()
  {
    if parts.0 >= f.limit then
      Infinite(negative)
    else
      Finite(negative, Pow2(f.precision - 1) + Wrap(parts.1, f.precision - 1), parts.0 + f.limit - 2)
  }

  /** The number in the fields of that pattern, an infinity's read like any other. */
  ghost function PackedNumber(negative: bool, parts: (nat, nat), f: Format): Datum
    requires f.Valid()
  {
    if parts.0 >= f.limit then
      Finite(negative, Pow2(f.precision - 1), 2 * f.limit - 2)
    else
      Finite(negative, Pow2(f.precision - 1) + Wrap(parts.1, f.precision - 1), parts.0 + f.limit - 2)
  }

  /** The fields of a pattern hold what the steps leave of an integer. */
  ghost predicate HoldsPacked(d: Datum, x: int, f: Format, w: nat)
    requires f.Valid()
  {
    var a, n := Magnitude(x), BitLength(Magnitude(x));
    if x == 0 then d == Finite(false, 0, 0) else HasBits(a, n) && n <= w && d == PackedNumber(x < 0, Computed(a, n, f.precision, w), f)
  }

  /** The packed parts denote the correctly rounded value exactly when there is room for the fraction. */
  lemma PackedRounded(x: int, n: nat, f: Format, w: nat)
    requires f.Valid() && f.precision + 2 < f.limit && HasBits(Magnitude(x), n) && n <= w
    ensures CorrectlyRounded(x, Packed(x < 0, Computed(Magnitude(x), n, f.precision, w), f), f) <==>
            RoomForFraction(Magnitude(x), f.precision, w)
  {
    hide Pow2, Wrap, Computed, Parts, CorrectlyRounded, Carries, RoundShift;
    var a, p := Magnitude(x), f.precision;
    BitLengthOf(a, n);
    PartsRound(x, n, f);
    HiddenBit(Parts(a, n, p).1, p);
    if n <= p {
      ShortComputed(a, n, p, w);
      ShortRounded(x, n, f, w);
    } else {
      LongComputed(a, n, p, w);
      CarriesRounds(a, n, p);
      LongRounded(x, n, f, w);
    }
  }

  lemma ShortRounded(x: int, n: nat, f: Format, w: nat)
    requires f.Valid() && HasBits(Magnitude(x), n) && n <= w && n <= f.precision
    ensures var d := Packed(x < 0, Computed(Magnitude(x), n, f.precision, w), f);
            d.Finite? &&
            (CorrectlyRounded(x, d, f) <==> d.significand == Parts(Magnitude(x), n, f.precision).1)
  {
    hide Pow2, Wrap, NearestEven, OverflowThreshold;
    var a, p := Magnitude(x), f.precision;
    var d, m := Packed(x < 0, Computed(a, n, p, w), f), Parts(a, n, p).1;
    PartsRound(x, n, f);
    ExactParts(a, n, f);
    if CorrectlyRounded(x, d, f) {
      assert HasForm(Pow2(f.Scale()) * a, m, n - 1 + f.limit - 2, f);
      RepresentableExact(x, d, f);
      SameSignificand(d.significand, m, n - 1 + f.limit - 2);
    }
  }

  lemma SameSignificand(m: nat, k: nat, e: nat)
    requires Pow2(e) * m == Pow2(e) * k
    ensures m == k
  {
    hide Pow2;
    if m < k {
      MulStrict(m, k, Pow2(e));
    } else if k < m {
      MulStrict(k, m, Pow2(e));
    }
  }

  lemma LongRounded(x: int, n: nat, f: Format, w: nat)
    requires f.Valid() && f.precision + 2 < f.limit && HasBits(Magnitude(x), n) && f.precision < n <= w
    ensures CorrectlyRounded(x, Packed(x < 0, Computed(Magnitude(x), n, f.precision, w), f), f) <==>
            f.precision + 3 <= w || RoundShift(Magnitude(x), n - f.precision) < Pow2(f.precision)
  {
    hide Pow2, Wrap, Computed, CorrectlyRounded, RoundShift;
    var a, p := Magnitude(x), f.precision;
    var r := RoundShift(a, n - p);
    PartsRound(x, n, f);
    LongComputed(a, n, p, w);
    RoundRange(a, n, p);
    if p + 3 <= w {
      HiddenBit(Parts(a, n, p).1, p);
    } else if r < Pow2(p) {
      HiddenBit(r, p);
      Pow2Sub(p, 1);
      Pow2Bytes();
      WrapSmall(r - Pow2(p - 1), p - 1);
    } else {
      WrapSmall(0, p - 1);
      HalfWrong(x, n, f);
    }
  }

  /** A magnitude that rounds up to a power of two is nearer to it than to half of it. */
  lemma HalfWrong(x: int, n: nat, f: Format)
    requires f.Valid() && HasBits(Magnitude(x), n) && f.precision < n < f.limit
    requires Magnitude(x) >= Pow2(n) - Pow2(n - f.precision - 1)
    ensures !CorrectlyRounded(x, Finite(x < 0, Pow2(f.precision - 1), n - 1 + f.limit - 2), f)
  {
    hide Pow2, OverflowThreshold;
    var a, p, s := Magnitude(x), f.precision, f.Scale();
    var below, above := Pow2(s) * Pow2(n - 1), Pow2(s) * Pow2(n);
    Pow2Add(n - 1 + f.limit - 2, p - 1);
    Pow2Add(s, n - 1);
    Pow2Add(s, n);
    Pow2Add(n + f.limit - 2, p - 1);
    Pow2Strict(p - 1, p);
    assert HasForm(above, Pow2(p - 1), n + f.limit - 2, f);
    assert Representable(above, f);
    NearerAbove(a, n, p, Pow2(s));
  }

  lemma NearerAbove(a: nat, n: nat, p: nat, u: nat)
    requires 2 <= p < n && HasBits(a, n) && a >= Pow2(n) - Pow2(n - p - 1) && 0 < u
    ensures Distance(u * a, u * Pow2(n)) < Distance(u * a, u * Pow2(n - 1))
  {
    hide Pow2, Distance;
    Pow2Strict(n - p - 1, n - 2);
    Pow2Sub(n, 1);
    Pow2Sub(n - 1, 1);
    Pow2Bytes();
    Nearer(a, Pow2(n - 1), Pow2(n), u);
  }

  lemma Nearer(a: nat, lo: nat, hi: nat, u: nat)
    requires lo <= a < hi && hi - a < a - lo && 0 < u
    ensures Distance(u * a, u * hi) < Distance(u * a, u * lo)
  {
    MulDist(u, a, hi - a);
    MulDist(u, lo, a - lo);
    MulStrict(hi - a, a - lo, u);
    MulMono(0, hi - a, u);
  }

  // ----- the format with an explicit leading bit -----

  /** The number in the fields of a long double packed from the computed parts. */
  ghost function ExtendedPackedNumber(negative: bool, parts: (nat, nat)): Datum {
    if parts.0 >= 16384 then Finite(negative, Pow2(63), 32766) else Finite(negative, parts.1, parts.0 + 16382)
  }

  ghost predicate HoldsExtended(d: Datum, x: int, w: nat) {
    var a, n := Magnitude(x), BitLength(Magnitude(x));
    if x == 0 then d == Finite(false, 0, 0) else HasBits(a, n) && n <= w && d == ExtendedPackedNumber(x < 0, Computed(a, n, 64, w))
  }

  /** A long double packed from the computed parts denotes the correctly rounded value exactly when there is room. */
  lemma ExtendedRounded(x: int, n: nat, w: nat, e: nat, m: Word)
    requires HasBits(Magnitude(x), n) && n <= w && (e, m) == Computed(Magnitude(x), n, 64, w)
    ensures CorrectlyRounded(x, DecodeExtended(PackExtended(SignWord(x < 0), e, m)), LONG_DOUBLE) <==> Room(Magnitude(x), 64, w)
  {
    hide Pow2, Wrap, Computed, Parts, DecodeExtended, PackExtended, SignWord, RoundShift, Carries, NearestEven;
    var a := Magnitude(x);
    Pow2Fractions();
    BitLengthOf(a, n);
    ComputedExact(a, n, 64, w);
    PartsRound(x, n, LONG_DOUBLE);
    ComputedShort(a, n, w);
    PackExtendedDenotes(x < 0, e, m);
  }

  lemma ComputedShort(a: nat, n: nat, w: nat)
    requires HasBits(a, n) && n <= w
    ensures Computed(a, n, 64, w) == Parts(a, n, 64) ||
            (Computed(a, n, 64, w).0 < 66 && Computed(a, n, 64, w).1 < Pow2(63))
  {
    hide Pow2, Wrap, Computed, RoundShift;
    if n <= 64 {
      ShortComputed(a, n, 64, w);
      ShortExponent(a, n, w);
    } else {
      LongComputed(a, n, 64, w);
      RoundRange(a, n, 64);
      Pow2Sub(64, 1);
      Pow2Bytes();
    }
  }

  lemma ShortExponent(a: nat, n: nat, w: nat)
    requires 0 < n <= w && n <= 64
    ensures Computed(a, n, 64, w).0 == n - 1
  {
  }
}
