/** Binary floating-point formats and rounding to nearest, ties to even (section 4.3.1 of IEEE 754-2019). */
module Rounding {
  import opened Powers
  import opened BitRange

  /** A format with `precision` significand bits whose finite magnitudes lie below 2^limit. Every finite
      magnitude is a whole multiple of 2^-scale, so magnitudes are kept scaled by 2^scale, as integers. */
  datatype Format = Format(precision: nat, limit: nat) {
    ghost predicate Valid() {
      2 <= precision < limit
    }
    /** The least magnitude is 2^-scale: exponent 2 - limit, precision - 1 bits below the point. */
    function Scale(): nat
      requires 2 <= precision < limit
    {
      limit - 2 + (precision - 1)
    }
  }

  const FLOAT := Format(24, 128)
  const DOUBLE := Format(53, 1024)
  const LONG_DOUBLE := Format(64, 16384)

  /** A scaled magnitude is finite in the format: a significand below 2^precision times a power of two. */
  ghost predicate Representable(k: nat, f: Format)
    requires f.Valid()
  {
    exists m: nat, t: nat :: HasForm(k, m, t, f)
  }

  ghost predicate HasForm(k: nat, m: nat, t: nat, f: Format)
    requires f.Valid()
  {
    m < Pow2(f.precision) && t <= 2 * f.limit - 3 && k == Pow2(t) * m
  }

  function Distance(x: int, y: int): nat {
    if x < y then y - x else x - y
  }

  /** The floating-point datum a bit pattern denotes. A finite magnitude is significand * 2^exponent, scaled. */
  datatype Datum =
    | Finite(negative: bool, significand: nat, exponent: nat)
    | Infinite(negative: bool)
    | NotANumber
  {
    function Scaled(): nat
      requires Finite?
    {
      Pow2(exponent) * significand
    }
  }

  /** k, with an even or odd significand, is the representable magnitude nearest to x, ties to even. */
  ghost predicate NearestEven(x: nat, k: nat, even: bool, f: Format)
    requires f.Valid()
  {
    Representable(k, f) &&
    forall j: nat | Representable(j, f) ::
      Distance(x, k) <= Distance(x, j) && (Distance(x, k) == Distance(x, j) && j != k ==> even)
  }

  /** Magnitudes from here on round to infinity (section 7.4 of IEEE 754-2019). */
  function OverflowThreshold(f: Format): nat
    requires 2 <= f.precision < f.limit
  {
    Pow2Mono(f.limit - f.precision - 1, f.limit);
    Pow2(f.limit) - Pow2(f.limit - f.precision - 1)
  }

  /** d is the integer x rounded to the format. */
  ghost predicate CorrectlyRounded(x: int, d: Datum, f: Format)
    requires f.Valid()
  {
    match d
    case Finite(negative, significand, exponent) =>
      negative == (x < 0) && Magnitude(x) < OverflowThreshold(f) &&
      NearestEven(Pow2(f.Scale()) * Magnitude(x), d.Scaled(), significand % 2 == 0, f)
    case Infinite(negative) =>
      negative == (x < 0) && Magnitude(x) >= OverflowThreshold(f)
    case NotANumber => false
  }

  // ----- significant bits -----

  /** x has exactly n significant bits. */
  ghost predicate HasBits(x: nat, n: nat) {
    n > 0 && Pow2(n - 1) <= x < Pow2(n)
  }

  /** x shifted right by s bits, rounded to nearest, ties to even. */
  function RoundShift(x: nat, s: nat): (r: nat)
  {
    ShrNat(x, s);
    var q, rest := Shr(x, s), Wrap(x, s);
    if 2 * rest > Pow2(s) || (2 * rest == Pow2(s) && q % 2 == 1) then q + 1 else q
  }

  /** Unbiased exponent and significand of an integer with n bits, rounded to p bits. */
  function Parts(x: nat, n: nat, p: nat): (r: (nat, nat))
    requires 0 < n && 0 < p
  {
    if n <= p then
      (n - 1, Pow2(p - n) * x)
    else
      var r := RoundShift(x, n - p);
      if r == Pow2(p) then (n, Pow2(p - 1)) else (n - 1, r)
  }

  // ----- nearest on a grid -----

  /** Of all multiples of u, the rounded quotient's is nearest to x, and even on a tie. */
  lemma GridNearest(x: nat, s: nat, j: int)
    ensures var r, u := RoundShift(x, s), Pow2(s);
            Distance(x, u * r) <= Distance(x, u * j) &&
            (Distance(x, u * r) == Distance(x, u * j) && j != r ==> r % 2 == 0)
  {
    hide Pow2, Wrap, Shr, Distance;
    ShrNat(x, s);
    var q, u := Shr(x, s), Pow2(s);
    ShrSplit(x, s);
    MulDist(u, q, 1);
    GridOutside(u, q, j);
    GridChoice(x, Wrap(x, s), u, u * q, u * j, j < q, j == q, j == q + 1);
    var up := u * (q + 1);
    if RoundShift(x, s) == q {
      assert u * RoundShift(x, s) == u * q;
    } else {
      assert u * RoundShift(x, s) == up;
    }
  }

  /** Between two neighbours of the grid the rule picks the nearer, on a tie either; the rest of the grid is farther. */
  lemma GridChoice(x: int, rest: int, u: int, low: int, other: int, below: bool, first: bool, second: bool)
    requires x == rest + low && 0 <= rest < u
    requires if below then other <= low - u else if first then other == low else if second then other == low + u else other >= low + u + u
    ensures 2 * rest < u && !first ==> Distance(x, low) < Distance(x, other)
    ensures 2 * rest > u && !second ==> Distance(x, low + u) < Distance(x, other)
    ensures 2 * rest == u && !first && !second ==> Distance(x, low) < Distance(x, other)
    ensures 2 * rest == u ==> Distance(x, low) == Distance(x, low + u)
  {
  }

  /** A multiple other than the two around x is a unit or more beyond one of them. */
  lemma GridOutside(u: nat, q: int, j: int)
    requires 0 < u
    ensures j < q ==> u * j <= u * q - u
    ensures j > q + 1 ==> u * j >= u * q + 2 * u
    ensures j == q + 1 ==> u * j == u * q + u
  {
    if j < q {
      MulDist(u, j, q - j);
      MulMono(1, q - j, u);
    } else {
      MulDist(u, q, j - q);
      if j > q + 1 {
        MulMono(2, j - q, u);
      }
    }
  }

  /** Rounding up to the next power h happens exactly from half a unit below it on. */
  lemma CarryOnly(x: int, q: int, rest: int, u: int, v: int, h: int)
    requires u == 2 * v && 0 < v && h % 2 == 0 && 0 <= q < h && 0 <= rest < u && x == rest + u * q
    ensures var r := if 2 * rest > u || (2 * rest == u && q % 2 == 1) then q + 1 else q;
            r == h <==> x >= u * h - v
  {
    if q < h - 1 {
      MulMono(q, h - 2, u);
      assert (h - 2) * u == u * h - 2 * u;
    } else {
      assert u * (h - 1) == u * h - u;
    }
  }

  /** Rounding to p bits gives a p-bit significand or, on a carry, 2^p. */
  lemma RoundRange(x: nat, n: nat, p: nat)
    requires 0 < p < n && HasBits(x, n)
    ensures Pow2(p - 1) <= RoundShift(x, n - p) <= Pow2(p)
    ensures RoundShift(x, n - p) == Pow2(p) <==> x >= Pow2(n) - Pow2(n - p - 1)
  {
    hide Pow2, Wrap, Shr;
    var s := n - p;
    ShrNat(x, s);
    ShrSplit(x, s);
    Pow2Sub(n, s);
    Pow2Sub(s, 1);
    Pow2Sub(p, 1);
    Pow2Bytes();
    QuotientBits(x, s, p);
    CarryOnly(x, Shr(x, s), Wrap(x, s), Pow2(s), Pow2(s - 1), Pow2(p));
  }

  lemma QuotientBits(x: nat, s: nat, p: nat)
    requires 0 < p && Pow2(s + p - 1) <= x < Pow2(s + p)
    ensures Pow2(p - 1) <= Shr(x, s) < Pow2(p)
  {
    hide Pow2, Shr;
    ShrBelow(x, s, p);
    ShrBelow(x, s, p - 1);
  }

  // ----- nearest among the representable -----

  lemma DistanceScaled(x: int, y: int, b: nat)
    ensures Distance(b * x, b * y) == b * Distance(x, y)
  {
    if x < y {
      MulDist(b, y, -x);
      MulMono(0, y - x, b);
    } else {
      MulDist(b, x, -y);
      MulMono(0, x - y, b);
    }
  }

  lemma FineForm(m: nat, t: nat, p: nat, e: nat)
    requires m < Pow2(p) && t + p <= e
    ensures Pow2(t) * m < Pow2(e)
  {
    hide Pow2;
    MulStrict(m, Pow2(p), Pow2(t));
    Pow2Add(t, p);
    Pow2Mono(t + p, e);
  }

  lemma CoarseForm(m: nat, t: nat, g: nat) returns (i: nat)
    requires g <= t
    ensures Pow2(t) * m == Pow2(g) * i
  {
    hide Pow2;
    Pow2Sub(t, g);
    MulAssoc(Pow2(g), Pow2(t - g), m);
    MulMono(0, m, Pow2(t - g));
    i := Pow2(t - g) * m;
  }

  /** A representable magnitude is on the grid of the rounded significand or lies below all n-bit values. */
  lemma OnGridOrBelow(j: nat, n: nat, f: Format) returns (onGrid: bool, i: nat)
    requires f.Valid() && f.precision < n && Representable(j, f)
    ensures onGrid ==> j == Pow2(n - f.precision + f.Scale()) * i
    ensures !onGrid ==> j < Pow2(n - 1 + f.Scale())
  {
    hide Pow2;
    var m: nat, t: nat :| HasForm(j, m, t, f);
    var g := n - f.precision + f.Scale();
    onGrid, i := t >= g, 0;
    if onGrid {
      i := CoarseForm(m, t, g);
    } else {
      FineForm(m, t, f.precision, n - 1 + f.Scale());
    }
  }

  /** The rounded significand is nearest among all representable magnitudes. */
  lemma RoundedNearest(x: nat, n: nat, f: Format, j: nat)
    requires f.Valid() && f.precision < n && HasBits(x, n) && Representable(j, f)
    ensures var r := RoundShift(x, n - f.precision);
            var k := Pow2(n - f.precision + f.Scale()) * r;
            var big := Pow2(f.Scale()) * x;
            Distance(big, k) <= Distance(big, j) && (Distance(big, k) == Distance(big, j) && j != k ==> r % 2 == 0)
  {
    hide Pow2, RoundShift, Distance, Representable;
    var s, b := n - f.precision, Pow2(f.Scale());
    var r, u := RoundShift(x, s), Pow2(s);
    var big := b * x;
    Pow2Add(s, f.Scale());
    assert Pow2(s + f.Scale()) * r == b * (u * r) by {
      MulAssoc(b, u, r);
    }
    DistanceScaled(x, u * r, b);
    var onGrid, i := OnGridOrBelow(j, n, f);
    if onGrid {
      assert j == b * (u * i) by {
        MulAssoc(b, u, i);
      }
      DistanceScaled(x, u * i, b);
      GridNearest(x, s, i);
      MulMono(Distance(x, u * r), Distance(x, u * i), b);
      TieScaled(b, Distance(x, u * r), Distance(x, u * i));
    } else {
      var i := Pow2(f.precision - 1);
      GridNearest(x, s, i);
      Pow2Add(s, f.precision - 1);
      Pow2Add(n - 1, f.Scale());
      BelowIsFarther(x, u * i, j, b);
      DistanceScaled(x, u * i, b);
      MulMono(Distance(x, u * r), Distance(x, u * i), b);
    }
  }

  lemma TieScaled(b: nat, d: nat, e: nat)
    requires 0 < b
    ensures b * d == b * e ==> d == e
  {
    if d < e {
      MulStrict(d, e, b);
    } else if e < d {
      MulStrict(e, d, b);
    }
  }

  lemma BelowIsFarther(x: nat, y: nat, j: nat, b: nat)
    requires y <= x && j < b * y
    ensures b * Distance(x, y) < Distance(b * x, j)
  {
    DistanceScaled(x, y, b);
    MulMono(y, x, b);
  }

  // ----- the rounded parts -----

  /** Scaled value of an unbiased exponent and a significand. */
  function PartsScaled(e: nat, m: nat, f: Format): nat
    requires 2 <= f.precision < f.limit
  {
    Pow2(e + f.limit - 2) * m
  }

  lemma ExactParts(x: nat, n: nat, f: Format)
    requires f.Valid() && HasBits(x, n) && n <= f.precision
    ensures Pow2(f.precision - 1) <= Parts(x, n, f.precision).1 < Pow2(f.precision)
    ensures PartsScaled(n - 1, Parts(x, n, f.precision).1, f) == Pow2(f.Scale()) * x
    ensures x < OverflowThreshold(f)
  {
    hide Pow2, OverflowThreshold;
    var p := f.precision;
    var d := Pow2(p - n);
    Pow2Sub(p - 1, p - n);
    Pow2Sub(p, p - n);
    MulMono(Pow2(n - 1), x, d);
    MulStrict(x, Pow2(n), d);
    Pow2Add(n - 1 + f.limit - 2, p - n);
    MulAssoc(Pow2(n - 1 + f.limit - 2), d, x);
    SmallRepresentable(x, n, f);
  }

  lemma SmallRepresentable(x: nat, n: nat, f: Format)
    requires f.Valid() && x < Pow2(n) && n <= f.precision
    ensures x < OverflowThreshold(f)
  {
    hide Pow2;
    Pow2Mono(n, f.limit - 1);
    Pow2Sub(f.limit, 1);
    Pow2Bytes();
    Pow2Mono(f.limit - f.precision - 1, f.limit - 1);
  }

  lemma ExactNearest(x: nat, k: nat, even: bool, f: Format)
    requires f.Valid() && k == x && Representable(k, f)
    ensures NearestEven(x, k, even, f)
  {
  }

  lemma RoundedParts(x: nat, n: nat, f: Format)
    requires f.Valid() && HasBits(x, n) && f.precision < n
    ensures var r := RoundShift(x, n - f.precision);
            var (e, m) := Parts(x, n, f.precision);
            Pow2(f.precision - 1) <= m < Pow2(f.precision) &&
            PartsScaled(e, m, f) == Pow2(n - f.precision + f.Scale()) * r &&
            (r % 2 == 0 ==> m % 2 == 0) &&
            e == (if x >= Pow2(n) - Pow2(n - f.precision - 1) then n else n - 1)
  {
    hide Pow2, RoundShift;
    var p := f.precision;
    var r := RoundShift(x, n - p);
    RoundRange(x, n, p);
    Pow2Strict(p - 1, p);
    if r == Pow2(p) {
      EvenPower(p - 1);
      CarriedScale(n - p + f.Scale(), p);
    }
  }

  lemma EvenPower(k: nat)
    requires 0 < k
    ensures Pow2(k) % 2 == 0
  {
    hide Pow2;
    Pow2Sub(k, 1);
    Pow2Bytes();
    Doubled(Pow2(k - 1));
  }

  lemma Doubled(x: int)
    ensures (2 * x) % 2 == 0
  {
  }

  /** A significand that carried out to the next power of two, read one exponent higher. */
  lemma CarriedScale(g: nat, p: nat)
    requires 0 < p
    ensures Pow2(g + 1) * Pow2(p - 1) == Pow2(g) * Pow2(p)
  {
    hide Pow2;
    Pow2Add(g + 1, p - 1);
    Pow2Add(g, p);
  }

  lemma RoundedOverflow(x: nat, n: nat, f: Format)
    requires f.Valid() && HasBits(x, n) && f.precision < n
    ensures Parts(x, n, f.precision).0 >= f.limit <==> x >= OverflowThreshold(f)
  {
    hide Pow2, Parts;
    RoundedParts(x, n, f);
    var p, l := f.precision, f.limit;
    if n < l {
      Pow2Mono(n, l - 1);
      Pow2Sub(l, 1);
      Pow2Bytes();
      Pow2Mono(l - p - 1, l - 1);
    } else if n > l {
      Pow2Mono(l, n - 1);
    }
  }

  /** The parts of every positive integer denote it rounded to nearest, ties to even; an exponent past
      the format's limit marks exactly the values that overflow. */
  lemma PartsRound(x: int, n: nat, f: Format)
    requires f.Valid() && HasBits(Magnitude(x), n)
    ensures var (e, m) := Parts(Magnitude(x), n, f.precision);
            Pow2(f.precision - 1) <= m < Pow2(f.precision) &&
            (e >= f.limit ==> CorrectlyRounded(x, Infinite(x < 0), f)) &&
            (e < f.limit ==> CorrectlyRounded(x, Finite(x < 0, m, e + f.limit - 2), f))
  {
    hide Pow2, RoundShift, Parts, OverflowThreshold, NearestEven, Distance, Representable;
    var a, p := Magnitude(x), f.precision;
    var (e, m) := Parts(a, n, p);
    if n <= p {
      ExactParts(a, n, f);
      PartsExponent(a, n, p);
      FormRepresentable(e, m, f);
      ExactNearest(Pow2(f.Scale()) * a, PartsScaled(e, m, f), m % 2 == 0, f);
    } else {
      RoundedParts(a, n, f);
      RoundedOverflow(a, n, f);
      if e < f.limit {
        FormRepresentable(e, m, f);
        RoundedNearestAll(a, n, f, PartsScaled(e, m, f), m % 2 == 0);
      }
    }
  }

  lemma PartsExponent(x: nat, n: nat, p: nat)
    requires 0 < n <= p
    ensures Parts(x, n, p).0 == n - 1
  {
  }

  lemma FormRepresentable(e: nat, m: nat, f: Format)
    requires f.Valid() && m < Pow2(f.precision) && e < f.limit
    ensures Representable(PartsScaled(e, m, f), f)
  {
    hide Pow2;
    assert HasForm(PartsScaled(e, m, f), m, e + f.limit - 2, f);
  }

  lemma RoundedNearestAll(x: nat, n: nat, f: Format, k: nat, even: bool)
    requires f.Valid() && f.precision < n && HasBits(x, n) && Representable(k, f)
    requires k == Pow2(n - f.precision + f.Scale()) * RoundShift(x, n - f.precision)
    requires RoundShift(x, n - f.precision) % 2 == 0 ==> even
    ensures NearestEven(Pow2(f.Scale()) * x, k, even, f)
  {
    hide Pow2, RoundShift, Distance, Representable, HasBits;
    forall j: nat | Representable(j, f)
      ensures Distance(Pow2(f.Scale()) * x, k) <= Distance(Pow2(f.Scale()) * x, j)
      ensures Distance(Pow2(f.Scale()) * x, k) == Distance(Pow2(f.Scale()) * x, j) && j != k ==> even
    {
      RoundedNearest(x, n, f, j);
    }
  }

  /** Zero is exact. */
  lemma ZeroRounds(f: Format)
    requires f.Valid()
    ensures CorrectlyRounded(0, Finite(false, 0, 0), f)
  {
    hide Pow2;
    assert HasForm(0, 0, 0, f);
    Pow2Strict(f.limit - f.precision - 1, f.limit);
  }

  /** An integer that the format can hold is held exactly. */
  lemma RepresentableExact(x: int, d: Datum, f: Format)
    requires f.Valid() && CorrectlyRounded(x, d, f) && d.Finite?
    requires Representable(Pow2(f.Scale()) * Magnitude(x), f)
    ensures d.Scaled() == Pow2(f.Scale()) * Magnitude(x)
  {
    hide Pow2, Representable;
    assert Distance(Pow2(f.Scale()) * Magnitude(x), Pow2(f.Scale()) * Magnitude(x)) == 0;
  }
}
