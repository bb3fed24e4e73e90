/** Powers of two and the division and remainder facts that positional arithmetic rests on. */
module Powers {

  function Pow2(n: nat): (p: nat)
    ensures p > 0
  {
    if n == 0 then 1 else 2 * Pow2(n - 1)
  }

  // ----- products -----

  lemma MulMono(a: int, b: int, c: int)
    requires a <= b && 0 <= c
    ensures a * c <= b * c
  {
  }

  lemma MulAssoc(a: int, b: int, c: int)
    ensures (a * b) * c == a * (b * c)
  {
  }

  lemma MulSwap(a: int, b: int, c: int, d: int)
    ensures (a * b) * (c * d) == (a * c) * (b * d)
  {
    MulAssoc(a, b, c * d);
    MulAssoc(b, c, d);
    MulAssoc(c, b, d);
    MulAssoc(a, c, b * d);
  }

  lemma MulDist(a: int, b: int, c: int)
    ensures a * (b + c) == a * b + a * c
  {
  }

  lemma MulStrict(a: int, b: int, c: int)
    requires a < b && 0 < c
    ensures a * c + c <= b * c
  {
    MulMono(a + 1, b, c);
  }

  lemma MulCancel(a: int, b: int, p: int)
    requires 0 < p && p * a < p * b
    ensures a < b
  {
    if a >= b {
      MulMono(b, a, p);
    }
  }

  /** A multiple of m that is smaller than m in magnitude is zero. */
  lemma SmallMultiple(k: int, m: int)
    requires 0 < m && -m < k * m < m
    ensures k == 0
  {
    if k >= 1 {
      MulMono(1, k, m);
    } else if k <= -1 {
      MulMono(k, -1, m);
    }
  }

  // ----- quotient and remainder -----

  lemma DivModUnique(x: int, m: int, q: int, r: int)
    requires 0 < m && x == q * m + r && 0 <= r < m
    ensures x / m == q && x % m == r
  {
    var q', r' := x / m, x % m;
    assert x == q' * m + r';
    assert (q - q') * m == r' - r;
    SmallMultiple(q - q', m);
  }

  lemma DivModDef(x: int, m: int)
    requires 0 < m
    ensures x == (x / m) * m + x % m && 0 <= x % m < m
  {
  }

  lemma ModShift(x: int, k: int, m: int)
    requires 0 < m
    ensures (x + k * m) % m == x % m
    ensures (x + k * m) / m == x / m + k
  {
    DivModDef(x, m);
    assert x + k * m == (x / m + k) * m + x % m;
    DivModUnique(x + k * m, m, x / m + k, x % m);
  }

  /** Equal remainders mean a difference that is a multiple of the modulus. */
  lemma ModEqual(x: int, y: int, m: int) returns (k: int)
    requires 0 < m && x % m == y % m
    ensures x == y + k * m
  {
    DivModDef(x, m);
    DivModDef(y, m);
    k := x / m - y / m;
    assert k * m == (x / m) * m - (y / m) * m;
  }

  lemma ModAdd(x: int, y: int, m: int)
    requires 0 < m
    ensures (x % m + y) % m == (x + y) % m
    ensures (x + y % m) % m == (x + y) % m
  {
    DivModDef(x, m);
    DivModDef(y, m);
    ModShift(x % m + y, x / m, m);
    ModShift(x + y % m, y / m, m);
  }

  lemma ModSub(x: int, y: int, m: int)
    requires 0 < m
    ensures (x - y % m) % m == (x - y) % m
    ensures (x % m - y) % m == (x - y) % m
  {
    DivModDef(x, m);
    DivModDef(y, m);
    var k := y / m;
    ModShift(x - y, k, m);
    ModShift(x % m - y, x / m, m);
  }

  lemma ModMul(x: int, y: int, m: int)
    requires 0 < m
    ensures ((x % m) * y) % m == (x * y) % m
    ensures (x * (y % m)) % m == (x * y) % m
  {
    ModMulLeft(x, y, m);
    ModMulLeft(y, x, m);
    assert (y % m) * x == x * (y % m);
    assert y * x == x * y;
  }

  lemma ModMulLeft(x: int, y: int, m: int)
    requires 0 < m
    ensures ((x % m) * y) % m == (x * y) % m
  {
    DivModDef(x, m);
    var q, r := x / m, x % m;
    assert x * y == r * y + (q * y) * m by {
      assert x * y == (q * m + r) * y;
      assert (q * m) * y == (q * y) * m;
    }
    ModShift(r * y, q * y, m);
  }

  lemma SmallMod(x: int, m: int)
    requires 0 <= x < m
    ensures x % m == x && x / m == 0
  {
  }

  lemma DivMono(x: int, y: int, m: int)
    requires 0 < m && x <= y
    ensures x / m <= y / m
  {
    DivModDef(x, m);
    DivModDef(y, m);
    if x / m > y / m {
      MulStrict(y / m, x / m, m);
    }
  }

  /** x / m is the quotient q exactly when x lies in the q-th block of length m. */
  lemma DivRange(x: int, m: int, q: int)
    requires 0 < m
    ensures q * m <= x < q * m + m <==> x / m == q
  {
    DivModDef(x, m);
    if q * m <= x < q * m + m {
      DivModUnique(x, m, q, x - q * m);
    }
  }

  lemma DivLess(x: int, m: int, b: int)
    requires 0 < m
    ensures x < b * m <==> x / m < b
    ensures b * m <= x <==> b <= x / m
  {
    DivModDef(x, m);
    if x / m < b {
      MulStrict(x / m, b, m);
    } else {
      MulMono(b, x / m, m);
    }
  }

  // ----- composite moduli -----

  /** Splitting by a and then by b is splitting by a * b. */
  lemma SplitMod(x: int, a: int, b: int)
    requires 0 < a && 0 < b
    ensures 0 < a * b
    ensures x / a / b == x / (a * b)
    ensures x % (a * b) == a * ((x / a) % b) + x % a
  {
    MulMono(1, b, a);
    var q, r := x / a, x % a;
    DivModDef(x, a);
    DivModDef(q, b);
    var q2, r2 := q / b, q % b;
    assert x == q2 * (a * b) + (a * r2 + r) by {
      assert x == (q2 * b + r2) * a + r;
      assert (q2 * b) * a == q2 * (a * b);
    }
    assert 0 <= a * r2 + r < a * b by {
      MulMono(0, r2, a);
      MulStrict(r2, b, a);
    }
    DivModUnique(x, a * b, q2, a * r2 + r);
  }

  lemma ModMod(x: int, a: int, b: int)
    requires 0 < a && 0 < b
    ensures 0 < a * b
    ensures (x % (a * b)) % a == x % a
    ensures (x % (a * b)) / a == (x / a) % b
  {
    SplitMod(x, a, b);
    var h := (x / a) % b;
    assert x % (a * b) == h * a + x % a;
    DivModUnique(x % (a * b), a, h, x % a);
  }

  lemma ScaleMod(x: int, a: int, b: int)
    requires 0 < a && 0 < b
    ensures 0 < a * b
    ensures (a * x) % (a * b) == a * (x % b)
    ensures (a * x) / (a * b) == x / b
  {
    SplitMod(a * x, a, b);
    DivModUnique(a * x, a, x, 0);
  }

  /** Scaling by p when p * q is the base: the quotient by q crosses the base, the remainder stays. */
  lemma ScaleSplit(x: nat, p: nat, q: nat)
    requires 0 < p && 0 < q
    ensures p * x == (p * q) * (x / q) + p * (x % q)
    ensures p * (x % q) + p <= p * q
    ensures 0 <= p * (x % q)
  {
    var a, b := x / q, x % q;
    DivModDef(x, q);
    assert p * x == p * (q * a) + p * b;
    assert p * (q * a) == (p * q) * a;
    MulStrict(b, q, p);
    MulMono(0, b, p);
  }

  // ----- powers -----

  lemma {:induction false} Pow2Add(a: nat, b: nat)
    ensures Pow2(a + b) == Pow2(a) * Pow2(b)
  {
    if a > 0 {
      Pow2Add(a - 1, b);
      assert Pow2(a) * Pow2(b) == 2 * (Pow2(a - 1) * Pow2(b));
    }
  }

  lemma Pow2Sub(a: nat, b: nat)
    requires b <= a
    ensures Pow2(a) == Pow2(b) * Pow2(a - b)
  {
    Pow2Add(b, a - b);
  }

  lemma {:induction false} Pow2Strict(a: nat, b: nat)
    requires a < b
    ensures 2 * Pow2(a) <= Pow2(b)
    decreases b
  {
    if a < b - 1 {
      Pow2Strict(a, b - 1);
    }
  }

  lemma Pow2Mono(a: nat, b: nat)
    requires a <= b
    ensures Pow2(a) <= Pow2(b)
  {
    if a < b {
      Pow2Strict(a, b);
    }
  }

  lemma Pow2Order(a: nat, b: nat)
    ensures Pow2(a) < Pow2(b) <==> a < b
  {
    if a < b {
      Pow2Strict(a, b);
    } else {
      Pow2Mono(b, a);
    }
  }

  lemma ShiftBound(v: nat, n: nat, k: nat)
    requires v < Pow2(n)
    ensures 0 <= Pow2(k) * v < Pow2(k + n)
  {
    hide Pow2;
    Pow2Add(k, n);
    MulStrict(v, Pow2(n), Pow2(k));
    MulMono(0, v, Pow2(k));
  }

  lemma Pow2Bytes()
    ensures Pow2(0) == 1 && Pow2(1) == 2 && Pow2(2) == 4 && Pow2(3) == 8
    ensures Pow2(4) == 16 && Pow2(5) == 32 && Pow2(6) == 64 && Pow2(7) == 128 && Pow2(8) == 256
  {
    assert Pow2(4) == 2 * Pow2(3);
    assert Pow2(8) == 2 * Pow2(7);
  }

  lemma Pow2Words()
    ensures Pow2(16) == 0x1_0000 && Pow2(32) == 0x1_0000_0000 && Pow2(64) == 0x1_0000_0000_0000_0000
  {
    Pow2Bytes();
    Pow2Add(8, 8);
    Pow2Add(16, 16);
    Pow2Add(32, 32);
  }

  // ----- the same facts for power-of-two moduli, by exponent -----

  lemma SplitPow2(x: int, i: nat, j: nat)
    ensures x / Pow2(i) / Pow2(j) == x / Pow2(i + j)
    ensures x % Pow2(i + j) == Pow2(i) * ((x / Pow2(i)) % Pow2(j)) + x % Pow2(i)
    ensures (x % Pow2(i + j)) % Pow2(i) == x % Pow2(i)
    ensures (x % Pow2(i + j)) / Pow2(i) == (x / Pow2(i)) % Pow2(j)
  {
    Pow2Add(i, j);
    SplitMod(x, Pow2(i), Pow2(j));
    ModMod(x, Pow2(i), Pow2(j));
  }

  lemma ScalePow2(x: int, i: nat, j: nat)
    ensures (Pow2(i) * x) % Pow2(i + j) == Pow2(i) * (x % Pow2(j))
    ensures (Pow2(i) * x) / Pow2(i + j) == x / Pow2(j)
  {
    Pow2Add(i, j);
    ScaleMod(x, Pow2(i), Pow2(j));
  }

  /** Reducing to fewer bits forgets any earlier reduction to more bits. */
  lemma ModModPow2(x: int, i: nat, j: nat)
    requires i <= j
    ensures (x % Pow2(j)) % Pow2(i) == x % Pow2(i)
  {
    SplitPow2(x, i, j - i);
  }

  /** Congruence modulo 2^j gives congruence modulo every smaller power. */
  lemma CongruentDown(x: int, y: int, i: nat, j: nat)
    requires i <= j && x % Pow2(j) == y % Pow2(j)
    ensures x % Pow2(i) == y % Pow2(i)
  {
    ModModPow2(x, i, j);
    ModModPow2(y, i, j);
  }

  // ----- two's complement -----

  /** The w-bit unsigned reading of x. */
  function Wrap(x: int, w: nat): (r: nat)
    ensures r < Pow2(w)
  {
    x % Pow2(w)
  }

  /** x shifted right by k bits: the quotient rounded down. */
  function Shr(x: int, k: nat): int {
    x / Pow2(k)
  }

  lemma ShrShr(x: int, i: nat, j: nat)
    ensures Shr(Shr(x, i), j) == Shr(x, i + j)
  {
    SplitPow2(x, i, j);
  }

  lemma ShrZero(x: int)
    ensures Shr(x, 0) == x
  {
  }

  lemma ShrNat(x: nat, k: nat)
    ensures 0 <= Shr(x, k) <= x
    ensures x < Pow2(k) ==> Shr(x, k) == 0
  {
    hide Pow2;
    DivLess(x, Pow2(k), 0);
    DivLess(x, Pow2(k), 1);
    DivModDef(x, Pow2(k));
    MulMono(1, Pow2(k), x / Pow2(k));
  }

  lemma ShrBig(x: int, k: nat)
    requires -(Pow2(k) as int) <= x < Pow2(k)
    ensures Shr(x, k) == if x < 0 then -1 else 0
  {
    hide Pow2;
    DivRange(x, Pow2(k), -1);
    DivRange(x, Pow2(k), 0);
  }

  lemma ShrWrap(x: int, i: nat, j: nat)
    ensures Shr(Wrap(x, i + j), i) == Wrap(Shr(x, i), j)
  {
    SplitPow2(x, i, j);
  }

  lemma ShrShift(x: int, y: int, k: nat)
    ensures Shr(x + Pow2(k) * y, k) == Shr(x, k) + y
  {
    ModShift(x, y, Pow2(k));
  }

  lemma ShrSplit(x: int, k: nat)
    ensures x == Wrap(x, k) + Pow2(k) * Shr(x, k)
  {
    DivModDef(x, Pow2(k));
  }

  lemma WrapBelow(x: nat, k: nat)
    ensures Wrap(x, k) <= x
  {
    hide Wrap, Pow2, Shr;
    ShrSplit(x, k);
    ShrNat(x, k);
    MulMono(0, Shr(x, k), Pow2(k));
  }

  lemma ShrUnique(x: int, q: int, r: int, k: nat)
    requires x == r + Pow2(k) * q && 0 <= r < Pow2(k)
    ensures Shr(x, k) == q && Wrap(x, k) == r
  {
    DivModUnique(x, Pow2(k), q, r);
  }

  lemma WrapShift(x: int, k: int, w: nat)
    ensures Wrap(x + Pow2(w) * k, w) == Wrap(x, w)
  {
    ModShift(x, k, Pow2(w));
  }

  lemma ScaleWrap(x: int, i: nat, j: nat)
    ensures Wrap(Pow2(i) * x, i + j) == Pow2(i) * Wrap(x, j)
  {
    ScalePow2(x, i, j);
  }

  /** Wrapped operands give the wrapped sum, difference and product. */
  lemma WrapSum(x: int, y: int, w: nat)
    ensures Wrap(Wrap(x, w) + Wrap(y, w), w) == Wrap(x + y, w)
    ensures Wrap(x + Wrap(y, w), w) == Wrap(x + y, w)
    ensures Wrap(Wrap(x, w) + y, w) == Wrap(x + y, w)
  {
    ModAdd(x, y, Pow2(w));
    ModAdd(x, Wrap(y, w), Pow2(w));
  }

  /** Numbers below the range, or their opposites, are the same once cut exactly when they are the same. */
  lemma SameWrap(a: nat, b: nat, w: nat)
    requires a < Pow2(w) && b < Pow2(w)
    ensures Wrap(a, w) == Wrap(b, w) <==> a == b
    ensures Wrap(-(a as int), w) == Wrap(-(b as int), w) <==> a == b
  {
    hide Pow2, Wrap;
    WrapSmall(a, w);
    WrapSmall(b, w);
    WrapSmall(0, w);
    WrapSum(a, -(a as int), w);
    WrapSum(a, -(b as int), w);
    WrapSum(b, -(a as int), w);
    WrapSum(b, -(b as int), w);
    if a > b {
      WrapSmall(a - b, w);
    } else {
      WrapSmall(b - a, w);
    }
  }

  lemma WrapDifference(x: int, y: int, w: nat)
    ensures Wrap(Wrap(x, w) - Wrap(y, w), w) == Wrap(x - y, w)
    ensures Wrap(x - Wrap(y, w), w) == Wrap(x - y, w)
    ensures Wrap(Wrap(x, w) - y, w) == Wrap(x - y, w)
  {
    ModSub(x, y, Pow2(w));
    ModSub(x, Wrap(y, w), Pow2(w));
  }

  lemma WrapProduct(x: int, y: int, w: nat)
    ensures Wrap(Wrap(x, w) * y, w) == Wrap(x * y, w)
    ensures Wrap(x * Wrap(y, w), w) == Wrap(x * y, w)
  {
    ModMul(x, y, Pow2(w));
  }

  lemma WrapWrap(x: int, i: nat, j: nat)
    requires i <= j
    ensures Wrap(Wrap(x, j), i) == Wrap(x, i)
  {
    ModModPow2(x, i, j);
  }

  lemma WrapSmall(x: int, w: nat)
    ensures Wrap(x, w) == x <==> 0 <= x < Pow2(w)
  {
    if 0 <= x < Pow2(w) {
      SmallMod(x, Pow2(w));
    }
  }

  /** Equal wrapped values differ by a multiple of the modulus. */
  lemma WrapEqual(x: int, y: int, w: nat) returns (k: int)
    requires Wrap(x, w) == Wrap(y, w)
    ensures x == y + Pow2(w) * k
  {
    k := ModEqual(x, y, Pow2(w));
  }

  lemma WrapDown(x: int, y: int, i: nat, j: nat)
    requires i <= j && Wrap(x, j) == Wrap(y, j)
    ensures Wrap(x, i) == Wrap(y, i)
  {
    CongruentDown(x, y, i, j);
  }

  function Magnitude(x: int): nat {
    if x < 0 then -x else x
  }

  /** The w-bit two's-complement reading of v. */
  function ToSigned(v: nat, w: nat): int {
    if w > 0 && v >= Pow2(w - 1) then v - Pow2(w) else v
  }

  ghost predicate FitsSigned(x: int, w: nat) {
    if w == 0 then x == 0 else -(Pow2(w - 1) as int) <= x < Pow2(w - 1)
  }

  lemma SignedRange(v: nat, w: nat)
    requires v < Pow2(w)
    ensures FitsSigned(ToSigned(v, w), w)
    ensures Wrap(ToSigned(v, w), w) == v
  {
    if w > 0 && v >= Pow2(w - 1) {
      ModShift(v, -1, Pow2(w));
    }
    SmallMod(v, Pow2(w));
  }

  /** Wrapping and reading back is the identity exactly on the representable values. */
  lemma SignedWrap(x: int, w: nat)
    ensures FitsSigned(x, w) <==> ToSigned(Wrap(x, w), w) == x
  {
    SignedRange(Wrap(x, w), w);
    if FitsSigned(x, w) {
      if w == 0 {
      } else if x >= 0 {
        SmallMod(x, Pow2(w));
      } else {
        ModShift(x, 1, Pow2(w));
        SmallMod(x + Pow2(w), Pow2(w));
      }
    }
  }

  /** The sign of a word is the sign of its upper part. */
  lemma SignedSplit(lo: nat, hi: nat, k: nat, m: nat)
    requires 0 < m && lo < Pow2(k) && hi < Pow2(m)
    ensures lo + Pow2(k) * hi < Pow2(k + m)
    ensures ToSigned(lo + Pow2(k) * hi, k + m) == lo + Pow2(k) * ToSigned(hi, m)
  {
    hide Pow2;
    var p, q, h := Pow2(k), Pow2(m), Pow2(m - 1);
    Pow2Add(k, m);
    Pow2Add(k, m - 1);
    MulStrict(hi, q, p);
    if hi >= h {
      MulMono(h, hi, p);
      MulDist(p, (hi as int) - q, q);
    } else {
      MulStrict(hi, h, p);
    }
  }

  /** Bit k of x. */
  function Bit(x: int, k: nat): (b: nat)
    ensures b <= 1
  {
    x / Pow2(k) % 2
  }

  lemma SignBit(v: nat, w: nat)
    requires 0 < w && v < Pow2(w)
    ensures Bit(v, w - 1) == 1 <==> ToSigned(v, w) < 0
    ensures Bit(v, w - 1) == 1 <==> v >= Pow2(w - 1)
    ensures v == Bit(v, w - 1) * Pow2(w - 1) + v % Pow2(w - 1)
  {
    var h := Pow2(w - 1);
    DivLess(v, h, 2);
    DivLess(v, h, 1);
    DivLess(v, h, 0);
    SmallMod(v / h, 2);
    DivModDef(v, h);
  }

  lemma BitWrap(x: int, k: nat, w: nat)
    requires k < w
    ensures Bit(x % Pow2(w), k) == Bit(x, k)
  {
    SplitPow2(x, k, w - k);
    assert Pow2(w - k) == 2 * Pow2(w - k - 1);
    ModMod(x / Pow2(k), 2, Pow2(w - k - 1));
  }

  lemma BitOfWrap(x: int, k: nat, w: nat)
    requires k < w
    ensures Bit(Wrap(x, w), k) == Bit(x, k)
  {
    BitWrap(x, k, w);
  }

  lemma BitShr(x: int, k: nat)
    ensures Bit(x, k) == Shr(x, k) % 2
  {
  }

  lemma BitOfShr(x: int, k: nat, j: nat)
    ensures Bit(x, k + j) == Bit(Shr(x, k), j)
  {
    hide Pow2;
    ShrShr(x, k, j);
  }

  lemma BitAbove(x: nat, k: nat)
    requires x < Pow2(k)
    ensures forall j: nat | k <= j :: Bit(x, j) == 0
  {
    hide Pow2;
    forall j: nat | k <= j
      ensures Bit(x, j) == 0
    {
      Pow2Mono(k, j);
      SmallMod(x, Pow2(j));
    }
  }

  /** The low k+1 bits are bit k in front of the low k bits. */
  lemma BitPeel(x: int, k: nat)
    ensures x % Pow2(k + 1) == Bit(x, k) * Pow2(k) + x % Pow2(k)
  {
    SplitPow2(x, k, 1);
    assert Pow2(1) == 2;
  }
}
