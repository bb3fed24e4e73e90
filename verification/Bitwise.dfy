/** The C bitwise operators on unsigned values of any width, and their arithmetic meaning. */
module Bitwise {
  import opened Powers

  function And(x: nat, y: nat): (r: nat)
    ensures r <= x && r <= y
  {
    if x == 0 || y == 0 then 0 else 2 * And(x / 2, y / 2) + (if x % 2 == 1 && y % 2 == 1 then 1 else 0)
  }

  function Or(x: nat, y: nat): (r: nat)
    ensures r >= x && r >= y
    decreases x + y
  {
    if x == 0 then y else if y == 0 then x
    else 2 * Or(x / 2, y / 2) + (if x % 2 == 1 || y % 2 == 1 then 1 else 0)
  }

  function Xor(x: nat, y: nat): (r: nat)
    decreases x + y
  {
    if x == 0 then y else if y == 0 then x
    else 2 * Xor(x / 2, y / 2) + (if x % 2 != y % 2 then 1 else 0)
  }

  function Shl(x: nat, k: nat): (r: nat) {
    Pow2(k) * x
  }

  /** Complement within w bits. */
  function Not(x: nat, w: nat): (r: nat)
    requires x < Pow2(w)
    ensures r < Pow2(w)
  {
    Pow2(w) - 1 - x
  }

  // ----- one bit at a time -----

  lemma AndBit(x: nat, y: nat)
    ensures And(x, y) == 2 * And(x / 2, y / 2) + (if x % 2 == 1 && y % 2 == 1 then 1 else 0)
  {
  }

  lemma OrBit(x: nat, y: nat)
    ensures Or(x, y) == 2 * Or(x / 2, y / 2) + (if x % 2 == 1 || y % 2 == 1 then 1 else 0)
  {
  }

  lemma XorBit(x: nat, y: nat)
    ensures Xor(x, y) == 2 * Xor(x / 2, y / 2) + (if x % 2 != y % 2 then 1 else 0)
  {
  }

  lemma {:induction false} AndCommutes(x: nat, y: nat)
    ensures And(x, y) == And(y, x)
  {
    if x > 0 && y > 0 {
      AndCommutes(x / 2, y / 2);
    }
  }

  lemma {:induction false} OrCommutes(x: nat, y: nat)
    ensures Or(x, y) == Or(y, x)
    decreases x + y
  {
    if x > 0 && y > 0 {
      OrCommutes(x / 2, y / 2);
    }
  }

  // ----- masks -----

  /** Masking with 2^k - 1 keeps the remainder modulo 2^k. */
  lemma {:induction false} AndMask(x: nat, k: nat)
    ensures And(x, Pow2(k) - 1) == x % Pow2(k)
    decreases k
  {
    hide And;
    if k == 0 {
      AndZero(x);
    } else {
      var p := Pow2(k - 1);
      AndMask(x / 2, k - 1);
      assert And(x, 2 * p - 1) == 2 * And(x / 2, p - 1) + x % 2 by {
        AndBit(x, 2 * p - 1);
      }
      SplitMod(x, 2, p);
    }
  }

  lemma MaskLow(x: nat, k: nat)
    ensures And(x, Pow2(k) - 1) == Wrap(x, k)
  {
    AndMask(x, k);
  }

  // ----- splitting a word at bit k -----

  lemma Double(p: int, y: int)
    ensures (2 * p) * y == 2 * (p * y)
  {
  }

  lemma AndHalf(x: nat, u: nat, y: nat, v: nat, c: nat)
    requires And(x / 2 + y, u / 2 + v) == And(x / 2, u / 2) + c
    ensures And(x + 2 * y, u + 2 * v) == And(x, u) + 2 * c
  {
    hide And;
    AndBit(x + 2 * y, u + 2 * v);
    AndBit(x, u);
  }

  lemma OrHalf(x: nat, u: nat, y: nat, v: nat, c: nat)
    requires Or(x / 2 + y, u / 2 + v) == Or(x / 2, u / 2) + c
    ensures Or(x + 2 * y, u + 2 * v) == Or(x, u) + 2 * c
  {
    hide Or;
    OrBit(x + 2 * y, u + 2 * v);
    OrBit(x, u);
  }

  lemma XorHalf(x: nat, u: nat, y: nat, v: nat, c: nat)
    requires Xor(x / 2 + y, u / 2 + v) == Xor(x / 2, u / 2) + c
    ensures Xor(x + 2 * y, u + 2 * v) == Xor(x, u) + 2 * c
  {
    hide Xor;
    XorBit(x + 2 * y, u + 2 * v);
    XorBit(x, u);
  }

  lemma {:induction false} AndSplit(x: nat, y: nat, u: nat, v: nat, k: nat)
    requires x < Pow2(k) && u < Pow2(k)
    ensures And(x + Pow2(k) * y, u + Pow2(k) * v) == And(x, u) + Pow2(k) * And(y, v)
    decreases k
  {
    hide And;
    if k == 0 {
      AndBit(0, 0);
    } else {
      var p, c := Pow2(k - 1), And(y, v);
      AndSplit(x / 2, y, u / 2, v, k - 1);
      AndHalf(x, u, p * y, p * v, p * c);
      Double(p, y);
      Double(p, v);
      Double(p, c);
    }
  }

  lemma {:induction false} OrSplit(x: nat, y: nat, u: nat, v: nat, k: nat)
    requires x < Pow2(k) && u < Pow2(k)
    ensures Or(x + Pow2(k) * y, u + Pow2(k) * v) == Or(x, u) + Pow2(k) * Or(y, v)
    decreases k
  {
    hide Or;
    if k == 0 {
      OrBit(0, 0);
    } else {
      var p, c := Pow2(k - 1), Or(y, v);
      OrSplit(x / 2, y, u / 2, v, k - 1);
      OrHalf(x, u, p * y, p * v, p * c);
      Double(p, y);
      Double(p, v);
      Double(p, c);
    }
  }

  lemma {:induction false} XorSplit(x: nat, y: nat, u: nat, v: nat, k: nat)
    requires x < Pow2(k) && u < Pow2(k)
    ensures Xor(x + Pow2(k) * y, u + Pow2(k) * v) == Xor(x, u) + Pow2(k) * Xor(y, v)
    decreases k
  {
    hide Xor;
    if k == 0 {
      XorBit(0, 0);
    } else {
      var p, c := Pow2(k - 1), Xor(y, v);
      XorSplit(x / 2, y, u / 2, v, k - 1);
      XorHalf(x, u, p * y, p * v, p * c);
      Double(p, y);
      Double(p, v);
      Double(p, c);
    }
  }

  lemma {:induction false} OrBound(x: nat, y: nat, k: nat)
    requires x < Pow2(k) && y < Pow2(k)
    ensures Or(x, y) < Pow2(k)
    decreases k
  {
    hide Or;
    if k == 0 {
      OrBit(0, 0);
    } else {
      OrBound(x / 2, y / 2, k - 1);
      OrBit(x, y);
    }
  }

  lemma {:induction false} XorBound(x: nat, y: nat, k: nat)
    requires x < Pow2(k) && y < Pow2(k)
    ensures Xor(x, y) < Pow2(k)
    decreases k
  {
    hide Xor;
    if k == 0 {
      XorBit(0, 0);
    } else {
      XorBound(x / 2, y / 2, k - 1);
      XorBit(x, y);
    }
  }

  lemma Pieces(x: nat, k: nat)
    ensures x == x % Pow2(k) + Pow2(k) * (x / Pow2(k))
    ensures 0 <= x / Pow2(k)
  {
    hide *;
    DivModDef(x, Pow2(k));
    DivLess(x, Pow2(k), 0);
  }

  lemma PieceMod(z: nat, lo: nat, hi: nat, k: nat)
    requires z == lo + Pow2(k) * hi && lo < Pow2(k)
    ensures z % Pow2(k) == lo && z / Pow2(k) == hi
  {
    hide *;
    DivModUnique(z, Pow2(k), hi, lo);
  }

  /** The operator acts on the low k bits alone. */
  lemma AndWrap(x: nat, y: nat, k: nat)
    ensures And(x, y) % Pow2(k) == And(x % Pow2(k), y % Pow2(k))
  {
    hide *;
    Pieces(x, k);
    Pieces(y, k);
    AndSplit(x % Pow2(k), x / Pow2(k), y % Pow2(k), y / Pow2(k), k);
    PieceMod(And(x, y), And(x % Pow2(k), y % Pow2(k)), And(x / Pow2(k), y / Pow2(k)), k);
  }

  /** The operator acts on the low k bits alone. */
  lemma OrWrap(x: nat, y: nat, k: nat)
    ensures Or(x, y) % Pow2(k) == Or(x % Pow2(k), y % Pow2(k))
  {
    hide *;
    Pieces(x, k);
    Pieces(y, k);
    OrSplit(x % Pow2(k), x / Pow2(k), y % Pow2(k), y / Pow2(k), k);
    OrBound(x % Pow2(k), y % Pow2(k), k);
    PieceMod(Or(x, y), Or(x % Pow2(k), y % Pow2(k)), Or(x / Pow2(k), y / Pow2(k)), k);
  }

  lemma WrapOr(x: nat, y: nat, k: nat)
    ensures Wrap(Or(x, y), k) == Or(Wrap(x, k), Wrap(y, k))
  {
    hide Or, Pow2;
    OrWrap(x, y, k);
  }

  /** The operator acts on the low k bits alone. */
  lemma XorWrap(x: nat, y: nat, k: nat)
    ensures Xor(x, y) % Pow2(k) == Xor(x % Pow2(k), y % Pow2(k))
  {
    hide *;
    Pieces(x, k);
    Pieces(y, k);
    XorSplit(x % Pow2(k), x / Pow2(k), y % Pow2(k), y / Pow2(k), k);
    XorBound(x % Pow2(k), y % Pow2(k), k);
    PieceMod(Xor(x, y), Xor(x % Pow2(k), y % Pow2(k)), Xor(x / Pow2(k), y / Pow2(k)), k);
  }

  lemma OrZero(x: nat)
    ensures Or(x, 0) == x && Or(0, x) == x
  {
  }

  lemma AndZero(x: nat)
    ensures And(x, 0) == 0 && And(0, x) == 0
  {
  }

  /** Or-ing a low part into a value whose low k bits are clear is addition. */
  lemma OrDisjoint(x: nat, y: nat, k: nat)
    requires y < Pow2(k)
    ensures Or(Pow2(k) * x, y) == Pow2(k) * x + y
    ensures Or(y, Pow2(k) * x) == Pow2(k) * x + y
  {
    hide *;
    OrSplit(0, x, y, 0, k);
    OrSplit(y, 0, 0, x, k);
    OrZero(x);
    OrZero(y);
  }

  /** Or-ing a flag into bit zero. */
  lemma OrFlag(x: nat, b: nat)
    requires b <= 1
    ensures Or(x, b) == x + (if b == 1 && x % 2 == 0 then 1 else 0)
  {
    hide Or;
    OrBit(x, b);
    OrZero(x / 2);
  }

  lemma {:induction false} OrAllOnes(x: nat, k: nat)
    requires x < Pow2(k)
    ensures Or(x, Pow2(k) - 1) == Pow2(k) - 1
    decreases k
  {
    hide Or;
    if k == 0 {
      OrZero(x);
    } else {
      OrAllOnes(x / 2, k - 1);
      OrBit(x, Pow2(k) - 1);
    }
  }

  /** Setting every bit from k up to w. */
  lemma OrHighMask(x: nat, k: nat, w: nat)
    requires k <= w && x < Pow2(w)
    ensures Pow2(k) <= Pow2(w)
    ensures Or(x, Pow2(w) - Pow2(k)) == x % Pow2(k) + (Pow2(w) - Pow2(k))
  {
    hide Pow2, Or;
    Pow2Mono(k, w);
    HighPieces(x, k, w);
  }

  lemma HighPieces(x: nat, k: nat, w: nat)
    requires k <= w && x < Pow2(w) && Pow2(k) <= Pow2(w)
    ensures Or(x, Pow2(w) - Pow2(k)) == Wrap(x, k) + (Pow2(w) - Pow2(k))
  {
    hide *;
    var h, lo, hi := Pow2(w - k), Wrap(x, k), Shr(x, k);
    Pow2Sub(w, k);
    ShrSplit(x, k);
    ShrNat(x, k);
    MulDist(Pow2(k), h - 1, 1);
    MulCancel(hi, h, Pow2(k));
    OnesAbove(lo, hi, k, w - k);
  }

  lemma OnesAbove(lo: nat, hi: nat, k: nat, n: nat)
    requires lo < Pow2(k) && hi < Pow2(n)
    ensures 0 <= Pow2(k) * hi && 0 <= Pow2(k) * (Pow2(n) - 1)
    ensures Or(lo + Pow2(k) * hi, Pow2(k) * (Pow2(n) - 1)) == lo + Pow2(k) * (Pow2(n) - 1)
  {
    hide *;
    MulMono(0, hi, Pow2(k));
    MulMono(0, Pow2(n) - 1, Pow2(k));
    OrSplit(lo, hi, 0, Pow2(n) - 1, k);
    OrAllOnes(hi, n);
    OrZero(lo);
  }

  /** Keeping the low and the high piece of a word given in three pieces. */
  lemma AndThree(x: nat, mask: nat, lo: nat, mid: nat, hi: nat, k: nat, n: nat, m: nat)
    requires lo < Pow2(k) && mid < Pow2(n) && hi < Pow2(m)
    requires x == lo + Pow2(k) * (mid + Pow2(n) * hi)
    requires mask == Pow2(k) - 1 + Pow2(k) * (Pow2(n) * (Pow2(m) - 1))
    ensures And(x, mask) == lo + Pow2(k) * (Pow2(n) * hi)
  {
    hide *;
    AndUpper(mid, hi, n, m);
    MulMono(0, hi, Pow2(n));
    MulMono(0, Pow2(m) - 1, Pow2(n));
    AndLower(lo, mid + Pow2(n) * hi, Pow2(n) * (Pow2(m) - 1), k);
  }

  lemma AndUpper(mid: nat, hi: nat, n: nat, m: nat)
    requires mid < Pow2(n) && hi < Pow2(m)
    ensures 0 <= Pow2(n) * hi && 0 <= Pow2(n) * (Pow2(m) - 1)
    ensures And(mid + Pow2(n) * hi, Pow2(n) * (Pow2(m) - 1)) == Pow2(n) * hi
  {
    hide *;
    MulMono(0, hi, Pow2(n));
    MulMono(0, Pow2(m) - 1, Pow2(n));
    AndSplit(mid, hi, 0, Pow2(m) - 1, n);
    AndZero(mid);
    AndAllOnes(hi, m);
  }

  lemma AndLower(lo: nat, y: nat, z: nat, k: nat)
    requires lo < Pow2(k)
    ensures And(lo + Pow2(k) * y, Pow2(k) - 1 + Pow2(k) * z) == lo + Pow2(k) * And(y, z)
  {
    hide *;
    AndSplit(lo, y, Pow2(k) - 1, z, k);
    AndAllOnes(lo, k);
  }

  lemma AndAllOnes(x: nat, k: nat)
    requires x < Pow2(k)
    ensures And(x, Pow2(k) - 1) == x
  {
    hide And, Pow2;
    AndMask(x, k);
    SmallMod(x, Pow2(k));
  }

  /** Clearing bits k to k+n of a w-bit word with the complement of a shifted mask. */
  lemma AndNotMask(x: nat, k: nat, n: nat, w: nat)
    requires k + n <= w && x < Pow2(w)
    ensures 0 <= Pow2(k) * (Pow2(n) - 1) < Pow2(w)
    ensures And(x, Not(Pow2(k) * (Pow2(n) - 1), w)) == x % Pow2(k) + Pow2(k + n) * (x / Pow2(k + n))
  {
    hide And, Pow2;
    MaskPieces(k, n, w - k - n);
    ClearMiddle(x, Not(Pow2(k) * (Pow2(n) - 1), w), k, n, w - k - n);
  }

  lemma ClearMiddle(x: nat, mask: nat, k: nat, n: nat, m: nat)
    requires x < Pow2(k + n + m) && mask == Pow2(k) - 1 + Pow2(k) * (Pow2(n) * (Pow2(m) - 1))
    ensures And(x, mask) == Wrap(x, k) + Pow2(k + n) * Shr(x, k + n)
  {
    hide *;
    var mid, hi := Wrap(Shr(x, k), n), Shr(x, k + n);
    ShrNat(x, k + n);
    ShrSplit(x, k);
    ShrSplit(Shr(x, k), n);
    ShrShr(x, k, n);
    ShrSplit(x, k + n);
    Pow2Add(k + n, m);
    MulCancel(hi, Pow2(m), Pow2(k + n));
    Pow2Add(k, n);
    MulAssoc(Pow2(k), Pow2(n), hi);
    AndThree(x, mask, Wrap(x, k), mid, hi, k, n, m);
  }

  lemma MaskPieces(k: nat, n: nat, m: nat)
    ensures 0 <= Pow2(k) * (Pow2(n) - 1) < Pow2(k + n + m)
    ensures Pow2(k + n + m) - 1 - Pow2(k) * (Pow2(n) - 1) == Pow2(k) - 1 + Pow2(k) * (Pow2(n) * (Pow2(m) - 1))
  {
    hide *;
    var a, b, c := Pow2(k), Pow2(n), Pow2(m);
    Pow2Add(k, n + m);
    Pow2Add(n, m);
    MulDist(a, b - 1, 1);
    MulDist(b, c - 1, 1);
    MulDist(a, b * (c - 1), b);
    MulMono(0, b - 1, a);
    MulMono(0, c - 1, b);
    MulMono(0, b * (c - 1), a);
  }
}
