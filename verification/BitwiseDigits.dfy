/** Complement, conjunction, disjunction and exclusive or of digit arrays (kefir_bigint/bitwise.h). */
module BitwiseDigits {
  import opened Powers
  import opened Bitwise
  import opened Digits

  method Invert(digits: array<Digit>, width: nat)
    requires DigitCount(width) <= digits.Length
    modifies digits
    ensures SameFrom(old(digits[..]), digits[..], DigitCount(width))
    ensures Num(digits[..], DigitCount(width)) == Pow2(8 * DigitCount(width)) - 1 - old(Num(digits[..], DigitCount(width)))
    ensures Val(digits[..], width) == Pow2(width) - 1 - old(Val(digits[..], width))
  {
    var total := DigitCount(width);
    ghost var s := digits[..];
    for i := 0 to total
      invariant forall k | 0 <= k < i :: digits[k] == 255 - s[k]
      invariant forall k | i <= k < digits.Length :: digits[k] == s[k]
    {
      digits[i] := 255 - digits[i];
    }
    NumInvert(s, digits[..], total);
    InvertVal(s, digits[..], width);
  }

  lemma {:induction false} NumInvert(s: seq<Digit>, t: seq<Digit>, n: nat)
    requires n <= |s| && n <= |t|
    requires forall k | 0 <= k < n :: t[k] == 255 - s[k]
    ensures Num(t, n) == Pow2(8 * n) - 1 - Num(s, n)
  {
    hide Pow2;
    if n == 0 {
      Pow2Bytes();
    } else {
      NumInvert(s, t, n - 1);
      Pow2Digit(n - 1);
      var p := Pow2(8 * (n - 1));
      assert p * (255 - s[n - 1]) == 255 * p - p * s[n - 1];
    }
  }

  lemma InvertVal(s: seq<Digit>, t: seq<Digit>, width: nat)
    requires DigitCount(width) <= |s| && DigitCount(width) <= |t|
    requires Num(t, DigitCount(width)) == Pow2(8 * DigitCount(width)) - 1 - Num(s, DigitCount(width))
    ensures Val(t, width) == Pow2(width) - 1 - Val(s, width)
  {
    hide Num, Pow2, Wrap, Shr;
    var n := 8 * DigitCount(width);
    var x, p := Num(s, DigitCount(width)), Pow2(width);
    var q := Shr(x, width);
    Pow2Sub(n, width);
    ShrSplit(x, width);
    MulDist(p, Pow2(n - width) - 1 - q, q + 1);
    MulDist(p, q, 1);
    ShrUnique(Pow2(n) - 1 - x, Pow2(n - width) - 1 - q, p - 1 - Wrap(x, width), width);
  }

  method AndInto(lhs: array<Digit>, rhs: array<Digit>, width: nat)
    requires DigitCount(width) <= lhs.Length && DigitCount(width) <= rhs.Length
    modifies lhs
    ensures SameFrom(old(lhs[..]), lhs[..], DigitCount(width))
    ensures Num(lhs[..], DigitCount(width)) == And(old(Num(lhs[..], DigitCount(width))), old(Num(rhs[..], DigitCount(width))))
    ensures Val(lhs[..], width) == And(old(Val(lhs[..], width)), old(Val(rhs[..], width)))
  {
    var total := DigitCount(width);
    ghost var s, r := lhs[..], rhs[..];
    for i := 0 to total
      invariant forall k | 0 <= k < i :: lhs[k] == And(s[k], r[k])
      invariant forall k | i <= k < lhs.Length :: lhs[k] == s[k]
      invariant forall k | i <= k < rhs.Length :: rhs[k] == r[k]
    {
      lhs[i] := And(lhs[i], rhs[i]);
    }
    NumAnd(s, r, lhs[..], total);
    AndWrap(Num(s, total), Num(r, total), width);
  }

  method OrInto(lhs: array<Digit>, rhs: array<Digit>, width: nat)
    requires DigitCount(width) <= lhs.Length && DigitCount(width) <= rhs.Length
    modifies lhs
    ensures SameFrom(old(lhs[..]), lhs[..], DigitCount(width))
    ensures Num(lhs[..], DigitCount(width)) == Or(old(Num(lhs[..], DigitCount(width))), old(Num(rhs[..], DigitCount(width))))
    ensures Val(lhs[..], width) == Or(old(Val(lhs[..], width)), old(Val(rhs[..], width)))
  {
    var total := DigitCount(width);
    ghost var s, r := lhs[..], rhs[..];
    for i := 0 to total
      invariant forall k | 0 <= k < i :: lhs[k] == Or(s[k], r[k])
      invariant forall k | i <= k < lhs.Length :: lhs[k] == s[k]
      invariant forall k | i <= k < rhs.Length :: rhs[k] == r[k]
    {
      DigitOr(lhs[i], rhs[i]);
      lhs[i] := Or(lhs[i], rhs[i]);
    }
    NumOr(s, r, lhs[..], total);
    OrWrap(Num(s, total), Num(r, total), width);
  }

  method XorInto(lhs: array<Digit>, rhs: array<Digit>, width: nat)
    requires DigitCount(width) <= lhs.Length && DigitCount(width) <= rhs.Length
    modifies lhs
    ensures SameFrom(old(lhs[..]), lhs[..], DigitCount(width))
    ensures Num(lhs[..], DigitCount(width)) == Xor(old(Num(lhs[..], DigitCount(width))), old(Num(rhs[..], DigitCount(width))))
    ensures Val(lhs[..], width) == Xor(old(Val(lhs[..], width)), old(Val(rhs[..], width)))
  {
    var total := DigitCount(width);
    ghost var s, r := lhs[..], rhs[..];
    for i := 0 to total
      invariant forall k | 0 <= k < i :: lhs[k] == Xor(s[k], r[k])
      invariant forall k | i <= k < lhs.Length :: lhs[k] == s[k]
      invariant forall k | i <= k < rhs.Length :: rhs[k] == r[k]
    {
      DigitOr(lhs[i], rhs[i]);
      lhs[i] := Xor(lhs[i], rhs[i]);
    }
    NumXor(s, r, lhs[..], total);
    XorWrap(Num(s, total), Num(r, total), width);
  }

  lemma DigitOr(x: Digit, y: Digit)
    ensures Or(x, y) < 256 && Xor(x, y) < 256
  {
    hide *;
    Pow2Bytes();
    OrBound(x, y, 8);
    XorBound(x, y, 8);
  }

  lemma {:induction false} NumAnd(s: seq<Digit>, t: seq<Digit>, u: seq<Digit>, n: nat)
    requires n <= |s| && n <= |t| && n <= |u|
    requires forall k | 0 <= k < n :: u[k] == And(s[k], t[k])
    ensures Num(u, n) == And(Num(s, n), Num(t, n))
  {
    hide *;
    if n == 0 {
      NumEmpty(s);
      NumEmpty(t);
      NumEmpty(u);
      AndZero(0);
    } else {
      NumAnd(s, t, u, n - 1);
      AndStep(s, t, u, n - 1);
    }
  }

  lemma AndStep(s: seq<Digit>, t: seq<Digit>, u: seq<Digit>, n: nat)
    requires n < |s| && n < |t| && n < |u|
    requires u[n] == And(s[n], t[n]) && Num(u, n) == And(Num(s, n), Num(t, n))
    ensures Num(u, n + 1) == And(Num(s, n + 1), Num(t, n + 1))
  {
    hide *;
    NumStep(s, n);
    NumStep(t, n);
    NumStep(u, n);
    NumBound(s, n);
    NumBound(t, n);
    AndSplit(Num(s, n), s[n], Num(t, n), t[n], 8 * n);
  }

  lemma {:induction false} NumOr(s: seq<Digit>, t: seq<Digit>, u: seq<Digit>, n: nat)
    requires n <= |s| && n <= |t| && n <= |u|
    requires forall k | 0 <= k < n :: u[k] == Or(s[k], t[k])
    ensures Num(u, n) == Or(Num(s, n), Num(t, n))
  {
    hide *;
    if n == 0 {
      NumEmpty(s);
      NumEmpty(t);
      NumEmpty(u);
      OrZero(0);
    } else {
      NumOr(s, t, u, n - 1);
      OrStep(s, t, u, n - 1);
    }
  }

  lemma OrStep(s: seq<Digit>, t: seq<Digit>, u: seq<Digit>, n: nat)
    requires n < |s| && n < |t| && n < |u|
    requires u[n] == Or(s[n], t[n]) && Num(u, n) == Or(Num(s, n), Num(t, n))
    ensures Num(u, n + 1) == Or(Num(s, n + 1), Num(t, n + 1))
  {
    hide *;
    NumStep(s, n);
    NumStep(t, n);
    NumStep(u, n);
    NumBound(s, n);
    NumBound(t, n);
    OrSplit(Num(s, n), s[n], Num(t, n), t[n], 8 * n);
  }

  lemma {:induction false} NumXor(s: seq<Digit>, t: seq<Digit>, u: seq<Digit>, n: nat)
    requires n <= |s| && n <= |t| && n <= |u|
    requires forall k | 0 <= k < n :: u[k] == Xor(s[k], t[k])
    ensures Num(u, n) == Xor(Num(s, n), Num(t, n))
  {
    hide *;
    if n == 0 {
      NumEmpty(s);
      NumEmpty(t);
      NumEmpty(u);
      XorZero();
    } else {
      NumXor(s, t, u, n - 1);
      XorStep(s, t, u, n - 1);
    }
  }

  lemma XorStep(s: seq<Digit>, t: seq<Digit>, u: seq<Digit>, n: nat)
    requires n < |s| && n < |t| && n < |u|
    requires u[n] == Xor(s[n], t[n]) && Num(u, n) == Xor(Num(s, n), Num(t, n))
    ensures Num(u, n + 1) == Xor(Num(s, n + 1), Num(t, n + 1))
  {
    hide *;
    NumStep(s, n);
    NumStep(t, n);
    NumStep(u, n);
    NumBound(s, n);
    NumBound(t, n);
    XorSplit(Num(s, n), s[n], Num(t, n), t[n], 8 * n);
  }

  lemma XorZero()
    ensures Xor(0, 0) == 0
  {
  }
}
