/** Replacing and reading a range of bits of a number. */
module BitRange {
  import opened Powers
  import opened Bitwise

  lemma WrapNothing(x: int)
    ensures Wrap(x, 0) == 0
  {
  }

  /** x with its `length` bits from `offset` on replaced by the low bits of v. */
  function InsertBits(x: nat, offset: nat, length: nat, v: nat): (r: nat) {
    ShrNat(x, offset + length);
    MulMono(0, Wrap(v, length), Pow2(offset));
    MulMono(0, Shr(x, offset + length), Pow2(offset + length));
    Wrap(x, offset) + Pow2(offset) * Wrap(v, length) + Pow2(offset + length) * Shr(x, offset + length)
  }

  /** The `length` bits of x from `offset` on. */
  function ExtractBits(x: nat, offset: nat, length: nat): (r: nat)
    ensures r < Pow2(length)
  {
    Wrap(Shr(x, offset), length)
  }

  lemma InsertParts(x: nat, offset: nat, length: nat, v: nat)
    ensures Wrap(InsertBits(x, offset, length, v), offset) == Wrap(x, offset)
    ensures ExtractBits(InsertBits(x, offset, length, v), offset, length) == Wrap(v, length)
    ensures Shr(InsertBits(x, offset, length, v), offset + length) == Shr(x, offset + length)
    ensures Shr(InsertBits(x, offset, length, v), offset) == Wrap(v, length) + Pow2(length) * Shr(x, offset + length)
  {
    hide Pow2, Wrap, Shr;
    var lo, mid, hi := Wrap(x, offset), Wrap(v, length), Shr(x, offset + length);
    var p, q := Pow2(offset), Pow2(length);
    Pow2Add(offset, length);
    var y := InsertBits(x, offset, length, v);
    assert (p * q) * hi == p * (q * hi);
    assert y == lo + p * (mid + q * hi);
    ShrUnique(y, mid + q * hi, lo, offset);
    ShrUnique(mid + q * hi, hi, mid, length);
    ShrShr(y, offset, length);
  }

  /** Bit j of a number with a range replaced. */
  lemma InsertedBit(x: nat, offset: nat, length: nat, v: nat, j: nat)
    ensures Bit(InsertBits(x, offset, length, v), j) == if offset <= j < offset + length then Bit(v, j - offset) else Bit(x, j)
  {
    hide InsertBits, Pow2, Shr, Wrap, Bit;
    var y := InsertBits(x, offset, length, v);
    InsertParts(x, offset, length, v);
    if j < offset {
      BitOfWrap(x, j, offset);
      BitOfWrap(y, j, offset);
    } else if offset + length <= j {
      BitOfShr(x, offset + length, j - (offset + length));
      BitOfShr(y, offset + length, j - (offset + length));
    } else {
      ExtractedBit(y, offset, length, j - offset);
      BitOfWrap(v, j - offset, length);
    }
  }

  /** Bit k of a range read. */
  lemma ExtractedBit(x: nat, offset: nat, length: nat, k: nat)
    ensures Bit(ExtractBits(x, offset, length), k) == if k < length then Bit(x, offset + k) else 0
  {
    hide Pow2, Shr, Wrap, Bit;
    if k < length {
      BitOfWrap(Shr(x, offset), k, length);
      BitOfShr(x, offset, k);
    } else {
      BitAbove(ExtractBits(x, offset, length), length);
    }
  }

  /** A number is determined by its three pieces. */
  lemma InsertUnique(x: nat, y: nat, offset: nat, length: nat, v: nat)
    requires Wrap(y, offset) == Wrap(x, offset)
    requires Wrap(Shr(y, offset), length) == Wrap(v, length)
    requires Shr(y, offset + length) == Shr(x, offset + length)
    ensures y == InsertBits(x, offset, length, v)
  {
    hide Pow2, Wrap, Shr;
    var p, q := Pow2(offset), Pow2(length);
    Pow2Add(offset, length);
    ShrSplit(y, offset);
    ShrSplit(Shr(y, offset), length);
    ShrShr(y, offset, length);
    var hi := Shr(y, offset + length);
    assert p * (Wrap(v, length) + q * hi) == p * Wrap(v, length) + (p * q) * hi;
  }

  lemma InsertNothing(x: nat, offset: nat, v: nat)
    ensures InsertBits(x, offset, 0, v) == x
  {
    hide Pow2, Wrap, Shr;
    WrapNothing(v);
    ShrSplit(x, offset);
  }

  /** Two adjacent insertions are one. */
  lemma InsertTwice(x: nat, offset: nat, a: nat, b: nat, v: nat)
    ensures 0 <= Shr(v, a)
    ensures InsertBits(InsertBits(x, offset, a, v), offset + a, b, Shr(v, a)) == InsertBits(x, offset, a + b, v)
  {
    hide *;
    ShrNat(v, a);
    var y := InsertBits(x, offset, a, v);
    var z := InsertBits(y, offset + a, b, Shr(v, a));
    InsertParts(x, offset, a, v);
    InsertParts(y, offset + a, b, Shr(v, a));
    assert Wrap(z, offset) == Wrap(x, offset) by {
      WrapWrap(z, offset, offset + a);
      WrapWrap(y, offset, offset + a);
    }
    assert Wrap(Shr(z, offset), a + b) == Wrap(v, a + b) by {
      InsertedLow(y, z, v, offset, a, b);
    }
    assert Shr(z, offset + (a + b)) == Shr(x, offset + (a + b)) by {
      ShrShr(y, offset + a, b);
      ShrShr(x, offset + a, b);
    }
    InsertUnique(x, z, offset, a + b, v);
  }

  lemma InsertedLow(y: nat, z: nat, v: nat, offset: nat, a: nat, b: nat)
    requires Wrap(z, offset + a) == Wrap(y, offset + a)
    requires ExtractBits(z, offset + a, b) == Wrap(Shr(v, a), b)
    requires ExtractBits(y, offset, a) == Wrap(v, a)
    ensures Wrap(Shr(z, offset), a + b) == Wrap(v, a + b)
  {
    hide Pow2, Wrap, Shr;
    var u := Shr(z, offset);
    ShrShr(z, offset, a);
    ShrWrap(z, offset, a);
    ShrWrap(y, offset, a);
    assert Wrap(u, a) == Wrap(v, a);
    assert Wrap(Shr(u, a), b) == Wrap(Shr(v, a), b);
    WrapPieces(u, a, b);
    WrapPieces(v, a, b);
  }

  lemma WrapPieces(x: int, a: nat, b: nat)
    ensures Wrap(x, a + b) == Wrap(x, a) + Pow2(a) * Wrap(Shr(x, a), b)
  {
    SplitPow2(x, a, b);
  }

  /** Ones in the `length` bits from `offset` on. */
  function FieldMask(offset: nat, length: nat): (m: nat)
    ensures m < Pow2(offset + length)
  {
    Pow2Add(offset, length);
    MulMono(0, Pow2(length) - 1, Pow2(offset));
    MulStrict(Pow2(length) - 1, Pow2(length), Pow2(offset));
    Pow2(offset) * (Pow2(length) - 1)
  }

  /** The read-modify-write idiom in a w-bit word: clear the range, then or the shifted chunk in. */
  function MaskedInsert(x: nat, offset: nat, length: nat, chunk: nat, w: nat): nat
    requires offset + length <= w
  {
    Pow2Mono(offset + length, w);
    Or(And(x, Not(FieldMask(offset, length), w)), Pow2(offset) * chunk)
  }

  lemma OrMiddle(lo: nat, hi: nat, chunk: nat, offset: nat, length: nat)
    requires lo < Pow2(offset) && chunk < Pow2(length)
    ensures Or(lo + Pow2(offset + length) * hi, Pow2(offset) * chunk) == lo + Pow2(offset) * chunk + Pow2(offset + length) * hi
  {
    hide *;
    var p, q := Pow2(offset), Pow2(length);
    Pow2Add(offset, length);
    assert (p * q) * hi == p * (q * hi);
    OrSplit(lo, q * hi, 0, chunk, offset);
    OrDisjoint(hi, chunk, length);
    OrZero(lo);
    assert p * (q * hi + chunk) == p * (q * hi) + p * chunk;
  }

  lemma ClearedPieces(x: nat, offset: nat, length: nat, w: nat)
    requires offset + length <= w && x < Pow2(w)
    ensures FieldMask(offset, length) < Pow2(w)
    ensures And(x, Not(FieldMask(offset, length), w)) == Wrap(x, offset) + Pow2(offset + length) * Shr(x, offset + length)
  {
    hide And, Pow2;
    AndNotMask(x, offset, length, w);
  }

  lemma MaskedInsertValue(x: nat, offset: nat, length: nat, chunk: nat, w: nat)
    requires offset + length <= w && x < Pow2(w) && chunk < Pow2(length)
    ensures MaskedInsert(x, offset, length, chunk, w) == InsertBits(x, offset, length, chunk) < Pow2(w)
  {
    hide Or, And, Pow2, Wrap, Shr, FieldMask, Not;
    ShrNat(x, offset + length);
    ClearedPieces(x, offset, length, w);
    OrMiddle(Wrap(x, offset), Shr(x, offset + length), chunk, offset, length);
    WrapSmall(chunk, length);
    InsertBound(x, offset, length, chunk, w);
  }

  /** Only the low bits of the inserted value matter. */
  lemma InsertWrapped(x: nat, offset: nat, length: nat, v: nat)
    ensures InsertBits(x, offset, length, Wrap(v, length)) == InsertBits(x, offset, length, v)
  {
    hide Pow2, Wrap, Shr;
    WrapWrap(v, length, length);
  }

  /** A word with a range replaced stays within its width. */
  lemma InsertBound(x: nat, offset: nat, length: nat, v: nat, w: nat)
    requires offset + length <= w && x < Pow2(w)
    ensures InsertBits(x, offset, length, v) < Pow2(w)
  {
    hide Pow2, Wrap, Shr, InsertBits;
    var y := InsertBits(x, offset, length, v);
    var k := offset + length;
    InsertParts(x, offset, length, v);
    ShrBelow(x, k, w - k);
    ShrBelow(y, k, w - k);
  }

  lemma ShrBelow(x: nat, i: nat, j: nat)
    ensures x < Pow2(i + j) <==> Shr(x, i) < Pow2(j)
  {
    hide Pow2;
    Pow2Add(i, j);
    DivLess(x, Pow2(i), Pow2(j));
  }

  /** Inserting into the low digit of a number. */
  lemma InsertLift(d: nat, hi: nat, offset: nat, length: nat, v: nat)
    requires offset + length <= 8 && d < 256
    ensures InsertBits(d + 256 * hi, offset, length, v) == InsertBits(d, offset, length, v) + 256 * hi
  {
    hide Pow2, Wrap, Shr;
    var k := offset + length;
    var z := d + 256 * hi;
    Pow2Bytes();
    Pow2Sub(8, offset);
    assert 256 * hi == Pow2(offset) * (Pow2(8 - offset) * hi);
    WrapShift(d, Pow2(8 - offset) * hi, offset);
    Pow2Sub(8, k);
    var u := Pow2(8 - k) * hi;
    assert 256 * hi == Pow2(k) * u;
    ShrShift(d, u, k);
    assert Pow2(k) * (Shr(d, k) + u) == Pow2(k) * Shr(d, k) + Pow2(k) * u;
  }

  /** Inserting above k untouched bits. */
  lemma InsertAbove(lo: nat, z: nat, k: nat, offset: nat, length: nat, v: nat)
    requires lo < Pow2(k)
    ensures InsertBits(lo + Pow2(k) * z, k + offset, length, v) == lo + Pow2(k) * InsertBits(z, offset, length, v)
  {
    hide *;
    var u := InsertBits(z, offset, length, v);
    var x, y := lo + Pow2(k) * z, lo + Pow2(k) * u;
    ShrUnique(x, z, lo, k);
    ShrUnique(y, u, lo, k);
    InsertParts(z, offset, length, v);
    WrapPieces(x, k, offset);
    WrapPieces(y, k, offset);
    ShrShr(x, k, offset + length);
    ShrShr(y, k, offset + length);
    ShrShr(y, k, offset);
    ExtractDef(u, offset, length);
    InsertUnique(x, y, k + offset, length, v);
  }

  lemma ExtractDef(x: nat, offset: nat, length: nat)
    ensures ExtractBits(x, offset, length) == Wrap(Shr(x, offset), length)
  {
  }

  /** Reading above k bits. */
  lemma ExtractAbove(lo: nat, z: nat, k: nat, offset: nat, length: nat)
    requires lo < Pow2(k)
    ensures ExtractBits(lo + Pow2(k) * z, k + offset, length) == ExtractBits(z, offset, length)
  {
    hide Pow2, Wrap, Shr;
    var x := lo + Pow2(k) * z;
    ShrUnique(x, z, lo, k);
    ShrShr(x, k, offset);
  }

  /** Reading inside the low digit. */
  lemma ExtractLift(d: nat, hi: nat, offset: nat, length: nat)
    requires offset + length <= 8 && d < 256
    ensures ExtractBits(d + 256 * hi, offset, length) == ExtractBits(d, offset, length)
  {
    hide Pow2, Wrap, Shr;
    Pow2Bytes();
    Pow2Sub(8, offset);
    var u := Pow2(8 - offset) * hi;
    assert 256 * hi == Pow2(offset) * u;
    ShrShift(d, u, offset);
    Pow2Sub(8 - offset, length);
    assert u == Pow2(length) * (Pow2(8 - offset - length) * hi);
    WrapShift(Shr(d, offset), Pow2(8 - offset - length) * hi, length);
  }

  /** A range is its low part below its high part. */
  lemma ExtractTwice(x: nat, offset: nat, a: nat, b: nat)
    ensures ExtractBits(x, offset, a + b) == ExtractBits(x, offset, a) + Pow2(a) * ExtractBits(x, offset + a, b)
  {
    hide Pow2, Wrap, Shr;
    WrapPieces(Shr(x, offset), a, b);
    ShrShr(x, offset, a);
  }
}
