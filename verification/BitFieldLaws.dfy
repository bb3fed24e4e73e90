/** What emitted bit-field reads and writes promise together. */
module BitFieldLaws {
  import opened Powers
  import opened Digits
  import opened BitRange
  import opened StackMachine
  import opened BitField

  // ----- memory -----

  function MemoryBit(memory: Memory, k: nat): int
    requires k / 8 in memory
  {
    Bit(memory[k / 8], k % 8)
  }

  lemma ReplacedWord(memory: Memory, address: nat, offset: nat, length: nat, v: nat)
    requires Mapped(memory, address + offset / 8, DigitCount(offset % 8 + length))
    ensures var n, a := DigitCount(offset % 8 + length), address + offset / 8;
            var after := FieldReplaced(memory, address, offset, length, v);
            Mapped(after, a, n) && LoadWord(after, a, n) == InsertBits(LoadWord(memory, a, n), offset % 8, length, v)
  {
    hide LoadWord, StoreWord, InsertBits, Pow2, Wrap;
    var n, a := DigitCount(offset % 8 + length), address + offset / 8;
    var word := LoadWord(memory, a, n);
    WordBound(memory, a, n);
    InsertBound(word, offset % 8, length, v, 8 * n);
    LoadStored(memory, a, n, InsertBits(word, offset % 8, length, v));
    WrapSmall(InsertBits(word, offset % 8, length, v), 8 * n);
  }

  /** The field reads back as what was written, cut to its length. */
  lemma FieldRoundTrip(memory: Memory, address: nat, offset: nat, length: nat, v: nat)
    requires Mapped(memory, address + offset / 8, DigitCount(offset % 8 + length))
    ensures var after := FieldReplaced(memory, address, offset, length, v);
            Mapped(after, address + offset / 8, DigitCount(offset % 8 + length)) &&
            FieldBits(after, address, offset, length) == Wrap(v, length)
  {
    hide LoadWord, StoreWord, InsertBits, ExtractBits, FieldReplaced, Wrap;
    ReplacedWord(memory, address, offset, length, v);
    InsertParts(LoadWord(memory, address + offset / 8, DigitCount(offset % 8 + length)), offset % 8, length, v);
  }

  lemma WordBit(memory: Memory, a: nat, n: nat, k: nat)
    requires Mapped(memory, a, n) && 8 * a <= k < 8 * (a + n)
    ensures MemoryBit(memory, k) == Bit(LoadWord(memory, a, n), k - 8 * a)
  {
    hide Num, Pow2, Bit;
    var j := k - 8 * a;
    NumBit(Bytes(memory, a, n), n, j);
    assert k / 8 == a + j / 8 && k % 8 == j % 8;
  }

  /** Bit j of a field is bit j of memory from the field's start on, the lowest address first. */
  lemma FieldBit(memory: Memory, address: nat, offset: nat, length: nat, j: nat)
    requires Mapped(memory, address + offset / 8, DigitCount(offset % 8 + length)) && j < length
    ensures var k := 8 * address + offset + j;
            k / 8 in memory && Bit(FieldBits(memory, address, offset, length), j) == MemoryBit(memory, k)
  {
    hide LoadWord, ExtractBits, Pow2, Bit;
    var n, a := DigitCount(offset % 8 + length), address + offset / 8;
    ExtractedBit(LoadWord(memory, a, n), offset % 8, length, j);
    WordBit(memory, a, n, 8 * address + offset + j);
  }

  /** Replacing a field maps no byte, unmaps none and changes no other bit of memory. */
  lemma OtherBitsKept(memory: Memory, address: nat, offset: nat, length: nat, v: nat, k: nat)
    requires Mapped(memory, address + offset / 8, DigitCount(offset % 8 + length))
    requires k < 8 * address + offset || 8 * address + offset + length <= k
    ensures var after := FieldReplaced(memory, address, offset, length, v);
            after.Keys == memory.Keys && (k / 8 in memory ==> MemoryBit(after, k) == MemoryBit(memory, k))
  {
    hide LoadWord, InsertBits, Pow2, Bit, Byte;
    var n, a := DigitCount(offset % 8 + length), address + offset / 8;
    var after := FieldReplaced(memory, address, offset, length, v);
    if a <= k / 8 < a + n {
      WordBit(memory, a, n, k);
      ReplacedWord(memory, address, offset, length, v);
      WordBit(after, a, n, k);
      InsertedBit(LoadWord(memory, a, n), offset % 8, length, v, k - 8 * a);
    }
  }

  // ----- runs -----

  /** A slot and address under which the field's span, as loaded, is mapped and lies in the address space. */
  ghost predicate Reachable(memory: Memory, address: nat, offset: nat, length: nat, precise: bool) {
    0 < length && offset % 8 + length <= 128 &&
    address + offset / 8 + FieldSpan(offset % 8 + length, precise) <= Pow2(64) &&
    Mapped(memory, address + offset / 8, FieldSpan(offset % 8 + length, precise))
  }

  /** Running an emitted write, the address again and an emitted read of the same field gives the value back, cut
      to the field and extended by its signedness, whatever the loads leave in undefined bits and whichever mode
      either is emitted in. */
  lemma StoreThenLoad(code: seq<Instruction>, offset: nat, length: nat, wide: bool, signed: bool, storePrecise: bool,
                      loadPrecise: bool, v: nat, address: nat, rest: Stack, memory: Memory, s: State, noise: Noise)
    requires offset % 8 + length <= SlotWidth(wide) && length < 128
    requires Reachable(memory, address, offset, length, storePrecise) && Reachable(memory, address, offset, length, loadPrecise)
    requires Mapped(memory, address + offset / 8, DigitCount(offset % 8 + length))
    requires After(code, s, noise) == Running(Push(v, Push(address, rest)), memory)
    ensures After(WriteField(code, offset, length, wide, storePrecise), s, noise) ==
            Running(rest, FieldReplaced(memory, address, offset, length, v))
    ensures After(ReadField(WriteField(code, offset, length, wide, storePrecise) + [Const(address)],
                            offset, length, wide, signed, loadPrecise), s, noise) ==
            Running(Push(Widened(Wrap(v, length), length, signed, SlotWidth(wide)), rest),
                    FieldReplaced(memory, address, offset, length, v))
  {
    hide After, WriteField, ReadField, Widened, FieldReplaced, FieldBits, Pow2, Wrap, Mapped;
    var stored := WriteField(code, offset, length, wide, storePrecise);
    WriteFieldRuns(code, offset, length, wide, storePrecise, s, noise);
    Appended(stored, Const(address), s, noise);
    ReadFieldRuns(stored + [Const(address)], offset, length, wide, signed, loadPrecise, s, noise);
    FieldRoundTrip(memory, address, offset, length, v);
    SpanStaysMapped(memory, address, offset, length, v, loadPrecise);
  }

  lemma SpanStaysMapped(memory: Memory, address: nat, offset: nat, length: nat, v: nat, precise: bool)
    requires Reachable(memory, address, offset, length, precise)
    requires Mapped(memory, address + offset / 8, DigitCount(offset % 8 + length))
    ensures Mapped(FieldReplaced(memory, address, offset, length, v), address + offset / 8, FieldSpan(offset % 8 + length, precise))
  {
    hide StoreWord, LoadWord, InsertBits, FieldSpan, DigitCount;
  }

  /** Precise and imprecise reads leave the same state wherever the imprecise one may read. */
  lemma PreciseAgrees(code: seq<Instruction>, offset: nat, length: nat, wide: bool, signed: bool, address: nat, rest: Stack,
                      memory: Memory, s: State, noise: Noise)
    requires offset % 8 + length <= SlotWidth(wide) && Reachable(memory, address, offset, length, false)
    requires After(code, s, noise) == Running(Push(address, rest), memory)
    ensures After(ReadField(code, offset, length, wide, signed, true), s, noise) ==
            After(ReadField(code, offset, length, wide, signed, false), s, noise) != Fault
  {
    hide After, ReadField, Widened, FieldBits, Pow2, Mapped;
    FieldSpanCovers(offset % 8 + length, false);
    FieldSpanCovers(offset % 8 + length, true);
    FieldSpanMapped(memory, address + offset / 8, offset % 8 + length, false);
    ReadFieldRuns(code, offset, length, wide, signed, true, s, noise);
    ReadFieldRuns(code, offset, length, wide, signed, false, s, noise);
  }

  /** A precise read touches exactly the bytes the field overlaps: it needs each of them mapped,
      and its result depends on no other byte. */
  lemma PreciseTouches(code: seq<Instruction>, other: seq<Instruction>, offset: nat, length: nat, wide: bool, signed: bool,
                       address: nat, rest: Stack, memory: Memory, memory': Memory, s: State, noise: Noise)
    requires 0 < length && offset % 8 + length <= SlotWidth(wide)
    requires address + offset / 8 + DigitCount(offset % 8 + length) <= Pow2(64)
    requires After(code, s, noise) == Running(Push(address, rest), memory)
    requires After(other, s, noise) == Running(Push(address, rest), memory')
    requires forall i | address + offset / 8 <= i < address + offset / 8 + DigitCount(offset % 8 + length) ::
               i in memory && i in memory' ==> memory[i] == memory'[i]
    ensures After(ReadField(code, offset, length, wide, signed, true), s, noise).Running? <==>
              forall i | address + offset / 8 <= i < address + offset / 8 + DigitCount(offset % 8 + length) :: i in memory
    ensures var r, r' := After(ReadField(code, offset, length, wide, signed, true), s, noise),
                         After(ReadField(other, offset, length, wide, signed, true), s, noise);
            r.Running? && r'.Running? ==> r.stack == r'.stack
  {
    hide After, ReadField, Widened, LoadWord, ExtractBits, Pow2, FieldSpan, DigitCount;
    var n, a := DigitCount(offset % 8 + length), address + offset / 8;
    FieldSpanCovers(offset % 8 + length, true);
    ReadFieldRuns(code, offset, length, wide, signed, true, s, noise);
    ReadFieldRuns(other, offset, length, wide, signed, true, s, noise);
    if Mapped(memory, a, n) && Mapped(memory', a, n) {
      WordSame(memory, memory', a, n);
    }
  }

  /** An imprecise read touches exactly the least loads that cover the field, at most one of eight bytes below
      another: it needs each of their bytes mapped and no other. */
  lemma ImpreciseTouches(code: seq<Instruction>, offset: nat, length: nat, wide: bool, signed: bool, size: nat, address: nat,
                         rest: Stack, memory: Memory, s: State, noise: Noise)
    requires 0 < length && offset % 8 + length <= SlotWidth(wide)
    requires var n := DigitCount(offset % 8 + length); if n <= 8 then LeastLoad(size, n) else size > 8 && LeastLoad(size - 8, n - 8)
    requires address + offset / 8 + size <= Pow2(64)
    requires After(code, s, noise) == Running(Push(address, rest), memory)
    ensures After(ReadField(code, offset, length, wide, signed, false), s, noise).Running? <==>
            forall i | address + offset / 8 <= i < address + offset / 8 + size :: i in memory
  {
    hide After, ReadField, Widened, FieldBits, Pow2, FieldSpan, LeastLoad, DigitCount;
    LeastSpan(offset % 8 + length, size);
    ReadFieldRuns(code, offset, length, wide, signed, false, s, noise);
  }

  /** So does an imprecise write, for what it loads; what it stores lies within that. */
  lemma ImpreciseWrites(code: seq<Instruction>, offset: nat, length: nat, wide: bool, size: nat, v: nat, address: nat,
                        rest: Stack, memory: Memory, s: State, noise: Noise)
    requires 0 < length < 128 && offset % 8 + length <= SlotWidth(wide)
    requires var n := DigitCount(offset % 8 + length); if n <= 8 then LeastLoad(size, n) else size > 8 && LeastLoad(size - 8, n - 8)
    requires address + offset / 8 + size <= Pow2(64)
    requires After(code, s, noise) == Running(Push(v, Push(address, rest)), memory)
    ensures After(WriteField(code, offset, length, wide, false), s, noise).Running? <==>
            forall i | address + offset / 8 <= i < address + offset / 8 + size :: i in memory
  {
    hide After, WriteField, FieldReplaced, Pow2, FieldSpan, LeastLoad, DigitCount;
    LeastSpan(offset % 8 + length, size);
    WriteFieldRuns(code, offset, length, wide, false, s, noise);
  }

  lemma LeastSpan(bits: nat, size: nat)
    requires 0 < bits <= 128
    requires var n := DigitCount(bits); if n <= 8 then LeastLoad(size, n) else size > 8 && LeastLoad(size - 8, n - 8)
    ensures FieldSpan(bits, false) == size
  {
    hide LoadSpan;
    if bits <= 64 {
      SpanCovers(bits, false);
      LeastUnique(LoadSpan(bits, false), size, DigitCount(bits));
    } else {
      SpanCovers(bits - 64, false);
      LeastUnique(LoadSpan(bits - 64, false), size - 8, DigitCount(bits - 64));
    }
  }

  lemma LeastUnique(size: nat, other: nat, n: nat)
    requires LeastLoad(size, n) && LeastLoad(other, n)
    ensures size == other
  {
  }

  /** Twenty bits with four bytes mapped are read without a fault, and not with three. */
  lemma FourBytes(code: seq<Instruction>, signed: bool, k: nat, rest: Stack, memory: Memory, s: State, noise: Noise)
    requires After(code, s, noise) == Running(Push(0, rest), memory) && forall i: nat :: i in memory <==> i < k
    ensures After(ReadField(code, 0, 20, false, signed, false), s, noise).Running? <==> k >= 4
  {
    hide After, ReadField, Pow2;
    Pow2Words();
    ImpreciseTouches(code, 0, 20, false, signed, 4, 0, rest, memory, s, noise);
    if k < 4 {
      assert k !in memory;
    }
  }

  /** A value that fits the field is kept by it. */
  lemma ValueKept(x: int, length: nat, signed: bool, width: nat)
    requires 0 < length
    requires if signed then FitsSigned(x, length) else 0 <= x < Pow2(length)
    ensures Widened(Wrap(x, length), length, signed, width) == Wrap(x, width)
  {
    hide Pow2, Wrap, ToSigned;
    if signed {
      SignedWrap(x, length);
    } else {
      WrapSmall(x, length);
    }
  }

  /** A write to a field as wide as its 128-bit slot shifts one out of the slot and has no defined result. */
  lemma FullWidthUndefined(code: seq<Instruction>, offset: nat, precise: bool, v: nat, address: nat, rest: Stack, memory: Memory,
                           s: State, noise: Noise)
    requires offset % 8 == 0 && address + offset / 8 + 16 <= Pow2(64)
    requires After(code, s, noise) == Running(Push(v, Push(address, rest)), memory)
    ensures After(WriteField(code, offset, 128, true, precise), s, noise) == Fault
  {
    hide After, Pow2, Mapped, LoadWord, LoadField, MergeField, StoreSlot, With;
    Appended(code, Pick(1), s, noise);
    Second(v, address, rest);
    LoadFieldRuns(code + [Pick(1)], offset / 8, 128, true, precise, s, noise);
    var loaded := LoadField(code + [Pick(1)], offset / 8, 128, true, precise);
    if After(loaded, s, noise).Running? {
      SpanFits(memory, address + offset / 8, 128, true, precise);
      MergeFieldRuns(loaded, 0, 128, true, LoadWord(memory, address + offset / 8, 16), v, Push(address, rest), memory, s, noise);
      FaultStays(MergeField(loaded, 0, 128, true), WriteField(code, offset, 128, true, precise), s, noise);
    } else {
      FaultStays(loaded, WriteField(code, offset, 128, true, precise), s, noise);
    }
  }
}
