/** The emitters of ast-translator/value.c: each appends its block instruction by instruction. */
module BitFieldEmitters {
  import opened Powers
  import opened Digits
  import opened BitRange
  import opened StackMachine
  import opened BitField

  // ----- what appended code does, whatever ran before it -----

  /** The address on top is replaced by the bytes of the span. */
  ghost predicate Loads(before: seq<Instruction>, after: seq<Instruction>, n: nat) {
    forall s: State, noise: Noise | Reaches(After(before, s, noise), n) :: After(after, s, noise) == Fetched(After(before, s, noise), n)
  }

  /** The value on top is stored at the address below it. */
  ghost predicate Stores(before: seq<Instruction>, after: seq<Instruction>, n: nat) {
    forall s: State, noise: Noise | Storable(After(before, s, noise), n) :: After(after, s, noise) == Stored(After(before, s, noise), n)
  }

  /** The address on top is replaced by the field. */
  ghost predicate Reads(before: seq<Instruction>, after: seq<Instruction>, offset: nat, length: nat, wide: bool, signed: bool, precise: bool)
    requires 0 < length
  {
    forall s: State, noise: Noise | Reaches(After(before, s, noise), offset / 8 + FieldSpan(offset % 8 + length, precise)) ::
      After(after, s, noise) == FieldRead(After(before, s, noise), offset, length, wide, signed, precise)
  }

  /** The address on top is replaced by bits of the address, or nothing is defined. */
  ghost predicate ReadsAddress(before: seq<Instruction>, after: seq<Instruction>, offset: nat, length: nat, wide: bool) {
    forall s: State, noise: Noise :: After(after, s, noise) == AddressRead(After(before, s, noise), offset, length, wide)
  }

  /** The address on top is replaced by the bytes of a field. */
  ghost predicate LoadsField(before: seq<Instruction>, after: seq<Instruction>, byteOffset: nat, n: nat) {
    forall s: State, noise: Noise | Reaches(After(before, s, noise), byteOffset + n) ::
      After(after, s, noise) == Fetched(Moved(After(before, s, noise), byteOffset), n)
  }

  /** The bytes on top and the value below them are replaced by the bytes with the value in them. */
  ghost predicate Merges(before: seq<Instruction>, after: seq<Instruction>, bit: nat, length: nat, wide: bool) {
    forall s: State, noise: Noise | Paired(After(before, s, noise), wide) ::
      After(after, s, noise) == Merged(After(before, s, noise), bit, length, wide)
  }

  ghost predicate Paired(s: State, wide: bool)
    ensures Paired(s, wide) ==> s.Running? && s.stack.Push? && s.stack.rest.Push?
  {
    s.Running? && s.stack.Push? && s.stack.rest.Push? && s.stack.top < Pow2(SlotWidth(wide))
  }

  ghost function Merged(s: State, bit: nat, length: nat, wide: bool): State
    requires Paired(s, wide)
  {
    if wide && length == 128 then
      Fault
    else
      s.(stack := Push(InsertBits(s.stack.top, bit, length, s.stack.rest.top), s.stack.rest.rest))
  }

  /** The slot on top is stored in the bytes at the address below it. */
  ghost predicate StoresSlot(before: seq<Instruction>, after: seq<Instruction>, bits: nat, wide: bool) {
    forall s: State, noise: Noise | Paired(After(before, s, noise), wide) && Addressed(After(before, s, noise), DigitCount(bits)) ::
      After(after, s, noise) == Stored(After(before, s, noise), DigitCount(bits))
  }

  /** The value on top replaces the field at the address below it. */
  ghost predicate Writes(before: seq<Instruction>, after: seq<Instruction>, offset: nat, length: nat, precise: bool)
    requires 0 < length && offset % 8 + length <= 128
  {
    forall s: State, noise: Noise | Addressed(After(before, s, noise), offset / 8 + FieldSpan(offset % 8 + length, precise)) ::
      After(after, s, noise) == FieldWritten(After(before, s, noise), offset, length, precise)
  }

  ghost predicate Addressed(s: State, n: nat)
    ensures Addressed(s, n) ==> s.Running? && s.stack.Push? && s.stack.rest.Push?
  {
    s.Running? && s.stack.Push? && s.stack.rest.Push? && s.stack.rest.top + n <= Pow2(64)
  }

  lemma NativeLoads(code: seq<Instruction>, bits: nat, precise: bool)
    requires bits <= 64
    ensures Loads(code, NativeLoad(code, bits, precise), LoadSpan(bits, precise))
  {
    hide After, NativeLoad, Fetched, LoadSpan, Pow2;
    forall s: State, noise: Noise | Reaches(After(code, s, noise), LoadSpan(bits, precise))
      ensures After(NativeLoad(code, bits, precise), s, noise) == Fetched(After(code, s, noise), LoadSpan(bits, precise))
    {
      NativeLoadRuns(code, bits, precise, s, noise);
    }
  }

  lemma NativeStores(code: seq<Instruction>, bits: nat)
    requires 0 < bits <= 64
    ensures Stores(code, NativeStore(code, bits), DigitCount(bits))
  {
    hide After, NativeStore, Stored, Storable;
    forall s: State, noise: Noise | Storable(After(code, s, noise), DigitCount(bits))
      ensures After(NativeStore(code, bits), s, noise) == Stored(After(code, s, noise), DigitCount(bits))
    {
      NativeStoreRuns(code, bits, s, noise);
    }
  }

  lemma FieldReads(code: seq<Instruction>, offset: nat, length: nat, wide: bool, signed: bool, precise: bool)
    requires 0 < length && offset % 8 + length <= SlotWidth(wide)
    ensures Reads(code, ReadField(code, offset, length, wide, signed, precise), offset, length, wide, signed, precise)
  {
    hide After, ReadField, FieldRead, Reaches, FieldSpan;
    forall s: State, noise: Noise | Reaches(After(code, s, noise), offset / 8 + FieldSpan(offset % 8 + length, precise))
      ensures After(ReadField(code, offset, length, wide, signed, precise), s, noise) ==
              FieldRead(After(code, s, noise), offset, length, wide, signed, precise)
    {
      ReadFieldRuns(code, offset, length, wide, signed, precise, s, noise);
    }
  }

  lemma ExcessReads(code: seq<Instruction>, offset: nat, length: nat, wide: bool, signed: bool, precise: bool)
    requires SlotWidth(wide) < offset % 8 + length && offset + length < Pow2(64)
    ensures ReadsAddress(code, ReadField(code, offset, length, wide, signed, precise), offset, length, wide)
  {
    hide After, ReadField, AddressRead, Pow2;
    forall s: State, noise: Noise
      ensures After(ReadField(code, offset, length, wide, signed, precise), s, noise) ==
              AddressRead(After(code, s, noise), offset, length, wide)
    {
      ExcessRuns(code, offset, length, wide, signed, precise, s, noise);
    }
  }

  /** The emitted code reads the field on every state exactly when the field does not exceed its slot. */
  lemma ReadsExactly(offset: nat, length: nat, wide: bool, signed: bool, precise: bool)
    requires 0 < length && offset + length < Pow2(64)
    ensures (forall code: seq<Instruction> ::
               Reads(code, ReadField(code, offset, length, wide, signed, precise), offset, length, wide, signed, precise)) <==>
            offset % 8 + length <= SlotWidth(wide)
  {
    hide Reads, ReadField, Pow2;
    if offset % 8 + length <= SlotWidth(wide) {
      forall code: seq<Instruction>
        ensures Reads(code, ReadField(code, offset, length, wide, signed, precise), offset, length, wide, signed, precise)
      {
        FieldReads(code, offset, length, wide, signed, precise);
      }
    } else {
      Misreads(offset, length, wide, signed, precise);
    }
  }

  /** A field that exceeds its slot: where it is mapped a wide read faults, where it is not a native read does not. */
  lemma Misreads(offset: nat, length: nat, wide: bool, signed: bool, precise: bool)
    requires SlotWidth(wide) < offset % 8 + length && offset + length < Pow2(64)
    ensures !Reads([], ReadField([], offset, length, wide, signed, precise), offset, length, wide, signed, precise)
  {
    hide ReadField, Pow2, FieldBits, Widened, FieldSpan, ExtractBits;
    var at, n := offset / 8, FieldSpan(offset % 8 + length, precise);
    var memory: Memory := if wide then StoreWord(map[], at, n, 0) else map[];
    var s, noise := Running(Push(0, Empty), memory), (i: nat) => 0;
    ExcessRuns([], offset, length, wide, signed, precise, s, noise);
    ExcessSpan(offset, length, precise);
    assert wide <==> Mapped(memory, at, n) by {
      if !wide {
        assert at !in memory;
      }
    }
    assert Reaches(After([], s, noise), at + n);
    assert After(ReadField([], offset, length, wide, signed, precise), s, noise) !=
           FieldRead(After([], s, noise), offset, length, wide, signed, precise);
  }

  lemma ExcessSpan(offset: nat, length: nat, precise: bool)
    requires 64 < offset % 8 + length && offset + length < Pow2(64)
    ensures 0 < FieldSpan(offset % 8 + length, precise) && offset / 8 + FieldSpan(offset % 8 + length, precise) <= Pow2(64)
  {
    hide Pow2;
    Pow2Words();
  }

  /** A 64-bit field after a single bit in a packed structure: the read leaves half of the address, and reads no memory. */
  lemma PackedField(code: seq<Instruction>, signed: bool, precise: bool, a: nat, rest: Stack, memory: Memory, s: State, noise: Noise)
    requires After(code, s, noise) == Running(Push(a, rest), memory) && a < Pow2(64)
    ensures After(ReadField(code, 1, 64, false, signed, precise), s, noise) == Running(Push(a / 2, rest), memory)
  {
    hide After, ReadField, Pow2, Wrap;
    Pow2Words();
    ExcessRuns(code, 1, 64, false, signed, precise, s, noise);
    Pow2Bytes();
    WrapSmall(a, 64);
    WrapSmall(a / 2, 64);
  }

  lemma FieldWrites(code: seq<Instruction>, offset: nat, length: nat, wide: bool, precise: bool)
    requires 0 < length < 128 && offset % 8 + length <= SlotWidth(wide)
    ensures Writes(code, WriteField(code, offset, length, wide, precise), offset, length, precise)
  {
    hide After, WriteField, FieldWritten, FieldSpan;
    forall s: State, noise: Noise | Addressed(After(code, s, noise), offset / 8 + FieldSpan(offset % 8 + length, precise))
      ensures After(WriteField(code, offset, length, wide, precise), s, noise) ==
              FieldWritten(After(code, s, noise), offset, length, precise)
    {
      WriteFieldRuns(code, offset, length, wide, precise, s, noise);
    }
  }

  lemma FieldLoads(code: seq<Instruction>, offset: nat, length: nat, wide: bool, precise: bool)
    requires 0 < length && offset % 8 + length <= SlotWidth(wide)
    ensures LoadsField(code, LoadField(code, offset / 8, offset % 8 + length, wide, precise), offset / 8, FieldSpan(offset % 8 + length, precise))
  {
    hide After, LoadField, Fetched, Moved, Reaches, FieldSpan;
    var at, bits := offset / 8, offset % 8 + length;
    forall s: State, noise: Noise | Reaches(After(code, s, noise), at + FieldSpan(bits, precise))
      ensures After(LoadField(code, at, bits, wide, precise), s, noise) ==
              Fetched(Moved(After(code, s, noise), at), FieldSpan(bits, precise))
    {
      LoadFieldRuns(code, at, bits, wide, precise, s, noise);
    }
  }

  lemma FieldMerges(code: seq<Instruction>, bit: nat, length: nat, wide: bool)
    requires 0 < length && bit + length <= SlotWidth(wide)
    ensures Merges(code, MergeField(code, bit, length, wide), bit, length, wide)
  {
    hide After, MergeField, InsertBits, Pow2;
    forall s: State, noise: Noise | Paired(After(code, s, noise), wide)
      ensures After(MergeField(code, bit, length, wide), s, noise) == Merged(After(code, s, noise), bit, length, wide)
    {
      var r := After(code, s, noise);
      MergeFieldRuns(code, bit, length, wide, r.stack.top, r.stack.rest.top, r.stack.rest.rest, r.memory, s, noise);
    }
  }

  lemma SlotStores(code: seq<Instruction>, bits: nat, wide: bool)
    requires 0 < bits <= SlotWidth(wide)
    ensures StoresSlot(code, StoreSlot(code, bits, wide), bits, wide)
  {
    hide After, StoreSlot, Stored, Pow2;
    forall s: State, noise: Noise | Paired(After(code, s, noise), wide) && Addressed(After(code, s, noise), DigitCount(bits))
      ensures After(StoreSlot(code, bits, wide), s, noise) == Stored(After(code, s, noise), DigitCount(bits))
    {
      var r := After(code, s, noise);
      StoreSlotRuns(code, bits, wide, r.stack.top, r.stack.rest.top, r.stack.rest.rest, r.memory, s, noise);
    }
  }

  // ----- emitters -----

  method EmitNativeLoad(b: Builder, precise: bool, bits: nat) returns (ok: bool)
    modifies b
    ensures ok <==> bits <= 64
    ensures b.code == if ok then NativeLoad(old(b.code), bits, precise) else old(b.code)
    ensures ok ==> Loads(old(b.code), b.code, LoadSpan(bits, precise))
  {
    hide Pow2, Loads;
    Masks();
    if bits <= 64 {
      NativeLoads(b.code, bits, precise);
    }
    if bits <= 8 {
      b.Append(Load(1));
      b.Append(Const(0xff));
      b.Append(Apply2(And64));
    } else if bits <= 16 {
      b.Append(Load(2));
      b.Append(Const(0xffff));
      b.Append(Apply2(And64));
    } else if bits <= 24 && precise {
      b.Append(Pick(0));
      b.Append(Const(2));
      b.Append(Apply2(Add64));
      b.Append(Load(1));
      b.Append(Const(0xff));
      b.Append(Apply2(And64));
      b.Append(Const(16));
      b.Append(Apply2(Shl64));
      b.Append(Exchange(1));
      b.Append(Load(2));
      b.Append(Const(0xffff));
      b.Append(Apply2(And64));
      b.Append(Apply2(Or64));
    } else if bits <= 32 {
      b.Append(Load(4));
      b.Append(Const(0xffff_ffff));
      b.Append(Apply2(And64));
    } else if bits <= 40 && precise {
      b.Append(Pick(0));
      b.Append(Const(4));
      b.Append(Apply2(Add64));
      b.Append(Load(1));
      b.Append(Const(0xff));
      b.Append(Apply2(And64));
      b.Append(Const(32));
      b.Append(Apply2(Shl64));
      b.Append(Exchange(1));
      b.Append(Load(4));
      b.Append(Const(0xffff_ffff));
      b.Append(Apply2(And64));
      b.Append(Apply2(Or64));
    } else if bits <= 48 && precise {
      b.Append(Pick(0));
      b.Append(Const(4));
      b.Append(Apply2(Add64));
      b.Append(Load(2));
      b.Append(Const(0xffff));
      b.Append(Apply2(And64));
      b.Append(Const(32));
      b.Append(Apply2(Shl64));
      b.Append(Exchange(1));
      b.Append(Load(4));
      b.Append(Const(0xffff_ffff));
      b.Append(Apply2(And64));
      b.Append(Apply2(Or64));
    } else if bits <= 56 && precise {
      b.Append(Pick(0));
      b.Append(Const(6));
      b.Append(Apply2(Add64));
      b.Append(Load(1));
      b.Append(Const(0xff));
      b.Append(Apply2(And64));
      b.Append(Const(48));
      b.Append(Apply2(Shl64));
      b.Append(Exchange(1));
      b.Append(Pick(0));
      b.Append(Const(4));
      b.Append(Apply2(Add64));
      b.Append(Load(2));
      b.Append(Const(0xffff));
      b.Append(Apply2(And64));
      b.Append(Const(32));
      b.Append(Apply2(Shl64));
      b.Append(Exchange(1));
      b.Append(Load(4));
      b.Append(Const(0xffff_ffff));
      b.Append(Apply2(And64));
      b.Append(Apply2(Or64));
      b.Append(Apply2(Or64));
    } else if bits <= 64 {
      b.Append(Load(8));
    } else {
      return false;
    }
    return true;
  }

  method EmitNativeStore(b: Builder, bits: nat) returns (ok: bool)
    modifies b
    ensures ok <==> bits <= 64
    ensures b.code == if ok then NativeStore(old(b.code), bits) else old(b.code)
    ensures ok && bits > 0 ==> Stores(old(b.code), b.code, DigitCount(bits))
  {
    hide Stores;
    if 0 < bits <= 64 {
      NativeStores(b.code, bits);
    }
    if bits <= 8 {
      b.Append(Store(1));
    } else if bits <= 16 {
      b.Append(Store(2));
    } else if bits <= 24 {
      b.Append(Pick(0));
      b.Append(Pick(2));
      b.Append(Const(2));
      b.Append(Apply2(Add64));
      b.Append(Exchange(1));
      b.Append(Const(16));
      b.Append(Apply2(Shr64));
      b.Append(Store(1));
      b.Append(Store(2));
    } else if bits <= 32 {
      b.Append(Store(4));
    } else if bits <= 40 {
      b.Append(Pick(0));
      b.Append(Pick(2));
      b.Append(Const(4));
      b.Append(Apply2(Add64));
      b.Append(Exchange(1));
      b.Append(Const(32));
      b.Append(Apply2(Shr64));
      b.Append(Store(1));
      b.Append(Store(4));
    } else if bits <= 48 {
      b.Append(Pick(0));
      b.Append(Pick(2));
      b.Append(Const(4));
      b.Append(Apply2(Add64));
      b.Append(Exchange(1));
      b.Append(Const(32));
      b.Append(Apply2(Shr64));
      b.Append(Store(2));
      b.Append(Store(4));
    } else if bits <= 56 {
      b.Append(Pick(0));
      b.Append(Pick(2));
      b.Append(Const(6));
      b.Append(Apply2(Add64));
      b.Append(Exchange(1));
      b.Append(Const(48));
      b.Append(Apply2(Shr64));
      b.Append(Store(1));
      b.Append(Pick(0));
      b.Append(Pick(2));
      b.Append(Const(4));
      b.Append(Apply2(Add64));
      b.Append(Exchange(1));
      b.Append(Const(32));
      b.Append(Apply2(Shr64));
      b.Append(Store(2));
      b.Append(Store(4));
    } else if bits <= 64 {
      b.Append(Store(8));
    } else {
      return false;
    }
    return true;
  }

  method EmitLoadField(b: Builder, offset: nat, length: nat, wide: bool, precise: bool) returns (ok: bool)
    modifies b
    ensures ok <==> offset % 8 + length <= SlotWidth(wide)
    ensures ok ==> b.code == LoadField(old(b.code), offset / 8, offset % 8 + length, wide, precise)
    ensures !ok ==> b.code == LoadStarted(old(b.code), offset / 8, wide, precise)
    ensures ok && 0 < length ==> LoadsField(old(b.code), b.code, offset / 8, FieldSpan(offset % 8 + length, precise))
  {
    hide NativeLoad, LoadsField, FieldSpan, LoadSpan, Loads;
    if 0 < length && offset % 8 + length <= SlotWidth(wide) {
      FieldLoads(b.code, offset, length, wide, precise);
    }
    b.Append(Const(offset / 8));
    b.Append(Apply2(Add64));
    var bits := offset % 8 + length;
    if wide {
      if bits <= 64 {
        ok := EmitNativeLoad(b, precise, bits);
        b.Append(Apply1(ZeroExtend128));
      } else {
        b.Append(Pick(0));
        ok := EmitNativeLoad(b, precise, 64);
        b.Append(Exchange(1));
        b.Append(Const(8));
        b.Append(Apply2(Add64));
        ok := EmitNativeLoad(b, precise, bits - 64);
        if ok {
          b.Append(Apply2(From128));
        }
      }
    } else {
      ok := EmitNativeLoad(b, precise, bits);
    }
  }

  /** Never fails: the result of the load is stored and not looked at again. */
  method EmitReadField(b: Builder, offset: nat, length: nat, wide: bool, signed: bool, precise: bool)
    modifies b
    ensures b.code == ReadField(old(b.code), offset, length, wide, signed, precise)
    ensures 0 < length && offset % 8 + length <= SlotWidth(wide) ==>
              Reads(old(b.code), b.code, offset, length, wide, signed, precise)
    ensures SlotWidth(wide) < offset % 8 + length && offset + length < Pow2(64) ==>
              ReadsAddress(old(b.code), b.code, offset, length, wide)
  {
    hide LoadField, LoadStarted, Reads, ReadsAddress, Pow2;
    if SlotWidth(wide) < offset % 8 + length && offset + length < Pow2(64) {
      ExcessReads(b.code, offset, length, wide, signed, precise);
    } else if 0 < length && offset % 8 + length <= SlotWidth(wide) {
      FieldReads(b.code, offset, length, wide, signed, precise);
    }
    var bit := offset % 8;
    var res := EmitLoadField(b, offset, length, wide, precise);
    var signedness := false;
    if res {
      signedness := signed;
    }
    if wide {
      b.Append(Const(ShiftAmount(bit + length)));
      b.Append(Apply2(Shl128));
      b.Append(Const(ShiftAmount(length)));
      if signedness {
        b.Append(Apply2(Sar128));
      } else {
        b.Append(Apply2(Shr128));
      }
    } else if signedness {
      b.Append(Apply1(ExtractSigned(bit, length)));
    } else {
      b.Append(Apply1(ExtractUnsigned(bit, length)));
    }
  }

  method EmitWriteField(b: Builder, offset: nat, length: nat, wide: bool, precise: bool) returns (ok: bool)
    modifies b
    ensures ok <==> offset % 8 + length <= SlotWidth(wide)
    ensures ok ==> b.code == WriteField(old(b.code), offset, length, wide, precise)
    ensures ok && 0 < length < 128 ==> Writes(old(b.code), b.code, offset, length, precise)
  {
    hide LoadField, StoreSlot, MergeField, With, Writes;
    if 0 < length < 128 && offset % 8 + length <= SlotWidth(wide) {
      FieldWrites(b.code, offset, length, wide, precise);
    }
    var bit := offset % 8;
    b.Append(Pick(1));
    ok := EmitLoadField(b, offset, length, wide, precise);
    if !ok {
      return;
    }
    EmitMerge(b, bit, length, wide);
    b.Append(Exchange(1));
    ghost var merged := b.code;
    b.Append(Const(offset / 8));
    b.Append(Apply2(Add64));
    WithDef(merged, offset / 8, Add64);
    b.Append(Exchange(1));
    EmitStoreSlot(b, bit + length, wide);
  }

  lemma WithDef(code: seq<Instruction>, k: nat, op: Binary)
    ensures With(code, k, op) == code + [Const(k)] + [Apply2(op)]
  {
  }

  method EmitMerge(b: Builder, bit: nat, length: nat, wide: bool)
    modifies b
    ensures b.code == MergeField(old(b.code), bit, length, wide)
    ensures 0 < length && bit + length <= SlotWidth(wide) ==> Merges(old(b.code), b.code, bit, length, wide)
  {
    hide Merges;
    if 0 < length && bit + length <= SlotWidth(wide) {
      FieldMerges(b.code, bit, length, wide);
    }
    b.Append(Exchange(1));
    if wide {
      b.Append(Const(1));
      b.Append(Apply1(ZeroExtend128));
      b.Append(Const(length));
      b.Append(Apply2(Shl128));
      b.Append(Const(1));
      b.Append(Apply1(ZeroExtend128));
      b.Append(Apply2(Sub128));
      b.Append(Exchange(1));
      b.Append(Pick(1));
      b.Append(Apply2(And128));
      b.Append(Const(bit));
      b.Append(Apply2(Shl128));
      b.Append(Exchange(2));
      b.Append(Exchange(1));
      b.Append(Const(bit));
      b.Append(Apply2(Shl128));
      b.Append(Apply1(Not128));
      b.Append(Apply2(And128));
      b.Append(Apply2(Or128));
    } else {
      b.Append(Apply2(Insert(bit, length)));
    }
  }

  method EmitStoreSlot(b: Builder, bits: nat, wide: bool)
    requires bits <= SlotWidth(wide)
    modifies b
    ensures b.code == StoreSlot(old(b.code), bits, wide)
    ensures 0 < bits ==> StoresSlot(old(b.code), b.code, bits, wide)
  {
    hide NativeStore, StoresSlot;
    if 0 < bits {
      SlotStores(b.code, bits, wide);
    }
    if !wide {
      var ok := EmitNativeStore(b, bits);
    } else if DigitCount(bits) * 8 <= 64 {
      b.Append(Apply1(Lower128));
      var ok := EmitNativeStore(b, bits);
    } else {
      b.Append(Pick(0));
      b.Append(Apply1(Lower128));
      b.Append(Pick(2));
      b.Append(Exchange(1));
      var ok := EmitNativeStore(b, 64);
      b.Append(Apply1(Upper128));
      b.Append(Exchange(1));
      b.Append(Const(8));
      b.Append(Apply2(Add64));
      b.Append(Exchange(1));
      ok := EmitNativeStore(b, bits - 64);
    }
  }
}
