/** Bit-field code generation (ast-translator/value.c): the emitted blocks and what they do. */
module BitField {
  import opened Powers
  import opened Bitwise
  import opened Digits
  import opened BitRange
  import opened StackMachine

  // ----- what running a block part does -----

  /** The address on top replaced by the n bytes there. */
  ghost function Fetched(s: State, n: nat): State {
    if s.Fault? || s.stack.Empty? || !Mapped(s.memory, s.stack.top, n) then
      Fault
    else
      Running(Push(LoadWord(s.memory, s.stack.top, n), s.stack.rest), s.memory)
  }

  /** The value on top stored in the n bytes at the address below it. */
  ghost function Stored(s: State, n: nat): State {
    if s.Fault? || s.stack.Empty? || s.stack.rest.Empty? || !Mapped(s.memory, s.stack.rest.top, n) then
      Fault
    else
      Running(s.stack.rest.rest, StoreWord(s.memory, s.stack.rest.top, n, s.stack.top))
  }

  /** An operation with a constant right operand. */
  function With(code: seq<Instruction>, k: nat, op: Binary): (r: seq<Instruction>)
    ensures code <= r
  {
    code + [Const(k)] + [Apply2(op)]
  }

  lemma Immediate(code: seq<Instruction>, k: nat, op: Binary, s: State, noise: Noise)
    ensures var r := After(code, s, noise);
            After(With(code, k, op), s, noise) ==
            if r.Fault? || r.stack.Empty? || !Defined(op, k) then
              Fault
            else
              r.(stack := Push(Evaluate2(op, r.stack.top, k), r.stack.rest))
  {
    hide After, Evaluate2, Defined;
    Appended(code, Const(k), s, noise);
    Appended(code + [Const(k)], Apply2(op), s, noise);
  }

  // ----- loading whole bytes -----

  /** Code that loads n bytes and clears what the load left above them. */
  function LoadPart(code: seq<Instruction>, n: nat): (r: seq<Instruction>)
    ensures code <= r
  {
    With(code + [Load(n)], Pow2(8 * n) - 1, And64)
  }

  lemma LoadPartRuns(code: seq<Instruction>, n: nat, s: State, noise: Noise)
    requires n <= 8
    ensures After(LoadPart(code, n), s, noise) == Fetched(After(code, s, noise), n)
  {
    hide After, LoadWord, Mapped, And, Wrap, Pow2, With;
    Appended(code, Load(n), s, noise);
    Immediate(code + [Load(n)], Pow2(8 * n) - 1, And64, s, noise);
    var r := After(code, s, noise);
    if Fetched(r, n).Running? {
      WordBound(r.memory, r.stack.top, n);
      LoadMasked(LoadWord(r.memory, r.stack.top, n), n, noise(|code|));
    }
  }

  lemma LoadMasked(v: nat, n: nat, noise: nat)
    requires n <= 8 && v < Pow2(8 * n)
    ensures Wrap(And(Loaded(v, n, noise), Pow2(8 * n) - 1), 64) == v
  {
    hide Pow2, And, Wrap;
    var x := v + Pow2(8 * n) * noise;
    MaskLow(Wrap(x, 64), 8 * n);
    WrapWrap(x, 8 * n, 64);
    WrapShift(v, noise, 8 * n);
    WrapSmall(v, 8 * n);
    Pow2Mono(8 * n, 64);
    WrapSmall(v, 64);
  }

  /** Code that loads the n bytes k above the address, in place, and brings the address back on top. */
  function UpperLoad(code: seq<Instruction>, k: nat, n: nat): (r: seq<Instruction>)
    ensures code <= r
  {
    With(LoadPart(With(code + [Pick(0)], k, Add64), n), 8 * k, Shl64) + [Exchange(1)]
  }

  ghost function FetchedAbove(s: State, k: nat, n: nat): State {
    if s.Fault? || s.stack.Empty? || !Mapped(s.memory, s.stack.top + k, n) then
      Fault
    else
      s.(stack := Push(s.stack.top, Push(Shl(LoadWord(s.memory, s.stack.top + k, n), 8 * k), s.stack.rest)))
  }

  lemma UpperLoadRuns(code: seq<Instruction>, k: nat, n: nat, s: State, noise: Noise)
    requires k < 8 && k + n <= 8
    requires var r := After(code, s, noise); r.Running? && r.stack.Push? ==> r.stack.top + k < Pow2(64)
    ensures After(UpperLoad(code, k, n), s, noise) == FetchedAbove(After(code, s, noise), k, n)
  {
    hide After, LoadWord, LoadPart, Mapped, Pow2, Shl, With, Fetched, FetchedAbove, AtOffset;
    var r := After(code, s, noise);
    var c1 := With(code + [Pick(0)], k, Add64);
    AddressAbove(code, k, s, noise);
    LoadPartRuns(c1, n, s, noise);
    FetchedParts(r, k, n);
    PutAbove(LoadPart(c1, n), k, n, s, noise);
  }

  /** A copy of the address, moved up. */
  ghost function AtOffset(r: State, k: nat): State {
    if r.Fault? || r.stack.Empty? then Fault else r.(stack := Push(r.stack.top + k, r.stack))
  }

  /** The word on top shifted into place below the address. */
  ghost function Raised(r: State, k: nat): State {
    if r.Fault? || r.stack.Empty? || r.stack.rest.Empty? then
      Fault
    else
      r.(stack := Push(r.stack.rest.top, Push(Shl(r.stack.top, 8 * k), r.stack.rest.rest)))
  }

  lemma FetchedParts(r: State, k: nat, n: nat)
    ensures Raised(Fetched(AtOffset(r, k), n), k) == FetchedAbove(r, k, n)
    ensures var q := Fetched(AtOffset(r, k), n); q.Running? ==> q.stack.Push? && q.stack.rest.Push? && q.stack.top < Pow2(8 * n)
  {
    hide LoadWord, Mapped, Pow2, Shl;
    FetchedBound(AtOffset(r, k), n);
  }

  lemma FetchedBound(s: State, n: nat)
    ensures Fetched(s, n).Running? ==> Fetched(s, n).stack.top < Pow2(8 * n)
  {
    hide LoadWord, Mapped, Pow2;
    if Fetched(s, n).Running? {
      WordBound(s.memory, s.stack.top, n);
    }
  }

  lemma AddressAbove(code: seq<Instruction>, k: nat, s: State, noise: Noise)
    requires var r := After(code, s, noise); r.Running? && r.stack.Push? ==> r.stack.top + k < Pow2(64)
    ensures After(With(code + [Pick(0)], k, Add64), s, noise) == AtOffset(After(code, s, noise), k)
  {
    hide After, Wrap, Pow2, With;
    Appended(code, Pick(0), s, noise);
    Immediate(code + [Pick(0)], k, Add64, s, noise);
    var r := After(code, s, noise);
    if r.Running? && r.stack.Push? {
      WrapSmall(r.stack.top + k, 64);
    }
  }

  lemma PutAbove(code: seq<Instruction>, k: nat, n: nat, s: State, noise: Noise)
    requires k < 8 && k + n <= 8
    requires var r := After(code, s, noise); r.Running? ==> r.stack.Push? && r.stack.rest.Push? && r.stack.top < Pow2(8 * n)
    ensures After(With(code, 8 * k, Shl64) + [Exchange(1)], s, noise) == Raised(After(code, s, noise), k)
  {
    hide After, Wrap, Pow2, With;
    var r := After(code, s, noise);
    Immediate(code, 8 * k, Shl64, s, noise);
    Appended(With(code, 8 * k, Shl64), Exchange(1), s, noise);
    if r.Running? {
      ShiftFits(r.stack.top, k, n);
      Second(Shl(r.stack.top, 8 * k), r.stack.rest.top, r.stack.rest.rest);
    }
  }

  lemma ShiftFits(v: nat, k: nat, n: nat)
    requires v < Pow2(8 * n) && k + n <= 8
    ensures Wrap(Pow2(8 * k) * v, 64) == Pow2(8 * k) * v == Shl(v, 8 * k)
  {
    hide Pow2, Wrap;
    ShiftBound(v, 8 * n, 8 * k);
    Pow2Mono(8 * (k + n), 64);
    WrapSmall(Pow2(8 * k) * v, 64);
  }

  // ----- native loads -----

  /** How many bytes a native load reads. */
  function LoadSpan(bits: nat, precise: bool): nat {
    if precise && bits > 0 then
      DigitCount(bits)
    else if bits <= 8 then
      1
    else if bits <= 16 then
      2
    else if bits <= 32 then
      4
    else
      8
  }

  function NativeLoad(code: seq<Instruction>, bits: nat, precise: bool): (r: seq<Instruction>)
    requires bits <= 64
    ensures code <= r
  {
    if bits <= 8 then
      LoadPart(code, 1)
    else if bits <= 16 then
      LoadPart(code, 2)
    else if bits <= 24 && precise then
      LoadPart(UpperLoad(code, 2, 1), 2) + [Apply2(Or64)]
    else if bits <= 32 then
      LoadPart(code, 4)
    else if bits <= 40 && precise then
      LoadPart(UpperLoad(code, 4, 1), 4) + [Apply2(Or64)]
    else if bits <= 48 && precise then
      LoadPart(UpperLoad(code, 4, 2), 4) + [Apply2(Or64)]
    else if bits <= 56 && precise then
      LoadPart(UpperLoad(UpperLoad(code, 6, 1), 4, 2), 4) + [Apply2(Or64)] + [Apply2(Or64)]
    else
      code + [Load(8)]
  }

  lemma OrWords(lo: nat, hi: nat, k: nat, n: nat)
    requires k + n <= 8 && lo < Pow2(8 * k) && hi < Pow2(8 * n)
    ensures Wrap(Or(Shl(hi, 8 * k), lo), 64) == lo + Pow2(8 * k) * hi < Pow2(8 * (k + n))
  {
    hide Pow2, Or, Wrap;
    OrDisjoint(hi, lo, 8 * k);
    Pow2Add(8 * k, 8 * n);
    MulStrict(hi, Pow2(8 * n), Pow2(8 * k));
    MulMono(0, hi, Pow2(8 * k));
    Pow2Mono(8 * (k + n), 64);
    WrapSmall(lo + Pow2(8 * k) * hi, 64);
  }

  /** Two loads joined: n bytes above k bytes. */
  lemma TwoPartsRun(code: seq<Instruction>, k: nat, n: nat, s: State, noise: Noise)
    requires 0 < k && 0 < n && k + n <= 8
    requires var r := After(code, s, noise); r.Running? && r.stack.Push? ==> r.stack.top + k < Pow2(64)
    ensures After(LoadPart(UpperLoad(code, k, n), k) + [Apply2(Or64)], s, noise) == Fetched(After(code, s, noise), k + n)
  {
    hide After, LoadWord, LoadPart, UpperLoad, Wrap, Pow2, Or, Shl, Mapped;
    var r := After(code, s, noise);
    UpperLoadRuns(code, k, n, s, noise);
    LoadPartRuns(UpperLoad(code, k, n), k, s, noise);
    Appended(LoadPart(UpperLoad(code, k, n), k), Apply2(Or64), s, noise);
    if r.Running? && r.stack.Push? {
      JoinWords(r.memory, r.stack.top, k, n);
    }
  }

  lemma JoinWords(memory: Memory, a: nat, k: nat, n: nat)
    requires k + n <= 8
    ensures Mapped(memory, a, k + n) <==> Mapped(memory, a, k) && Mapped(memory, a + k, n)
    ensures Mapped(memory, a, k + n) ==>
              Wrap(Or(Shl(LoadWord(memory, a + k, n), 8 * k), LoadWord(memory, a, k)), 64) == LoadWord(memory, a, k + n)
  {
    hide LoadWord, Wrap, Pow2, Or, Shl;
    if Mapped(memory, a, k + n) {
      WordSplit(memory, a, k, n);
      WordBound(memory, a, k);
      WordBound(memory, a + k, n);
      OrWords(LoadWord(memory, a, k), LoadWord(memory, a + k, n), k, n);
    }
  }

  /** Three loads joined: one byte above two above four. */
  lemma ThreePartsRun(code: seq<Instruction>, s: State, noise: Noise)
    requires var r := After(code, s, noise); r.Running? && r.stack.Push? ==> r.stack.top + 6 < Pow2(64)
    ensures After(LoadPart(UpperLoad(UpperLoad(code, 6, 1), 4, 2), 4) + [Apply2(Or64)] + [Apply2(Or64)], s, noise) ==
            Fetched(After(code, s, noise), 7)
  {
    hide After, LoadWord, LoadPart, UpperLoad, Wrap, Pow2, Or, Shl, Mapped;
    var r := After(code, s, noise);
    UpperLoadRuns(code, 6, 1, s, noise);
    TwoPartsRun(UpperLoad(code, 6, 1), 4, 2, s, noise);
    Appended(LoadPart(UpperLoad(UpperLoad(code, 6, 1), 4, 2), 4) + [Apply2(Or64)], Apply2(Or64), s, noise);
    if r.Running? && r.stack.Push? {
      JoinWords(r.memory, r.stack.top, 6, 1);
    }
  }

  /** A native load reads exactly its span, and no bit above it is left over. */
  lemma NativeLoadRuns(code: seq<Instruction>, bits: nat, precise: bool, s: State, noise: Noise)
    requires bits <= 64
    requires var r := After(code, s, noise); r.Running? && r.stack.Push? ==> r.stack.top + LoadSpan(bits, precise) <= Pow2(64)
    ensures After(NativeLoad(code, bits, precise), s, noise) == Fetched(After(code, s, noise), LoadSpan(bits, precise))
  {
    hide After, LoadWord, LoadPart, UpperLoad, Mapped, Wrap, Pow2, Or, Shl, Fetched;
    if bits <= 8 {
      LoadPartRuns(code, 1, s, noise);
    } else if bits <= 16 {
      LoadPartRuns(code, 2, s, noise);
    } else if bits <= 24 && precise {
      TwoPartsRun(code, 2, 1, s, noise);
    } else if bits <= 32 {
      LoadPartRuns(code, 4, s, noise);
    } else if bits <= 40 && precise {
      TwoPartsRun(code, 4, 1, s, noise);
    } else if bits <= 48 && precise {
      TwoPartsRun(code, 4, 2, s, noise);
    } else if bits <= 56 && precise {
      ThreePartsRun(code, s, noise);
    } else {
      WholeLoadRuns(code, s, noise);
    }
  }

  lemma WholeLoadRuns(code: seq<Instruction>, s: State, noise: Noise)
    ensures After(code + [Load(8)], s, noise) == Fetched(After(code, s, noise), 8)
  {
    hide After, LoadWord, Mapped, Wrap, Pow2;
    Appended(code, Load(8), s, noise);
    var r := After(code, s, noise);
    if Fetched(r, 8).Running? {
      var v := LoadWord(r.memory, r.stack.top, 8);
      WordBound(r.memory, r.stack.top, 8);
      WrapShift(v, noise(|code|), 64);
      WrapSmall(v, 64);
    }
  }

  /** The least of the sizes a single load can have, a power of two, that covers n bytes. */
  ghost predicate LeastLoad(size: nat, n: nat) {
    size in {1, 2, 4, 8} && n <= size < 2 * n
  }

  /** A precise load reads exactly the bytes the field overlaps, an imprecise one the least load that covers them. */
  lemma SpanCovers(bits: nat, precise: bool)
    requires bits <= 64
    ensures DigitCount(bits) <= LoadSpan(bits, precise) <= 8
    ensures bits == 0 ==> LoadSpan(bits, precise) == 1
    ensures bits > 0 && precise ==> LoadSpan(bits, precise) == DigitCount(bits)
    ensures bits > 0 && !precise ==> LeastLoad(LoadSpan(bits, precise), DigitCount(bits))
  {
  }

  // ----- reading a field -----

  ghost function Moved(s: State, k: nat): State {
    if s.Fault? || s.stack.Empty? then Fault else s.(stack := Push(s.stack.top + k, s.stack.rest))
  }

  /** The bytes up to the end of a field lie in the address space. */
  ghost predicate Reaches(s: State, n: nat) {
    s.Running? && s.stack.Push? ==> s.stack.top + n <= Pow2(64)
  }

  lemma AddOffset(code: seq<Instruction>, k: nat, s: State, noise: Noise)
    requires Reaches(After(code, s, noise), k + 1)
    ensures After(With(code, k, Add64), s, noise) == Moved(After(code, s, noise), k)
  {
    hide After, Wrap, Pow2, With;
    var r := After(code, s, noise);
    Immediate(code, k, Add64, s, noise);
    if r.Running? && r.stack.Push? {
      WrapSmall(r.stack.top + k, 64);
    }
  }

  /** How many bytes a field load reads; beyond 64 bits the lower eight come first. No load reads more than 128
      bits, and the span of such a field is the bytes it overlaps. */
  function FieldSpan(bits: nat, precise: bool): nat {
    if bits <= 64 then
      LoadSpan(bits, precise)
    else if bits <= 128 then
      8 + LoadSpan(bits - 64, precise)
    else
      DigitCount(bits)
  }

  function SlotWidth(wide: bool): nat {
    if wide then 128 else 64
  }

  /** Loads eight bytes and leaves the address of the next ones above them. */
  function LoadLower(code: seq<Instruction>, precise: bool): (r: seq<Instruction>)
    ensures code <= r
  {
    With(NativeLoad(code + [Pick(0)], 64, precise) + [Exchange(1)], 8, Add64)
  }

  /** Loads eight bytes and the bytes of the given bits above them. */
  function LoadHalves(code: seq<Instruction>, bits: nat, precise: bool): (r: seq<Instruction>)
    requires bits <= 64
    ensures code <= r
  {
    NativeLoad(LoadLower(code, precise), bits, precise) + [Apply2(From128)]
  }

  /** Loads the bytes of a field; a wide field is one of a 128-bit type. */
  function LoadField(code: seq<Instruction>, byteOffset: nat, bits: nat, wide: bool, precise: bool): (r: seq<Instruction>)
    requires bits <= SlotWidth(wide)
    ensures code <= r
  {
    var start := With(code, byteOffset, Add64);
    if !wide then
      NativeLoad(start, bits, precise)
    else if bits <= 64 then
      NativeLoad(start, bits, precise) + [Apply1(ZeroExtend128)]
    else
      LoadHalves(start, bits - 64, precise)
  }

  /** What the load of a field that exceeds its slot appends before it fails. */
  function LoadStarted(code: seq<Instruction>, byteOffset: nat, wide: bool, precise: bool): (r: seq<Instruction>)
    ensures code <= r
  {
    var start := With(code, byteOffset, Add64);
    if wide then LoadLower(start, precise) else start
  }

  lemma LoadFieldRuns(code: seq<Instruction>, byteOffset: nat, bits: nat, wide: bool, precise: bool, s: State, noise: Noise)
    requires 0 < bits <= SlotWidth(wide)
    requires Reaches(After(code, s, noise), byteOffset + FieldSpan(bits, precise))
    ensures After(LoadField(code, byteOffset, bits, wide, precise), s, noise) ==
            Fetched(Moved(After(code, s, noise), byteOffset), FieldSpan(bits, precise))
  {
    hide After, Pow2, NativeLoad, With, Fetched, LoadSpan, LoadHalves;
    SpanPositive(bits, precise);
    AddOffset(code, byteOffset, s, noise);
    var start := With(code, byteOffset, Add64);
    if bits > 64 {
      TwoHalvesRun(start, bits - 64, precise, s, noise);
    } else {
      OneHalfRuns(start, bits, precise, s, noise);
    }
  }

  lemma SpanPositive(bits: nat, precise: bool)
    requires 0 < bits
    ensures FieldSpan(bits, precise) > 0
  {
  }

  lemma OneHalfRuns(start: seq<Instruction>, bits: nat, precise: bool, s: State, noise: Noise)
    requires 0 < bits <= 64 && Reaches(After(start, s, noise), LoadSpan(bits, precise))
    ensures After(NativeLoad(start, bits, precise), s, noise) == Fetched(After(start, s, noise), LoadSpan(bits, precise))
    ensures After(NativeLoad(start, bits, precise) + [Apply1(ZeroExtend128)], s, noise) ==
            Fetched(After(start, s, noise), LoadSpan(bits, precise))
  {
    hide After, LoadWord, Mapped, Wrap, Pow2, NativeLoad, LoadSpan;
    NativeLoadRuns(start, bits, precise, s, noise);
    SpanCovers(bits, precise);
    Appended(NativeLoad(start, bits, precise), Apply1(ZeroExtend128), s, noise);
    var r, n := After(start, s, noise), LoadSpan(bits, precise);
    if Fetched(r, n).Running? {
      WordFits(r.memory, r.stack.top, n);
    }
  }

  lemma WordFits(memory: Memory, address: nat, n: nat)
    requires n <= 8 && Mapped(memory, address, n)
    ensures LoadWord(memory, address, n) < Pow2(64)
    ensures Wrap(LoadWord(memory, address, n), 64) == LoadWord(memory, address, n)
  {
    hide LoadWord, Pow2, Wrap;
    WordBound(memory, address, n);
    Pow2Mono(8 * n, 64);
    WrapSmall(LoadWord(memory, address, n), 64);
  }

  lemma TwoHalvesRun(start: seq<Instruction>, bits: nat, precise: bool, s: State, noise: Noise)
    requires 0 < bits <= 64
    requires Reaches(After(start, s, noise), 8 + LoadSpan(bits, precise))
    ensures After(LoadHalves(start, bits, precise), s, noise) == Fetched(After(start, s, noise), 8 + LoadSpan(bits, precise))
  {
    hide After, LoadWord, Mapped, Wrap, Pow2, NativeLoad, With;
    var first := NativeLoad(start + [Pick(0)], 64, precise);
    var lower := With(first + [Exchange(1)], 8, Add64);
    LowerHalfRuns(start, precise, s, noise);
    NativeLoadRuns(lower, bits, precise, s, noise);
    Appended(NativeLoad(lower, bits, precise), Apply2(From128), s, noise);
    var r := After(start, s, noise);
    if r.Running? && r.stack.Push? {
      JoinHalves(r.memory, r.stack.top, LoadSpan(bits, precise));
    }
  }

  lemma LowerHalfRuns(start: seq<Instruction>, precise: bool, s: State, noise: Noise)
    requires Reaches(After(start, s, noise), 9)
    ensures var r := After(start, s, noise);
            After(LoadLower(start, precise), s, noise) ==
            if r.Fault? || r.stack.Empty? || !Mapped(r.memory, r.stack.top, 8) then
              Fault
            else
              r.(stack := Push(r.stack.top + 8, Push(LoadWord(r.memory, r.stack.top, 8), r.stack.rest)))
  {
    hide After, LoadWord, Mapped, Wrap, Pow2, NativeLoad, With;
    var r := After(start, s, noise);
    Appended(start, Pick(0), s, noise);
    NativeLoadRuns(start + [Pick(0)], 64, precise, s, noise);
    var first := NativeLoad(start + [Pick(0)], 64, precise);
    Appended(first, Exchange(1), s, noise);
    if r.Running? && r.stack.Push? && Mapped(r.memory, r.stack.top, 8) {
      Second(LoadWord(r.memory, r.stack.top, 8), r.stack.top, r.stack.rest);
    }
    AddOffset(first + [Exchange(1)], 8, s, noise);
  }

  lemma JoinHalves(memory: Memory, a: nat, n: nat)
    requires n <= 8
    ensures Mapped(memory, a, 8 + n) <==> Mapped(memory, a, 8) && Mapped(memory, a + 8, n)
    ensures Mapped(memory, a, 8 + n) ==>
              Wrap(LoadWord(memory, a, 8), 64) + Pow2(64) * Wrap(LoadWord(memory, a + 8, n), 64) == LoadWord(memory, a, 8 + n)
  {
    hide LoadWord, Wrap, Pow2;
    if Mapped(memory, a, 8 + n) {
      WordSplit(memory, a, 8, n);
      WordFits(memory, a, 8);
      WordFits(memory, a + 8, n);
    }
  }

  /** The difference of 128 and a size, in the 64 bits of a size. */
  function ShiftAmount(size: nat): nat {
    (128 - size) % 0x1_0000_0000_0000_0000
  }

  /** Extracts and extends the bits of a loaded field. */
  function ExtractField(loaded: seq<Instruction>, bit: nat, length: nat, wide: bool, signed: bool): (r: seq<Instruction>)
    ensures loaded <= r
  {
    if wide then
      With(With(loaded, ShiftAmount(bit + length), Shl128), ShiftAmount(length), if signed then Sar128 else Shr128)
    else
      loaded + [Apply1(if signed then ExtractSigned(bit, length) else ExtractUnsigned(bit, length))]
  }

  /** Reads a field: loads its bytes, then extracts and extends the bits. When the load fails, the extraction is
      appended all the same, after what the load had appended so far and as if the field had no sign. */
  function ReadField(code: seq<Instruction>, offset: nat, length: nat, wide: bool, signed: bool, precise: bool): (r: seq<Instruction>)
    ensures code <= r
  {
    var bit := offset % 8;
    if bit + length <= SlotWidth(wide) then
      ExtractField(LoadField(code, offset / 8, bit + length, wide, precise), bit, length, wide, signed)
    else
      ExtractField(LoadStarted(code, offset / 8, wide, precise), bit, length, wide, false)
  }

  /** The field's bits: those of the bytes it overlaps. */
  ghost function FieldBits(memory: Memory, address: nat, offset: nat, length: nat): nat
    requires Mapped(memory, address + offset / 8, DigitCount(offset % 8 + length))
  {
    ExtractBits(LoadWord(memory, address + offset / 8, DigitCount(offset % 8 + length)), offset % 8, length)
  }

  lemma FieldSpanCovers(bits: nat, precise: bool)
    requires 0 < bits <= 128
    ensures DigitCount(bits) <= FieldSpan(bits, precise) <= 16
    ensures precise ==> FieldSpan(bits, precise) == DigitCount(bits)
  {
  }

  /** The bits of a field are the same in a longer word. */
  lemma ExtractLow(x: nat, offset: nat, length: nat, k: nat)
    requires offset + length <= k
    ensures ExtractBits(Wrap(x, k), offset, length) == ExtractBits(x, offset, length)
  {
    hide Pow2, Wrap, Shr;
    ShrWrap(x, offset, k - offset);
    WrapWrap(Shr(x, offset), length, k - offset);
  }

  lemma FieldInSpan(memory: Memory, a: nat, offset: nat, length: nat, m: nat, n: nat)
    requires n <= m && offset + length <= 8 * n && Mapped(memory, a, m)
    ensures Mapped(memory, a, n)
    ensures ExtractBits(LoadWord(memory, a, m), offset, length) == ExtractBits(LoadWord(memory, a, n), offset, length)
  {
    hide LoadWord, Pow2, Wrap, ExtractBits;
    WordSplit(memory, a, n, m - n);
    WordBound(memory, a, n);
    var x, lo := LoadWord(memory, a, m), LoadWord(memory, a, n);
    WrapShift(lo, LoadWord(memory, a + n, m - n), 8 * n);
    WrapSmall(lo, 8 * n);
    ExtractLow(x, offset, length, 8 * n);
  }

  /** Shifting a field to the top of the slot and back down extracts and extends it. */
  lemma ShiftExtracts(x: nat, offset: nat, length: nat, w: nat)
    requires 0 < length && offset + length <= w
    ensures Shr(Wrap(Pow2(w - (offset + length)) * x, w), w - length) == ExtractBits(x, offset, length)
    ensures Shr(ToSigned(Wrap(Pow2(w - (offset + length)) * x, w), w), w - length) == ToSigned(ExtractBits(x, offset, length), length)
  {
    hide Pow2, Wrap, Shr, ToSigned;
    var up, bits := w - (offset + length), offset + length;
    var field := ExtractBits(x, offset, length);
    ScaleWrap(x, up, bits);
    var y := Pow2(up) * Wrap(x, bits);
    ShrUnique(y, Wrap(x, bits), 0, up);
    ShrShr(y, up, offset);
    ShrWrap(x, offset, length);
    var rest := Wrap(y, w - length);
    ShrSplit(y, w - length);
    SignedSplit(rest, field, w - length, length);
    ShrUnique(rest + Pow2(w - length) * ToSigned(field, length), ToSigned(field, length), rest, w - length);
  }

  /** The address on top replaced by the field, extended to the slot. */
  ghost function FieldRead(s: State, offset: nat, length: nat, wide: bool, signed: bool, precise: bool): State
    requires 0 < length
  {
    if s.Fault? || s.stack.Empty? || !Mapped(s.memory, s.stack.top + offset / 8, FieldSpan(offset % 8 + length, precise)) then
      Fault
    else
      FieldSpanMapped(s.memory, s.stack.top + offset / 8, offset % 8 + length, precise);
      s.(stack := Push(Widened(FieldBits(s.memory, s.stack.top, offset, length), length, signed, SlotWidth(wide)), s.stack.rest))
  }

  /** A read leaves the field, zero- or sign-extended, in place of the address. */
  lemma ReadFieldRuns(code: seq<Instruction>, offset: nat, length: nat, wide: bool, signed: bool, precise: bool, s: State, noise: Noise)
    requires 0 < length && offset % 8 + length <= SlotWidth(wide)
    requires Reaches(After(code, s, noise), offset / 8 + FieldSpan(offset % 8 + length, precise))
    ensures After(ReadField(code, offset, length, wide, signed, precise), s, noise) ==
            FieldRead(After(code, s, noise), offset, length, wide, signed, precise)
  {
    hide After, Pow2, Fetched, FieldRead, Extracted, LoadField, With, FieldSpan;
    var r, bit := After(code, s, noise), offset % 8;
    var bits := bit + length;
    LoadFieldRuns(code, offset / 8, bits, wide, precise, s, noise);
    var loaded := LoadField(code, offset / 8, bits, wide, precise);
    FetchedField(r, offset, length, wide, signed, precise);
    if wide {
      ShiftedRuns(loaded, bit, length, signed, s, noise);
    } else {
      ExtractRuns(loaded, bit, length, signed, s, noise);
    }
  }

  /** The word on top replaced by the extended field. */
  ghost function Extracted(q: State, bit: nat, length: nat, signed: bool, width: nat): State {
    if q.Fault? || q.stack.Empty? then
      Fault
    else
      q.(stack := Push(Widened(ExtractBits(q.stack.top, bit, length), length, signed, width), q.stack.rest))
  }

  lemma FetchedField(r: State, offset: nat, length: nat, wide: bool, signed: bool, precise: bool)
    requires 0 < length && offset % 8 + length <= 128
    ensures var q := Fetched(Moved(r, offset / 8), FieldSpan(offset % 8 + length, precise));
            (q.Running? ==> q.stack.Push?) &&
            Extracted(q, offset % 8, length, signed, SlotWidth(wide)) == FieldRead(r, offset, length, wide, signed, precise)
  {
    hide LoadWord, Mapped, Pow2, ExtractBits, Widened, FieldSpan;
    var bits, q := offset % 8 + length, Fetched(Moved(r, offset / 8), FieldSpan(offset % 8 + length, precise));
    if q.Running? {
      FieldSpanCovers(bits, precise);
      FieldSpanMapped(r.memory, r.stack.top + offset / 8, bits, precise);
      FieldInSpan(r.memory, r.stack.top + offset / 8, offset % 8, length, FieldSpan(bits, precise), DigitCount(bits));
    }
  }

  lemma ExtractRuns(loaded: seq<Instruction>, bit: nat, length: nat, signed: bool, s: State, noise: Noise)
    ensures After(ExtractField(loaded, bit, length, false, signed), s, noise) ==
            Extracted(After(loaded, s, noise), bit, length, signed, 64)
  {
    hide After, ExtractBits, Widened;
    Appended(loaded, Apply1(if signed then ExtractSigned(bit, length) else ExtractUnsigned(bit, length)), s, noise);
  }

  lemma FieldSpanMapped(memory: Memory, a: nat, bits: nat, precise: bool)
    requires 0 < bits && Mapped(memory, a, FieldSpan(bits, precise))
    ensures Mapped(memory, a, DigitCount(bits))
  {
    if bits <= 128 {
      FieldSpanCovers(bits, precise);
    }
  }

  lemma ShiftedRuns(loaded: seq<Instruction>, bit: nat, length: nat, signed: bool, s: State, noise: Noise)
    requires 0 < length && bit + length <= 128
    ensures After(ExtractField(loaded, bit, length, true, signed), s, noise) ==
            Extracted(After(loaded, s, noise), bit, length, signed, 128)
  {
    hide After, With, Evaluate2, Defined, Widened, ExtractBits;
    var q := After(loaded, s, noise);
    var op := if signed then Sar128 else Shr128;
    Immediate(loaded, 128 - (bit + length), Shl128, s, noise);
    Immediate(With(loaded, 128 - (bit + length), Shl128), 128 - length, op, s, noise);
    ShiftDefined(128 - (bit + length));
    ShiftDefined(128 - length);
    if q.Running? && q.stack.Push? {
      ShiftEvaluates(q.stack.top, bit, length, signed);
    }
  }

  lemma ShiftDefined(k: nat)
    ensures k < 128 <==> Defined(Shl128, k)
    ensures k < 128 <==> Defined(Shr128, k)
    ensures k < 128 <==> Defined(Sar128, k)
  {
  }

  lemma ShiftEvaluates(x: nat, bit: nat, length: nat, signed: bool)
    requires 0 < length && bit + length <= 128
    ensures Evaluate2(if signed then Sar128 else Shr128, Evaluate2(Shl128, x, 128 - (bit + length)), 128 - length) ==
            Widened(ExtractBits(x, bit, length), length, signed, 128)
  {
    hide Wrap, Pow2, Shr, ToSigned, ExtractBits;
    var y := Wrap(Pow2(128 - (bit + length)) * x, 128);
    WrapSmall(y, 128);
    ShiftExtracts(x, bit, length, 128);
    Pow2Mono(length, 128);
    WrapSmall(ExtractBits(x, bit, length), 128);
  }

  // ----- reading a field that exceeds its slot -----

  /** Bits of the address where the field should be, or no defined result at all. */
  ghost function AddressRead(s: State, offset: nat, length: nat, wide: bool): State {
    if wide || s.Fault? || s.stack.Empty? then
      Fault
    else
      Extracted(s.(stack := Push(Wrap(s.stack.top + offset / 8, 64), s.stack.rest)), offset % 8, length, false, 64)
  }

  /** With its load cut short, a read extracts from the address in a native slot and shifts by too much in a wide one. */
  lemma ExcessRuns(code: seq<Instruction>, offset: nat, length: nat, wide: bool, signed: bool, precise: bool, s: State, noise: Noise)
    requires SlotWidth(wide) < offset % 8 + length && offset + length < Pow2(64)
    ensures After(ReadField(code, offset, length, wide, signed, precise), s, noise) ==
            AddressRead(After(code, s, noise), offset, length, wide)
  {
    hide After, With, Pow2, ExtractBits, Widened, LoadLower, Wrap, Defined;
    var bit, start := offset % 8, With(code, offset / 8, Add64);
    Immediate(code, offset / 8, Add64, s, noise);
    if wide {
      var lower := LoadLower(start, precise);
      Immediate(lower, ShiftAmount(bit + length), Shl128, s, noise);
      ShiftUndefined(bit + length);
      FaultStays(With(lower, ShiftAmount(bit + length), Shl128), ReadField(code, offset, length, wide, signed, precise), s, noise);
    } else {
      AlwaysAdds(offset / 8);
      ExtractRuns(start, bit, length, false, s, noise);
    }
  }

  lemma AlwaysAdds(k: nat)
    ensures Defined(Add64, k)
  {
  }

  lemma ShiftUndefined(size: nat)
    requires 128 < size < Pow2(64)
    ensures !Defined(Shl128, ShiftAmount(size))
  {
    hide Pow2;
    Pow2Words();
    ModShift(128 - size, 1, 0x1_0000_0000_0000_0000);
  }

  // ----- storing whole bytes -----

  /** There is a value below 2^64 over an address with n bytes above it. */
  ghost predicate Storable(s: State, n: nat) {
    s.Running? && s.stack.Push? && s.stack.rest.Push? && s.stack.top < Pow2(64) && s.stack.rest.top + n <= Pow2(64)
  }

  /** Code that stores n bytes of the value k above the address and keeps both. */
  function UpperStore(code: seq<Instruction>, k: nat, n: nat): (r: seq<Instruction>)
    ensures code <= r
  {
    With(With(code + [Pick(0)] + [Pick(2)], k, Add64) + [Exchange(1)], 8 * k, Shr64) + [Store(n)]
  }

  ghost function StoredAbove(s: State, k: nat, n: nat): State
    requires s.Running? && s.stack.Push? && s.stack.rest.Push?
  {
    ShrNat(s.stack.top, 8 * k);
    if Mapped(s.memory, s.stack.rest.top + k, n) then
      s.(memory := StoreWord(s.memory, s.stack.rest.top + k, n, Shr(s.stack.top, 8 * k)))
    else
      Fault
  }

  lemma UpperStoreRuns(code: seq<Instruction>, k: nat, n: nat, s: State, noise: Noise)
    requires k < 8 && Storable(After(code, s, noise), k + 1)
    ensures After(UpperStore(code, k, n), s, noise) == StoredAbove(After(code, s, noise), k, n)
  {
    hide After, Mapped, Wrap, Shr, Pow2, With, StoreWord;
    var r := After(code, s, noise);
    var v, a, rest := r.stack.top, r.stack.rest.top, r.stack.rest.rest;
    Appended(code, Pick(0), s, noise);
    Appended(code + [Pick(0)], Pick(2), s, noise);
    Third(v, v, a, rest);
    AddOffset(code + [Pick(0)] + [Pick(2)], k, s, noise);
    var moved := With(code + [Pick(0)] + [Pick(2)], k, Add64);
    Appended(moved, Exchange(1), s, noise);
    Second(a + k, v, r.stack);
    Immediate(moved + [Exchange(1)], 8 * k, Shr64, s, noise);
    WrapSmall(v, 64);
    Appended(With(moved + [Exchange(1)], 8 * k, Shr64), Store(n), s, noise);
  }

  function NativeStore(code: seq<Instruction>, bits: nat): (r: seq<Instruction>)
    requires bits <= 64
    ensures code <= r
  {
    if bits <= 8 then
      code + [Store(1)]
    else if bits <= 16 then
      code + [Store(2)]
    else if bits <= 24 then
      UpperStore(code, 2, 1) + [Store(2)]
    else if bits <= 32 then
      code + [Store(4)]
    else if bits <= 40 then
      UpperStore(code, 4, 1) + [Store(4)]
    else if bits <= 48 then
      UpperStore(code, 4, 2) + [Store(4)]
    else if bits <= 56 then
      UpperStore(UpperStore(code, 6, 1), 4, 2) + [Store(4)]
    else
      code + [Store(8)]
  }

  lemma StoreRuns(code: seq<Instruction>, n: nat, s: State, noise: Noise)
    ensures After(code + [Store(n)], s, noise) == Stored(After(code, s, noise), n)
  {
    hide After, Mapped, StoreWord;
    Appended(code, Store(n), s, noise);
  }

  /** Storing n bytes above and then k bytes is storing k + n bytes. */
  lemma StoreParts(s: State, k: nat, n: nat)
    requires s.Running? && s.stack.Push? && s.stack.rest.Push?
    ensures Stored(StoredAbove(s, k, n), k) == Stored(s, k + n)
  {
    hide Shr, StoreWord;
    StoreSplit(s.memory, s.stack.rest.top, k, n, s.stack.top);
  }

  /** A native store writes exactly the bytes that hold the given number of bits. */
  lemma NativeStoreRuns(code: seq<Instruction>, bits: nat, s: State, noise: Noise)
    requires 0 < bits <= 64 && Storable(After(code, s, noise), DigitCount(bits))
    ensures After(NativeStore(code, bits), s, noise) == Stored(After(code, s, noise), DigitCount(bits))
  {
    hide After, Stored, StoredAbove, UpperStore;
    var n := DigitCount(bits);
    if n == 3 {
      TwoStoresRun(code, 2, 1, s, noise);
    } else if n == 5 || n == 6 {
      TwoStoresRun(code, 4, n - 4, s, noise);
    } else if n == 7 {
      ThreeStoresRun(code, s, noise);
    } else {
      StoreRuns(code, n, s, noise);
    }
  }

  lemma TwoStoresRun(code: seq<Instruction>, k: nat, n: nat, s: State, noise: Noise)
    requires k < 8 && Storable(After(code, s, noise), k + 1)
    ensures After(UpperStore(code, k, n) + [Store(k)], s, noise) == Stored(After(code, s, noise), k + n)
  {
    hide After, Stored, StoredAbove, UpperStore;
    UpperStoreRuns(code, k, n, s, noise);
    StoreRuns(UpperStore(code, k, n), k, s, noise);
    StoreParts(After(code, s, noise), k, n);
  }

  lemma ThreeStoresRun(code: seq<Instruction>, s: State, noise: Noise)
    requires Storable(After(code, s, noise), 7)
    ensures After(UpperStore(UpperStore(code, 6, 1), 4, 2) + [Store(4)], s, noise) == Stored(After(code, s, noise), 7)
  {
    hide After, Stored, StoreWord, UpperStore, Mapped, Shr;
    var r := After(code, s, noise);
    UpperStoreRuns(code, 6, 1, s, noise);
    StoreParts(r, 6, 1);
    if StoredAbove(r, 6, 1).Running? {
      TwoStoresRun(UpperStore(code, 6, 1), 4, 2, s, noise);
    } else {
      FaultStays(UpperStore(code, 6, 1), UpperStore(UpperStore(code, 6, 1), 4, 2) + [Store(4)], s, noise);
      StoredFault(6);
    }
  }

  lemma StoredFault(n: nat)
    ensures Stored(Fault, n) == Fault
  {
  }

  // ----- writing a field -----

  /** Code that pushes the mask of the lower bits. */
  function MaskCode(code: seq<Instruction>, length: nat): (r: seq<Instruction>)
    ensures code <= r
  {
    With(code + [Const(1)] + [Apply1(ZeroExtend128)], length, Shl128) + [Const(1)] + [Apply1(ZeroExtend128)] + [Apply2(Sub128)]
  }

  /** Code that cuts the value below the mask to the mask and shifts it into place. */
  function ChunkCode(code: seq<Instruction>, bit: nat): (r: seq<Instruction>)
    ensures code <= r
  {
    With(code + [Exchange(1)] + [Pick(1)] + [Apply2(And128)], bit, Shl128)
  }

  /** Code that clears the field in the loaded bytes and puts the chunk there. */
  function MergeCode(code: seq<Instruction>, bit: nat): (r: seq<Instruction>)
    ensures code <= r
  {
    With(code + [Exchange(2)] + [Exchange(1)], bit, Shl128) + [Apply1(Not128)] + [Apply2(And128)] + [Apply2(Or128)]
  }

  /** Code that replaces the field in the loaded bytes on top by the value below them. */
  function MergeField(code: seq<Instruction>, bit: nat, length: nat, wide: bool): (r: seq<Instruction>)
    ensures code <= r
  {
    var swapped := code + [Exchange(1)];
    if wide then
      MergeCode(ChunkCode(MaskCode(swapped, length), bit), bit)
    else
      swapped + [Apply2(Insert(bit, length))]
  }

  lemma OneRuns(code: seq<Instruction>, s: State, noise: Noise)
    requires After(code, s, noise).Running?
    ensures var r := After(code, s, noise);
            After(code + [Const(1)] + [Apply1(ZeroExtend128)], s, noise) == r.(stack := Push(1, r.stack))
  {
    hide After, Wrap, Pow2;
    Appended(code, Const(1), s, noise);
    Appended(code + [Const(1)], Apply1(ZeroExtend128), s, noise);
    MaskValue(0);
  }

  lemma MaskRuns(code: seq<Instruction>, length: nat, s: State, noise: Noise)
    requires After(code, s, noise).Running?
    ensures var r := After(code, s, noise);
            After(MaskCode(code, length), s, noise) ==
            if length < 128 then r.(stack := Push(Pow2(length) - 1, r.stack)) else Fault
  {
    hide After, Wrap, Pow2, With;
    OneRuns(code, s, noise);
    var one := code + [Const(1)] + [Apply1(ZeroExtend128)];
    Immediate(one, length, Shl128, s, noise);
    var power := With(one, length, Shl128);
    if length < 128 {
      OneRuns(power, s, noise);
      MaskValue(length);
    } else {
      Appended(power, Const(1), s, noise);
      Appended(power + [Const(1)], Apply1(ZeroExtend128), s, noise);
    }
    Appended(power + [Const(1)] + [Apply1(ZeroExtend128)], Apply2(Sub128), s, noise);
  }

  lemma MaskValue(length: nat)
    requires length < 128
    ensures Wrap(1, 64) == 1
    ensures Wrap(Pow2(length) * 1, 128) == Pow2(length)
    ensures Wrap(Pow2(length) - 1, 128) == Pow2(length) - 1
  {
    hide Wrap, Pow2;
    Pow2Strict(0, 64);
    Pow2Strict(length, 128);
    Pow2Bytes();
    WrapSmall(1, 64);
    WrapSmall(Pow2(length), 128);
    WrapSmall(Pow2(length) - 1, 128);
  }

  lemma ChunkRuns(code: seq<Instruction>, bit: nat, length: nat, word: nat, v: nat, rest: Stack, memory: Memory, s: State, noise: Noise)
    requires bit + length <= 128 && bit < 128
    requires After(code, s, noise) == Running(Push(Pow2(length) - 1, Push(v, Push(word, rest))), memory)
    ensures After(ChunkCode(code, bit), s, noise) ==
            Running(Push(Shl(Wrap(v, length), bit), Push(Pow2(length) - 1, Push(word, rest))), memory)
  {
    hide After, Wrap, Pow2, With, And, Shl;
    var mask := Pow2(length) - 1;
    Appended(code, Exchange(1), s, noise);
    Second(mask, v, Push(word, rest));
    Appended(code + [Exchange(1)], Pick(1), s, noise);
    Second(v, mask, Push(word, rest));
    var picked := code + [Exchange(1)] + [Pick(1)];
    Appended(picked, Apply2(And128), s, noise);
    Immediate(picked + [Apply2(And128)], bit, Shl128, s, noise);
    ChunkValue(v, bit, length);
  }

  lemma ChunkValue(v: nat, bit: nat, length: nat)
    requires bit + length <= 128
    ensures Wrap(And(v, Pow2(length) - 1), 128) == Wrap(v, length)
    ensures Wrap(Pow2(bit) * Wrap(v, length), 128) == Pow2(bit) * Wrap(v, length) == Shl(Wrap(v, length), bit)
  {
    hide Wrap, Pow2, And;
    var low := Wrap(v, length);
    MaskLow(v, length);
    Pow2Mono(length, 128);
    WrapSmall(low, 128);
    ShiftBound(low, length, bit);
    Pow2Mono(bit + length, 128);
    WrapSmall(Pow2(bit) * low, 128);
  }

  lemma MergeRuns(code: seq<Instruction>, bit: nat, length: nat, word: nat, chunk: nat, rest: Stack, memory: Memory, s: State, noise: Noise)
    requires bit + length <= 128 && bit < 128 && word < Pow2(128) && chunk < Pow2(length)
    requires After(code, s, noise) == Running(Push(Shl(chunk, bit), Push(Pow2(length) - 1, Push(word, rest))), memory)
    ensures After(MergeCode(code, bit), s, noise) == Running(Push(InsertBits(word, bit, length, chunk), rest), memory)
  {
    hide After, Wrap, Pow2, With, And, Or, Shl, InsertBits;
    var mask, placed := Pow2(length) - 1, Shl(chunk, bit);
    Appended(code, Exchange(2), s, noise);
    Third(placed, mask, word, rest);
    Appended(code + [Exchange(2)], Exchange(1), s, noise);
    Second(word, mask, Push(placed, rest));
    var ready := code + [Exchange(2)] + [Exchange(1)];
    Immediate(ready, bit, Shl128, s, noise);
    JoinRuns(With(ready, bit, Shl128), bit, length, word, chunk, rest, memory, s, noise);
  }

  lemma JoinRuns(code: seq<Instruction>, bit: nat, length: nat, word: nat, chunk: nat, rest: Stack, memory: Memory, s: State, noise: Noise)
    requires bit + length <= 128 && word < Pow2(128) && chunk < Pow2(length)
    requires After(code, s, noise) ==
             Running(Push(Wrap(Pow2(bit) * (Pow2(length) - 1), 128), Push(word, Push(Shl(chunk, bit), rest))), memory)
    ensures After(code + [Apply1(Not128)] + [Apply2(And128)] + [Apply2(Or128)], s, noise) ==
            Running(Push(InsertBits(word, bit, length, chunk), rest), memory)
  {
    hide After, Wrap, Pow2, And, Or, Shl, InsertBits;
    Appended(code, Apply1(Not128), s, noise);
    Appended(code + [Apply1(Not128)], Apply2(And128), s, noise);
    Appended(code + [Apply1(Not128)] + [Apply2(And128)], Apply2(Or128), s, noise);
    MergeValue(word, bit, length, chunk);
  }

  lemma MergeValue(word: nat, bit: nat, length: nat, chunk: nat)
    requires bit + length <= 128 && word < Pow2(128) && chunk < Pow2(length)
    ensures Wrap(Pow2(bit) * (Pow2(length) - 1), 128) < Pow2(128)
    ensures Wrap(Wrap(Pow2(bit) * (Pow2(length) - 1), 128), 128) == Wrap(Pow2(bit) * (Pow2(length) - 1), 128)
    ensures var clear: nat := Pow2(128) - 1 - Wrap(Pow2(bit) * (Pow2(length) - 1), 128);
            Wrap(Or(Shl(chunk, bit), Wrap(And(word, clear), 128)), 128) == InsertBits(word, bit, length, chunk)
  {
    hide Wrap, Pow2, And, Or, InsertBits;
    var mask := FieldMask(bit, length);
    Pow2Mono(bit + length, 128);
    WrapSmall(mask, 128);
    var cleared := And(word, Not(mask, 128));
    MaskedInsertValue(word, bit, length, chunk, 128);
    ClearedBound(word, bit, length);
    WrapSmall(cleared, 128);
    OrCommutes(Pow2(bit) * chunk, cleared);
    WrapSmall(InsertBits(word, bit, length, chunk), 128);
  }

  lemma ClearedBound(word: nat, bit: nat, length: nat)
    requires bit + length <= 128 && word < Pow2(128)
    ensures FieldMask(bit, length) < Pow2(128) && And(word, Not(FieldMask(bit, length), 128)) < Pow2(128)
  {
    hide Wrap, Pow2, And, Shr, Not, FieldMask;
    ClearedPieces(word, bit, length, 128);
    ClearBound(word, bit, length);
  }

  lemma ClearBound(word: nat, bit: nat, length: nat)
    ensures Wrap(word, bit) + Pow2(bit + length) * Shr(word, bit + length) <= word
  {
    hide Wrap, Pow2, Shr;
    ShrSplit(word, bit + length);
    WrapWrap(word, bit, bit + length);
    WrapBelow(Wrap(word, bit + length), bit);
  }

  /** With the loaded bytes on top of the value, the merge leaves them with the field replaced. */
  lemma MergeFieldRuns(code: seq<Instruction>, bit: nat, length: nat, wide: bool, word: nat, v: nat, rest: Stack, memory: Memory,
                       s: State, noise: Noise)
    requires 0 < length && bit + length <= SlotWidth(wide) && word < Pow2(SlotWidth(wide))
    requires After(code, s, noise) == Running(Push(word, Push(v, rest)), memory)
    ensures After(MergeField(code, bit, length, wide), s, noise) ==
            if wide && length == 128 then Fault else Running(Push(InsertBits(word, bit, length, v), rest), memory)
  {
    hide After, Wrap, Pow2, InsertBits, MaskCode, ChunkCode, MergeCode;
    Appended(code, Exchange(1), s, noise);
    Second(word, v, rest);
    var swapped := code + [Exchange(1)];
    if wide {
      MaskRuns(swapped, length, s, noise);
      if length < 128 {
        var masked := MaskCode(swapped, length);
        ChunkRuns(masked, bit, length, word, v, rest, memory, s, noise);
        MergeRuns(ChunkCode(masked, bit), bit, length, word, Wrap(v, length), rest, memory, s, noise);
        InsertWrapped(word, bit, length, v);
      } else {
        FaultStays(MaskCode(swapped, length), MergeField(code, bit, length, wide), s, noise);
      }
    } else {
      Appended(swapped, Apply2(Insert(bit, length)), s, noise);
      InsertBound(word, bit, length, v, 64);
      WrapSmall(InsertBits(word, bit, length, v), 64);
    }
  }

  /** Code that stores the bytes of a field from a slot. */
  function StoreSlot(code: seq<Instruction>, bits: nat, wide: bool): (r: seq<Instruction>)
    requires bits <= SlotWidth(wide)
    ensures code <= r
  {
    if !wide then
      NativeStore(code, bits)
    else if DigitCount(bits) * 8 <= 64 then
      NativeStore(code + [Apply1(Lower128)], bits)
    else
      var lower := NativeStore(code + [Pick(0)] + [Apply1(Lower128)] + [Pick(2)] + [Exchange(1)], 64);
      NativeStore(With(lower + [Apply1(Upper128)] + [Exchange(1)], 8, Add64) + [Exchange(1)], bits - 64)
  }

  lemma StoreSlotRuns(code: seq<Instruction>, bits: nat, wide: bool, v: nat, a: nat, rest: Stack, memory: Memory, s: State, noise: Noise)
    requires 0 < bits <= SlotWidth(wide) && v < Pow2(SlotWidth(wide)) && a + DigitCount(bits) <= Pow2(64)
    requires After(code, s, noise) == Running(Push(v, Push(a, rest)), memory)
    ensures After(StoreSlot(code, bits, wide), s, noise) == Stored(Running(Push(v, Push(a, rest)), memory), DigitCount(bits))
  {
    hide After, Wrap, Pow2, Mapped, StoreWord, NativeStore, With;
    if !wide {
      NativeStoreRuns(code, bits, s, noise);
    } else if bits <= 64 {
      Appended(code, Apply1(Lower128), s, noise);
      NativeStoreRuns(code + [Apply1(Lower128)], bits, s, noise);
      StoreLower(memory, a, DigitCount(bits), v);
    } else {
      LowerStoreRuns(code, v, a, rest, memory, s, noise);
      var start := code + [Pick(0)] + [Apply1(Lower128)] + [Pick(2)] + [Exchange(1)];
      UpperHalfRuns(NativeStore(start, 64), bits - 64, v, a, rest, memory, s, noise);
    }
  }

  lemma LowerStoreRuns(code: seq<Instruction>, v: nat, a: nat, rest: Stack, memory: Memory, s: State, noise: Noise)
    requires a + 8 <= Pow2(64)
    requires After(code, s, noise) == Running(Push(v, Push(a, rest)), memory)
    ensures After(NativeStore(code + [Pick(0)] + [Apply1(Lower128)] + [Pick(2)] + [Exchange(1)], 64), s, noise) ==
            if Mapped(memory, a, 8) then Running(Push(v, Push(a, rest)), StoreWord(memory, a, 8, Wrap(v, 64))) else Fault
  {
    hide After, Wrap, Pow2, Mapped, StoreWord, NativeStore;
    Appended(code, Pick(0), s, noise);
    var c1 := code + [Pick(0)];
    Appended(c1, Apply1(Lower128), s, noise);
    var c2 := c1 + [Apply1(Lower128)];
    Appended(c2, Pick(2), s, noise);
    Third(Wrap(v, 64), v, a, rest);
    Appended(c2 + [Pick(2)], Exchange(1), s, noise);
    Second(a, Wrap(v, 64), Push(v, Push(a, rest)));
    NativeStoreRuns(c2 + [Pick(2)] + [Exchange(1)], 64, s, noise);
  }

  lemma UpperHalfRuns(code: seq<Instruction>, bits: nat, v: nat, a: nat, rest: Stack, memory: Memory, s: State, noise: Noise)
    requires 0 < bits <= 64 && v < Pow2(128) && a + 8 + DigitCount(bits) <= Pow2(64)
    requires After(code, s, noise) ==
             if Mapped(memory, a, 8) then Running(Push(v, Push(a, rest)), StoreWord(memory, a, 8, Wrap(v, 64))) else Fault
    ensures After(NativeStore(With(code + [Apply1(Upper128)] + [Exchange(1)], 8, Add64) + [Exchange(1)], bits), s, noise) ==
            Stored(Running(Push(v, Push(a, rest)), memory), 8 + DigitCount(bits))
  {
    hide After, Wrap, Pow2, Mapped, StoreWord, NativeStore, With;
    ShrNat(v, 64);
    HalvesStored(memory, a, DigitCount(bits), v);
    var moved := With(code + [Apply1(Upper128)] + [Exchange(1)], 8, Add64) + [Exchange(1)];
    UpperReady(code, v, a, rest, s, noise);
    if Mapped(memory, a, 8) {
      NativeStoreRuns(moved, bits, s, noise);
    } else {
      FaultStays(moved, NativeStore(moved, bits), s, noise);
    }
  }

  lemma UpperReady(code: seq<Instruction>, v: nat, a: nat, rest: Stack, s: State, noise: Noise)
    requires a + 9 <= Pow2(64)
    requires var r := After(code, s, noise); r.Running? ==> r.stack == Push(v, Push(a, rest))
    ensures 0 <= Shr(v, 64)
    ensures var r := After(code, s, noise);
            After(With(code + [Apply1(Upper128)] + [Exchange(1)], 8, Add64) + [Exchange(1)], s, noise) ==
            if r.Fault? then Fault else r.(stack := Push(Wrap(Shr(v, 64), 64), Push(a + 8, rest)))
  {
    hide After, Wrap, Pow2, With, Shr;
    ShrNat(v, 64);
    var hi := Wrap(Shr(v, 64), 64);
    Appended(code, Apply1(Upper128), s, noise);
    Appended(code + [Apply1(Upper128)], Exchange(1), s, noise);
    Second(hi, a, rest);
    var swapped := code + [Apply1(Upper128)] + [Exchange(1)];
    AddOffset(swapped, 8, s, noise);
    Appended(With(swapped, 8, Add64), Exchange(1), s, noise);
    Second(a + 8, hi, rest);
  }

  lemma StoreLower(memory: Memory, a: nat, n: nat, v: nat)
    requires n <= 8
    ensures StoreWord(memory, a, n, Wrap(v, 64)) == StoreWord(memory, a, n, v)
  {
    hide Wrap, Pow2, StoreWord;
    WrapWrap(v, 8 * n, 64);
    StoreSame(memory, a, n, Wrap(v, 64), v);
  }

  /** A store depends on the stored bits only. */
  lemma StoreSame(memory: Memory, a: nat, n: nat, v: nat, u: nat)
    requires Wrap(v, 8 * n) == Wrap(u, 8 * n)
    ensures StoreWord(memory, a, n, v) == StoreWord(memory, a, n, u)
  {
    hide Wrap, Pow2, Byte;
    forall i: nat | i < n
      ensures Byte(v, i) == Byte(u, i)
    {
      ByteOfWord(v, n, i);
      ByteOfWord(u, n, i);
    }
  }

  lemma ByteOfWord(v: nat, n: nat, i: nat)
    requires i < n
    ensures Byte(v, i) == Byte(Wrap(v, 8 * n), i)
  {
    hide Wrap, Pow2, Shr;
    ShrWrap(v, 8 * i, 8 * (n - i));
    WrapWrap(Shr(v, 8 * i), 8, 8 * (n - i));
  }

  /** Storing eight bytes and then the rest above them is one store. */
  lemma HalvesStored(memory: Memory, a: nat, n: nat, v: nat)
    requires n <= 8
    ensures 0 <= Shr(v, 64)
    ensures Mapped(memory, a, 8 + n) <==> Mapped(memory, a, 8) && Mapped(StoreWord(memory, a, 8, Wrap(v, 64)), a + 8, n)
    ensures StoreWord(StoreWord(memory, a, 8, Wrap(v, 64)), a + 8, n, Wrap(Shr(v, 64), 64)) == StoreWord(memory, a, 8 + n, v)
  {
    hide Wrap, Pow2, Shr, StoreWord, Mapped;
    ShrNat(v, 64);
    StoreLower(memory, a, 8, v);
    StoreLower(StoreWord(memory, a, 8, v), a + 8, n, Shr(v, 64));
    StoreJoin(memory, a, 8, n, v);
    HalvesMapped(memory, a, n, v);
  }

  lemma HalvesMapped(memory: Memory, a: nat, n: nat, v: nat)
    ensures Mapped(memory, a, 8 + n) <==> Mapped(memory, a, 8) && Mapped(StoreWord(memory, a, 8, v), a + 8, n)
  {
    hide StoreWord;
  }

  /** Writes a field: loads its bytes, merges the value in and stores the bytes back. */
  function WriteField(code: seq<Instruction>, offset: nat, length: nat, wide: bool, precise: bool): (r: seq<Instruction>)
    requires offset % 8 + length <= SlotWidth(wide)
    ensures code <= r
  {
    var bit := offset % 8;
    var merged := MergeField(LoadField(code + [Pick(1)], offset / 8, bit + length, wide, precise), bit, length, wide);
    StoreSlot(With(merged + [Exchange(1)], offset / 8, Add64) + [Exchange(1)], bit + length, wide)
  }

  /** The memory with the field replaced: only the bytes it overlaps are written. */
  ghost function FieldReplaced(memory: Memory, address: nat, offset: nat, length: nat, v: nat): Memory
    requires Mapped(memory, address + offset / 8, DigitCount(offset % 8 + length))
  {
    var n := DigitCount(offset % 8 + length);
    var a := address + offset / 8;
    StoreWord(memory, a, n, InsertBits(LoadWord(memory, a, n), offset % 8, length, v))
  }

  /** Value and address popped, the field replaced. */
  ghost function FieldWritten(s: State, offset: nat, length: nat, precise: bool): State
    requires s.Running? && s.stack.Push? && s.stack.rest.Push? && 0 < length && offset % 8 + length <= 128
  {
    var bits, a := offset % 8 + length, s.stack.rest.top;
    if Mapped(s.memory, a + offset / 8, FieldSpan(bits, precise)) then
      FieldSpanMapped(s.memory, a + offset / 8, bits, precise);
      Running(s.stack.rest.rest, FieldReplaced(s.memory, a, offset, length, s.stack.top))
    else
      Fault
  }

  lemma InsertLow(x: nat, offset: nat, length: nat, v: nat, k: nat)
    requires offset + length <= k
    ensures Wrap(InsertBits(x, offset, length, v), k) == InsertBits(Wrap(x, k), offset, length, v)
  {
    hide Wrap, Pow2, Shr, InsertBits;
    var y := Wrap(InsertBits(x, offset, length, v), k);
    var z := InsertBits(x, offset, length, v);
    InsertParts(x, offset, length, v);
    ExtractLow(z, offset, length, k);
    WrapWrap(z, offset, k);
    WrapWrap(x, offset, k);
    ShrWrap(z, offset + length, k - (offset + length));
    ShrWrap(x, offset + length, k - (offset + length));
    InsertUnique(Wrap(x, k), y, offset, length, v);
  }

  /** Merging into a longer span stores the same bytes. */
  lemma StoreMerged(memory: Memory, a: nat, offset: nat, length: nat, v: nat, m: nat, n: nat)
    requires n <= m && offset + length <= 8 * n && Mapped(memory, a, m)
    ensures Mapped(memory, a, n)
    ensures StoreWord(memory, a, n, InsertBits(LoadWord(memory, a, m), offset, length, v)) ==
            StoreWord(memory, a, n, InsertBits(LoadWord(memory, a, n), offset, length, v))
  {
    hide Wrap, Pow2, LoadWord, StoreWord, InsertBits;
    WordSplit(memory, a, n, m - n);
    WordBound(memory, a, n);
    var x, lo := LoadWord(memory, a, m), LoadWord(memory, a, n);
    WrapShift(lo, LoadWord(memory, a + n, m - n), 8 * n);
    WrapSmall(lo, 8 * n);
    InsertLow(x, offset, length, v, 8 * n);
    InsertLow(lo, offset, length, v, 8 * n);
    StoreSame(memory, a, n, InsertBits(x, offset, length, v), InsertBits(lo, offset, length, v));
  }

  lemma SpanFits(memory: Memory, a: nat, bits: nat, wide: bool, precise: bool)
    requires 0 < bits <= SlotWidth(wide) && Mapped(memory, a, FieldSpan(bits, precise))
    ensures LoadWord(memory, a, FieldSpan(bits, precise)) < Pow2(SlotWidth(wide))
  {
    hide LoadWord, Pow2, Mapped;
    WordBound(memory, a, FieldSpan(bits, precise));
    FieldSpanCovers(bits, precise);
    if bits <= 64 {
      SpanCovers(bits, precise);
    }
    Pow2Mono(8 * FieldSpan(bits, precise), SlotWidth(wide));
  }

  lemma MoveBelow(code: seq<Instruction>, k: nat, v: nat, a: nat, rest: Stack, memory: Memory, s: State, noise: Noise)
    requires After(code, s, noise) == Running(Push(v, Push(a, rest)), memory) && a + k < Pow2(64)
    ensures After(With(code + [Exchange(1)], k, Add64) + [Exchange(1)], s, noise) == Running(Push(v, Push(a + k, rest)), memory)
  {
    hide After, Wrap, Pow2, With;
    Appended(code, Exchange(1), s, noise);
    Second(v, a, rest);
    AddOffset(code + [Exchange(1)], k, s, noise);
    Appended(With(code + [Exchange(1)], k, Add64), Exchange(1), s, noise);
    Second(a + k, v, rest);
  }

  /** A write replaces the field and nothing else. */
  lemma WriteFieldRuns(code: seq<Instruction>, offset: nat, length: nat, wide: bool, precise: bool, s: State, noise: Noise)
    requires 0 < length && offset % 8 + length <= SlotWidth(wide) && length < 128
    requires var r := After(code, s, noise);
             r.Running? && r.stack.Push? && r.stack.rest.Push? &&
             r.stack.rest.top + offset / 8 + FieldSpan(offset % 8 + length, precise) <= Pow2(64)
    ensures After(WriteField(code, offset, length, wide, precise), s, noise) ==
            FieldWritten(After(code, s, noise), offset, length, precise)
  {
    hide After, Pow2, Mapped, LoadWord, FieldReplaced, LoadField, MergeField, StoreSlot, With;
    var r, bits := After(code, s, noise), offset % 8 + length;
    var v, a, rest, memory := r.stack.top, r.stack.rest.top, r.stack.rest.rest, r.memory;
    Appended(code, Pick(1), s, noise);
    Second(v, a, rest);
    LoadFieldRuns(code + [Pick(1)], offset / 8, bits, wide, precise, s, noise);
    var loaded := LoadField(code + [Pick(1)], offset / 8, bits, wide, precise);
    if Mapped(memory, a + offset / 8, FieldSpan(bits, precise)) {
      FieldSpanMapped(memory, a + offset / 8, bits, precise);
      MergedRuns(loaded, offset, length, wide, precise, v, a, rest, memory, s, noise);
    } else {
      FaultStays(loaded, WriteField(code, offset, length, wide, precise), s, noise);
    }
  }

  /** From the loaded bytes on: merge, bring the address back and store. */
  lemma MergedRuns(loaded: seq<Instruction>, offset: nat, length: nat, wide: bool, precise: bool, v: nat, a: nat, rest: Stack,
                   memory: Memory, s: State, noise: Noise)
    requires 0 < length && offset % 8 + length <= SlotWidth(wide) && length < 128
    requires a + offset / 8 + FieldSpan(offset % 8 + length, precise) <= Pow2(64)
    requires Mapped(memory, a + offset / 8, FieldSpan(offset % 8 + length, precise))
    requires Mapped(memory, a + offset / 8, DigitCount(offset % 8 + length))
    requires After(loaded, s, noise) ==
             Running(Push(LoadWord(memory, a + offset / 8, FieldSpan(offset % 8 + length, precise)), Push(v, Push(a, rest))), memory)
    ensures var merged := MergeField(loaded, offset % 8, length, wide);
            After(StoreSlot(With(merged + [Exchange(1)], offset / 8, Add64) + [Exchange(1)], offset % 8 + length, wide), s, noise) ==
            Running(rest, FieldReplaced(memory, a, offset, length, v))
  {
    hide After, Pow2, Mapped, LoadWord, StoreWord, InsertBits, MergeField, StoreSlot, With, FieldSpan;
    var bit, bits, at := offset % 8, offset % 8 + length, a + offset / 8;
    var m, n := FieldSpan(bits, precise), DigitCount(bits);
    var word := LoadWord(memory, at, m);
    FieldSpanCovers(bits, precise);
    SpanFits(memory, at, bits, wide, precise);
    MergeFieldRuns(loaded, bit, length, wide, word, v, Push(a, rest), memory, s, noise);
    var merged, joined := MergeField(loaded, bit, length, wide), InsertBits(word, bit, length, v);
    InsertBound(word, bit, length, v, SlotWidth(wide));
    MoveBelow(merged, offset / 8, joined, a, rest, memory, s, noise);
    StoreSlotRuns(With(merged + [Exchange(1)], offset / 8, Add64) + [Exchange(1)], bits, wide, joined, at, rest, memory, s, noise);
    StoreMerged(memory, at, bit, length, v, m, n);
  }
}
