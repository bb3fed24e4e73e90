/** The stack machine that the AST translator emits code for: little-endian byte memory, 64-bit and
    128-bit slots, and loads that leave the bits above the loaded bytes undefined. */
module StackMachine {
  import opened Powers
  import opened Bitwise
  import opened Digits
  import opened BitRange
  import opened Cast

  // ----- memory -----

  /** Only mapped bytes may be touched. */
  type Memory = map<nat, Digit>

  ghost predicate Mapped(memory: Memory, address: nat, n: nat) {
    forall i | address <= i < address + n :: i in memory
  }

  ghost function Bytes(memory: Memory, address: nat, n: nat): (s: seq<Digit>)
    requires Mapped(memory, address, n)
    ensures |s| == n && forall i | 0 <= i < n :: s[i] == memory[address + i]
  {
    seq(n, i requires 0 <= i < n => memory[address + i])
  }

  ghost function LoadWord(memory: Memory, address: nat, n: nat): (v: nat)
    requires Mapped(memory, address, n)
  {
    Num(Bytes(memory, address, n), n)
  }

  function Byte(v: nat, i: nat): (d: Digit) {
    ExtractByte(v, i);
    Wrap(Shr(v, 8 * i), 8)
  }

  lemma ExtractByte(v: nat, i: nat)
    ensures 0 <= Wrap(Shr(v, 8 * i), 8) < 256
  {
    hide Shr, Pow2;
    Pow2Bytes();
  }

  /** The lower n bytes of v written from the address on. */
  function StoreWord(memory: Memory, address: nat, n: nat, v: nat): (after: Memory)
    ensures forall k: nat :: k in after <==> k in memory || address <= k < address + n
    ensures forall k: nat | k in after :: after[k] == if address <= k < address + n then Byte(v, k - address) else memory[k]
  {
    if n == 0 then memory else StoreWord(memory, address, n - 1, v)[address + n - 1 := Byte(v, n - 1)]
  }

  lemma WordBound(memory: Memory, address: nat, n: nat)
    requires Mapped(memory, address, n)
    ensures LoadWord(memory, address, n) < Pow2(8 * n)
  {
    NumBound(Bytes(memory, address, n), n);
  }

  lemma WordSplit(memory: Memory, address: nat, i: nat, j: nat)
    requires Mapped(memory, address, i + j)
    ensures Mapped(memory, address, i) && Mapped(memory, address + i, j)
    ensures LoadWord(memory, address, i + j) == LoadWord(memory, address, i) + Pow2(8 * i) * LoadWord(memory, address + i, j)
  {
    hide Num, Pow2;
    var s := Bytes(memory, address, i + j);
    NumSplitSum(s, i, i + j);
    NumEqual(s, Bytes(memory, address, i), i);
    NumEqual(s[i..], Bytes(memory, address + i, j), j);
  }

  lemma WordSame(memory: Memory, after: Memory, address: nat, n: nat)
    requires Mapped(memory, address, n) && Mapped(after, address, n)
    requires forall i | address <= i < address + n :: memory[i] == after[i]
    ensures LoadWord(memory, address, n) == LoadWord(after, address, n)
  {
    NumEqual(Bytes(memory, address, n), Bytes(after, address, n), n);
  }

  lemma LoadNothing(memory: Memory, address: nat)
    ensures LoadWord(memory, address, 0) == 0
  {
  }

  lemma LoadByte(memory: Memory, address: nat)
    requires address in memory
    ensures Mapped(memory, address, 1) && LoadWord(memory, address, 1) == memory[address]
  {
    NumStep(Bytes(memory, address, 1), 0);
    Pow2Bytes();
  }

  /** Reading back what was written. */
  lemma {:induction false} LoadStored(memory: Memory, address: nat, n: nat, v: nat)
    ensures Mapped(StoreWord(memory, address, n, v), address, n)
    ensures LoadWord(StoreWord(memory, address, n, v), address, n) == Wrap(v, 8 * n)
  {
    hide Num, Pow2, Wrap, Shr, LoadWord;
    var after := StoreWord(memory, address, n, v);
    if n == 0 {
      WrapNothing(v);
      LoadNothing(after, address);
    } else {
      LoadStored(memory, address, n - 1, v);
      WordSame(StoreWord(memory, address, n - 1, v), after, address, n - 1);
      WordSplit(after, address, n - 1, 1);
      LoadByte(after, address + n - 1);
      WrapPieces(v, 8 * (n - 1), 8);
    }
  }

  /** Writing the upper bytes first and the lower ones after is one write. */
  lemma StoreSplit(memory: Memory, address: nat, i: nat, j: nat, v: nat)
    ensures 0 <= Shr(v, 8 * i)
    ensures StoreWord(StoreWord(memory, address + i, j, Shr(v, 8 * i)), address, i, v) == StoreWord(memory, address, i + j, v)
  {
    hide Pow2, Wrap, Shr;
    ShrNat(v, 8 * i);
    forall k: nat | k < j
      ensures Byte(Shr(v, 8 * i), k) == Byte(v, i + k)
    {
      ShrShr(v, 8 * i, 8 * k);
    }
  }

  /** So is writing the lower ones first. */
  lemma StoreJoin(memory: Memory, address: nat, i: nat, j: nat, v: nat)
    ensures 0 <= Shr(v, 8 * i)
    ensures StoreWord(StoreWord(memory, address, i, v), address + i, j, Shr(v, 8 * i)) == StoreWord(memory, address, i + j, v)
  {
    hide Pow2, Wrap, Shr;
    ShrNat(v, 8 * i);
    forall k: nat | k < j
      ensures Byte(Shr(v, 8 * i), k) == Byte(v, i + k)
    {
      ShrShr(v, 8 * i, 8 * k);
    }
  }

  // ----- instructions -----

  datatype Unary =
    | ZeroExtend128
    | Lower128
    | Upper128
    | Not128
    | ExtractSigned(offset: nat, length: nat)
    | ExtractUnsigned(offset: nat, length: nat)

  datatype Binary =
    | Add64
    | And64
    | Or64
    | Shl64
    | Shr64
    | Insert(offset: nat, length: nat)
    | From128
    | Sub128
    | And128
    | Or128
    | Shl128
    | Shr128
    | Sar128

  /** Conversions between slots of 64 bits, 128 bits and bit-precise integers of any width. */
  datatype Conversion =
    | SignExtend(bits: nat)
    | SignExtend128
    | Truncate64
    | GetSigned(width: nat)
    | GetUnsigned(width: nat)
    | FromSigned(width: nat)
    | FromUnsigned(width: nat)
    | CastSigned(target: nat, origin: nat)
    | CastUnsigned(target: nat, origin: nat)

  datatype Instruction =
    | Const(value: nat)
    | Pick(depth: nat)
    | Exchange(depth: nat)
    | Load(bytes: nat)
    | Store(bytes: nat)
    | Apply1(unary: Unary)
    | Apply2(binary: Binary)
    | Convert(conversion: Conversion)

  datatype Stack = Empty | Push(top: nat, rest: Stack)

  datatype State = Fault | Running(stack: Stack, memory: Memory)

  /** The field of a value, as a number of the given width. */
  function Widened(field: nat, length: nat, signed: bool, width: nat): nat {
    Wrap(if signed then ToSigned(field, length) else field, width)
  }

  function Evaluate1(op: Unary, x: nat): nat {
    match op
    case ZeroExtend128 => Wrap(x, 64)
    case Lower128 => Wrap(x, 64)
    case Upper128 => Wrap(Shr(x, 64), 64)
    case Not128 => Pow2(128) - 1 - Wrap(x, 128)
    case ExtractSigned(offset, length) => Widened(ExtractBits(x, offset, length), length, true, 64)
    case ExtractUnsigned(offset, length) => Widened(ExtractBits(x, offset, length), length, false, 64)
  }

  /** The number in the lower bits of a slot, read as a number with or without sign. */
  function Reading(x: nat, width: nat, signed: bool): int {
    if signed then ToSigned(Wrap(x, width), width) else Wrap(x, width)
  }

  /** A number put into the lower bits of a slot; the bits above are whatever the noise gives. */
  function Slotted(x: int, width: nat, noise: nat): (r: nat) {
    Wrap(x, width) + Shl(noise, width)
  }

  function Converted(op: Conversion, x: nat, noise: nat): nat {
    match op
    case SignExtend(bits) => Wrap(Reading(x, bits, true), 64)
    case SignExtend128 => Wrap(Reading(x, 64, true), 128)
    case Truncate64 => Wrap(x, 64)
    case GetSigned(width) => Wrap(Reading(x, Narrower(width, 64), true), 64)
    case GetUnsigned(width) => Wrap(Reading(x, Narrower(width, 64), false), 64)
    case FromSigned(width) => Slotted(Reading(x, 64, true), width, noise)
    case FromUnsigned(width) => Slotted(Reading(x, 64, false), width, noise)
    case CastSigned(target, origin) => Slotted(Reading(x, origin, true), target, noise)
    case CastUnsigned(target, origin) => Slotted(Reading(x, origin, false), target, noise)
  }

  /** A shift is defined when it is by less than the width. */
  predicate Defined(op: Binary, y: nat) {
    match op
    case Shl64 => y < 64
    case Shr64 => y < 64
    case Shl128 => y < 128
    case Shr128 => y < 128
    case Sar128 => y < 128
    case _ => true
  }

  /** x is below y on the stack. */
  function Evaluate2(op: Binary, x: nat, y: nat): (r: nat) {
    match op
    case Add64 => Wrap(x + y, 64)
    case And64 => Wrap(And(x, y), 64)
    case Or64 => Wrap(Or(x, y), 64)
    case Shl64 => Wrap(Pow2(y) * x, 64)
    case Shr64 => ShrNat(Wrap(x, 64), y); Shr(Wrap(x, 64), y)
    case Insert(offset, length) => Wrap(InsertBits(x, offset, length, y), 64)
    case From128 => Wrap(x, 64) + Pow2(64) * Wrap(y, 64)
    case Sub128 => Wrap(x - y, 128)
    case And128 => Wrap(And(x, y), 128)
    case Or128 => Wrap(Or(x, y), 128)
    case Shl128 => Wrap(Pow2(y) * x, 128)
    case Shr128 => ShrNat(Wrap(x, 128), y); Shr(Wrap(x, 128), y)
    case Sar128 => Wrap(Shr(ToSigned(Wrap(x, 128), 128), y), 128)
  }

  function Depth(stack: Stack): nat {
    match stack
    case Empty => 0
    case Push(_, rest) => 1 + Depth(rest)
  }

  function Peek(stack: Stack, depth: nat): nat
    requires depth < Depth(stack)
  {
    if depth == 0 then stack.top else Peek(stack.rest, depth - 1)
  }

  function Replace(stack: Stack, depth: nat, x: nat): Stack
    requires depth < Depth(stack)
  {
    if depth == 0 then Push(x, stack.rest) else Push(stack.top, Replace(stack.rest, depth - 1, x))
  }

  function Exchanged(stack: Stack, depth: nat): Stack
    requires depth < Depth(stack)
  {
    if depth == 0 then stack else Push(Peek(stack, depth), Replace(stack.rest, depth - 1, stack.top))
  }

  lemma Second(x: nat, y: nat, rest: Stack)
    ensures var st := Push(x, Push(y, rest));
            Depth(st) == 2 + Depth(rest) && Peek(st, 1) == y && Exchanged(st, 1) == Push(y, Push(x, rest))
  {
    assert Depth(Push(y, rest)) == 1 + Depth(rest);
  }

  lemma Third(x: nat, y: nat, z: nat, rest: Stack)
    ensures var st := Push(x, Push(y, Push(z, rest)));
            Depth(st) == 3 + Depth(rest) && Peek(st, 2) == z && Exchanged(st, 2) == Push(z, Push(y, Push(x, rest)))
  {
    Second(y, z, rest);
    assert Replace(Push(y, Push(z, rest)), 1, x) == Push(y, Replace(Push(z, rest), 0, x));
  }

  ghost function Step(i: Instruction, s: State, noise: nat): State {
    if s.Fault? then
      Fault
    else
      match i
      case Const(v) => s.(stack := Push(v, s.stack))
      case Pick(n) => if n < Depth(s.stack) then s.(stack := Push(Peek(s.stack, n), s.stack)) else Fault
      case Exchange(n) => if n < Depth(s.stack) then s.(stack := Exchanged(s.stack, n)) else Fault
      case Load(n) =>
        if s.stack.Push? && Mapped(s.memory, s.stack.top, n) then
          s.(stack := Push(Loaded(LoadWord(s.memory, s.stack.top, n), n, noise), s.stack.rest))
        else
          Fault
      case Store(n) =>
        if s.stack.Push? && s.stack.rest.Push? && Mapped(s.memory, s.stack.rest.top, n) then
          Running(s.stack.rest.rest, StoreWord(s.memory, s.stack.rest.top, n, s.stack.top))
        else
          Fault
      case Apply1(op) =>
        if s.stack.Push? then s.(stack := Push(Evaluate1(op, s.stack.top), s.stack.rest)) else Fault
      case Convert(op) =>
        if s.stack.Push? then s.(stack := Push(Converted(op, s.stack.top, noise), s.stack.rest)) else Fault
      case Apply2(op) =>
        if s.stack.Push? && s.stack.rest.Push? && Defined(op, s.stack.top) then
          s.(stack := Push(Evaluate2(op, s.stack.rest.top, s.stack.top), s.stack.rest.rest))
        else
          Fault
  }

  /** The bits above the loaded bytes are whatever the noise gives. */
  function Loaded(v: nat, n: nat, noise: nat): nat {
    Wrap(v + Pow2(8 * n) * noise, 64)
  }

  /** What each instruction of a straight-line block finds in the bits its load leaves undefined. */
  type Noise = nat -> nat

  /** The state after running the code from its start. */
  ghost function After(code: seq<Instruction>, s: State, noise: Noise): State {
    if code == [] then
      s
    else
      Step(code[|code| - 1], After(code[..|code| - 1], s, noise), noise(|code| - 1))
  }

  lemma Appended(code: seq<Instruction>, i: Instruction, s: State, noise: Noise)
    ensures After(code + [i], s, noise) == Step(i, After(code, s, noise), noise(|code|))
  {
    assert (code + [i])[..|code|] == code;
  }

  lemma {:induction false} FaultStays(code: seq<Instruction>, longer: seq<Instruction>, s: State, noise: Noise)
    requires code <= longer && After(code, s, noise) == Fault
    ensures After(longer, s, noise) == Fault
    decreases |longer|
  {
    if |code| < |longer| {
      FaultStays(code, longer[..|longer| - 1], s, noise);
    } else {
      assert code == longer;
    }
  }

  /** The masks of one, two and four bytes, as the emitters spell them. */
  lemma Masks()
    ensures Pow2(8) - 1 == 0xff && Pow2(16) - 1 == 0xffff && Pow2(32) - 1 == 0xffff_ffff
  {
    Pow2Bytes();
    Pow2Words();
  }

  // ----- the block being built -----

  class Builder {
    var code: seq<Instruction>

    constructor ()
      ensures code == []
    {
      code := [];
    }

    method Append(i: Instruction)
      modifies this
      ensures code == old(code) + [i]
    {
      code := code + [i];
    }
  }
}
