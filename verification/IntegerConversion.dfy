/** Integer conversions (ast-translator/typeconv.c): the emitted code and what it preserves. */
module IntegerConversion {
  import opened Powers
  import opened Bitwise
  import opened Digits
  import opened StackMachine
  import opened BitField

  datatype IntType = Int8 | Int16 | Int32 | Int64 | Int128 | BitInt(width: nat) {
    function Width(): nat {
      match this
      case Int8 => 8
      case Int16 => 16
      case Int32 => 32
      case Int64 => 64
      case Int128 => 128
      case BitInt(w) => w
    }

    predicate Native() {
      !Int128? && !BitInt?
    }
  }

  // ----- the emitted code -----

  /** Extends a native value to the whole 64-bit slot. */
  function Extend64(code: seq<Instruction>, bits: nat, signed: bool): seq<Instruction> {
    if bits >= 64 then code
    else if signed then code + [Convert(SignExtend(bits))]
    else With(code, Pow2(bits) - 1, And64)
  }

  function ConversionCode(code: seq<Instruction>, origin: IntType, signed: bool, target: IntType): seq<Instruction> {
    match target
    case Int128 =>
      if origin.Int128? then code
      else if origin.BitInt? then code + [Convert(if signed then CastSigned(128, origin.width) else CastUnsigned(128, origin.width))]
      else if signed then Extend64(code, origin.Width(), true) + [Convert(SignExtend128)]
      else Extend64(code, origin.Width(), false) + [Apply1(ZeroExtend128)]
    case BitInt(w) =>
      if origin.Int128? then code + [Convert(if signed then CastSigned(w, 128) else CastUnsigned(w, 128))]
      else if origin.BitInt? then code + [Convert(if signed then CastSigned(w, origin.width) else CastUnsigned(w, origin.width))]
      else Extend64(code, origin.Width(), signed) + [Convert(if signed then FromSigned(w) else FromUnsigned(w))]
    case _ =>
      if origin.Int128? then code + [Convert(Truncate64)]
      else if origin.BitInt? then code + [Convert(if signed then GetSigned(origin.width) else GetUnsigned(origin.width))]
      else if origin.Width() < target.Width() then Extend64(code, origin.Width(), signed)
      else code
  }

  // ----- what it preserves -----

  /** The state with the top slot replaced by one that holds the number in its lower bits. */
  ghost predicate Holds(before: State, after: State, x: int, width: nat) {
    before.Running? && before.stack.Push? &&
    after.Running? && after.stack.Push? && after.memory == before.memory && after.stack.rest == before.stack.rest &&
    Wrap(after.stack.top, width) == Wrap(x, width)
  }

  lemma ReadingWraps(x: nat, width: nat, signed: bool, narrow: nat)
    requires narrow <= width
    ensures Wrap(Reading(x, width, signed), narrow) == Wrap(x, narrow)
  {
    hide Pow2, Wrap, ToSigned;
    SignedRange(Wrap(x, width), width);
    WrapWrap(x, narrow, width);
    if signed {
      SignedCongruent(Wrap(x, width), width, narrow);
    }
  }

  lemma SignedCongruent(v: nat, width: nat, narrow: nat)
    requires v < Pow2(width) && narrow <= width
    ensures Wrap(ToSigned(v, width), narrow) == Wrap(v, narrow)
  {
    hide Pow2, Wrap;
    var x := ToSigned(v, width);
    if x != v {
      Pow2Sub(width, narrow);
      WrapShift(x, Pow2(width - narrow), narrow);
    }
  }

  lemma SlottedHolds(x: int, width: nat, noise: nat)
    ensures Wrap(Slotted(x, width, noise), width) == Wrap(x, width)
  {
    hide Pow2, Wrap;
    WrapShift(Wrap(x, width), noise, width);
    WrapWrap(x, width, width);
  }

  /** The bit-precise reads give the number's lower 64 bits; for a narrower number all of it. */
  lemma GetHolds(x: nat, width: nat, signed: bool, target: nat)
    requires target <= 64
    ensures Wrap(Wrap(Reading(x, Cast.Narrower(width, 64), signed), 64), target) == Wrap(Reading(x, width, signed), target)
  {
    hide Pow2, Wrap, Reading;
    var v := Cast.Narrower(width, 64);
    WrapWrap(Reading(x, v, signed), target, 64);
    if width > 64 {
      ReadingWraps(x, width, signed, target);
      ReadingWraps(x, 64, signed, target);
    }
  }

  /** Reading a slot that holds a 64-bit wrap of a number of fewer bits gives the number. */
  lemma ReadingOf(x: int, bits: nat, signed: bool)
    requires if signed then FitsSigned(x, bits) else 0 <= x < Pow2(bits)
    ensures Reading(Wrap(x, bits), bits, signed) == x
  {
    hide Pow2, Wrap, ToSigned;
    WrapWrap(x, bits, bits);
    if signed {
      SignedWrap(x, bits);
    } else {
      WrapSmall(x, bits);
    }
  }

  lemma ReadingFits(x: nat, bits: nat, signed: bool)
    requires 0 < bits <= 64
    ensures if signed then FitsSigned(Reading(x, bits, true), 64) else 0 <= Reading(x, bits, false) < Pow2(64)
  {
    hide Pow2, Wrap, ToSigned;
    SignedRange(Wrap(x, bits), bits);
    Pow2Mono(bits, 64);
    Pow2Mono(bits - 1, 63);
  }

  /** After extension the whole slot reads as the number. */
  lemma Extend64Runs(code: seq<Instruction>, bits: nat, signed: bool, s: State, noise: Noise)
    requires 0 < bits <= 64
    requires var r := After(code, s, noise); r.Running? && r.stack.Push?
    ensures var r, q := After(code, s, noise), After(Extend64(code, bits, signed), s, noise);
            Holds(r, q, Reading(r.stack.top, bits, signed), 64) && Reading(q.stack.top, 64, signed) == Reading(r.stack.top, bits, signed)
  {
    hide After, Pow2, Wrap, With, Reading, And;
    var r := After(code, s, noise);
    var x := r.stack.top;
    var y := Reading(x, bits, signed);
    ReadingFits(x, bits, signed);
    ReadingOf(y, 64, signed);
    if bits >= 64 {
      ReadingWraps(x, 64, signed, 64);
    } else if signed {
      Appended(code, Convert(SignExtend(bits)), s, noise);
      WrapWrap(y, 64, 64);
    } else {
      Immediate(code, Pow2(bits) - 1, And64, s, noise);
      MaskLow(x, bits);
      UnsignedReading(x, bits);
      WrapWrap(y, 64, 64);
    }
    ReadingWhole(After(Extend64(code, bits, signed), s, noise).stack.top, y, signed);
  }

  lemma UnsignedReading(x: nat, bits: nat)
    ensures Reading(x, bits, false) == Wrap(x, bits)
  {
  }

  lemma ReadingWhole(x: nat, y: int, signed: bool)
    requires Wrap(x, 64) == Wrap(y, 64)
    ensures Reading(x, 64, signed) == Reading(Wrap(y, 64), 64, signed)
  {
    hide Pow2;
    WrapWrap(y, 64, 64);
  }

  /** The emitted code leaves the origin value, modulo 2 to the target width, in the target's lower bits
      (section 6.3.1.3 of C17), whatever the slot holds above the origin's bits; nothing else changes. */
  lemma ConversionRuns(code: seq<Instruction>, origin: IntType, signed: bool, target: IntType, s: State, noise: Noise)
    requires 0 < origin.Width() && 0 < target.Width()
    requires var r := After(code, s, noise); r.Running? && r.stack.Push?
    ensures var r := After(code, s, noise);
            Holds(r, After(ConversionCode(code, origin, signed, target), s, noise), Reading(r.stack.top, origin.Width(), signed), target.Width())
  {
    hide After, Holds, ConversionCode;
    if origin.Native() {
      FromNative(code, origin, signed, target, s, noise);
    } else {
      FromOther(code, origin, signed, target, s, noise);
    }
  }

  lemma FromNative(code: seq<Instruction>, origin: IntType, signed: bool, target: IntType, s: State, noise: Noise)
    requires origin.Native() && 0 < target.Width()
    requires var r := After(code, s, noise); r.Running? && r.stack.Push?
    ensures var r := After(code, s, noise);
            Holds(r, After(ConversionCode(code, origin, signed, target), s, noise), Reading(r.stack.top, origin.Width(), signed), target.Width())
  {
    hide After, Pow2, Wrap, Reading, Slotted, Extend64;
    var r := After(code, s, noise);
    var y := Reading(r.stack.top, origin.Width(), signed);
    var extended := Extend64(code, origin.Width(), signed);
    Extend64Runs(code, origin.Width(), signed, s, noise);
    var q := After(extended, s, noise);
    if target.BitInt? {
      Appended(extended, Convert(if signed then FromSigned(target.width) else FromUnsigned(target.width)), s, noise);
      SlottedHolds(y, target.width, noise(|extended|));
    } else if target.Int128? {
      Appended(extended, if signed then Convert(SignExtend128) else Apply1(ZeroExtend128), s, noise);
      WrapWrap(y, 128, 128);
      UnsignedReading(q.stack.top, 64);
      Pow2Mono(64, 128);
      WrapSmall(Wrap(q.stack.top, 64), 128);
    } else if origin.Width() < target.Width() {
      WrapWrap(q.stack.top, target.Width(), 64);
      WrapWrap(y, target.Width(), 64);
    } else {
      ReadingWraps(r.stack.top, origin.Width(), signed, target.Width());
    }
  }

  lemma FromOther(code: seq<Instruction>, origin: IntType, signed: bool, target: IntType, s: State, noise: Noise)
    requires !origin.Native() && 0 < origin.Width() && 0 < target.Width()
    requires var r := After(code, s, noise); r.Running? && r.stack.Push?
    ensures var r := After(code, s, noise);
            Holds(r, After(ConversionCode(code, origin, signed, target), s, noise), Reading(r.stack.top, origin.Width(), signed), target.Width())
  {
    hide After, Pow2, Wrap, Reading, Slotted;
    var r := After(code, s, noise);
    var x, w := r.stack.top, target.Width();
    if target.Native() {
      if origin.Int128? {
        Appended(code, Convert(Truncate64), s, noise);
        WrapWrap(x, w, 64);
        ReadingWraps(x, 128, signed, w);
      } else {
        Appended(code, Convert(if signed then GetSigned(origin.width) else GetUnsigned(origin.width)), s, noise);
        GetHolds(x, origin.width, signed, w);
      }
    } else if origin.Int128? && target.Int128? {
      ReadingWraps(x, 128, signed, 128);
    } else {
      Appended(code, Convert(if signed then CastSigned(w, origin.Width()) else CastUnsigned(w, origin.Width())), s, noise);
      SlottedHolds(Reading(x, origin.Width(), signed), w, noise(|code|));
    }
  }

  /** In numbers: what a slot holds of each type. */
  lemma NamedOrigins(x: nat)
    ensures Reading(x, Int8.Width(), false) == x % 0x100 && Reading(x, Int16.Width(), false) == x % 0x1_0000
    ensures Reading(x, Int32.Width(), false) == x % 0x1_0000_0000 && Reading(x, Int64.Width(), false) == x % 0x1_0000_0000_0000_0000
    ensures Reading(x, Int128.Width(), false) == x % 0x1_0000_0000_0000_0000_0000_0000_0000_0000
  {
    hide Pow2;
    Pow2Bytes();
    Pow2Words();
    Pow2Add(64, 64);
  }

  /** And what the conversion to each type leaves there. */
  lemma NamedTargets(code: seq<Instruction>, origin: IntType, signed: bool, s: State, noise: Noise)
    requires 0 < origin.Width()
    requires var r := After(code, s, noise); r.Running? && r.stack.Push?
    ensures var y := Reading(After(code, s, noise).stack.top, origin.Width(), signed);
            forall target: IntType | target.Native() || target.Int128? ::
              var q := After(ConversionCode(code, origin, signed, target), s, noise);
              q.Running? && q.stack.Push? &&
              match target
              case Int8 => q.stack.top % 0x100 == y % 0x100
              case Int16 => q.stack.top % 0x1_0000 == y % 0x1_0000
              case Int32 => q.stack.top % 0x1_0000_0000 == y % 0x1_0000_0000
              case Int64 => q.stack.top % 0x1_0000_0000_0000_0000 == y % 0x1_0000_0000_0000_0000
              case _ => q.stack.top % 0x1_0000_0000_0000_0000_0000_0000_0000_0000 == y % 0x1_0000_0000_0000_0000_0000_0000_0000_0000
  {
    hide After, ConversionCode, Reading, Pow2;
    Pow2Bytes();
    Pow2Words();
    Pow2Add(64, 64);
    forall target: IntType | target.Native() || target.Int128?
      ensures var r := After(code, s, noise);
              Holds(r, After(ConversionCode(code, origin, signed, target), s, noise), Reading(r.stack.top, origin.Width(), signed), target.Width())
    {
      ConversionRuns(code, origin, signed, target, s, noise);
    }
  }

  // ----- the runtime routines behind the opcodes -----

  /** What the runtime's reads return is what the get opcodes give. */
  lemma GetMatches(s: seq<Digit>, width: nat, noise: nat)
    requires DigitCount(width) <= |s|
    ensures var v := Cast.Narrower(width, 64);
            DigitCount(v) <= |s| &&
            Converted(GetSigned(width), Num(s, DigitCount(width)), noise) == Wrap(SVal(s, v), 64) &&
            Converted(GetUnsigned(width), Num(s, DigitCount(width)), noise) == Wrap(Val(s, v), 64)
  {
    hide Num, Pow2;
    ValOfNum(s, Cast.Narrower(width, 64), DigitCount(width));
  }

  /** What the runtime's signed setter leaves, as its contract states it, agrees with the opcode in every bit of the target. */
  lemma FromSignedMatches(after: seq<Digit>, width: nat, value: nat, noise: nat)
    requires DigitCount(width) <= |after| && value < Pow2(64) && Val(after, width) == Wrap(ToSigned(value, 64), width)
    ensures Wrap(Converted(FromSigned(width), value, noise), width) == Val(after, width)
  {
    hide Num, Pow2, Wrap, Val, ToSigned;
    WrapSmall(value, 64);
    SlottedHolds(ToSigned(value, 64), width, noise);
  }

  lemma FromUnsignedMatches(after: seq<Digit>, width: nat, value: nat, noise: nat)
    requires DigitCount(width) <= |after| && value < Pow2(64) && Val(after, width) == Wrap(value, width)
    ensures Wrap(Converted(FromUnsigned(width), value, noise), width) == Val(after, width)
  {
    hide Num, Pow2, Wrap, Val;
    WrapSmall(value, 64);
    SlottedHolds(value, width, noise);
  }

  /** What the runtime's signed cast leaves, as its contract states it, agrees with the cast opcode in every bit of the target. */
  lemma CastSignedMatches(s: seq<Digit>, after: seq<Digit>, current: nat, desired: nat, noise: nat)
    requires 0 < desired && DigitCount(current) <= |s| && DigitCount(desired) <= |s| && DigitCount(desired) <= |after|
    requires DigitCount(Cast.Narrower(current, desired)) <= |s| && SVal(after, desired) == SVal(s, Cast.Narrower(current, desired))
    ensures Wrap(Converted(CastSigned(desired, current), Num(s, DigitCount(current)), noise), desired) == Val(after, desired)
  {
    hide Num, Pow2, Wrap, Val, ToSigned;
    var x, v := Num(s, DigitCount(current)), Cast.Narrower(current, desired);
    CastReading(s, current, desired, true);
    SlottedHolds(Reading(x, current, true), desired, noise);
    SignedValue(after, desired);
  }

  lemma CastUnsignedMatches(s: seq<Digit>, after: seq<Digit>, current: nat, desired: nat, noise: nat)
    requires 0 < desired && DigitCount(current) <= |s| && DigitCount(desired) <= |s| && DigitCount(desired) <= |after|
    requires DigitCount(Cast.Narrower(current, desired)) <= |s| && Val(after, desired) == Val(s, Cast.Narrower(current, desired))
    ensures Wrap(Converted(CastUnsigned(desired, current), Num(s, DigitCount(current)), noise), desired) == Val(after, desired)
  {
    hide Num, Pow2, Wrap, Val;
    var x, v := Num(s, DigitCount(current)), Cast.Narrower(current, desired);
    CastReading(s, current, desired, false);
    SlottedHolds(Reading(x, current, false), desired, noise);
    Pow2Mono(v, desired);
    WrapSmall(Val(s, v), desired);
  }

  lemma SignedValue(s: seq<Digit>, width: nat)
    requires DigitCount(width) <= |s|
    ensures Wrap(SVal(s, width), width) == Val(s, width)
  {
    hide Num, Pow2, Wrap, ToSigned;
    SignedCongruent(Val(s, width), width, width);
    WrapSmall(Val(s, width), width);
  }

  /** Reading all the current bits or only the desired ones is the same modulo the desired width. */
  lemma CastReading(s: seq<Digit>, current: nat, desired: nat, signed: bool)
    requires DigitCount(current) <= |s| && DigitCount(Cast.Narrower(current, desired)) <= |s|
    ensures var v := Cast.Narrower(current, desired);
            Wrap(Reading(Num(s, DigitCount(current)), current, signed), desired) ==
            Wrap(if signed then SVal(s, v) else Val(s, v), desired)
  {
    hide Num, Pow2, ToSigned;
    var x, v := Num(s, DigitCount(current)), Cast.Narrower(current, desired);
    ValOfNum(s, v, DigitCount(current));
    if desired < current {
      ReadingWraps(x, current, signed, desired);
      ReadingWraps(x, desired, signed, desired);
    }
  }

  // ----- the emitter -----

  method EmitToInt8(b: Builder, origin: IntType, signed: bool, target: IntType)
    requires target.Int8?
    modifies b
    ensures b.code == ConversionCode(old(b.code), origin, signed, target)
  {
    hide Pow2;
    Masks();
    match origin
    case BitInt(_) =>
      if signed {
        b.Append(Convert(GetSigned(origin.width)));
      } else {
        b.Append(Convert(GetUnsigned(origin.width)));
      }
    case Int128 =>
      b.Append(Convert(Truncate64));
    case _ =>
  }

  method EmitToInt16(b: Builder, origin: IntType, signed: bool, target: IntType)
    requires target.Int16?
    modifies b
    ensures b.code == ConversionCode(old(b.code), origin, signed, target)
  {
    hide Pow2;
    Masks();
    match origin
    case Int8 =>
      if signed {
        b.Append(Convert(SignExtend(8)));
      } else {
        b.Append(Const(0xff));
        b.Append(Apply2(And64));
      }
    case BitInt(_) =>
      if signed {
        b.Append(Convert(GetSigned(origin.width)));
      } else {
        b.Append(Convert(GetUnsigned(origin.width)));
      }
    case Int128 =>
      b.Append(Convert(Truncate64));
    case _ =>
  }

  method EmitToInt32(b: Builder, origin: IntType, signed: bool, target: IntType)
    requires target.Int32?
    modifies b
    ensures b.code == ConversionCode(old(b.code), origin, signed, target)
  {
    hide Pow2;
    Masks();
    match origin
    case Int8 =>
      if signed {
        b.Append(Convert(SignExtend(8)));
      } else {
        b.Append(Const(0xff));
        b.Append(Apply2(And64));
      }
    case Int16 =>
      if signed {
        b.Append(Convert(SignExtend(16)));
      } else {
        b.Append(Const(0xffff));
        b.Append(Apply2(And64));
      }
    case BitInt(_) =>
      if signed {
        b.Append(Convert(GetSigned(origin.width)));
      } else {
        b.Append(Convert(GetUnsigned(origin.width)));
      }
    case Int128 =>
      b.Append(Convert(Truncate64));
    case _ =>
  }

  method EmitToInt64(b: Builder, origin: IntType, signed: bool, target: IntType)
    requires target.Int64?
    modifies b
    ensures b.code == ConversionCode(old(b.code), origin, signed, target)
  {
    hide Pow2;
    Masks();
    match origin
    case Int8 =>
      if signed {
        b.Append(Convert(SignExtend(8)));
      } else {
        b.Append(Const(0xff));
        b.Append(Apply2(And64));
      }
    case Int16 =>
      if signed {
        b.Append(Convert(SignExtend(16)));
      } else {
        b.Append(Const(0xffff));
        b.Append(Apply2(And64));
      }
    case Int32 =>
      if signed {
        b.Append(Convert(SignExtend(32)));
      } else {
        b.Append(Const(0xffff_ffff));
        b.Append(Apply2(And64));
      }
    case BitInt(_) =>
      if signed {
        b.Append(Convert(GetSigned(origin.width)));
      } else {
        b.Append(Convert(GetUnsigned(origin.width)));
      }
    case Int128 =>
      b.Append(Convert(Truncate64));
    case Int64 =>
  }

  method EmitToInt128(b: Builder, origin: IntType, signed: bool, target: IntType)
    requires target.Int128?
    modifies b
    ensures b.code == ConversionCode(old(b.code), origin, signed, target)
  {
    hide Pow2;
    Masks();
    match origin
    case Int8 =>
      if signed {
        b.Append(Convert(SignExtend(8)));
        b.Append(Convert(SignExtend128));
      } else {
        b.Append(Const(0xff));
        b.Append(Apply2(And64));
        b.Append(Apply1(ZeroExtend128));
      }
    case Int16 =>
      if signed {
        b.Append(Convert(SignExtend(16)));
        b.Append(Convert(SignExtend128));
      } else {
        b.Append(Const(0xffff));
        b.Append(Apply2(And64));
        b.Append(Apply1(ZeroExtend128));
      }
    case Int32 =>
      if signed {
        b.Append(Convert(SignExtend(32)));
        b.Append(Convert(SignExtend128));
      } else {
        b.Append(Const(0xffff_ffff));
        b.Append(Apply2(And64));
        b.Append(Apply1(ZeroExtend128));
      }
    case Int64 =>
      if signed {
        b.Append(Convert(SignExtend128));
      } else {
        b.Append(Apply1(ZeroExtend128));
      }
    case BitInt(_) =>
      if signed {
        b.Append(Convert(CastSigned(128, origin.width)));
      } else {
        b.Append(Convert(CastUnsigned(128, origin.width)));
      }
    case Int128 =>
  }

  method EmitToBitInt(b: Builder, origin: IntType, signed: bool, target: IntType)
    requires target.BitInt?
    modifies b
    ensures b.code == ConversionCode(old(b.code), origin, signed, target)
  {
    hide Pow2;
    Masks();
    match origin
    case Int8 =>
      if signed {
        b.Append(Convert(SignExtend(8)));
        b.Append(Convert(FromSigned(target.width)));
      } else {
        b.Append(Const(0xff));
        b.Append(Apply2(And64));
        b.Append(Convert(FromUnsigned(target.width)));
      }
    case Int16 =>
      if signed {
        b.Append(Convert(SignExtend(16)));
        b.Append(Convert(FromSigned(target.width)));
      } else {
        b.Append(Const(0xffff));
        b.Append(Apply2(And64));
        b.Append(Convert(FromUnsigned(target.width)));
      }
    case Int32 =>
      if signed {
        b.Append(Convert(SignExtend(32)));
        b.Append(Convert(FromSigned(target.width)));
      } else {
        b.Append(Const(0xffff_ffff));
        b.Append(Apply2(And64));
        b.Append(Convert(FromUnsigned(target.width)));
      }
    case Int64 =>
      if signed {
        b.Append(Convert(FromSigned(target.width)));
      } else {
        b.Append(Convert(FromUnsigned(target.width)));
      }
    case Int128 =>
      if signed {
        b.Append(Convert(CastSigned(target.width, 128)));
      } else {
        b.Append(Convert(CastUnsigned(target.width, 128)));
      }
    case BitInt(_) =>
      if signed {
        b.Append(Convert(CastSigned(target.width, origin.width)));
      } else {
        b.Append(Convert(CastUnsigned(target.width, origin.width)));
      }
  }

  /** Whatever ran before, the top slot then holds the origin's number in the target's bits. */
  ghost predicate Converts(before: seq<Instruction>, after: seq<Instruction>, origin: IntType, signed: bool, target: IntType) {
    forall s: State, noise: Noise | Topped(After(before, s, noise)) ::
      Holds(After(before, s, noise), After(after, s, noise),
            Reading(After(before, s, noise).stack.top, origin.Width(), signed), target.Width())
  }

  ghost predicate Topped(s: State)
    ensures Topped(s) ==> s.Running? && s.stack.Push?
  {
    s.Running? && s.stack.Push?
  }

  lemma CodeConverts(code: seq<Instruction>, origin: IntType, signed: bool, target: IntType)
    requires 0 < origin.Width() && 0 < target.Width()
    ensures Converts(code, ConversionCode(code, origin, signed, target), origin, signed, target)
  {
    hide After, ConversionCode, Holds, Reading;
    forall s: State, noise: Noise | Topped(After(code, s, noise))
      ensures Holds(After(code, s, noise), After(ConversionCode(code, origin, signed, target), s, noise),
                    Reading(After(code, s, noise).stack.top, origin.Width(), signed), target.Width())
    {
      ConversionRuns(code, origin, signed, target, s, noise);
    }
  }

  method EmitConversion(b: Builder, origin: IntType, signed: bool, target: IntType)
    modifies b
    ensures b.code == ConversionCode(old(b.code), origin, signed, target)
    ensures 0 < origin.Width() && 0 < target.Width() ==> Converts(old(b.code), b.code, origin, signed, target)
  {
    hide ConversionCode, Converts;
    if 0 < origin.Width() && 0 < target.Width() {
      CodeConverts(b.code, origin, signed, target);
    }
    match target
    case Int8 => EmitToInt8(b, origin, signed, target);
    case Int16 => EmitToInt16(b, origin, signed, target);
    case Int32 => EmitToInt32(b, origin, signed, target);
    case Int64 => EmitToInt64(b, origin, signed, target);
    case Int128 => EmitToInt128(b, origin, signed, target);
    case BitInt(_) => EmitToBitInt(b, origin, signed, target);
  }
}
