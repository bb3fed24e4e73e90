/** Backpatching of jump targets (ast-translator/flow_control.c) against a two-pass assembler. */
module Backpatching {
  import opened Options

  type Address = nat

  datatype Opcode = Jump | BlockLabel | Branch | Other(code: nat)

  /** The first argument word of a jump, label or branch is its target. */
  datatype Instruction = Instruction(opcode: Opcode, target: Address, extra: nat) {
    predicate Patchable() {
      !opcode.Other?
    }
  }

  datatype Slot = Slot(block: nat, index: nat)

  datatype Point = Point(resolved: bool, address: Address, dependents: seq<Slot>)

  type Blocks = map<nat, seq<Instruction>>

  predicate Inside(blocks: Blocks, slot: Slot) {
    slot.block in blocks && slot.index < |blocks[slot.block]|
  }

  function At(blocks: Blocks, slot: Slot): Instruction
    requires Inside(blocks, slot)
  {
    blocks[slot.block][slot.index]
  }

  function Patched(blocks: Blocks, slot: Slot, value: Address): (after: Blocks)
    requires Inside(blocks, slot)
    ensures SameShape(blocks, after)
    ensures forall s | Inside(blocks, s) :: At(after, s) == if s == slot then At(blocks, s).(target := value) else At(blocks, s)
  {
    blocks[slot.block := blocks[slot.block][slot.index := At(blocks, slot).(target := value)]]
  }

  function Grown(blocks: Blocks, b: nat, i: Instruction): (after: Blocks)
    requires b in blocks
    ensures after.Keys == blocks.Keys
    ensures forall s :: Inside(after, s) <==> Inside(blocks, s) || s == Slot(b, |blocks[b]|)
    ensures forall s | Inside(after, s) :: At(after, s) == if s == Slot(b, |blocks[b]|) then i else At(blocks, s)
  {
    blocks[b := blocks[b] + [i]]
  }

  ghost predicate SameShape(blocks: Blocks, after: Blocks) {
    after.Keys == blocks.Keys && forall b | b in blocks :: |after[b]| == |blocks[b]|
  }

  predicate AllInside(blocks: Blocks, slots: seq<Slot>) {
    forall k | 0 <= k < |slots| :: Inside(blocks, slots[k])
  }

  predicate AllPatchable(blocks: Blocks, slots: seq<Slot>) {
    forall k | 0 <= k < |slots| :: Inside(blocks, slots[k]) && At(blocks, slots[k]).opcode in {Jump, BlockLabel, Branch}
  }

  /** Patches slots in order until one cannot be. */
  function PatchList(blocks: Blocks, slots: seq<Slot>, value: Address): (r: (Blocks, bool))
    requires AllInside(blocks, slots)
    ensures SameShape(blocks, r.0)
    decreases |slots|
  {
    if slots == [] then
      (blocks, true)
    else if At(blocks, slots[0]).Patchable() then
      PatchList(Patched(blocks, slots[0], value), slots[1..], value)
    else
      (blocks, false)
  }

  lemma {:induction false} PatchListEffect(blocks: Blocks, slots: seq<Slot>, value: Address)
    requires AllInside(blocks, slots)
    ensures PatchList(blocks, slots, value).1 <==> AllPatchable(blocks, slots)
    ensures PatchList(blocks, slots, value).1 ==>
              forall s | Inside(blocks, s) ::
                At(PatchList(blocks, slots, value).0, s) == if s in slots then At(blocks, s).(target := value) else At(blocks, s)
    decreases |slots|
  {
    hide AllPatchable;
    PatchableHead(blocks, slots, value);
    if slots != [] && At(blocks, slots[0]).Patchable() {
      PatchListEffect(Patched(blocks, slots[0], value), slots[1..], value);
      assert slots == [slots[0]] + slots[1..];
    }
  }

  /** A list that cannot be patched whole is patched up to the first slot that cannot be. */
  lemma {:induction false} PatchListStops(blocks: Blocks, slots: seq<Slot>, value: Address, k: nat)
    requires AllInside(blocks, slots) && k < |slots| && AllPatchable(blocks, slots[..k])
    requires At(blocks, slots[k]).opcode !in {Jump, BlockLabel, Branch}
    ensures !PatchList(blocks, slots, value).1
    ensures forall s | Inside(blocks, s) ::
              At(PatchList(blocks, slots, value).0, s) == if s in slots[..k] then At(blocks, s).(target := value) else At(blocks, s)
    decreases |slots|
  {
    hide AllPatchable;
    if k > 0 {
      var next, first := Patched(blocks, slots[0], value), slots[..k];
      PatchableHead(blocks, first, value);
      assert first[1..] == slots[1..][..k - 1] && first == [slots[0]] + slots[1..][..k - 1];
      PatchListStops(next, slots[1..], value, k - 1);
    }
  }

  /** All slots can be patched exactly when the first can and, with it patched, the others. */
  lemma PatchableHead(blocks: Blocks, slots: seq<Slot>, value: Address)
    requires AllInside(blocks, slots)
    ensures slots == [] ==> AllPatchable(blocks, slots)
    ensures slots != [] ==>
              (AllPatchable(blocks, slots) <==>
               At(blocks, slots[0]).Patchable() && AllPatchable(Patched(blocks, slots[0], value), slots[1..]))
  {
    if slots != [] && At(blocks, slots[0]).Patchable() {
      var next := Patched(blocks, slots[0], value);
      if AllPatchable(next, slots[1..]) {
        forall k | 0 <= k < |slots|
          ensures At(blocks, slots[k]).opcode in {Jump, BlockLabel, Branch}
        {
          if k > 0 {
            assert slots[k] == slots[1..][k - 1];
          }
        }
      }
    }
  }

  // ----- steps and runs -----

  datatype State = State(blocks: Blocks, points: map<nat, Point>) {
    ghost predicate Valid() {
      forall p | p in points :: AllInside(blocks, points[p].dependents)
    }
  }

  datatype Op =
    | Emit(block: nat, instruction: Instruction)
    | Reference(point: nat, slot: Slot)
    | Resolve(point: nat, value: Address)

  /** A history of operations, the latest last. */
  datatype History = Start | Then(before: History, op: Op)

  function ReferenceStep(s: State, p: nat, slot: Slot): (State, bool) {
    if p !in s.points || !Inside(s.blocks, slot) then
      (s, false)
    else if s.points[p].resolved then
      if At(s.blocks, slot).Patchable() then
        (s.(blocks := Patched(s.blocks, slot, s.points[p].address)), true)
      else
        (s, false)
    else
      (s.(points := s.points[p := s.points[p].(dependents := s.points[p].dependents + [slot])]), true)
  }

  function ResolveStep(s: State, p: nat, value: Address): (State, bool)
    requires s.Valid()
  {
    if p !in s.points || s.points[p].resolved then
      (s, false)
    else
      var (blocks, ok) := PatchList(s.blocks, s.points[p].dependents, value);
      (State(blocks, if ok then s.points[p := Point(true, value, [])] else s.points), ok)
  }

  function Step(s: State, op: Op): (r: (State, bool))
    requires s.Valid()
    ensures r.0.Valid()
  {
    match op
    case Emit(b, i) => if b in s.blocks then (s.(blocks := Grown(s.blocks, b, i)), true) else (s, false)
    case Reference(p, slot) => ReferenceStep(s, p, slot)
    case Resolve(p, value) => ResolveStep(s, p, value)
  }

  /** Runs operations up to the first error. */
  function Run(s: State, h: History): (r: (State, bool))
    requires s.Valid()
    ensures r.0.Valid()
  {
    match h
    case Start => (s, true)
    case Then(before, op) =>
      var (t, ok) := Run(s, before);
      if ok then Step(t, op) else (t, false)
  }

  // ----- the translator's state -----

  class Translator {
    var blocks: Blocks
    var points: map<nat, Point>

    constructor (blocks: Blocks, ids: set<nat>)
      ensures this.blocks == blocks && points.Keys == ids
      ensures forall p | p in ids :: !points[p].resolved && points[p].dependents == []
    {
      this.blocks := blocks;
      points := map p | p in ids :: Point(false, 0, []);
    }

    ghost predicate Valid()
      reads this
    {
      State(blocks, points).Valid()
    }

    method PatchCommand(slot: Slot, value: Address) returns (ok: bool)
      requires Inside(blocks, slot)
      modifies `blocks
      ensures ok <==> old(At(blocks, slot)).opcode in {Jump, BlockLabel, Branch}
      ensures ok <==> old(At(blocks, slot)).Patchable()
      ensures blocks == if ok then Patched(old(blocks), slot, value) else old(blocks)
    {
      ok := At(blocks, slot).Patchable();
      if ok {
        blocks := Patched(blocks, slot, value);
      }
    }

    method Append(block: nat, i: Instruction)
      requires Valid() && block in blocks
      modifies `blocks
      ensures Valid() && blocks == Grown(old(blocks), block, i)
    {
      blocks := Grown(blocks, block, i);
    }

    /** A reference to a resolved point is patched at once, one to an unresolved point is remembered. */
    method Reference(p: nat, slot: Slot) returns (ok: bool)
      requires Valid() && p in points
      modifies this
      ensures Valid()
      ensures ok <==> Inside(old(blocks), slot) && (old(points[p]).resolved ==> At(old(blocks), slot).Patchable())
      ensures ok <==> Inside(old(blocks), slot) && (old(points[p]).resolved ==> At(old(blocks), slot).opcode in {Jump, BlockLabel, Branch})
      ensures !ok ==> blocks == old(blocks) && points == old(points)
      ensures ok && old(points[p]).resolved ==> blocks == Patched(old(blocks), slot, old(points[p]).address) && points == old(points)
      ensures ok && !old(points[p]).resolved ==>
                blocks == old(blocks) &&
                points == old(points)[p := Point(false, old(points[p]).address, old(points[p]).dependents + [slot])]
      ensures (State(blocks, points), ok) == ReferenceStep(State(old(blocks), old(points)), p, slot)
    {
      if !Inside(blocks, slot) {
        return false;
      }
      if points[p].resolved {
        ok := PatchCommand(slot, points[p].address);
      } else {
        points := points[p := points[p].(dependents := points[p].dependents + [slot])];
        ok := true;
      }
    }

    /** Patches every remembered reference; stops at the first that cannot be patched. */
    method Resolve(p: nat, value: Address) returns (ok: bool)
      requires Valid() && p in points
      modifies this
      ensures Valid()
      ensures ok <==> !old(points[p]).resolved && AllPatchable(old(blocks), old(points[p]).dependents)
      ensures ok <==> !old(points[p]).resolved &&
                      forall k | 0 <= k < |old(points[p]).dependents| ::
                        At(old(blocks), old(points[p]).dependents[k]).opcode in {Jump, BlockLabel, Branch}
      ensures points == if ok then old(points)[p := Point(true, value, [])] else old(points)
      ensures old(points[p]).resolved ==> blocks == old(blocks)
      ensures (State(blocks, points), ok) == ResolveStep(State(old(blocks), old(points)), p, value)
    {
      if points[p].resolved {
        return false;
      }
      ok := PatchAll(points[p].dependents, value);
      if ok {
        points := points[p := Point(true, value, [])];
      }
    }

    method PatchAll(slots: seq<Slot>, value: Address) returns (ok: bool)
      requires AllInside(blocks, slots)
      modifies `blocks
      ensures ok <==> AllPatchable(old(blocks), slots)
      ensures (blocks, ok) == PatchList(old(blocks), slots, value)
    {
      hide AllPatchable;
      PatchListEffect(blocks, slots, value);
      var k := 0;
      while k < |slots|
        invariant k <= |slots|
        invariant SameShape(old(blocks), blocks)
        invariant PatchList(blocks, slots[k..], value) == PatchList(old(blocks), slots, value)
      {
        ok := PatchCommand(slots[k], value);
        if !ok {
          return false;
        }
        assert slots[k..][1..] == slots[k + 1..];
        k := k + 1;
      }
      ok := true;
    }
  }

  // ----- a two-pass assembler -----

  /** First pass: only the emitted code. */
  function FirstPass(blocks: Blocks, h: History): (code: Blocks)
    ensures code.Keys == blocks.Keys
  {
    match h
    case Start => blocks
    case Then(before, op) =>
      var code := FirstPass(blocks, before);
      if op.Emit? && op.block in code then Grown(code, op.block, op.instruction) else code
  }

  /** The slots that refer to a point, in order. */
  function References(h: History, p: nat): seq<Slot> {
    match h
    case Start => []
    case Then(before, op) =>
      if op.Reference? && op.point == p then References(before, p) + [op.slot] else References(before, p)
  }

  /** The address a point is resolved to first. */
  function ResolvedTo(h: History, p: nat): Option<Address> {
    match h
    case Start => None
    case Then(before, op) =>
      if op.Resolve? && op.point == p && ResolvedTo(before, p).None? then Some(op.value) else ResolvedTo(before, p)
  }

  /** No instruction refers to two points. */
  ghost predicate OneOwner(h: History) {
    forall p, q, slot | slot in References(h, p) && slot in References(h, q) :: p == q
  }

  /** The target of a slot that refers to a resolved point is the point's address; no other is changed. */
  ghost predicate Fixed(was: Instruction, now: Instruction, h: History, slot: Slot) {
    (forall p | slot in References(h, p) && ResolvedTo(h, p).Some? :: now == was.(target := ResolvedTo(h, p).value)) &&
    ((forall p | slot in References(h, p) :: ResolvedTo(h, p).None?) ==> now == was)
  }

  /** Second pass: every slot of the emitted code fixed. */
  ghost predicate SecondPass(code: Blocks, h: History, blocks: Blocks) {
    SameShape(code, blocks) && forall slot | Inside(code, slot) :: Fixed(At(code, slot), At(blocks, slot), h, slot)
  }

  ghost predicate PointMatches(point: Point, h: History, p: nat) {
    match ResolvedTo(h, p)
    case None => !point.resolved && point.dependents == References(h, p)
    case Some(value) => point.resolved && point.address == value
  }

  ghost predicate Fresh(s: State) {
    forall p | p in s.points :: !s.points[p].resolved && s.points[p].dependents == []
  }

  /** Every operation finds what it needs in the code emitted before it. */
  ghost predicate WellFormed(s: State, h: History) {
    match h
    case Start => true
    case Then(before, op) => WellFormed(s, before) && Allowed(s, before, op)
  }

  ghost predicate Allowed(s: State, before: History, op: Op) {
    var code := FirstPass(s.blocks, before);
    match op
    case Emit(b, _) => b in s.blocks
    case Reference(p, slot) =>
      p in s.points && Inside(code, slot) && (ResolvedTo(before, p).Some? ==> At(code, slot).opcode in {Jump, BlockLabel, Branch})
    case Resolve(p, _) =>
      p in s.points && ResolvedTo(before, p).None? && AllPatchable(code, References(before, p))
  }

  ghost predicate SameOpcodes(code: Blocks, blocks: Blocks) {
    SameShape(code, blocks) && forall slot | Inside(code, slot) :: At(blocks, slot).opcode == At(code, slot).opcode
  }

  ghost predicate Matches(s: State, h: History, t: State) {
    t.points.Keys == s.points.Keys && SameOpcodes(FirstPass(s.blocks, h), t.blocks) &&
    forall p | p in t.points :: PointMatches(t.points[p], h, p)
  }

  /** A run succeeds exactly when each operation finds what it needs; an unresolved point then remembers
      exactly the past references to it, and a resolved one its first address. */
  lemma {:induction false} RunSucceeds(s: State, h: History)
    requires s.Valid() && Fresh(s)
    ensures Run(s, h).1 <==> WellFormed(s, h)
    ensures Run(s, h).1 ==> Matches(s, h, Run(s, h).0)
  {
    if h.Then? {
      RunSucceeds(s, h.before);
      if Run(s, h.before).1 {
        StepSucceeds(s, Run(s, h.before).0, h.before, h.op);
      }
    }
  }

  lemma StepSucceeds(s: State, t: State, before: History, op: Op)
    requires t.Valid() && Matches(s, before, t)
    ensures Step(t, op).1 <==> Allowed(s, before, op)
    ensures Step(t, op).1 ==> Matches(s, Then(before, op), Step(t, op).0)
  {
    hide Matches, Allowed, Step;
    match op
    case Emit(b, i) => EmitSucceeds(s, t, before, b, i);
    case Reference(p, slot) => ReferenceSucceeds(s, t, before, p, slot);
    case Resolve(p, value) => ResolveSucceeds(s, t, before, p, value);
  }

  lemma GrownShape(code: Blocks, blocks: Blocks, b: nat, i: Instruction)
    requires SameOpcodes(code, blocks) && b in code
    ensures SameOpcodes(Grown(code, b, i), Grown(blocks, b, i))
  {
  }

  lemma EmitSucceeds(s: State, t: State, before: History, b: nat, i: Instruction)
    requires t.Valid() && Matches(s, before, t)
    ensures Step(t, Emit(b, i)).1 <==> Allowed(s, before, Emit(b, i))
    ensures Step(t, Emit(b, i)).1 ==> Matches(s, Then(before, Emit(b, i)), Step(t, Emit(b, i)).0)
  {
    hide At, AllInside, AllPatchable;
    var code := FirstPass(s.blocks, before);
    if b in code {
      GrownShape(code, t.blocks, b, i);
    }
  }

  lemma ReferenceSucceeds(s: State, t: State, before: History, p: nat, slot: Slot)
    requires t.Valid() && Matches(s, before, t)
    ensures Step(t, Reference(p, slot)).1 <==> Allowed(s, before, Reference(p, slot))
    ensures Step(t, Reference(p, slot)).1 ==> Matches(s, Then(before, Reference(p, slot)), Step(t, Reference(p, slot)).0)
  {
    hide At, Grown, AllInside, AllPatchable, Patched;
  }

  lemma ResolveSucceeds(s: State, t: State, before: History, p: nat, value: Address)
    requires t.Valid() && Matches(s, before, t)
    ensures Step(t, Resolve(p, value)).1 <==> Allowed(s, before, Resolve(p, value))
    ensures Step(t, Resolve(p, value)).1 ==> Matches(s, Then(before, Resolve(p, value)), Step(t, Resolve(p, value)).0)
  {
    hide At, Grown, PatchList, AllInside, AllPatchable, Inside;
    var code := FirstPass(s.blocks, before);
    if p in t.points && !t.points[p].resolved {
      assert PointMatches(t.points[p], before, p);
      PatchableSame(code, t.blocks, t.points[p].dependents);
      PatchListEffect(t.blocks, t.points[p].dependents, value);
      if Step(t, Resolve(p, value)).1 {
        PatchListOpcodes(code, t.blocks, t.points[p].dependents, value);
      }
    }
  }

  lemma PatchableSame(code: Blocks, blocks: Blocks, slots: seq<Slot>)
    requires SameOpcodes(code, blocks)
    ensures AllPatchable(code, slots) <==> AllPatchable(blocks, slots)
  {
    hide At;
  }

  lemma PatchListOpcodes(code: Blocks, blocks: Blocks, slots: seq<Slot>, value: Address)
    requires SameOpcodes(code, blocks) && AllInside(blocks, slots) && PatchList(blocks, slots, value).1
    ensures SameOpcodes(code, PatchList(blocks, slots, value).0)
  {
    hide At, PatchList, AllInside;
    PatchListEffect(blocks, slots, value);
  }

  /** Whatever the order of references and resolutions, a successful run ends with the code of the two-pass assembler. */
  lemma {:induction false} TwoPass(s: State, h: History)
    requires s.Valid() && Fresh(s) && Run(s, h).1 && OneOwner(h)
    ensures SecondPass(FirstPass(s.blocks, h), h, Run(s, h).0.blocks)
  {
    if h.Then? {
      RunSucceeds(s, h);
      RunSucceeds(s, h.before);
      OwnerBefore(h);
      TwoPass(s, h.before);
      ReferencesInside(s, h.before);
      StepSecondPass(s, Run(s, h.before).0, h.before, h.op);
    }
  }

  lemma OwnerBefore(h: History)
    requires h.Then? && OneOwner(h)
    ensures OneOwner(h.before)
  {
    forall p, slot | slot in References(h.before, p)
      ensures slot in References(h, p)
    {
    }
  }

  lemma {:induction false} ReferencesInside(s: State, h: History)
    requires WellFormed(s, h)
    ensures forall p :: AllInside(FirstPass(s.blocks, h), References(h, p))
  {
    hide Grown;
    if h.Then? {
      ReferencesInside(s, h.before);
    }
  }

  lemma StepSecondPass(s: State, t: State, before: History, op: Op)
    requires t.Valid() && Matches(s, before, t) && Step(t, op).1 && OneOwner(Then(before, op))
    requires SecondPass(FirstPass(s.blocks, before), before, t.blocks)
    requires forall p :: AllInside(FirstPass(s.blocks, before), References(before, p))
    ensures SecondPass(FirstPass(s.blocks, Then(before, op)), Then(before, op), Step(t, op).0.blocks)
  {
    hide Matches, SecondPass, OneOwner, Step;
    match op
    case Emit(b, i) => EmitSecondPass(s, t, before, b, i);
    case Reference(p, slot) => ReferenceSecondPass(s, t, before, p, slot);
    case Resolve(p, value) =>
      OwnerBefore(Then(before, op));
      ResolveSecondPass(s, t, before, p, value);
  }

  lemma EmitSecondPass(s: State, t: State, before: History, b: nat, i: Instruction)
    requires t.Valid() && Matches(s, before, t) && Step(t, Emit(b, i)).1
    requires SecondPass(FirstPass(s.blocks, before), before, t.blocks)
    requires forall p :: AllInside(FirstPass(s.blocks, before), References(before, p))
    ensures SecondPass(FirstPass(s.blocks, Then(before, Emit(b, i))), Then(before, Emit(b, i)), Step(t, Emit(b, i)).0.blocks)
  {
    hide Fixed, At, PointMatches;
    var code, h := FirstPass(s.blocks, before), Then(before, Emit(b, i));
    GrownShape(code, t.blocks, b, i);
    forall slot | Inside(Grown(code, b, i), slot)
      ensures Fixed(At(Grown(code, b, i), slot), At(Grown(t.blocks, b, i), slot), h, slot)
    {
      if Inside(code, slot) {
        SameFixed(At(code, slot), At(t.blocks, slot), before, Emit(b, i), slot);
      } else {
        NewFixed(code, before, Emit(b, i), slot, i);
      }
    }
  }

  lemma SameFixed(was: Instruction, now: Instruction, before: History, op: Op, slot: Slot)
    requires Fixed(was, now, before, slot) && op.Emit?
    ensures Fixed(was, now, Then(before, op), slot)
  {
    forall p
      ensures References(Then(before, op), p) == References(before, p) && ResolvedTo(Then(before, op), p) == ResolvedTo(before, p)
    {
    }
  }

  lemma NewFixed(code: Blocks, before: History, op: Op, slot: Slot, i: Instruction)
    requires !Inside(code, slot) && (forall p :: AllInside(code, References(before, p))) && op.Emit?
    ensures Fixed(i, i, Then(before, op), slot)
  {
    forall p
      ensures slot !in References(Then(before, op), p)
    {
      assert AllInside(code, References(before, p));
    }
  }

  lemma ReferenceFixed(was: Instruction, now: Instruction, before: History, p: nat, referred: Slot, slot: Slot)
    requires Fixed(was, now, before, slot) && OneOwner(Then(before, Reference(p, referred)))
    ensures var patch := slot == referred && ResolvedTo(before, p).Some?;
            Fixed(was, if patch then now.(target := ResolvedTo(before, p).value) else now, Then(before, Reference(p, referred)), slot)
  {
    var h := Then(before, Reference(p, referred));
    assert References(h, p) == References(before, p) + [referred];
    forall q
      ensures ResolvedTo(h, q) == ResolvedTo(before, q) && (q != p ==> References(h, q) == References(before, q))
    {
    }
    if slot == referred {
      assert forall q | slot in References(before, q) :: q == p by {
        assert slot in References(h, p);
      }
    }
  }

  lemma ReferenceSecondPass(s: State, t: State, before: History, p: nat, referred: Slot)
    requires t.Valid() && Matches(s, before, t) && Step(t, Reference(p, referred)).1
    requires OneOwner(Then(before, Reference(p, referred)))
    requires SecondPass(FirstPass(s.blocks, before), before, t.blocks)
    ensures SecondPass(FirstPass(s.blocks, Then(before, Reference(p, referred))), Then(before, Reference(p, referred)),
                       Step(t, Reference(p, referred)).0.blocks)
  {
    hide Fixed, At, OneOwner, Patched;
    var code, h := FirstPass(s.blocks, before), Then(before, Reference(p, referred));
    var after := Step(t, Reference(p, referred)).0.blocks;
    assert PointMatches(t.points[p], before, p);
    forall slot | Inside(code, slot)
      ensures Fixed(At(code, slot), At(after, slot), h, slot)
    {
      ReferenceFixed(At(code, slot), At(t.blocks, slot), before, p, referred, slot);
    }
  }

  lemma ResolveFixed(was: Instruction, now: Instruction, before: History, p: nat, value: Address, slot: Slot)
    requires Fixed(was, now, before, slot) && OneOwner(before) && ResolvedTo(before, p).None?
    ensures Fixed(was, if slot in References(before, p) then now.(target := value) else now, Then(before, Resolve(p, value)), slot)
  {
    var h := Then(before, Resolve(p, value));
    forall q
      ensures References(h, q) == References(before, q) && ResolvedTo(h, q) == if q == p then Some(value) else ResolvedTo(before, q)
    {
    }
  }

  lemma ResolveSecondPass(s: State, t: State, before: History, p: nat, value: Address)
    requires t.Valid() && Matches(s, before, t) && Step(t, Resolve(p, value)).1 && OneOwner(before)
    requires SecondPass(FirstPass(s.blocks, before), before, t.blocks)
    ensures SecondPass(FirstPass(s.blocks, Then(before, Resolve(p, value))), Then(before, Resolve(p, value)),
                       Step(t, Resolve(p, value)).0.blocks)
  {
    hide Fixed, At, OneOwner, PatchList;
    var code, h := FirstPass(s.blocks, before), Then(before, Resolve(p, value));
    assert PointMatches(t.points[p], before, p);
    PatchListEffect(t.blocks, t.points[p].dependents, value);
    var after := Step(t, Resolve(p, value)).0.blocks;
    forall slot | Inside(code, slot)
      ensures Fixed(At(code, slot), At(after, slot), h, slot)
    {
      ResolveFixed(At(code, slot), At(t.blocks, slot), before, p, value, slot);
    }
  }

  /** Code is emitted into existing blocks, existing points are referred to from jumps, labels or branches in the
      code emitted so far, and no point is resolved twice. */
  ghost predicate Careful(s: State, h: History) {
    match h
    case Start => true
    case Then(before, op) =>
      Careful(s, before) &&
      match op
      case Emit(b, _) => b in s.blocks
      case Reference(p, slot) =>
        p in s.points && Inside(FirstPass(s.blocks, before), slot) &&
        At(FirstPass(s.blocks, before), slot).opcode in {Jump, BlockLabel, Branch}
      case Resolve(p, _) => p in s.points && ResolvedTo(before, p).None?
  }

  /** Every careful history succeeds. */
  lemma CarefulSucceeds(s: State, h: History)
    requires s.Valid() && Fresh(s) && Careful(s, h)
    ensures Run(s, h).1
  {
    CarefulWellFormed(s, h);
    RunSucceeds(s, h);
  }

  lemma {:induction false} CarefulWellFormed(s: State, h: History)
    requires Careful(s, h)
    ensures WellFormed(s, h)
    ensures forall p :: AllPatchable(FirstPass(s.blocks, h), References(h, p))
  {
    hide Grown;
    if h.Then? {
      CarefulWellFormed(s, h.before);
      forall p
        ensures AllPatchable(FirstPass(s.blocks, h), References(h, p))
      {
        assert AllPatchable(FirstPass(s.blocks, h.before), References(h.before, p));
      }
    }
  }

  /** A careless one need not: a resolved point that other code refers to is an error. */
  lemma OtherRefused(s: State, h: History, p: nat, slot: Slot, value: Address)
    requires s.Valid() && Fresh(s) && Inside(FirstPass(s.blocks, h), slot) && ResolvedTo(h, p).None?
    requires At(FirstPass(s.blocks, h), slot).opcode !in {Jump, BlockLabel, Branch}
    ensures !Run(s, Then(Then(h, Reference(p, slot)), Resolve(p, value))).1
    ensures !Run(s, Then(Then(h, Resolve(p, value)), Reference(p, slot))).1
  {
    hide Run, FirstPass;
    var referred, resolved := Then(h, Reference(p, slot)), Then(h, Resolve(p, value));
    RunSucceeds(s, Then(referred, Resolve(p, value)));
    RunSucceeds(s, Then(resolved, Reference(p, slot)));
    assert References(referred, p)[|References(h, p)|] == slot;
    SameCode(s, h, Reference(p, slot));
    SameCode(s, h, Resolve(p, value));
  }

  lemma SameCode(s: State, h: History, op: Op)
    requires !op.Emit?
    ensures FirstPass(s.blocks, Then(h, op)) == FirstPass(s.blocks, h)
  {
  }

  ghost predicate Extends(h: History, later: History) {
    later == h || (later.Then? && Extends(h, later.before))
  }

  /** Once resolved, a point keeps its address in every later state. */
  lemma {:induction false} AddressStays(s: State, h: History, later: History, p: nat)
    requires s.Valid() && Fresh(s) && p in s.points && ResolvedTo(h, p).Some? && Extends(h, later) && Run(s, later).1
    ensures ResolvedTo(later, p) == ResolvedTo(h, p)
    ensures var points := Run(s, later).0.points;
            p in points && points[p].resolved && points[p].address == ResolvedTo(h, p).value
  {
    RunSucceeds(s, later);
    if later != h {
      AddressStays(s, h, later.before, p);
    }
  }
}
