/** Jumps and variable-length arrays (ast-translator/jump.c) over the flow control tree. */
module Jumps {
  import opened Options

  datatype Kind = Block | Point | VlArray | Other

  datatype Node = Node(kind: Kind, parent: Option<nat>)

  /** Nodes in the order they were added: a parent before its children, and siblings in sibling order. */
  type Tree = seq<Node>

  /** Points and arrays are leaves, and arrays lie directly in blocks. */
  ghost predicate Valid(t: Tree) {
    forall i | 0 <= i < |t| && t[i].parent.Some? ::
      var p := t[i].parent.value;
      p < i && !t[p].kind.Point? && !t[p].kind.VlArray? && (t[i].kind.VlArray? ==> t[p].kind.Block?)
  }

  predicate Array(t: Tree, b: nat, i: nat) {
    i < |t| && t[i].kind.VlArray? && t[i].parent == Some(b)
  }

  // ----- scopes -----

  /** The arrays among the children of b before n, in order. */
  function ArraysBefore(t: Tree, b: nat, n: nat): seq<nat>
    requires n <= |t|
  {
    if n == 0 then [] else ArraysBefore(t, b, n - 1) + if Array(t, b, n - 1) then [n - 1] else []
  }

  /** The arrays in scope at a node, outermost and earliest first: those before it, or before its ancestors, in their blocks. */
  ghost function Scope(t: Tree, x: nat): seq<nat>
    requires Valid(t) && x < |t|
  {
    match t[x].parent
    case None => []
    case Some(b) => Scope(t, b) + ArraysBefore(t, b, x)
  }

  /** Restoring the stack pointer saved by an array removes it and every later one; an array that is not
      in scope has saved none. */
  function Pop(stack: seq<nat>, v: nat): Option<seq<nat>> {
    if stack == [] then None
    else if stack[0] == v then Some([])
    else
      match Pop(stack[1..], v)
      case None => None
      case Some(rest) => Some([stack[0]] + rest)
  }

  function Unwind(stack: Option<seq<nat>>, pops: seq<nat>): Option<seq<nat>>
    decreases |pops|
  {
    if stack.None? || pops == [] then stack else Unwind(Pop(stack.value, pops[0]), pops[1..])
  }

  // ----- ancestors -----

  ghost predicate Above(t: Tree, a: nat, x: nat)
    requires Valid(t) && x < |t|
  {
    x == a || (t[x].parent.Some? && Above(t, a, t[x].parent.value))
  }

  ghost predicate Under(t: Tree, c: nat, x: nat)
    requires Valid(t)
  {
    x < |t| && x != c && Above(t, c, x)
  }

  /** The child of c on the way to x. */
  ghost function ChildToward(t: Tree, c: nat, x: nat): (y: nat)
    requires Valid(t) && Under(t, c, x)
    ensures y < |t| && t[y].parent == Some(c)
    decreases x
  {
    if t[x].parent == Some(c) then x else ChildToward(t, c, t[x].parent.value)
  }

  // ----- the checks and the emitted pops -----

  predicate HasArrays(t: Tree, b: nat) {
    ArraysBefore(t, b, |t|) != []
  }

  function Head(t: Tree, b: nat): nat
    requires HasArrays(t, b)
  {
    ArraysBefore(t, b, |t|)[0]
  }

  /** No block from x up to c holds an array. */
  ghost predicate Clear(t: Tree, c: nat, x: nat)
    requires Valid(t) && x < |t| && Above(t, c, x)
    decreases x
  {
    x == c || ((t[x].kind.Block? ==> !HasArrays(t, x)) && Clear(t, c, t[x].parent.value))
  }

  /** The head arrays of the blocks from x up to c, innermost first. */
  ghost function Exits(t: Tree, c: nat, x: nat): seq<nat>
    requires Valid(t) && x < |t| && Above(t, c, x)
    decreases x
  {
    if x == c then [] else (if t[x].kind.Block? && HasArrays(t, x) then [Head(t, x)] else []) + Exits(t, c, t[x].parent.value)
  }

  /** Each left block's first array precedes the way to the origin. */
  ghost predicate HeadsPrecede(t: Tree, c: nat, x: nat)
    requires Valid(t) && Under(t, c, x)
    decreases x
  {
    t[x].parent == Some(c) ||
    (var b := t[x].parent.value; (HasArrays(t, b) ==> Head(t, b) < x) && HeadsPrecede(t, c, b))
  }

  /** The arrays among the children of c from lo to hi. */
  function Between(t: Tree, c: nat, lo: nat, hi: nat): seq<nat>
    requires lo <= hi <= |t|
    decreases hi
  {
    if lo == hi then [] else Between(t, c, lo, hi - 1) + if Array(t, c, hi - 1) then [hi - 1] else []
  }

  // ----- lemmas about scopes -----

  lemma {:induction false} BeforeSplit(t: Tree, b: nat, lo: nat, hi: nat)
    requires lo <= hi <= |t|
    ensures ArraysBefore(t, b, hi) == ArraysBefore(t, b, lo) + Between(t, b, lo, hi)
    decreases hi
  {
    if lo < hi {
      BeforeSplit(t, b, lo, hi - 1);
    }
  }

  lemma {:induction false} BeforeRange(t: Tree, b: nat, n: nat)
    requires n <= |t|
    ensures forall v | v in ArraysBefore(t, b, n) :: v < n && Array(t, b, v)
  {
    if n > 0 {
      BeforeRange(t, b, n - 1);
    }
  }

  lemma {:induction false} BetweenRange(t: Tree, b: nat, lo: nat, hi: nat)
    requires lo <= hi <= |t|
    ensures forall v | v in Between(t, b, lo, hi) :: lo <= v < hi && Array(t, b, v)
    decreases hi
  {
    if lo < hi {
      BetweenRange(t, b, lo, hi - 1);
    }
  }

  lemma {:induction false} ScopeRange(t: Tree, x: nat)
    requires Valid(t) && x < |t|
    ensures forall v | v in Scope(t, x) :: v < x
  {
    if t[x].parent.Some? {
      ScopeRange(t, t[x].parent.value);
      BeforeRange(t, t[x].parent.value, x);
    }
  }

  lemma HeadBefore(t: Tree, b: nat, x: nat)
    requires Valid(t) && b < x < |t|
    ensures !HasArrays(t, b) ==> ArraysBefore(t, b, x) == []
    ensures HasArrays(t, b) && Head(t, b) < x ==> ArraysBefore(t, b, x) != [] && ArraysBefore(t, b, x)[0] == Head(t, b)
    ensures HasArrays(t, b) && Head(t, b) >= x ==> ArraysBefore(t, b, x) == []
    ensures HasArrays(t, b) ==> Head(t, b) > b
  {
    BeforeSplit(t, b, x, |t|);
    BeforeRange(t, b, x);
    BeforeRange(t, b, |t|);
    BetweenRange(t, b, x, |t|);
    if HasArrays(t, b) {
      assert Head(t, b) in ArraysBefore(t, b, |t|);
      if ArraysBefore(t, b, x) != [] {
        assert ArraysBefore(t, b, x)[0] in ArraysBefore(t, b, x);
      } else {
        assert Head(t, b) in Between(t, b, x, |t|);
      }
    }
  }

  lemma {:induction false} PopAt(stack: seq<nat>, v: nat, more: seq<nat>)
    requires v !in stack
    ensures Pop(stack + [v] + more, v) == Some(stack)
  {
    if stack != [] {
      assert (stack + [v] + more)[1..] == stack[1..] + [v] + more;
      PopAt(stack[1..], v, more);
      assert [stack[0]] + stack[1..] == stack;
    }
  }

  lemma {:induction false} PopMissing(stack: seq<nat>, v: nat)
    requires v !in stack
    ensures Pop(stack, v) == None
  {
    if stack != [] {
      PopMissing(stack[1..], v);
    }
  }

  lemma OnlyBlocksHold(t: Tree, b: nat)
    requires Valid(t) && b < |t| && HasArrays(t, b)
    ensures t[b].kind.Block?
  {
    BeforeRange(t, b, |t|);
    assert Array(t, b, ArraysBefore(t, b, |t|)[0]);
  }

  // ----- what a jump does to the scope -----

  /** Entering blocks without arrays brings none into scope. */
  lemma {:induction false} ClearScope(t: Tree, c: nat, x: nat)
    requires Valid(t) && Under(t, c, x) && Clear(t, c, x)
    ensures Scope(t, x) == Scope(t, ChildToward(t, c, x))
    decreases x
  {
    var b := t[x].parent.value;
    if b != c {
      HeadBefore(t, b, x);
      if HasArrays(t, b) {
        OnlyBlocksHold(t, b);
      }
      ClearScope(t, c, b);
    }
  }

  lemma {:induction false} ScopeGrows(t: Tree, c: nat, x: nat)
    requires Valid(t) && Under(t, c, x)
    ensures Scope(t, ChildToward(t, c, x)) <= Scope(t, x)
    decreases x
  {
    var b := t[x].parent.value;
    if b != c {
      ScopeGrows(t, c, b);
    }
  }

  /** The pops for the left blocks unwind to the common parent's child, if each block's first array precedes the origin. */
  lemma {:induction false} ExitsUnwind(t: Tree, c: nat, x: nat, more: seq<nat>)
    requires Valid(t) && Under(t, c, x)
    ensures Unwind(Some(Scope(t, x)), Exits(t, c, t[x].parent.value) + more) ==
            if HeadsPrecede(t, c, x) then Unwind(Some(Scope(t, ChildToward(t, c, x))), more) else None
    decreases x
  {
    hide ArraysBefore, Pop, Head, HasArrays;
    var b := t[x].parent.value;
    if b == c {
      assert Exits(t, c, b) + more == more;
    } else {
      assert Under(t, c, b);
      var rest := Exits(t, c, t[b].parent.value) + more;
      HeadBefore(t, b, x);
      ExitsUnwind(t, c, b, more);
      if HasArrays(t, b) {
        OnlyBlocksHold(t, b);
        assert Exits(t, c, b) + more == [Head(t, b)] + rest;
        HeadPop(t, b, x);
        UnwindFirst(Scope(t, x), Head(t, b), rest);
      } else {
        assert Exits(t, c, b) + more == rest;
        assert Scope(t, x) == Scope(t, b);
      }
    }
  }

  lemma UnwindFirst(stack: seq<nat>, v: nat, rest: seq<nat>)
    ensures Unwind(Some(stack), [v] + rest) == Unwind(Pop(stack, v), rest)
  {
    assert ([v] + rest)[1..] == rest;
  }

  lemma HeadPop(t: Tree, b: nat, x: nat)
    requires Valid(t) && x < |t| && t[x].parent == Some(b) && HasArrays(t, b)
    ensures Pop(Scope(t, x), Head(t, b)) == if Head(t, b) < x then Some(Scope(t, b)) else None
  {
    hide ArraysBefore, Pop;
    HeadBefore(t, b, x);
    ScopeRange(t, b);
    var h, arrays := Head(t, b), ArraysBefore(t, b, x);
    if h < x {
      assert Scope(t, x) == Scope(t, b) + [h] + arrays[1..];
      PopAt(Scope(t, b), h, arrays[1..]);
    } else {
      assert Scope(t, x) == Scope(t, b);
      PopMissing(Scope(t, b), h);
    }
  }

  /** Going back among the children of one parent: the pop of the first array passed restores the earlier scope. */
  lemma BackScope(t: Tree, c: nat, origin: nat, target: nat)
    requires Valid(t) && target < origin < |t| && t[origin].parent == Some(c) && t[target].parent == Some(c)
    ensures var passed := Between(t, c, target, origin);
            Unwind(Some(Scope(t, origin)), if passed != [] then [passed[0]] else []) == Some(Scope(t, target))
  {
    hide Valid, ArraysBefore, Between, Pop;
    var passed := Between(t, c, target, origin);
    BeforeSplit(t, c, target, origin);
    assert Scope(t, origin) == Scope(t, target) + passed;
    if passed != [] {
      BetweenRange(t, c, target, origin);
      ScopeRange(t, target);
      assert passed[0] in passed;
      PopRest(Scope(t, target), passed);
    } else {
      assert Scope(t, origin) == Scope(t, target);
    }
  }

  lemma PopRest(stack: seq<nat>, passed: seq<nat>)
    requires passed != [] && passed[0] !in stack
    ensures Unwind(Some(stack + passed), [passed[0]]) == Some(stack)
  {
    var v := passed[0];
    assert stack + passed == stack + [v] + passed[1..];
    PopAt(stack, v, passed[1..]);
    assert [v] + [] == [v];
    UnwindFirst(stack + passed, v, []);
  }

  // ----- jumps -----

  /** The lowest node above both. */
  ghost function CommonParent(t: Tree, x: nat, y: nat): (c: Option<nat>)
    requires Valid(t) && x < |t| && y < |t|
    ensures c.Some? ==> Above(t, c.value, x) && Above(t, c.value, y)
    decreases x
  {
    if Above(t, x, y) then
      Some(x)
    else
      match t[x].parent
      case None => None
      case Some(b) => CommonParent(t, b, y)
  }

  ghost predicate Jumpable(t: Tree, origin: nat, target: nat) {
    Valid(t) && origin < |t| && target < |t| && t[origin].kind.Point? && t[target].kind.Point?
  }

  lemma {:induction false} LeavesAboveNothing(t: Tree, x: nat, y: nat)
    requires Valid(t) && x < |t| && y < |t| && t[x].kind.Point? && Above(t, x, y)
    ensures x == y
    decreases y
  {
    if x != y {
      LeavesAboveNothing(t, x, t[y].parent.value);
    }
  }

  /** Two different points with a common parent lie under it, on different ways. */
  lemma Ways(t: Tree, origin: nat, target: nat)
    requires Jumpable(t, origin, target) && origin != target && CommonParent(t, origin, target).Some?
    ensures var c := CommonParent(t, origin, target).value;
            Under(t, c, origin) && Under(t, c, target) && ChildToward(t, c, origin) != ChildToward(t, c, target)
  {
    var c := CommonParent(t, origin, target).value;
    if Above(t, c, origin) && c == origin {
      LeavesAboveNothing(t, origin, target);
    }
    if c == target {
      LeavesAboveNothing(t, target, origin);
    }
    Lowest(t, origin, target);
    AboveChild(t, c, target);
  }

  lemma {:induction false} AboveChild(t: Tree, c: nat, x: nat)
    requires Valid(t) && Under(t, c, x)
    ensures Above(t, ChildToward(t, c, x), x)
    decreases x
  {
    if t[x].parent != Some(c) {
      AboveChild(t, c, t[x].parent.value);
    }
  }

  lemma {:induction false} Lowest(t: Tree, x: nat, y: nat)
    requires Valid(t) && x < |t| && y < |t| && CommonParent(t, x, y).Some?
    requires Under(t, CommonParent(t, x, y).value, x)
    ensures !Above(t, ChildToward(t, CommonParent(t, x, y).value, x), y)
    decreases x
  {
    var c := CommonParent(t, x, y).value;
    if t[x].parent != Some(c) {
      var b := t[x].parent.value;
      assert Above(t, c, b);
      Lowest(t, b, y);
    }
  }

  /** A jump is accepted when no entered block holds an array and, going forward, no array is passed. */
  ghost predicate CanJump(t: Tree, origin: nat, target: nat)
    requires Jumpable(t, origin, target)
  {
    origin != target && CommonParent(t, origin, target).Some? &&
    (Ways(t, origin, target);
     var c := CommonParent(t, origin, target).value;
     var o, x := ChildToward(t, c, origin), ChildToward(t, c, target);
     Clear(t, c, target) && (o < x ==> Between(t, c, o, x) == []))
  }

  /** The arrays whose saved stack pointers are restored, in order. */
  ghost function JumpPops(t: Tree, origin: nat, target: nat): seq<nat>
    requires Jumpable(t, origin, target) && origin != target && CommonParent(t, origin, target).Some?
  {
    Ways(t, origin, target);
    var c := CommonParent(t, origin, target).value;
    var o, x := ChildToward(t, c, origin), ChildToward(t, c, target);
    Exits(t, c, t[origin].parent.value) +
    if x < o && Between(t, c, x, o) != [] then [Between(t, c, x, o)[0]] else []
  }

  /** An accepted jump enters the scope of no array: what is in scope at the target was in scope at the origin
      (section 6.8.6.1 of C17), and it was there first. */
  lemma JumpSafe(t: Tree, origin: nat, target: nat)
    requires Jumpable(t, origin, target) && CanJump(t, origin, target)
    ensures Scope(t, target) <= Scope(t, origin)
  {
    Ways(t, origin, target);
    var c := CommonParent(t, origin, target).value;
    var o, x := ChildToward(t, c, origin), ChildToward(t, c, target);
    ClearScope(t, c, target);
    ScopeGrows(t, c, origin);
    if o < x {
      BeforeSplit(t, c, o, x);
    } else {
      BeforeSplit(t, c, x, o);
    }
  }

  /** The emitted pops leave the stack with exactly the arrays in scope at the target, if and only if
      each left block's first array precedes the origin; otherwise one restores a pointer never saved. */
  lemma JumpUnwinds(t: Tree, origin: nat, target: nat)
    requires Jumpable(t, origin, target) && CanJump(t, origin, target)
    ensures CommonParent(t, origin, target).Some? && Under(t, CommonParent(t, origin, target).value, origin)
    ensures Unwind(Some(Scope(t, origin)), JumpPops(t, origin, target)) ==
            if HeadsPrecede(t, CommonParent(t, origin, target).value, origin) then Some(Scope(t, target)) else None
  {
    Ways(t, origin, target);
    var c := CommonParent(t, origin, target).value;
    var o, x := ChildToward(t, c, origin), ChildToward(t, c, target);
    ClearScope(t, c, target);
    var last := if x < o && Between(t, c, x, o) != [] then [Between(t, c, x, o)[0]] else [];
    ExitsUnwind(t, c, origin, last);
    if o < x {
      BeforeSplit(t, c, o, x);
      assert Scope(t, o) == Scope(t, x);
    } else {
      BackScope(t, c, o, x);
    }
  }

  /** An array in scope lies directly in a block above, before the way to it. */
  lemma {:induction false} ScopeParents(t: Tree, x: nat, v: nat)
    requires Valid(t) && x < |t| && v in Scope(t, x)
    ensures v < |t| && t[v].parent.Some? && Under(t, t[v].parent.value, x) && v < ChildToward(t, t[v].parent.value, x)
  {
    var b := t[x].parent.value;
    BeforeRange(t, b, x);
    if v in Scope(t, b) {
      ScopeParents(t, b, v);
      AboveBelow(t, t[v].parent.value, b);
    }
  }

  lemma {:induction false} AboveBoth(t: Tree, c: nat, b: nat, x: nat)
    requires Valid(t) && x < |t| && c < b < |t| && Above(t, c, x) && Above(t, b, x)
    ensures Above(t, c, b) && Above(t, ChildToward(t, c, b), x)
    decreases x
  {
    if x == b {
      AboveChild(t, c, b);
    } else {
      AboveBelow(t, b, t[x].parent.value);
      AboveBoth(t, c, b, t[x].parent.value);
    }
  }

  lemma {:induction false} AboveBelow(t: Tree, b: nat, x: nat)
    requires Valid(t) && x < |t| && Above(t, b, x)
    ensures b <= x
  {
    if b != x {
      AboveBelow(t, b, t[x].parent.value);
    }
  }

  /** An array of an entered block is in scope at the target if the block's first one precedes it. */
  lemma {:induction false} EnteredAbove(t: Tree, c: nat, x: nat) returns (v: nat, b: nat)
    requires Valid(t) && Under(t, c, x) && HeadsPrecede(t, c, x) && !Clear(t, c, t[x].parent.value)
    ensures v in Scope(t, x) && v < |t| && t[v].parent == Some(b) && c < b < |t| && Above(t, c, b)
    decreases x
  {
    b := t[x].parent.value;
    AboveBelow(t, c, b);
    if t[b].kind.Block? && HasArrays(t, b) {
      v := Head(t, b);
      HeadBefore(t, b, x);
      BeforeRange(t, b, |t|);
      assert v in ArraysBefore(t, b, |t|);
    } else {
      v, b := EnteredAbove(t, c, b);
    }
  }

  /** A jump is accepted exactly when it enters the scope of no array and no entered block declares its first
      array after the target. */
  lemma JumpExact(t: Tree, origin: nat, target: nat)
    requires Jumpable(t, origin, target) && origin != target && CommonParent(t, origin, target).Some?
    ensures Under(t, CommonParent(t, origin, target).value, target)
    ensures CanJump(t, origin, target) <==>
            HeadsPrecede(t, CommonParent(t, origin, target).value, target) &&
            forall v | v in Scope(t, target) :: v in Scope(t, origin)
  {
    hide Clear, HeadsPrecede, Scope, Between, ChildToward;
    Ways(t, origin, target);
    var c := CommonParent(t, origin, target).value;
    ClearPoint(t, c, target);
    if CanJump(t, origin, target) {
      JumpSafe(t, origin, target);
      ClearPrecedes(t, c, target);
    } else if HeadsPrecede(t, c, target) {
      if Clear(t, c, target) {
        PassedOut(t, c, origin, target);
      } else {
        EnteredOut(t, origin, target);
      }
    }
  }

  /** A block without arrays has none after the target. */
  lemma {:induction false} ClearPrecedes(t: Tree, c: nat, x: nat)
    requires Valid(t) && Under(t, c, x) && Clear(t, c, t[x].parent.value)
    ensures HeadsPrecede(t, c, x)
    decreases x
  {
    hide HasArrays, Head;
    if t[x].parent != Some(c) {
      var b := t[x].parent.value;
      if HasArrays(t, b) {
        OnlyBlocksHold(t, b);
      }
      ClearPrecedes(t, c, b);
    }
  }

  lemma EnteredOut(t: Tree, origin: nat, target: nat)
    requires Jumpable(t, origin, target) && origin != target && CommonParent(t, origin, target).Some?
    requires var c := CommonParent(t, origin, target).value;
             Under(t, c, target) && HeadsPrecede(t, c, target) && !Clear(t, c, target)
    ensures exists v :: v in Scope(t, target) && v !in Scope(t, origin)
  {
    hide Scope, HeadsPrecede, Clear;
    var c := CommonParent(t, origin, target).value;
    Ways(t, origin, target);
    ClearPoint(t, c, target);
    var v, b := EnteredAbove(t, c, target);
    if v in Scope(t, origin) {
      ScopeParents(t, origin, v);
      ScopeParents(t, target, v);
      AboveBoth(t, c, b, origin);
      AboveBoth(t, c, b, target);
      SameChild(t, c, b, origin);
      Lowest(t, origin, target);
    }
  }

  lemma ClearPoint(t: Tree, c: nat, x: nat)
    requires Valid(t) && Under(t, c, x) && t[x].kind.Point?
    ensures Clear(t, c, x) <==> Clear(t, c, t[x].parent.value)
  {
  }

  lemma {:induction false} SameChild(t: Tree, c: nat, b: nat, x: nat)
    requires Valid(t) && b < |t| && Under(t, c, b) && Under(t, c, x) && Above(t, b, x)
    ensures ChildToward(t, c, b) == ChildToward(t, c, x)
    decreases x
  {
    if b != x {
      var p := t[x].parent.value;
      AboveBelow(t, b, p);
      AboveBelow(t, c, t[b].parent.value);
      SameChild(t, c, b, p);
    }
  }

  lemma PassedOut(t: Tree, c: nat, origin: nat, target: nat)
    requires Valid(t) && Under(t, c, origin) && Under(t, c, target)
    requires ChildToward(t, c, origin) < ChildToward(t, c, target)
    requires Between(t, c, ChildToward(t, c, origin), ChildToward(t, c, target)) != []
    ensures exists v :: v in Scope(t, target) && v !in Scope(t, origin)
  {
    var o, x := ChildToward(t, c, origin), ChildToward(t, c, target);
    var v := Between(t, c, o, x)[0];
    BetweenRange(t, c, o, x);
    assert v in Between(t, c, o, x);
    BeforeSplit(t, c, o, x);
    ScopeGrows(t, c, target);
    assert v in Scope(t, x);
    if v in Scope(t, origin) {
      ScopeParents(t, origin, v);
    }
  }

  /** A block that declares its only array after the point being left: the pop is of an array never allocated. */
  lemma EarlyExit()
    ensures var t := [Node(Block, None), Node(Block, Some(0)), Node(Point, Some(1)), Node(VlArray, Some(1)), Node(Point, Some(0))];
            Valid(t) && Jumpable(t, 2, 4) && CanJump(t, 2, 4) && JumpPops(t, 2, 4) == [3] && Scope(t, 2) == []
  {
    var t := [Node(Block, None), Node(Block, Some(0)), Node(Point, Some(1)), Node(VlArray, Some(1)), Node(Point, Some(0))];
    assert Valid(t);
    assert CommonParent(t, 2, 4) == CommonParent(t, 1, 4) == CommonParent(t, 0, 4) == Some(0);
    assert ChildToward(t, 0, 2) == 1 && ChildToward(t, 0, 4) == 4;
    assert ArraysBefore(t, 1, 5) == ArraysBefore(t, 1, 4) == [3];
    assert Exits(t, 0, 1) == [3];
  }

  /** A label before the only array of its block: nothing comes into scope, yet the jump is refused. */
  lemma RefusedEntry()
    ensures var t := [Node(Block, None), Node(Point, Some(0)), Node(Block, Some(0)), Node(Point, Some(2)), Node(VlArray, Some(2))];
            Valid(t) && Jumpable(t, 1, 3) && !CanJump(t, 1, 3) && Scope(t, 3) == Scope(t, 1)
  {
  }
}
