/** The loops of ast-translator/jump.c and the tree queries of ast/flow_control.c that it uses. */
module JumpTranslator {
  import opened Options
  import opened Jumps

  /** The arrays before n are all of them there. */
  lemma {:induction false} ArraysAll(t: Tree, b: nat, n: nat)
    requires n <= |t|
    ensures forall i: nat | i < n :: Array(t, b, i) <==> i in ArraysBefore(t, b, n)
  {
    if n > 0 {
      ArraysAll(t, b, n - 1);
      BeforeRange(t, b, n - 1);
    }
  }

  /** The head of a block is the first array directly in it. */
  lemma HeadFirst(t: Tree, b: nat)
    ensures HasArrays(t, b) <==> exists i: nat :: Array(t, b, i)
    ensures HasArrays(t, b) ==> Array(t, b, Head(t, b)) && forall i: nat | Array(t, b, i) :: Head(t, b) <= i
  {
    hide ArraysBefore;
    ArraysAll(t, b, |t|);
    if HasArrays(t, b) {
      BeforeRange(t, b, |t|);
      assert Head(t, b) in ArraysBefore(t, b, |t|);
      BeforeAscends(t, b, |t|);
      forall i: nat | Array(t, b, i)
        ensures Head(t, b) <= i
      {
        var k :| 0 <= k < |ArraysBefore(t, b, |t|)| && ArraysBefore(t, b, |t|)[k] == i;
      }
    }
  }

  lemma {:induction false} BeforeAscends(t: Tree, b: nat, n: nat)
    requires n <= |t|
    ensures forall j, k | 0 <= j < k < |ArraysBefore(t, b, n)| :: ArraysBefore(t, b, n)[j] < ArraysBefore(t, b, n)[k]
  {
    if n > 0 {
      var before := ArraysBefore(t, b, n - 1);
      BeforeAscends(t, b, n - 1);
      BeforeRange(t, b, n - 1);
      assert forall j | 0 <= j < |before| :: before[j] in before;
    }
  }

  method ContainsArrays(t: Tree, b: nat) returns (r: bool)
    ensures r <==> HasArrays(t, b)
    ensures r <==> exists i: nat :: Array(t, b, i)
  {
    HeadFirst(t, b);
    var i := 0;
    while i < |t|
      invariant i <= |t|
      invariant ArraysBefore(t, b, i) == []
    {
      if t[i].parent == Some(b) && t[i].kind.VlArray? {
        BeforeSplit(t, b, i + 1, |t|);
        return true;
      }
      i := i + 1;
    }
    return false;
  }

  method ArrayHead(t: Tree, b: nat) returns (r: Option<nat>)
    ensures r == if HasArrays(t, b) then Some(Head(t, b)) else None
    ensures r.Some? ==> Array(t, b, r.value)
    ensures forall i: nat | Array(t, b, i) :: r.Some? && r.value <= i
  {
    hide HasArrays, Head, Array;
    HeadFirst(t, b);
    r := FirstArray(t, b);
  }

  method FirstArray(t: Tree, b: nat) returns (r: Option<nat>)
    ensures r == if HasArrays(t, b) then Some(Head(t, b)) else None
  {
    var i := 0;
    while i < |t|
      invariant i <= |t|
      invariant ArraysBefore(t, b, i) == []
    {
      if t[i].parent == Some(b) && t[i].kind.VlArray? {
        BeforeSplit(t, b, i + 1, |t|);
        return Some(i);
      }
      i := i + 1;
    }
    return None;
  }

  method FindCommonParent(t: Tree, x: nat, y: nat) returns (common: Option<nat>)
    requires Valid(t) && x < |t| && y < |t|
    ensures common == CommonParent(t, x, y)
    ensures common.Some? ==> Above(t, common.value, x) && Above(t, common.value, y)
    ensures forall a: nat | Above(t, a, x) && Above(t, a, y) :: common.Some? && a <= common.value
  {
    LowestCommon(t, x, y);
    common := None;
    var p: Option<nat> := Some(x);
    while p.Some? && common.None?
      invariant p.Some? ==> p.value < |t|
      invariant CommonParent(t, x, y) == if common.Some? then common else if p.Some? then CommonParent(t, p.value, y) else None
      decreases if p.Some? then p.value + 1 else 0, if common.None? then 1 else 0
    {
      var q: Option<nat> := Some(y);
      while q.Some? && common.None?
        invariant q.Some? ==> q.value < |t|
        invariant common.Some? ==> common == p
        invariant Above(t, p.value, y) <==> common.Some? || (q.Some? && Above(t, p.value, q.value))
        decreases if q.Some? then q.value + 1 else 0, if common.None? then 1 else 0
      {
        if q == p {
          common := q;
        } else {
          q := t[q.value].parent;
        }
      }
      if common.None? {
        p := t[p.value].parent;
      }
    }
  }

  /** Every node above both is above the lowest, so it was added no later. */
  lemma {:induction false} LowestCommon(t: Tree, x: nat, y: nat)
    requires Valid(t) && x < |t| && y < |t|
    ensures forall a: nat | Above(t, a, x) && Above(t, a, y) :: CommonParent(t, x, y).Some? && a <= CommonParent(t, x, y).value
    decreases x
  {
    forall a: nat | Above(t, a, x)
      ensures a <= x
    {
      AboveEarlier(t, a, x);
    }
    if !Above(t, x, y) && t[x].parent.Some? {
      LowestCommon(t, t[x].parent.value, y);
    }
  }

  lemma {:induction false} AboveEarlier(t: Tree, a: nat, x: nat)
    requires Valid(t) && x < |t| && Above(t, a, x)
    ensures a <= x
    decreases x
  {
    if x != a {
      AboveEarlier(t, a, t[x].parent.value);
    }
  }

  /** The nodes from x up to, but without, the top. */
  ghost function Chain(t: Tree, top: nat, x: nat): (chain: seq<nat>)
    requires Valid(t) && x < |t| && Above(t, top, x)
    ensures forall k | 0 <= k < |chain| :: chain[k] < |t|
    decreases x
  {
    if x == top then [] else [x] + Chain(t, top, t[x].parent.value)
  }

  /** The chain holds exactly the nodes above x and under the top, the later ones first. */
  lemma {:induction false} ChainNodes(t: Tree, top: nat, x: nat)
    requires Valid(t) && x < |t| && Above(t, top, x)
    ensures forall a: nat :: a in Chain(t, top, x) <==> a != top && a < |t| && Above(t, a, x) && Above(t, top, a)
    ensures forall i, j | 0 <= i < j < |Chain(t, top, x)| :: Chain(t, top, x)[i] > Chain(t, top, x)[j]
    ensures forall k | 0 <= k < |Chain(t, top, x)| :: Chain(t, top, x)[k] <= x
    decreases x
  {
    if x == top {
      forall a: nat | a < |t| && Above(t, a, top) && Above(t, top, a)
        ensures a == top
      {
        AboveEarlier(t, a, top);
        AboveEarlier(t, top, a);
      }
    } else {
      ChainNodes(t, top, t[x].parent.value);
    }
  }

  method PointParents(t: Tree, x: nat, top: nat) returns (parents: seq<nat>)
    requires Valid(t) && x < |t| && Above(t, top, x)
    ensures parents == Chain(t, top, x)
    ensures forall a: nat :: a in parents <==> a != top && a < |t| && Above(t, a, x) && Above(t, top, a)
    ensures forall i, j | 0 <= i < j < |parents| :: parents[i] > parents[j]
  {
    parents := [];
    var p: Option<nat> := Some(x);
    while p != Some(top) && p.Some?
      invariant p.Some? && p.value < |t| && Above(t, top, p.value)
      invariant Chain(t, top, x) == parents + Chain(t, top, p.value)
      decreases if p.Some? then p.value + 1 else 0
    {
      parents := parents + [p.value];
      p := t[p.value].parent;
    }
    ChainNodes(t, top, x);
  }

  datatype Outcome = Accepted | IntoArrayScope | PastArray | InvalidState | NoCommonParent

  /** The way to the target is clear when no block on it holds an array. */
  lemma {:induction false} ClearMeans(t: Tree, c: nat, x: nat)
    requires Valid(t) && x < |t| && Above(t, c, x)
    ensures Clear(t, c, x) <==> forall b: nat, i: nat | b in Chain(t, c, x) && Array(t, b, i) :: !t[b].kind.Block?
    decreases x
  {
    hide HasArrays, Array;
    if x != c {
      HeadFirst(t, x);
      ClearMeans(t, c, t[x].parent.value);
    }
  }

  /** Checks the blocks entered on the way to the target; ends at the outermost node entered. */
  method CheckEntered(t: Tree, parents: seq<nat>, target: nat, c: nat) returns (ok: bool, top: nat)
    requires Valid(t) && target < |t| && Above(t, c, target) && parents == Chain(t, c, target)
    ensures ok <==> Clear(t, c, target)
    ensures ok <==> forall b: nat, i: nat | b in parents && Array(t, b, i) :: !t[b].kind.Block?
    ensures ok && Under(t, c, target) ==> top == ChildToward(t, c, target)
    ensures target == c ==> top == target
  {
    ClearMeans(t, c, target);
    top := target;
    ghost var x: nat := target;
    var k := 0;
    while k < |parents|
      invariant k <= |parents|
      invariant x < |t| && Above(t, c, x) && parents[k..] == Chain(t, c, x)
      invariant Clear(t, c, target) <==> Clear(t, c, x)
      invariant x == c && target != c ==> top == ChildToward(t, c, target)
      invariant x != c ==> Under(t, c, x) && ChildToward(t, c, x) == ChildToward(t, c, target)
      invariant target == c ==> x == c && top == target
    {
      assert parents[k..][0] == parents[k];
      if t[parents[k]].kind.Block? {
        var holds := ContainsArrays(t, parents[k]);
        if holds {
          return false, top;
        }
      }
      top := parents[k];
      assert parents[k..][1..] == parents[k + 1..];
      x := t[x].parent.value;
      k := k + 1;
    }
    assert Chain(t, c, x) == [];
    ok := true;
  }

  /** The head arrays of the blocks from p up to c, or to the top if c is not above, innermost first. */
  ghost function ExitsFrom(t: Tree, c: nat, p: Option<nat>): seq<nat>
    requires Valid(t) && (p.Some? ==> p.value < |t|)
    decreases if p.Some? then p.value + 1 else 0
  {
    if p == None || p == Some(c) then
      []
    else
      (if t[p.value].kind.Block? && HasArrays(t, p.value) then [Head(t, p.value)] else []) + ExitsFrom(t, c, t[p.value].parent)
  }

  lemma {:induction false} ExitsBelow(t: Tree, c: nat, x: nat)
    requires Valid(t) && x < |t| && Above(t, c, x)
    ensures ExitsFrom(t, c, Some(x)) == Exits(t, c, x)
    decreases x
  {
    hide HasArrays, Head;
    if x != c {
      ExitsBelow(t, c, t[x].parent.value);
    }
  }

  lemma LeaveStep(t: Tree, c: nat, x: nat)
    requires Valid(t) && x < |t| && c < |t|
    ensures t[x].parent.Some? ==> t[x].parent.value < x
    ensures x != c ==>
              ExitsFrom(t, c, Some(x)) ==
              (if t[x].kind.Block? && HasArrays(t, x) then [Head(t, x)] else []) + ExitsFrom(t, c, t[x].parent)
    ensures ExitsFrom(t, c, None) == [] && ExitsFrom(t, c, Some(c)) == []
    ensures Under(t, c, x) && t[x].parent != Some(c) ==>
              t[x].parent.Some? && Under(t, c, t[x].parent.value) && ChildToward(t, c, x) == ChildToward(t, c, t[x].parent.value)
    ensures Under(t, c, x) && t[x].parent == Some(c) ==> ChildToward(t, c, x) == x
    ensures x != c && t[x].parent == None ==> !Under(t, c, x)
  {
    hide HasArrays, Head;
  }

  /** Leaving one more node p: its pop, if any, comes before those of the nodes above. */
  lemma LeaveNext(t: Tree, c: nat, top: nat, p: nat)
    requires Valid(t) && top < |t| && c < |t| && p < |t| && p != c && t[top].parent == Some(p)
    ensures t[p].parent.Some? ==> t[p].parent.value < p
    ensures ExitsFrom(t, c, Some(p)) == (if t[p].kind.Block? && HasArrays(t, p) then [Head(t, p)] else []) + ExitsFrom(t, c, t[p].parent)
    ensures Under(t, c, top) ==> Under(t, c, p) && ChildToward(t, c, p) == ChildToward(t, c, top)
  {
    hide HasArrays, Head, Exits, ExitsFrom, ChildToward, Under;
    LeaveStep(t, c, top);
    LeaveStep(t, c, p);
  }

  /** Emits a pop for each left block that holds arrays, innermost first, up to the common parent or the top. */
  method LeaveBlocks(t: Tree, origin: nat, c: nat) returns (pops: seq<nat>, top: nat)
    requires Valid(t) && origin < |t| && c < |t|
    ensures pops == ExitsFrom(t, c, t[origin].parent)
    ensures Under(t, c, origin) ==> pops == Exits(t, c, t[origin].parent.value) && top == ChildToward(t, c, origin)
  {
    hide HasArrays, Head, Array, ArraysBefore, Exits, ExitsFrom, ChildToward, Under;
    pops := [];
    top := origin;
    LeaveStep(t, c, c);
    LeaveStep(t, c, top);
    var p := t[origin].parent;
    while p.Some? && p != Some(c)
      invariant p.Some? ==> p.value < |t|
      invariant top < |t| && t[top].parent == p
      invariant Under(t, c, origin) ==> Under(t, c, top) && ChildToward(t, c, top) == ChildToward(t, c, origin)
      invariant ExitsFrom(t, c, t[origin].parent) == pops + ExitsFrom(t, c, p)
      decreases if p.Some? then p.value + 1 else 0
    {
      LeaveNext(t, c, top, p.value);
      if t[p.value].kind.Block? {
        var holds := ContainsArrays(t, p.value);
        if holds {
          var head := ArrayHead(t, p.value);
          pops := pops + [head.value];
        }
      }
      top := p.value;
      p := t[p.value].parent;
    }
    LeaveStep(t, c, top);
    OutermostLeft(t, c, origin, top);
  }

  lemma OutermostLeft(t: Tree, c: nat, origin: nat, top: nat)
    requires Valid(t) && origin < |t| && top < |t| && (t[top].parent == None || t[top].parent == Some(c))
    requires Under(t, c, origin) ==> Under(t, c, top) && ChildToward(t, c, top) == ChildToward(t, c, origin)
    ensures Under(t, c, origin) ==>
              t[origin].parent.Some? && Above(t, c, t[origin].parent.value) &&
              ExitsFrom(t, c, t[origin].parent) == Exits(t, c, t[origin].parent.value) && top == ChildToward(t, c, origin)
  {
    hide ExitsFrom, Exits;
    if Under(t, c, origin) {
      ExitsBelow(t, c, t[origin].parent.value);
    }
  }

  /** The arrays from lo to hi are all of them there, in ascending order. */
  lemma {:induction false} BetweenAll(t: Tree, c: nat, lo: nat, hi: nat)
    requires lo <= hi <= |t|
    ensures forall i: nat | lo <= i < hi :: Array(t, c, i) <==> i in Between(t, c, lo, hi)
    ensures forall j | 0 <= j < |Between(t, c, lo, hi)| :: Between(t, c, lo, hi)[0] <= Between(t, c, lo, hi)[j]
    decreases hi
  {
    if lo < hi {
      var before := Between(t, c, lo, hi - 1);
      BetweenAll(t, c, lo, hi - 1);
      BetweenRange(t, c, lo, hi - 1);
      assert before != [] ==> before[0] in before;
    }
  }

  /** The first array from lo to hi. */
  lemma BetweenFirst(t: Tree, c: nat, lo: nat, hi: nat)
    requires lo <= hi <= |t|
    ensures Between(t, c, lo, hi) == [] <==> forall i: nat | Array(t, c, i) :: !(lo <= i < hi)
    ensures Between(t, c, lo, hi) != [] ==>
              var h := Between(t, c, lo, hi)[0];
              Array(t, c, h) && lo <= h < hi && forall i: nat | Array(t, c, i) && lo <= i :: h <= i
  {
    hide Between;
    var between := Between(t, c, lo, hi);
    BetweenAll(t, c, lo, hi);
    BetweenRange(t, c, lo, hi);
    if between != [] {
      assert between[0] in between;
    }
  }

  /** Looks at the arrays between the two ways: none may be passed forward, the first passed backward is popped. */
  method PassSiblings(t: Tree, c: nat, origin: nat, target: nat) returns (ok: bool, pops: seq<nat>)
    requires Valid(t) && origin < |t| && target < |t| && origin != target
    requires t[origin].parent == Some(c) && t[target].parent == Some(c)
    requires !t[origin].kind.VlArray? && !t[target].kind.VlArray?
    ensures ok <==> (origin < target ==> Between(t, c, origin, target) == [])
    ensures ok ==> pops == if target < origin && Between(t, c, target, origin) != [] then [Between(t, c, target, origin)[0]] else []
    ensures ok <==> forall i: nat | Array(t, c, i) :: !(origin < i < target)
    ensures ok ==> (pops == [] <==> forall i: nat | Array(t, c, i) :: !(target < i < origin))
    ensures ok && pops != [] ==>
              |pops| == 1 && Array(t, c, pops[0]) && target < pops[0] < origin &&
              forall i: nat | Array(t, c, i) && target < i :: pops[0] <= i
  {
    hide Between;
    if origin < target {
      BetweenFirst(t, c, origin, target);
    } else {
      BetweenFirst(t, c, target, origin);
    }
    ok, pops := ScanSiblings(t, c, origin, target);
  }

  method ScanSiblings(t: Tree, c: nat, origin: nat, target: nat) returns (ok: bool, pops: seq<nat>)
    requires Valid(t) && origin < |t| && target < |t| && origin != target
    requires t[origin].parent == Some(c) && t[target].parent == Some(c)
    requires !t[origin].kind.VlArray? && !t[target].kind.VlArray?
    ensures ok <==> (origin < target ==> Between(t, c, origin, target) == [])
    ensures ok ==> pops == if target < origin && Between(t, c, target, origin) != [] then [Between(t, c, target, origin)[0]] else []
  {
    hide Between, Valid;
    var foundOrigin, foundTarget := false, false;
    var i := 0;
    pops := [];
    while i < |t|
      invariant i <= |t|
      invariant !foundOrigin && !foundTarget ==> i <= origin && i <= target
      invariant foundOrigin ==> !foundTarget && origin < i <= target && Between(t, c, origin, i) == []
      invariant foundTarget ==> !foundOrigin && target < i <= origin && Between(t, c, target, i) == []
    {
      if foundOrigin {
        BetweenNext(t, c, origin, i);
      } else if foundTarget {
        BetweenNext(t, c, target, i);
      } else {
        BetweenNext(t, c, i, i);
      }
      if t[i].parent == Some(c) {
        if foundOrigin {
          if i == target {
            return true, [];
          } else if t[i].kind.VlArray? {
            BetweenSplit(t, c, origin, i + 1, target);
            return false, [];
          }
        } else if foundTarget {
          if i == origin {
            return true, [];
          } else if t[i].kind.VlArray? {
            BetweenSplit(t, c, target, i + 1, origin);
            return true, [i];
          }
        } else if i == origin {
          foundOrigin := true;
        } else if i == target {
          foundTarget := true;
        }
      }
      i := i + 1;
    }
    ok := true;
  }

  lemma BetweenNext(t: Tree, c: nat, lo: nat, hi: nat)
    requires lo <= hi < |t|
    ensures Between(t, c, lo, hi + 1) == Between(t, c, lo, hi) + if Array(t, c, hi) then [hi] else []
    ensures Between(t, c, lo, lo) == []
  {
  }

  lemma BetweenSplit(t: Tree, c: nat, lo: nat, mid: nat, hi: nat)
    requires lo <= mid <= hi <= |t|
    ensures Between(t, c, lo, hi) == Between(t, c, lo, mid) + Between(t, c, mid, hi)
    decreases hi
  {
    if mid < hi {
      BetweenSplit(t, c, lo, mid, hi - 1);
    }
  }

  lemma {:induction false} WayHolds(t: Tree, c: nat, x: nat)
    requires Valid(t) && Under(t, c, x) && t[x].kind.Point?
    ensures !t[ChildToward(t, c, x)].kind.VlArray?
  {
    if t[x].parent != Some(c) {
      InnerHolds(t, c, t[x].parent.value, x);
    }
  }

  lemma {:induction false} InnerHolds(t: Tree, c: nat, b: nat, x: nat)
    requires Valid(t) && Under(t, c, b) && x < |t| && t[x].parent == Some(b)
    ensures !t[ChildToward(t, c, b)].kind.VlArray?
    decreases b
  {
    if t[b].parent != Some(c) {
      InnerHolds(t, c, t[b].parent.value, b);
    }
  }

  /** Translates a jump: refuses it or emits the pops. A refusal comes after the pops that were emitted before it. */
  method TranslateJump(t: Tree, origin: nat, target: nat) returns (r: Outcome, pops: seq<nat>)
    requires Jumpable(t, origin, target)
    ensures r == Accepted <==> CanJump(t, origin, target)
    ensures r == Accepted ==> pops == JumpPops(t, origin, target)
    ensures r == NoCommonParent <==> CommonParent(t, origin, target).None?
    ensures r == InvalidState <==> origin == target
    ensures r == IntoArrayScope <==>
            origin != target && CommonParent(t, origin, target).Some? && !Clear(t, CommonParent(t, origin, target).value, target)
    ensures r == NoCommonParent || r == IntoArrayScope ==> pops == []
    ensures r == PastArray ==> pops == ExitsFrom(t, CommonParent(t, origin, target).value, t[origin].parent)
    ensures r == InvalidState ==> pops == ExitsFrom(t, origin, t[origin].parent)
  {
    hide ExitsFrom, HasArrays;
    var common := FindCommonParent(t, origin, target);
    if common.None? {
      return NoCommonParent, [];
    }
    var c := common.value;
    AboveBelow(t, c, origin);
    var parents := PointParents(t, target, c);
    if origin != target {
      Ways(t, origin, target);
    }
    var entered, x := CheckEntered(t, parents, target, c);
    if !entered {
      return IntoArrayScope, [];
    }
    var o;
    pops, o := LeaveBlocks(t, origin, c);
    if o == x || t[x].parent != Some(c) || t[o].parent != Some(c) {
      return InvalidState, pops;
    }
    WayHolds(t, c, origin);
    WayHolds(t, c, target);
    var ok, passed := PassSiblings(t, c, o, x);
    if !ok {
      return PastArray, pops;
    }
    return Accepted, pops + passed;
  }
}
