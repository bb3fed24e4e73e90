/** Unrolling through linked copies that are changed in place (ast/designator.c). */
module DesignatorUnroll {
  import opened Designators
  import opened EndlessRanges

  /** A copy of one designator step; its link is set before it is followed. */
  class Cell {
    var step: Step
    var next: Cell?

    constructor (step: Step)
      ensures this.step == step && next == null
    {
      this.step := step;
      next := null;
    }
  }

  ghost predicate Distinct(path: seq<Cell>) {
    forall i, j | 0 <= i < j < |path| :: path[i] != path[j]
  }

  /** Each copy but the last links to the next. */
  ghost predicate Linked(path: seq<Cell>)
    reads path
  {
    forall k | 0 <= k < |path| - 1 :: path[k].next == path[k + 1]
  }

  ghost function Steps(path: seq<Cell>): (steps: Chain)
    reads path
    ensures |steps| == |path| && forall k | 0 <= k < |path| :: steps[k] == path[k].step
  {
    seq(|path|, k requires 0 <= k < |path| reads path => path[k].step)
  }

  ghost function Last(path: seq<Cell>): Cell? {
    if path == [] then null else path[|path| - 1]
  }

  ghost function First(path: seq<Cell>): Cell? {
    if path == [] then null else path[0]
  }

  /** The callback: it records the chains it is given and fails once it holds as many as it can. */
  class Callback {
    var calls: seq<Chain>
    const limit: nat

    constructor (limit: nat)
      ensures calls == [] && this.limit == limit
    {
      calls := [];
      this.limit := limit;
    }

    method Call(root: Cell?, ghost path: seq<Cell>) returns (ok: bool)
      requires Distinct(path) && Linked(path) && root == First(path) && (path != [] ==> Last(path).next == null)
      modifies `calls
      ensures ok <==> |old(calls)| < limit
      ensures calls == if ok then old(calls) + [Steps(path)] else old(calls)
    {
      if |calls| >= limit {
        return false;
      }
      var chain: Chain := [];
      var c := root;
      while c != null
        invariant |chain| <= |path| && chain == Steps(path)[..|chain|]
        invariant c == if |chain| < |path| then path[|chain|] else null
        decreases |path| - |chain|
      {
        chain := chain + [c.step];
        c := c.next;
      }
      assert chain == Steps(path);
      calls := calls + [chain];
      ok := true;
    }
  }

  /** What the callback holds after being given chains until it fails. */
  ghost predicate Given(before: seq<Chain>, chains: seq<Chain>, limit: nat, after: seq<Chain>, ok: bool) {
    (ok <==> |before| + |chains| <= limit) &&
    |before| <= limit && after == if ok then before + chains else (before + chains)[..limit]
  }

  lemma GivenBoth(before: seq<Chain>, us: seq<Chain>, middle: seq<Chain>, vs: seq<Chain>, limit: nat, after: seq<Chain>, ok: bool)
    requires Given(before, us, limit, middle, true) && Given(middle, vs, limit, after, ok)
    ensures Given(before, us + vs, limit, after, ok)
  {
    assert before + (us + vs) == before + us + vs;
  }

  lemma GivenFails(before: seq<Chain>, us: seq<Chain>, vs: seq<Chain>, limit: nat, after: seq<Chain>)
    requires Given(before, us, limit, after, false)
    ensures Given(before, us + vs, limit, after, false)
  {
    assert before + (us + vs) == before + us + vs;
  }

  lemma PrefixedNested(p: Chain, s: Step, us: seq<Chain>)
    ensures Prefixed(p + [s], us) == Prefixed(p, Prefixed([s], us))
  {
    forall k | 0 <= k < |us|
      ensures Prefixed(p + [s], us)[k] == Prefixed(p, Prefixed([s], us))[k]
    {
      assert p + [s] + us[k] == p + ([s] + us[k]);
    }
  }

  lemma PrefixedJoin(p: Chain, us: seq<Chain>, vs: seq<Chain>)
    ensures Prefixed(p, us + vs) == Prefixed(p, us) + Prefixed(p, vs)
  {
  }

  lemma StepsSnoc(path: seq<Cell>, copy: Cell)
    ensures Steps(path + [copy]) == Steps(path) + [copy.step]
  {
  }

  /** What the callback holds after the unrolling: all its chains, unless a call fails, as one does if the unrolling
      comes to a loop that does not end by itself. */
  ghost predicate Unrolls(before: seq<Chain>, p: Chain, d: Chain, limit: nat, after: seq<Chain>, ok: bool) {
    (Diverges(d) ==> !ok) && exists m: nat :: Given(before, Prefixed(p, Unrolling(d, m)), limit, after, ok)
  }

  /** Calls back with the copies so far followed by each chain of the rest of the designator, in order. */
  method UnrollFrom(root: Cell?, prev: Cell?, d: Chain, callback: Callback, ghost path: seq<Cell>) returns (ok: bool)
    requires Sized(d) && !Silent(d) && Distinct(path) && Linked(path) && root == First(path) && prev == Last(path)
    requires d == [] && path != [] ==> Last(path).next == null
    requires |callback.calls| <= callback.limit
    modifies (if prev == null then {} else {prev})`next, callback`calls
    ensures Unrolls(old(callback.calls), old(Steps(path)), d, callback.limit, callback.calls, ok)
    ensures d == [] && prev != null ==> prev.next == old(prev.next)
    decreases |d|, 1
  {
    hide Unrolls, Prefixed, Silent, Sized;
    if d == [] {
      ok := callback.Call(root, path);
      UnrollsOne(old(callback.calls), Steps(path), callback.limit, callback.calls, ok);
      return;
    }
    var copy := new Cell(d[0]);
    var top := if root == null then copy else root;
    if prev != null {
      prev.next := copy;
    }
    ghost var longer := path + [copy];
    StepsSnoc(path, copy);
    assert Steps(path) == old(Steps(path));
    if d[0].Range? {
      ok := UnrollRange(top, copy, d, callback, path);
    } else {
      RestRuns(d);
      ok := UnrollFrom(top, copy, d[1..], callback, longer);
      UnrollsStep(old(callback.calls), old(Steps(path)), d, callback.limit, callback.calls, ok);
    }
  }

  lemma UnrollsOne(before: seq<Chain>, chain: Chain, limit: nat, after: seq<Chain>, ok: bool)
    requires |before| <= limit && (ok <==> |before| < limit) && after == if ok then before + [chain] else before
    ensures Unrolls(before, chain, [], limit, after, ok)
  {
    assert chain + [] == chain;
    assert Prefixed(chain, Unrolling([], 0)) == [chain];
  }

  lemma UnrollsStep(before: seq<Chain>, p: Chain, d: Chain, limit: nat, after: seq<Chain>, ok: bool)
    requires d != [] && !d[0].Range? && Unrolls(before, p + [d[0]], d[1..], limit, after, ok)
    ensures Unrolls(before, p, d, limit, after, ok)
  {
    hide Given, Prefixed;
    var m: nat :| Given(before, Prefixed(p + [d[0]], Unrolling(d[1..], m)), limit, after, ok);
    PrefixedNested(p, d[0], Unrolling(d[1..], m));
    assert Prefixed(p, Unrolling(d, m)) == Prefixed(p + [d[0]], Unrolling(d[1..], m));
  }

  /** The rest of a designator that is reached is unrolled under the same conditions. */
  lemma RestRuns(d: Chain)
    requires d != [] && Sized(d) && !Silent(d) && !Backward(d[0])
    ensures Sized(d[1..]) && !Silent(d[1..])
    ensures Endless(d[0]) && !Diverges(d[1..]) ==> Unrolled(d[1..]) != []
  {
    var rest := d[1..];
    if Silent(rest) {
      SilentDiverges(rest);
    }
    if Endless(d[0]) && !Diverges(rest) {
      assert forall k | 0 <= k < |rest| :: rest[k] == d[k + 1];
      SomethingUnrolls(rest);
    }
  }

  /** The loop over a range's indices: the copy is changed in place for each, and the counter wraps. */
  method UnrollRange(root: Cell, copy: Cell, d: Chain, callback: Callback, ghost path: seq<Cell>) returns (ok: bool)
    requires d != [] && d[0].Range? && Sized(d) && !Silent(d)
    requires Distinct(path + [copy]) && Linked(path + [copy]) && root == First(path + [copy]) && copy.next == null
    requires |callback.calls| <= callback.limit
    modifies copy, callback`calls
    ensures Unrolls(old(callback.calls), old(Steps(path)), d, callback.limit, callback.calls, ok)
    decreases |d|, 0
  {
    hide Given, Prefixed, Unrolls, Unrolling, UnrollingRange, Silent, Diverges, Counter, Unrolled, RoundsOf;
    ghost var longer := path + [copy];
    ghost var p, rest, begin, k := Steps(path), d[1..], d[0].begin, 0;
    Apart(path, copy);
    if !Backward(d[0]) {
      RestRuns(d);
    }
    NothingGiven(callback.calls, p, begin, rest, callback.limit);
    var i := d[0].begin;
    while i <= d[0].end
      invariant i == Counter(begin, k) < SIZE_LIMIT && (!Endless(d[0]) ==> i == begin + k)
      invariant k > 0 ==> !Diverges(rest) && begin <= d[0].end && (!Endless(d[0]) ==> i <= d[0].end + 1)
      invariant Given(old(callback.calls), Prefixed(p, UnrollingRange(begin, k, rest, 0)), callback.limit, callback.calls, true)
      invariant Steps(path) == p && Linked(longer) && (rest == [] ==> copy.next == null)
      invariant |callback.calls| <= callback.limit
      decreases if Endless(d[0]) then callback.limit - |callback.calls| else d[0].end + 1 - i
    {
      copy.step := Index(i);
      StepsSnoc(path, copy);
      ghost var calls := callback.calls;
      ok := UnrollFrom(root, copy, d[1..], callback, longer);
      assert Steps(path) == p;
      if !ok {
        RoundFails(old(callback.calls), p, d, k, callback.limit, calls, callback.calls);
        return;
      }
      RoundDone(old(callback.calls), p, begin, k, rest, callback.limit, calls, callback.calls);
      NextCounter(begin, k, i, d[0]);
      i := (i + 1) % SIZE_LIMIT;
      k := k + 1;
    }
    RangeDone(old(callback.calls), p, d, k, callback.limit, callback.calls);
    ok := true;
  }

  lemma NothingGiven(calls: seq<Chain>, p: Chain, begin: nat, rest: Chain, limit: nat)
    requires |calls| <= limit
    ensures Given(calls, Prefixed(p, UnrollingRange(begin, 0, rest, 0)), limit, calls, true) && Counter(begin, 0) == begin
  {
    assert calls + [] == calls;
  }

  lemma NextCounter(begin: nat, k: nat, i: nat, s: Step)
    requires s.Range? && i == Counter(begin, k) <= s.end < SIZE_LIMIT && (!Endless(s) ==> i == begin + k)
    ensures Counter(begin, k + 1) == (i + 1) % SIZE_LIMIT < SIZE_LIMIT
    ensures !Endless(s) ==> (i + 1) % SIZE_LIMIT == begin + k + 1 <= s.end + 1
  {
    hide Counter;
    CounterSteps(begin, k);
  }

  /** One index of a range: its chains are given after those of the rounds before it. */
  lemma RoundGiven(before: seq<Chain>, p: Chain, done: seq<Chain>, i: nat, chains: seq<Chain>, limit: nat, middle: seq<Chain>,
                   after: seq<Chain>, ok: bool)
    requires Given(before, Prefixed(p, done), limit, middle, true)
    requires Given(middle, Prefixed(p + [Index(i)], chains), limit, after, ok)
    ensures Given(before, Prefixed(p, done + Prefixed([Index(i)], chains)), limit, after, ok)
  {
    hide Given, Prefixed;
    var part := Prefixed([Index(i)], chains);
    PrefixedNested(p, Index(i), chains);
    PrefixedJoin(p, done, part);
    GivenBoth(before, Prefixed(p, done), middle, Prefixed(p, part), limit, after, ok);
  }

  lemma RoundDone(before: seq<Chain>, p: Chain, begin: nat, k: nat, rest: Chain, limit: nat, middle: seq<Chain>, after: seq<Chain>)
    requires Sized(rest) && Given(before, Prefixed(p, UnrollingRange(begin, k, rest, 0)), limit, middle, true)
    requires Unrolls(middle, p + [Index(Counter(begin, k))], rest, limit, after, true)
    ensures !Diverges(rest) && Given(before, Prefixed(p, UnrollingRange(begin, k + 1, rest, 0)), limit, after, true)
    ensures |after| <= limit && |after| == |middle| + |Unrolled(rest)|
  {
    hide Given, Prefixed, Unrolling, Unrolled, Counter, Diverges, Sized;
    var i := Counter(begin, k);
    var m: nat :| Given(middle, Prefixed(p + [Index(i)], Unrolling(rest, m)), limit, after, true);
    EndingUnrolls(rest, m);
    EndingUnrolls(rest, 0);
    RoundGiven(before, p, UnrollingRange(begin, k, rest, 0), i, Unrolling(rest, 0), limit, middle, after, true);
    GivenCount(middle, Prefixed(p + [Index(i)], Unrolling(rest, m)), limit, after);
  }

  lemma GivenCount(before: seq<Chain>, chains: seq<Chain>, limit: nat, after: seq<Chain>)
    requires Given(before, chains, limit, after, true)
    ensures |after| == |before| + |chains| <= limit
  {
  }

  lemma RoundFails(before: seq<Chain>, p: Chain, d: Chain, k: nat, limit: nat, middle: seq<Chain>, after: seq<Chain>)
    requires d != [] && d[0].Range? && d[0].begin <= d[0].end && Sized(d[1..]) && (k > 0 ==> !Diverges(d[1..]))
    requires !Endless(d[0]) ==> d[0].begin + k <= d[0].end
    requires Given(before, Prefixed(p, UnrollingRange(d[0].begin, k, d[1..], 0)), limit, middle, true)
    requires Unrolls(middle, p + [Index(Counter(d[0].begin, k))], d[1..], limit, after, false)
    ensures Unrolls(before, p, d, limit, after, false)
  {
    hide Given, Prefixed, Unrolling, UnrollingRange, Counter, Diverges, Sized, RoundsOf;
    var begin, rest := d[0].begin, d[1..];
    var i := Counter(begin, k);
    var m: nat :| Given(middle, Prefixed(p + [Index(i)], Unrolling(rest, m)), limit, after, false);
    var done, part := UnrollingRange(begin, k, rest, 0), Prefixed([Index(i)], Unrolling(rest, m));
    RoundGiven(before, p, done, i, Unrolling(rest, m), limit, middle, after, false);
    var n := if Diverges(rest) then m else k + 1;
    RoundStarts(d, k, m, n);
    MoreFails(before, p, done + part, Unrolling(d, n), limit, after);
  }

  lemma RoundStarts(d: Chain, k: nat, m: nat, n: nat)
    requires d != [] && d[0].Range? && d[0].begin <= d[0].end && Sized(d[1..]) && (k > 0 ==> !Diverges(d[1..]))
    requires !Endless(d[0]) ==> d[0].begin + k <= d[0].end
    requires n == if Diverges(d[1..]) then m else k + 1
    ensures UnrollingRange(d[0].begin, k, d[1..], 0) + Prefixed([Index(Counter(d[0].begin, k))], Unrolling(d[1..], m)) <= Unrolling(d, n)
  {
    hide Prefixed, Unrolling, UnrollingRange, Unrolled, Counter, Diverges, Sized;
    var begin, rest := d[0].begin, d[1..];
    RangeUnrolling(d, n);
    RoundAdds(begin, k, rest, n);
    if !Diverges(rest) {
      EndingUnrolls(rest, m);
      EndingUnrolls(rest, 0);
      EndingUnrolls(rest, n);
      SameRounds(begin, k, rest, 0, n);
      RoundsGrow(begin, n, RoundsOf(d, n), rest, n);
    } else {
      RoundAdds(begin, k, rest, 0);
    }
  }

  lemma MoreFails(before: seq<Chain>, p: Chain, us: seq<Chain>, vs: seq<Chain>, limit: nat, after: seq<Chain>)
    requires us <= vs && Given(before, Prefixed(p, us), limit, after, false)
    ensures Given(before, Prefixed(p, vs), limit, after, false)
  {
    hide Given, Prefixed;
    var later := vs[|us|..];
    assert us + later == vs;
    PrefixedJoin(p, us, later);
    GivenFails(before, Prefixed(p, us), Prefixed(p, later), limit, after);
  }

  lemma RangeUnrolling(d: Chain, m: nat)
    requires d != [] && d[0].Range?
    ensures Unrolling(d, m) == UnrollingRange(d[0].begin, RoundsOf(d, m), d[1..], m)
  {
  }

  lemma RangeDone(before: seq<Chain>, p: Chain, d: Chain, k: nat, limit: nat, after: seq<Chain>)
    requires d != [] && d[0].Range? && !Endless(d[0]) && (k > 0 ==> !Diverges(d[1..]))
    requires if k == 0 then Backward(d[0]) else d[0].begin + k == d[0].end + 1
    requires Given(before, Prefixed(p, UnrollingRange(d[0].begin, k, d[1..], 0)), limit, after, true)
    ensures Unrolls(before, p, d, limit, after, true)
  {
    hide Given, Prefixed, UnrollingRange;
    assert RoundsOf(d, 0) == k;
    assert Given(before, Prefixed(p, Unrolling(d, 0)), limit, after, true);
  }

  lemma Apart(path: seq<Cell>, copy: Cell)
    requires Distinct(path + [copy])
    ensures forall k | 0 <= k < |path| :: path[k] != copy
  {
    var longer := path + [copy];
    forall k | 0 <= k < |path|
      ensures path[k] != copy
    {
      assert longer[k] != longer[|path|];
    }
  }

  /** Unrolls a whole designator: one call per chain it stands for, in lexicographic order, until one fails; loops
      that do not end by themselves go on until then. */
  method Unroll(d: Chain, callback: Callback) returns (ok: bool)
    requires Sized(d) && !Silent(d) && |callback.calls| <= callback.limit
    modifies callback`calls
    ensures !Diverges(d) ==> Given(old(callback.calls), Unrolled(d), callback.limit, callback.calls, ok)
    ensures Diverges(d) ==> !ok && exists m: nat :: Given(old(callback.calls), Unrolling(d, m), callback.limit, callback.calls, false)
  {
    hide Unrolls, Sized, Silent, Diverges;
    ghost var nothing: seq<Cell> := [];
    if d != [] {
      ok := UnrollFrom(null, null, d, callback, nothing);
    } else {
      ok := callback.Call(null, nothing);
      UnrollsOne(old(callback.calls), Steps(nothing), callback.limit, callback.calls, ok);
    }
    assert Steps(nothing) == [];
    WholeUnrolls(old(callback.calls), d, callback.limit, callback.calls, ok);
  }

  lemma WholeUnrolls(before: seq<Chain>, d: Chain, limit: nat, after: seq<Chain>, ok: bool)
    requires Sized(d) && Unrolls(before, [], d, limit, after, ok)
    ensures !Diverges(d) ==> Given(before, Unrolled(d), limit, after, ok)
    ensures Diverges(d) ==> !ok && exists m: nat :: Given(before, Unrolling(d, m), limit, after, false)
  {
    hide Given, Prefixed, Unrolling, Unrolled, Diverges, Sized;
    var m: nat :| Given(before, Prefixed([], Unrolling(d, m)), limit, after, ok);
    PrefixedEmpty(Unrolling(d, m));
    if !Diverges(d) {
      EndingUnrolls(d, m);
    }
  }

  lemma PrefixedEmpty(us: seq<Chain>)
    ensures Prefixed([], us) == us
  {
    forall k | 0 <= k < |us|
      ensures Prefixed([], us)[k] == us[k]
    {
      assert [] + us[k] == us[k];
    }
  }
}
