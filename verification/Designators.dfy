/** Range designators and their unrolling (ast/designator.c). */
module Designators {
  import opened Options

  const SIZE_LIMIT: nat := 0x1_0000_0000_0000_0000

  datatype Step = Member(name: string) | Index(index: nat) | Range(begin: nat, end: nat)

  /** A designator chain, outermost step first; the empty chain is the null pointer. */
  type Chain = seq<Step>

  /** A range up to the largest size would keep the unrolling loop going forever. */
  predicate Bounded(d: Chain) {
    forall k | 0 <= k < |d| && d[k].Range? :: d[k].begin < SIZE_LIMIT && d[k].end < SIZE_LIMIT - 1
  }

  function Elements(s: Step): nat {
    if s.Range? then (s.end - s.begin + 1) % SIZE_LIMIT else 1
  }

  /** The chain with its leading range replaced by one of its indices. */
  function TemporaryIndex(d: Chain, k: nat): Option<Chain> {
    if d == [] || !d[0].Range? || k >= Elements(d[0]) then
      None
    else
      Some([Index((d[0].begin + k) % SIZE_LIMIT)] + d[1..])
  }

  // ----- the chains a designator stands for -----

  function Prefixed(p: Chain, us: seq<Chain>): (r: seq<Chain>)
    ensures |r| == |us| && forall k | 0 <= k < |us| :: r[k] == p + us[k]
  {
    seq(|us|, k requires 0 <= k < |us| => p + us[k])
  }

  function Unrolled(d: Chain): seq<Chain>
    decreases |d|, 0, 0
  {
    if d == [] then [[]]
    else if d[0].Range? then UnrolledRange(d[0].begin, d[0].end, d[1..])
    else Prefixed([d[0]], Unrolled(d[1..]))
  }

  function UnrolledRange(begin: nat, end: nat, rest: Chain): seq<Chain>
    decreases |rest|, 1, if begin <= end then end - begin + 1 else 0
  {
    if begin > end then []
    else Prefixed([Index(begin)], Unrolled(rest)) + UnrolledRange(begin + 1, end, rest)
  }

  /** A range-free chain that picks one element at each level. */
  predicate Picks(u: Chain, d: Chain) {
    |u| == |d| && forall k | 0 <= k < |d| :: PicksStep(u[k], d[k])
  }

  predicate PicksStep(u: Step, s: Step) {
    if s.Range? then u.Index? && s.begin <= u.index <= s.end else u == s
  }

  /** Lexicographic order of the picked indices. */
  predicate Before(u: Chain, v: Chain) {
    u != [] && v != [] &&
    if u[0] == v[0] then Before(u[1..], v[1..]) else u[0].Index? && v[0].Index? && u[0].index < v[0].index
  }

  ghost predicate Ordered(us: seq<Chain>) {
    forall i, j | 0 <= i < j < |us| :: Before(us[i], us[j])
  }

  lemma {:induction false} PicksAll(d: Chain, u: Chain)
    ensures u in Unrolled(d) <==> Picks(u, d)
    decreases |d|, 0, 0
  {
    if d == [] {
      assert u == [] <==> |u| == 0;
    } else if d[0].Range? {
      PicksRange(d[0].begin, d[0].end, d[1..], u);
      if u != [] {
        PicksHead(u, d);
      }
    } else if u != [] {
      PicksAll(d[1..], u[1..]);
      InPrefixed(d[0], Unrolled(d[1..]), u);
      PicksHead(u, d);
    }
  }

  lemma PicksHead(u: Chain, d: Chain)
    requires u != [] && d != []
    ensures Picks(u, d) <==> PicksStep(u[0], d[0]) && Picks(u[1..], d[1..])
  {
    if PicksStep(u[0], d[0]) && Picks(u[1..], d[1..]) {
      forall k | 0 <= k < |d|
        ensures PicksStep(u[k], d[k])
      {
        if k > 0 {
          assert PicksStep(u[1..][k - 1], d[1..][k - 1]);
        }
      }
    }
  }

  lemma InPrefixed(s: Step, us: seq<Chain>, u: Chain)
    requires u != []
    ensures u in Prefixed([s], us) <==> u[0] == s && u[1..] in us
  {
    if u[0] == s && u[1..] in us {
      var k :| 0 <= k < |us| && us[k] == u[1..];
      assert Prefixed([s], us)[k] == u;
    }
    if u in Prefixed([s], us) {
      var k :| 0 <= k < |us| && Prefixed([s], us)[k] == u;
      assert u[1..] == us[k];
    }
  }

  lemma {:induction false} PicksRange(begin: nat, end: nat, rest: Chain, u: Chain)
    ensures u in UnrolledRange(begin, end, rest) <==>
            u != [] && u[0].Index? && begin <= u[0].index <= end && Picks(u[1..], rest)
    decreases |rest|, 1, if begin <= end then end - begin + 1 else 0
  {
    hide Unrolled, Prefixed, Picks;
    if begin <= end {
      PicksRange(begin + 1, end, rest, u);
      if u != [] {
        PicksAll(rest, u[1..]);
        InPrefixed(Index(begin), Unrolled(rest), u);
      } else {
        assert u !in Prefixed([Index(begin)], Unrolled(rest));
      }
    }
  }

  /** Unrolling yields the picked chains in strictly ascending order, so each of them once. */
  lemma {:induction false} UnrolledOrdered(d: Chain)
    ensures Ordered(Unrolled(d))
    decreases |d|, 0, 0
  {
    if d != [] {
      UnrolledOrdered(d[1..]);
      if d[0].Range? {
        RangeOrdered(d[0].begin, d[0].end, d[1..]);
      } else {
        PrefixedOrdered(d[0], Unrolled(d[1..]));
      }
    }
  }

  lemma PrefixedOrdered(s: Step, us: seq<Chain>)
    requires Ordered(us)
    ensures Ordered(Prefixed([s], us))
  {
    var ps := Prefixed([s], us);
    forall i, j | 0 <= i < j < |ps|
      ensures Before(ps[i], ps[j])
    {
      assert ps[i][1..] == us[i] && ps[j][1..] == us[j];
    }
  }

  lemma {:induction false} RangeOrdered(begin: nat, end: nat, rest: Chain)
    requires Ordered(Unrolled(rest))
    ensures Ordered(UnrolledRange(begin, end, rest))
    decreases if begin <= end then end - begin + 1 else 0
  {
    if begin <= end {
      var first, later := Prefixed([Index(begin)], Unrolled(rest)), UnrolledRange(begin + 1, end, rest);
      PrefixedOrdered(Index(begin), Unrolled(rest));
      RangeOrdered(begin + 1, end, rest);
      forall i, j | 0 <= i < |first| && 0 <= j < |later|
        ensures Before(first[i], later[j])
      {
        PicksRange(begin + 1, end, rest, later[j]);
      }
      OrderedJoin(first, later);
    }
  }

  lemma OrderedJoin(us: seq<Chain>, vs: seq<Chain>)
    requires Ordered(us) && Ordered(vs) && forall i, j | 0 <= i < |us| && 0 <= j < |vs| :: Before(us[i], vs[j])
    ensures Ordered(us + vs)
  {
    var ws := us + vs;
    forall i, j | 0 <= i < j < |ws|
      ensures Before(ws[i], ws[j])
    {
      if i >= |us| {
        assert ws[i] == vs[i - |us|] && ws[j] == vs[j - |us|];
      } else if j >= |us| {
        assert ws[j] == vs[j - |us|];
      }
    }
  }

  // ----- counting -----

  function Product(d: Chain): nat {
    if d == [] then 1 else Elements(d[0]) * Product(d[1..])
  }

  /** No range ends more than one before its start. */
  predicate Forward(d: Chain) {
    forall k | 0 <= k < |d| && d[k].Range? :: d[k].begin <= d[k].end + 1
  }

  lemma AddFactor(n: nat, m: nat)
    ensures (n + 1) * m == m + n * m
  {
  }

  lemma {:induction false} RangeCount(begin: nat, end: nat, rest: Chain)
    ensures |UnrolledRange(begin, end, rest)| == (if begin <= end then end - begin + 1 else 0) * |Unrolled(rest)|
    decreases if begin <= end then end - begin + 1 else 0
  {
    hide Unrolled, Prefixed;
    if begin <= end {
      RangeCount(begin + 1, end, rest);
      AddFactor(end - begin, |Unrolled(rest)|);
    }
  }

  lemma {:induction false} ZeroFactor(d: Chain)
    ensures Product(d) == 0 <==> exists k | 0 <= k < |d| :: Elements(d[k]) == 0
  {
    if d != [] {
      ZeroFactor(d[1..]);
      if Product(d[1..]) == 0 {
        var k :| 0 <= k < |d| - 1 && Elements(d[1..][k]) == 0;
        assert d[k + 1] == d[1..][k];
      }
      if k :| 0 <= k < |d| && Elements(d[k]) == 0 {
        if k > 0 {
          assert d[1..][k - 1] == d[k];
        }
      }
    }
  }

  lemma {:induction false} BackwardNothing(d: Chain)
    requires exists k | 0 <= k < |d| :: d[k].Range? && d[k].begin > d[k].end
    ensures Unrolled(d) == []
  {
    if d[0].Range? {
      RangeCount(d[0].begin, d[0].end, d[1..]);
    }
    if !(d[0].Range? && d[0].begin > d[0].end) {
      var k :| 0 <= k < |d| && d[k].Range? && d[k].begin > d[k].end;
      assert d[1..][k - 1] == d[k];
      BackwardNothing(d[1..]);
    }
  }

  /** The number of chains is the product of the element counts exactly when every range runs forward, or
      one of them is empty. */
  lemma {:induction false} CountIsProduct(d: Chain)
    requires Bounded(d)
    ensures |Unrolled(d)| == Product(d) <==> Forward(d) || exists k | 0 <= k < |d| :: Elements(d[k]) == 0
  {
    ZeroFactor(d);
    if Forward(d) {
      ForwardCount(d);
    } else {
      BackwardNothing(d);
    }
  }

  lemma {:induction false} ForwardCount(d: Chain)
    requires Bounded(d) && Forward(d)
    ensures |Unrolled(d)| == Product(d)
  {
    hide Unrolled, UnrolledRange, Elements;
    if d == [] {
      NothingUnrolls();
    } else {
      assert Bounded(d[1..]) && Forward(d[1..]);
      ForwardCount(d[1..]);
      HeadCount(d);
    }
  }

  lemma NothingUnrolls()
    ensures Unrolled([]) == [[]]
  {
  }

  lemma HeadCount(d: Chain)
    requires d != [] && Bounded(d) && Forward(d)
    ensures |Unrolled(d)| == Elements(d[0]) * |Unrolled(d[1..])|
  {
    hide UnrolledRange, Elements;
    ForwardElements(d[0]);
    if d[0].Range? {
      RangeCount(d[0].begin, d[0].end, d[1..]);
    }
  }

  lemma ForwardElements(s: Step)
    requires s.Range? ==> s.begin < SIZE_LIMIT && s.end < SIZE_LIMIT - 1 && s.begin <= s.end + 1
    ensures Elements(s) == if !s.Range? then 1 else if s.begin <= s.end then s.end - s.begin + 1 else 0
  {
  }

  /** A range written backward stands for nothing, yet counts almost 2^64 elements. */
  lemma BackwardRange()
    ensures Unrolled([Range(5, 3)]) == [] && Product([Range(5, 3)]) == SIZE_LIMIT - 1
  {
    assert Elements(Range(5, 3)) == SIZE_LIMIT - 1;
    assert [Range(5, 3)][1..] == [];
  }

  /** Its temporary indices are there all the same, and wrap around; past them, and for other steps, there are none. */
  lemma BackwardTemporaries()
    ensures TemporaryIndex([Range(5, 3)], 0) == Some([Index(5)]) && TemporaryIndex([Range(5, 3)], SIZE_LIMIT - 2) == Some([Index(3)])
    ensures TemporaryIndex([Range(5, 3)], SIZE_LIMIT - 1) == None && TemporaryIndex([Index(5)], 0) == None && TemporaryIndex([], 0) == None
  {
    assert Elements(Range(5, 3)) == SIZE_LIMIT - 1;
    assert [Range(5, 3)][1..] == [];
    assert [Index(5)] + [] == [Index(5)] && [Index(3)] + [] == [Index(3)];
  }

  // ----- the loop counter -----

  /** The counter of the loop over a range after k rounds: it wraps at the size limit. */
  function Counter(begin: nat, k: nat): nat {
    if k == 0 then begin else (Counter(begin, k - 1) + 1) % SIZE_LIMIT
  }

  lemma CounterStarts(begin: nat)
    ensures Counter(begin, 0) == begin
  {
  }

  lemma CounterSteps(begin: nat, k: nat)
    ensures Counter(begin, k + 1) == (Counter(begin, k) + 1) % SIZE_LIMIT
  {
  }

  lemma NextModulo(x: nat)
    ensures (x % SIZE_LIMIT + 1) % SIZE_LIMIT == (x + 1) % SIZE_LIMIT
  {
  }

  lemma {:induction false} CounterValue(begin: nat, k: nat)
    requires begin < SIZE_LIMIT
    ensures Counter(begin, k) < SIZE_LIMIT
    ensures begin + k < SIZE_LIMIT ==> Counter(begin, k) == begin + k
    ensures Counter(begin, k) == (begin + k) % SIZE_LIMIT
  {
    hide Counter;
    if k == 0 {
      CounterStarts(begin);
    } else {
      CounterValue(begin, k - 1);
      CounterSteps(begin, k - 1);
      NextModulo(begin + k - 1);
    }
  }

  /** The loop over a range comes to an end exactly when the range does not reach the largest size. */
  lemma LoopEnds(begin: nat, end: nat)
    requires begin < SIZE_LIMIT && end < SIZE_LIMIT
    ensures (exists k: nat :: Counter(begin, k) > end) <==> end < SIZE_LIMIT - 1
  {
    if end < SIZE_LIMIT - 1 {
      var k := if begin <= end then end + 1 - begin else 0;
      CounterValue(begin, k);
      assert Counter(begin, k) > end;
    } else {
      forall k: nat
        ensures Counter(begin, k) <= end
      {
        CounterValue(begin, k);
      }
    }
  }

  /** The range from 0 to -1, as it is converted, is one that never ends. */
  lemma EndlessRange(k: nat)
    ensures Counter(0, k) <= (-1) % SIZE_LIMIT
  {
    CounterValue(0, k);
  }

  // ----- one index at a time -----

  /** The unrollings of the temporary index designators of a range, from the k-th on. */
  function FromTemporaries(d: Chain, k: nat): seq<Chain>
    requires d != [] && d[0].Range?
    decreases Elements(d[0]) - k
  {
    if k >= Elements(d[0]) then [] else Unrolled(TemporaryIndex(d, k).value) + FromTemporaries(d, k + 1)
  }

  /** Unrolling a range is unrolling its temporary index designators one after another. */
  lemma TemporariesUnroll(d: Chain)
    requires d != [] && d[0].Range? && Bounded(d) && d[0].begin <= d[0].end
    ensures Unrolled(d) == FromTemporaries(d, 0)
  {
    TemporariesFrom(d, 0);
  }

  lemma {:induction false} TemporariesFrom(d: Chain, k: nat)
    requires d != [] && d[0].Range? && Bounded(d) && d[0].begin <= d[0].end && k <= Elements(d[0])
    ensures UnrolledRange(d[0].begin + k, d[0].end, d[1..]) == FromTemporaries(d, k)
    decreases Elements(d[0]) - k
  {
    hide Unrolled, Prefixed;
    if k < Elements(d[0]) {
      TemporariesFrom(d, k + 1);
      TemporaryUnrolls(d, k);
    }
  }

  lemma TemporaryUnrolls(d: Chain, k: nat)
    requires d != [] && d[0].Range? && Bounded(d) && d[0].begin <= d[0].end && k < Elements(d[0])
    ensures Unrolled(TemporaryIndex(d, k).value) == Prefixed([Index(d[0].begin + k)], Unrolled(d[1..]))
  {
    hide Prefixed;
    assert TemporaryIndex(d, k).value[1..] == d[1..];
  }
}
