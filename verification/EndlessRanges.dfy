/** Unrolling ranges up to the largest size (ast/designator.c), whose loops only a failing callback ends. */
module EndlessRanges {
  import opened Designators

  /** The bounds of a range are sizes. */
  predicate Sized(d: Chain) {
    forall k | 0 <= k < |d| && d[k].Range? :: d[k].begin < SIZE_LIMIT && d[k].end < SIZE_LIMIT
  }

  predicate Endless(s: Step) {
    s.Range? && s.end == SIZE_LIMIT - 1
  }

  predicate Backward(s: Step) {
    s.Range? && s.begin > s.end
  }

  /** The unrolling comes to a loop that does not end by itself. */
  predicate Diverges(d: Chain) {
    d != [] && !Backward(d[0]) && (Endless(d[0]) || Diverges(d[1..]))
  }

  /** It comes to such a loop with nothing to call back for in it. */
  predicate Silent(d: Chain) {
    d != [] && !Backward(d[0]) &&
    if Diverges(d[1..]) then Silent(d[1..]) else Endless(d[0]) && exists k | 1 <= k < |d| :: Backward(d[k])
  }

  /** How often the loop over the first range is gone through until it ends, or until m rounds or a loop inside it
      that does not end. */
  function RoundsOf(d: Chain, m: nat): nat
    requires d != [] && d[0].Range?
  {
    if Backward(d[0]) then 0
    else if Diverges(d[1..]) then 1
    else if Endless(d[0]) then m
    else d[0].end - d[0].begin + 1
  }

  /** The chains called back for, up to the end or to m rounds of the loop that does not end. */
  function Unrolling(d: Chain, m: nat): seq<Chain>
    decreases |d|, 0, 0
  {
    if d == [] then [[]]
    else if d[0].Range? then UnrollingRange(d[0].begin, RoundsOf(d, m), d[1..], m)
    else Prefixed([d[0]], Unrolling(d[1..], m))
  }

  function UnrollingRange(begin: nat, rounds: nat, rest: Chain, m: nat): seq<Chain>
    decreases |rest|, 1, rounds
  {
    if rounds == 0 then []
    else UnrollingRange(begin, rounds - 1, rest, m) + Prefixed([Index(Counter(begin, rounds - 1))], Unrolling(rest, m))
  }

  // ----- loops that end -----

  /** Without a loop that does not end, they are the chains the designator stands for. */
  lemma {:induction false} EndingUnrolls(d: Chain, m: nat)
    requires Sized(d) && !Diverges(d)
    ensures Unrolling(d, m) == Unrolled(d)
  {
    if d != [] {
      assert Sized(d[1..]);
      if !Backward(d[0]) {
        EndingUnrolls(d[1..], m);
        if d[0].Range? {
          RoundsUnroll(d[0].begin, d[0].end, d[0].end - d[0].begin + 1, d[1..], m);
        }
      }
    }
  }

  lemma {:induction false} RoundsUnroll(begin: nat, end: nat, k: nat, rest: Chain, m: nat)
    requires begin + k <= end + 1 && end < SIZE_LIMIT - 1 && Unrolling(rest, m) == Unrolled(rest)
    ensures UnrollingRange(begin, k, rest, m) + UnrolledRange(begin + k, end, rest) == UnrolledRange(begin, end, rest)
    ensures begin + k == end + 1 ==> UnrollingRange(begin, k, rest, m) == UnrolledRange(begin, end, rest)
    decreases k
  {
    hide Unrolled, Prefixed, Unrolling, UnrollingRange, UnrolledRange, Counter;
    RangeSteps(begin + k, end, rest);
    if k == 0 {
      RoundAdds(begin, k, rest, m);
    } else {
      RoundsUnroll(begin, end, k - 1, rest, m);
      RangeSteps(begin + k - 1, end, rest);
      RoundAdds(begin, k - 1, rest, m);
      CounterValue(begin, k - 1);
    }
  }

  lemma RangeSteps(begin: nat, end: nat, rest: Chain)
    ensures begin > end ==> UnrolledRange(begin, end, rest) == []
    ensures begin <= end ==> UnrolledRange(begin, end, rest) == Prefixed([Index(begin)], Unrolled(rest)) + UnrolledRange(begin + 1, end, rest)
  {
    hide Unrolled, Prefixed;
  }

  lemma RoundAdds(begin: nat, k: nat, rest: Chain, m: nat)
    ensures UnrollingRange(begin, 0, rest, m) == []
    ensures UnrollingRange(begin, k + 1, rest, m) == UnrollingRange(begin, k, rest, m) + Prefixed([Index(Counter(begin, k))], Unrolling(rest, m))
  {
    hide Unrolling, Prefixed, Counter;
  }

  lemma {:induction false} SameRounds(begin: nat, k: nat, rest: Chain, m: nat, n: nat)
    requires Unrolling(rest, m) == Unrolling(rest, n)
    ensures UnrollingRange(begin, k, rest, m) == UnrollingRange(begin, k, rest, n)
  {
    hide Unrolling, Prefixed;
    if k > 0 {
      SameRounds(begin, k - 1, rest, m, n);
    }
  }

  lemma {:induction false} RoundsGrow(begin: nat, k: nat, rounds: nat, rest: Chain, m: nat)
    requires k <= rounds
    ensures UnrollingRange(begin, k, rest, m) <= UnrollingRange(begin, rounds, rest, m)
    decreases rounds
  {
    hide Unrolling, Prefixed;
    if k < rounds {
      RoundsGrow(begin, k, rounds - 1, rest, m);
    }
  }

  // ----- loops that do not end -----

  lemma {:induction false} SilentDiverges(d: Chain)
    requires Silent(d)
    ensures Diverges(d)
  {
  }

  lemma {:induction false} SomethingUnrolls(d: Chain)
    requires forall k | 0 <= k < |d| :: !Backward(d[k])
    ensures Unrolled(d) != []
  {
    if d != [] {
      SomethingUnrolls(d[1..]);
    }
  }

  lemma {:induction false} RoundsCount(begin: nat, k: nat, rest: Chain, m: nat)
    ensures |UnrollingRange(begin, k, rest, m)| == k * |Unrolling(rest, m)|
  {
    hide Unrolling, Prefixed;
    if k > 0 {
      RoundsCount(begin, k - 1, rest, m);
      AddFactor(k - 1, |Unrolling(rest, m)|);
    }
  }

  /** A silent loop never calls back, so no failure can end it. */
  lemma {:induction false} SilentNothing(d: Chain, m: nat)
    requires Sized(d) && Silent(d)
    ensures Unrolling(d, m) == []
  {
    var rest := d[1..];
    assert Sized(rest);
    if d[0].Range? {
      RoundsCount(d[0].begin, RoundsOf(d, m), rest, m);
    }
    if Diverges(rest) {
      SilentNothing(rest, m);
    } else {
      var k :| 1 <= k < |d| && Backward(d[k]);
      assert rest[k - 1] == d[k];
      BackwardNothing(rest);
      EndingUnrolls(rest, m);
    }
  }

  /** Any other one calls back in every round. */
  lemma {:induction false} LoudGrows(d: Chain, m: nat)
    requires Sized(d) && Diverges(d) && !Silent(d)
    ensures |Unrolling(d, m)| >= m
  {
    var rest := d[1..];
    assert Sized(rest);
    if d[0].Range? {
      RoundsCount(d[0].begin, RoundsOf(d, m), rest, m);
    }
    if Diverges(rest) {
      LoudGrows(rest, m);
    } else {
      assert forall k | 0 <= k < |rest| :: rest[k] == d[k + 1];
      SomethingUnrolls(rest);
      EndingUnrolls(rest, m);
      AtLeast(m, |Unrolling(rest, m)|);
    }
  }

  lemma AtLeast(m: nat, n: nat)
    requires 0 < n
    ensures m * n >= m
  {
  }

  /** What an endless unrolling calls back for. Loops around the one that does not end stay at their first element;
      that one goes through all its indices and around again from zero, each with every chain of the rest. */
  lemma {:induction false} EndlessChains(d: Chain, m: nat, k: nat, j: nat)
    requires Sized(d) && Diverges(d)
    ensures var first := if d[0].Range? then Index(d[0].begin) else d[0];
            Diverges(d[1..]) ==> Unrolling(d, m) == Prefixed([first], Unrolling(d[1..], m))
    ensures !Diverges(d[1..]) && k < m && j < |Unrolled(d[1..])| ==>
              k * |Unrolled(d[1..])| + j < |Unrolling(d, m)| &&
              Unrolling(d, m)[k * |Unrolled(d[1..])| + j] == [Index((d[0].begin + k) % SIZE_LIMIT)] + Unrolled(d[1..])[j]
  {
    hide Unrolled, Prefixed, Counter;
    var rest := d[1..];
    assert Sized(rest);
    if Diverges(rest) {
      if d[0].Range? {
        RoundAdds(d[0].begin, 0, rest, m);
        CounterValue(d[0].begin, 0);
      }
    } else {
      EndingUnrolls(rest, m);
      if k < m && j < |Unrolled(rest)| {
        RoundsAt(d[0].begin, m, rest, m, k, j);
        CounterValue(d[0].begin, k);
      }
    }
  }

  lemma {:induction false} RoundsAt(begin: nat, rounds: nat, rest: Chain, m: nat, k: nat, j: nat)
    requires k < rounds && j < |Unrolling(rest, m)|
    ensures k * |Unrolling(rest, m)| + j < |UnrollingRange(begin, rounds, rest, m)|
    ensures UnrollingRange(begin, rounds, rest, m)[k * |Unrolling(rest, m)| + j] == [Index(Counter(begin, k))] + Unrolling(rest, m)[j]
    decreases rounds
  {
    hide Unrolling, UnrollingRange, Counter, Prefixed;
    RoundsCount(begin, rounds - 1, rest, m);
    RoundAdds(begin, rounds - 1, rest, m);
    if k < rounds - 1 {
      RoundsAt(begin, rounds - 1, rest, m, k, j);
    }
  }

  /** A callback that fails after n calls ends the unrolling exactly when it is not silent. */
  lemma FailureEnds(d: Chain, n: nat)
    requires Sized(d)
    ensures !Diverges(d) || (exists m: nat :: |Unrolling(d, m)| > n) <==> !Silent(d)
  {
    if Silent(d) {
      SilentDiverges(d);
      forall m: nat
        ensures |Unrolling(d, m)| <= n
      {
        SilentNothing(d, m);
      }
    } else if Diverges(d) {
      LoudGrows(d, n + 1);
    }
  }

  /** `[0 ... -1][5 ... 3]` is silent. */
  lemma SilentRange()
    ensures Silent([Range(0, SIZE_LIMIT - 1), Range(5, 3)])
  {
    var d := [Range(0, SIZE_LIMIT - 1), Range(5, 3)];
    assert d[1..] == [Range(5, 3)];
    assert Backward(d[1]);
  }
}
