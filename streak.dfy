/**
 * The adherence streak: the longest block of consecutive on-diet meals in
 * the order the meal list is given, computed by a single left-to-right fold
 * that keeps a running counter and a maximum so far.
 */
module Streak {
  import opened Meals

  /** Number of on-diet meals in `s`. */
  function CountOnDiet(s: seq<Meal>): (n: nat)
    ensures n <= |s|
  {
    if s == [] then 0
    else CountOnDiet(s[..|s| - 1]) + (if s[|s| - 1].isOnDiet then 1 else 0)
  }

  /** Every meal at positions i .. j-1 of `s` is on diet. */
  ghost predicate OnDietBetween(s: seq<Meal>, i: int, j: int)
  {
    0 <= i <= j <= |s| && forall k :: i <= k < j ==> s[k].isOnDiet
  }

  /** The length of the run of on-diet meals that ends `s`: the fold's `currentSequence`. */
  function TrailingRun(s: seq<Meal>): (n: nat)
    ensures n <= |s|
    ensures OnDietBetween(s, |s| - n, |s|)
    ensures n < |s| ==> !s[|s| - 1 - n].isOnDiet
  {
    if s == [] || !s[|s| - 1].isOnDiet then 0
    else TrailingRun(s[..|s| - 1]) + 1
  }

  function Max(a: nat, b: nat): (r: nat)
    ensures a <= r && b <= r && (r == a || r == b)
  {
    if a < b then b else a
  }

  /** The best run over all prefixes of `s`: the fold's `bestOnDietSequence`. */
  function LongestRun(s: seq<Meal>): (n: nat)
    ensures TrailingRun(s) <= n <= |s|
  {
    if s == [] then 0 else Max(LongestRun(s[..|s| - 1]), TrailingRun(s))
  }

  /**
   * The reference definition: `n` is the length of some block of consecutive
   * on-diet meals of `s`, and no such block is longer.
   */
  ghost predicate IsLongestRun(s: seq<Meal>, n: nat)
  {
    && (exists i, j :: OnDietBetween(s, i, j) && j - i == n)
    && (forall i, j :: OnDietBetween(s, i, j) ==> j - i <= n)
  }

  /** An on-diet block reaching the end of `s` is no longer than the trailing run. */
  lemma SuffixRunBound(s: seq<Meal>, i: int)
    requires OnDietBetween(s, i, |s|)
    ensures |s| - i <= TrailingRun(s)
  {
  }

  /** The fold's result is the longest block of consecutive on-diet meals. */
  lemma {:induction false} LongestRunIsLongest(s: seq<Meal>)
    ensures IsLongestRun(s, LongestRun(s))
  {
    var n := LongestRun(s);
    if s == [] {
      assert OnDietBetween(s, 0, 0);
    } else {
      var p := s[..|s| - 1];
      var t := TrailingRun(s);
      LongestRunIsLongest(p);
      var np := LongestRun(p);
      if np >= t {
        var i, j :| OnDietBetween(p, i, j) && j - i == np;
        assert OnDietBetween(s, i, j);
      } else {
        assert OnDietBetween(s, |s| - t, |s|);
      }
      forall i, j | OnDietBetween(s, i, j) ensures j - i <= n {
        if j < |s| {
          assert OnDietBetween(p, i, j);
        } else {
          SuffixRunBound(s, i);
        }
      }
    }
  }

  /** `bestOnDietSequence` never decreases as the fold proceeds. */
  lemma {:induction false} LongestRunMonotone(s: seq<Meal>, k: nat)
    requires k <= |s|
    ensures LongestRun(s[..k]) <= LongestRun(s)
    decreases |s| - k
  {
    if k < |s| {
      LongestRunMonotone(s, k + 1);
      var q := s[..k + 1];
      assert q[..|q| - 1] == s[..k];
      assert LongestRun(q) == Max(LongestRun(s[..k]), TrailingRun(q));
    } else {
      assert s[..k] == s;
    }
  }

  /** The trailing run never exceeds the number of on-diet meals. */
  lemma {:induction false} TrailingRunAtMostCount(s: seq<Meal>)
    ensures TrailingRun(s) <= CountOnDiet(s)
  {
    if s != [] && s[|s| - 1].isOnDiet {
      TrailingRunAtMostCount(s[..|s| - 1]);
    }
  }

  /** bestOnDietSequence <= totalMealsOnDiet <= totalMeals. */
  lemma {:induction false} LongestRunAtMostCount(s: seq<Meal>)
    ensures LongestRun(s) <= CountOnDiet(s) <= |s|
  {
    if s != [] {
      LongestRunAtMostCount(s[..|s| - 1]);
      TrailingRunAtMostCount(s);
    }
  }

  /** When every meal is on diet, the streak is the whole list. */
  lemma AllOnDietStreak(s: seq<Meal>)
    requires forall k :: 0 <= k < |s| ==> s[k].isOnDiet
    ensures LongestRun(s) == |s|
  {
    SuffixRunBound(s, 0);
  }

  /** Flags [true, true, false] in list order give a streak of 2. */
  lemma TwoThenOffStreak(a: Meal, b: Meal, c: Meal)
    requires a.isOnDiet && b.isOnDiet && !c.isOnDiet
    ensures LongestRun([a, b, c]) == 2
  {
    var s := [a, b, c];
    assert s[..2] == [a, b] && s[..2][..1] == [a] && [a][..0] == [];
  }

  /** A list alternating on/off, starting on diet, has a streak of 1. */
  lemma AlternatingStreak(s: seq<Meal>)
    requires |s| > 0 && s[0].isOnDiet
    requires forall k :: 0 < k < |s| ==> s[k].isOnDiet != s[k - 1].isOnDiet
    ensures LongestRun(s) == 1
  {
    LongestRunIsLongest(s);
    var n := LongestRun(s);
    assert OnDietBetween(s, 0, 1);
  }

  /**
   * `reduce` over the meal list with accumulator
   * { bestOnDietSequence: 0, currentSequence: 0 }.
   */
  method BestOnDietSequence(meals: seq<Meal>) returns (best: nat)
    ensures best == LongestRun(meals)
    ensures IsLongestRun(meals, best)
    ensures best <= CountOnDiet(meals)
  {
    var current: nat := 0;
    best := 0;
    for i := 0 to |meals|
      invariant current == TrailingRun(meals[..i])
      invariant best == LongestRun(meals[..i])
    {
      assert meals[..i + 1][..i] == meals[..i];
      if meals[i].isOnDiet {
        current := current + 1;
      } else {
        current := 0;
      }
      if current > best {
        best := current;
      }
    }
    assert meals[..|meals|] == meals;
    LongestRunIsLongest(meals);
    LongestRunAtMostCount(meals);
  }
}
