/**
 * GET /meals/metrics: the caller's meal counts, split by the on-diet flag,
 * and the best on-diet streak over the date-descending meal list.
 */
module Metrics {
  import opened Meals
  import opened Streak

  datatype Report = Report(
    totalMeals: nat,
    totalMealsOnDiet: nat,
    totalMealsOffDiet: nat,
    bestOnDietSequence: nat)

  /** `where({ user_id, is_on_diet }).count('id')`. */
  function CountWhere(rows: seq<Meal>, user: UserId, onDiet: bool): (n: nat)
    ensures n <= |OwnedBy(rows, user)|
    ensures n == 0 <==> forall m :: m in rows && m.userId == user ==> m.isOnDiet != onDiet
  {
    if rows == [] then 0
    else (if rows[0].userId == user && rows[0].isOnDiet == onDiet then 1 else 0)
         + CountWhere(rows[1..], user, onDiet)
  }

  /** The two count queries partition the caller's rows. */
  lemma {:induction false} CountsPartitionOwnRows(rows: seq<Meal>, user: UserId)
    ensures CountWhere(rows, user, true) + CountWhere(rows, user, false) == |OwnedBy(rows, user)|
  {
    if rows != [] {
      CountsPartitionOwnRows(rows[1..], user);
    }
  }

  lemma {:induction false} CountOnDietAppend(a: seq<Meal>, b: seq<Meal>)
    ensures CountOnDiet(a + b) == CountOnDiet(a) + CountOnDiet(b)
  {
    if b == [] {
      assert a + b == a;
    } else {
      assert (a + b)[..|a + b| - 1] == a + b[..|b| - 1];
      CountOnDietAppend(a, b[..|b| - 1]);
    }
  }

  /** The on-diet count query agrees with counting the caller's rows. */
  lemma {:induction false} OnDietCountIsOwnCount(rows: seq<Meal>, user: UserId)
    ensures CountWhere(rows, user, true) == CountOnDiet(OwnedBy(rows, user))
  {
    if rows != [] {
      OnDietCountIsOwnCount(rows[1..], user);
      var head := if rows[0].userId == user then [rows[0]] else [];
      CountOnDietAppend(head, OwnedBy(rows[1..], user));
      assert head != [] ==> head[..0] == [];
    }
  }

  /** The count of on-diet meals does not depend on their order. */
  lemma {:induction false} CountOnDietPermutation(a: seq<Meal>, b: seq<Meal>)
    requires multiset(a) == multiset(b)
    ensures CountOnDiet(a) == CountOnDiet(b)
    decreases |a|
  {
    if a == [] {
      assert |b| == |multiset(b)| == 0;
    } else {
      var x := a[|a| - 1];
      var a' := a[..|a| - 1];
      assert a == a' + [x];
      assert x in multiset(b);
      var k :| 0 <= k < |b| && b[k] == x;
      var b' := b[..k] + b[k + 1..];
      assert b == b[..k] + [x] + b[k + 1..];
      assert multiset(b) == multiset(b[..k]) + multiset{x} + multiset(b[k + 1..]);
      assert multiset(b') == multiset(b) - multiset{x};
      assert multiset(a') == multiset(a) - multiset{x};
      CountOnDietPermutation(a', b');
      CountOnDietAppend(b[..k] + [x], b[k + 1..]);
      CountOnDietAppend(b[..k], [x]);
      CountOnDietAppend(b[..k], b[k + 1..]);
      assert [x][..0] == [];
    }
  }

  /**
   * The metrics handler. `listed` is the date-descending list the store
   * returns for the caller; its order among meals of equal date is whatever
   * the store chooses, so the streak is stated for every admissible order.
   */
  method MetricsFor(rows: seq<Meal>, user: UserId, listed: seq<Meal>) returns (r: Report)
    requires ListedFor(rows, user, listed)
    ensures r.totalMeals == |OwnedBy(rows, user)|
    ensures r.totalMealsOnDiet == CountOnDiet(OwnedBy(rows, user))
    ensures r.totalMealsOnDiet + r.totalMealsOffDiet == r.totalMeals
    ensures IsLongestRun(listed, r.bestOnDietSequence)
    ensures r.bestOnDietSequence <= r.totalMealsOnDiet <= r.totalMeals
    ensures OwnedBy(rows, user) == [] ==> r == Report(0, 0, 0, 0)
  {
    var onDiet := CountWhere(rows, user, true);
    var offDiet := CountWhere(rows, user, false);
    var best := BestOnDietSequence(listed);
    r := Report(|listed|, onDiet, offDiet, best);

    assert |listed| == |multiset(listed)| == |multiset(OwnedBy(rows, user))| == |OwnedBy(rows, user)|;
    CountsPartitionOwnRows(rows, user);
    OnDietCountIsOwnCount(rows, user);
    CountOnDietPermutation(listed, OwnedBy(rows, user));
    if OwnedBy(rows, user) == [] {
      assert IsLongestRun(listed, best);
      assert listed == [];
    }
  }

  /** Replacing a meal with the values it already has leaves the caller's metrics unchanged. */
  lemma ReplaceSameFieldsKeepsMetrics(rows: seq<Meal>, k: nat, f: MealFields, user: UserId)
    requires UniqueIds(rows) && k < |rows|
    requires FieldsOf(rows[k]) == f
    ensures List(Updated(rows, rows[k].id, f), user) == List(rows, user)
    ensures CountWhere(Updated(rows, rows[k].id, f), user, true) == CountWhere(rows, user, true)
    ensures CountWhere(Updated(rows, rows[k].id, f), user, false) == CountWhere(rows, user, false)
  {
    ReplaceWithSameFieldsIsIdentity(rows, k, f);
  }
}
