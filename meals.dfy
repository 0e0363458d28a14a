/**
 * The meals table and the five meal handlers (list, get, delete, create,
 * replace). Every handler receives the caller's user id explicitly; a row
 * is visible to a caller only when its owner is that caller.
 */
module Meals {

  type MealId = string
  type UserId = string

  datatype Option<T> = None | Some(value: T)

  /** One row of the `meals` table; `date` is an epoch-millisecond integer. */
  datatype Meal = Meal(
    id: MealId,
    name: string,
    description: string,
    isOnDiet: bool,
    date: int,
    userId: UserId)

  /** The parsed body of a create or replace request. */
  datatype MealFields = MealFields(name: string, description: string, isOnDiet: bool, date: int)

  /** What a mutating handler reports: success, the 404 "Meal not found", or a rejection by body validation. */
  datatype Outcome = Done | NotFound | Invalid(message: string)

  /** The validation message for an empty name on create. */
  const NameRequired: string := "O nome é obrigatório"

  function FieldsOf(m: Meal): (r: MealFields)
  {
    MealFields(m.name, m.description, m.isOnDiet, m.date)
  }

  /** The row that create inserts for `user`. */
  function NewMeal(id: MealId, user: UserId, f: MealFields): (r: Meal)
    ensures r.id == id && r.userId == user
    ensures FieldsOf(r) == f
  {
    Meal(id, f.name, f.description, f.isOnDiet, f.date, user)
  }

  /** The row after replace has overwritten its four editable columns. */
  function Overwrite(m: Meal, f: MealFields): (r: Meal)
    ensures r.id == m.id && r.userId == m.userId
    ensures FieldsOf(r) == f
  {
    m.(name := f.name, description := f.description, isOnDiet := f.isOnDiet, date := f.date)
  }

  /** The primary-key invariant of the table. */
  ghost predicate UniqueIds(rows: seq<Meal>)
  {
    forall i, j :: 0 <= i < j < |rows| ==> rows[i].id != rows[j].id
  }

  ghost predicate IdFree(rows: seq<Meal>, id: MealId)
  {
    forall k :: 0 <= k < |rows| ==> rows[k].id != id
  }

  // ---------------------------------------------------------------------
  // Queries
  // ---------------------------------------------------------------------

  /** `where({ user_id })`: the caller's rows, in table order. */
  function OwnedBy(rows: seq<Meal>, user: UserId): (r: seq<Meal>)
    ensures forall m :: m in r <==> m in rows && m.userId == user
    ensures |r| <= |rows|
  {
    if rows == [] then []
    else (if rows[0].userId == user then [rows[0]] else []) + OwnedBy(rows[1..], user)
  }

  /** Dates never increase from one element to any later one. */
  ghost predicate DateDescending(s: seq<Meal>)
  {
    forall i, j :: 0 <= i < j < |s| ==> s[i].date >= s[j].date
  }

  /** Inserts `m` into a date-descending sequence, ahead of every element not later than it. */
  function InsertByDate(m: Meal, s: seq<Meal>): (r: seq<Meal>)
    requires DateDescending(s)
    ensures DateDescending(r)
    ensures multiset(r) == multiset(s) + multiset{m}
    ensures r[0] == m || r[0] == s[0]
  {
    if s == [] || s[0].date <= m.date then
      ConsDescending(m, s);
      [m] + s
    else
      var rest := InsertByDate(m, s[1..]);
      assert s == [s[0]] + s[1..];
      ConsDescending(s[0], rest);
      [s[0]] + rest
  }

  lemma ConsDescending(x: Meal, t: seq<Meal>)
    requires DateDescending(t)
    requires t != [] ==> x.date >= t[0].date
    ensures DateDescending([x] + t)
  {
    var r := [x] + t;
    forall i, j | 0 <= i < j < |r| ensures r[i].date >= r[j].date {
      if i == 0 && j > 1 {
        assert r[1] == t[0] && r[j] == t[j - 1];
      }
    }
  }

  /** `orderBy('date', 'desc')`; the order among equal dates is not part of the contract. */
  function SortByDateDesc(s: seq<Meal>): (r: seq<Meal>)
    ensures DateDescending(r)
    ensures multiset(r) == multiset(s)
  {
    if s == [] then []
    else
      assert s == [s[0]] + s[1..];
      InsertByDate(s[0], SortByDateDesc(s[1..]))
  }

  /** What the list query may return: the caller's rows, each once, date-descending. */
  ghost predicate ListedFor(rows: seq<Meal>, user: UserId, s: seq<Meal>)
  {
    DateDescending(s) && multiset(s) == multiset(OwnedBy(rows, user))
  }

  /** GET /meals: the caller's meals, most recent first. */
  function List(rows: seq<Meal>, user: UserId): (r: seq<Meal>)
    ensures ListedFor(rows, user, r)
    ensures |r| == |OwnedBy(rows, user)|
    ensures forall m :: m in r <==> m in rows && m.userId == user
  {
    var r := SortByDateDesc(OwnedBy(rows, user));
    assert |multiset(r)| == |multiset(OwnedBy(rows, user))|;
    assert forall m :: m in r <==> m in multiset(OwnedBy(rows, user));
    r
  }

  /** GET /meals/:id: the first row matching both `id` and `user_id`, or not found. */
  function Get(rows: seq<Meal>, user: UserId, id: MealId): (r: Option<Meal>)
    ensures r.Some? ==> r.value in rows && r.value.id == id && r.value.userId == user
    ensures r.None? <==> forall m :: m in rows ==> !(m.id == id && m.userId == user)
  {
    if rows == [] then None
    else if rows[0].id == id && rows[0].userId == user then Some(rows[0])
    else
      var r := Get(rows[1..], user, id);
      assert forall m :: m in rows ==> m == rows[0] || m in rows[1..];
      r
  }

  // ---------------------------------------------------------------------
  // Table updates addressed by id alone
  // ---------------------------------------------------------------------

  /** `where({ id }).delete()`. */
  function Removed(rows: seq<Meal>, id: MealId): (r: seq<Meal>)
    ensures forall m :: m in r <==> m in rows && m.id != id
  {
    if rows == [] then []
    else (if rows[0].id == id then [] else [rows[0]]) + Removed(rows[1..], id)
  }

  /**
   * `where({ id }).update(fields)`: every row carrying `id` takes the new
   * fields (keeping its id and owner, by `Overwrite`); every other row is untouched.
   */
  function Updated(rows: seq<Meal>, id: MealId, f: MealFields): (r: seq<Meal>)
    ensures |r| == |rows|
    ensures forall k :: 0 <= k < |rows| ==> r[k] == if rows[k].id == id then Overwrite(rows[k], f) else rows[k]
  {
    if rows == [] then []
    else
      var rest := Updated(rows[1..], id, f);
      var r := [if rows[0].id == id then Overwrite(rows[0], f) else rows[0]] + rest;
      assert forall k :: 0 < k < |rows| ==> r[k] == rest[k - 1] && rows[k] == rows[1..][k - 1];
      r
  }

  // ---------------------------------------------------------------------
  // Lemmas
  // ---------------------------------------------------------------------

  /** With unique ids, get finds exactly the row carrying that id when the caller owns it. */
  lemma GetFindsOwnedRow(rows: seq<Meal>, user: UserId, id: MealId, m: Meal)
    requires UniqueIds(rows)
    ensures Get(rows, user, id) == Some(m) <==> m in rows && m.id == id && m.userId == user
  {
    if m in rows && m.id == id && m.userId == user {
      var r := Get(rows, user, id);
      var i :| 0 <= i < |rows| && rows[i] == m;
      var j :| 0 <= j < |rows| && rows[j] == r.value;
      assert i == j;
    }
  }

  /** A row owned by someone else gives the same not-found as an id that is absent. */
  lemma ForeignRowLooksMissing(rows: seq<Meal>, user: UserId, k: nat)
    requires UniqueIds(rows)
    requires k < |rows| && rows[k].userId != user
    ensures Get(rows, user, rows[k].id) == None
    ensures Get(rows, user, rows[k].id) == Get(Removed(rows, rows[k].id), user, rows[k].id)
  {
    var id := rows[k].id;
    forall m | m in rows && m.id == id ensures m.userId != user {
      var i :| 0 <= i < |rows| && rows[i] == m;
      assert i == k;
    }
  }

  lemma {:induction false} OwnedByAppend(a: seq<Meal>, b: seq<Meal>, user: UserId)
    ensures OwnedBy(a + b, user) == OwnedBy(a, user) + OwnedBy(b, user)
  {
    if a == [] {
      assert a + b == b;
    } else {
      assert (a + b)[0] == a[0] && (a + b)[1..] == a[1..] + b;
      OwnedByAppend(a[1..], b, user);
    }
  }

  /** Get reads nothing but the caller's own rows. */
  lemma {:induction false} GetSeesOnlyOwnRows(rows: seq<Meal>, user: UserId, id: MealId)
    ensures Get(rows, user, id) == Get(OwnedBy(rows, user), user, id)
  {
    if rows != [] {
      GetSeesOnlyOwnRows(rows[1..], user, id);
      var own := OwnedBy(rows, user);
      if rows[0].userId == user {
        assert own == [rows[0]] + OwnedBy(rows[1..], user);
        assert own[0] == rows[0] && own[1..] == OwnedBy(rows[1..], user);
      } else {
        assert own == OwnedBy(rows[1..], user);
      }
    }
  }

  /**
   * No existence leakage: two tables that agree on the caller's rows give the
   * caller the same list and the same get result for every id.
   */
  lemma ReadsSeeOnlyOwnRows(rows1: seq<Meal>, rows2: seq<Meal>, user: UserId, id: MealId)
    requires OwnedBy(rows1, user) == OwnedBy(rows2, user)
    ensures List(rows1, user) == List(rows2, user)
    ensures Get(rows1, user, id) == Get(rows2, user, id)
  {
    GetSeesOnlyOwnRows(rows1, user, id);
    GetSeesOnlyOwnRows(rows2, user, id);
  }

  /** With unique ids, deleting by id removes exactly the row at `k` and keeps the rest in order. */
  lemma {:induction false} RemovedAt(rows: seq<Meal>, k: nat)
    requires UniqueIds(rows) && k < |rows|
    ensures Removed(rows, rows[k].id) == rows[..k] + rows[k + 1..]
  {
    if k == 0 {
      RemovedFirst(rows);
    } else {
      var id := rows[k].id;
      var tail := rows[1..];
      TailKeepsIdsUnique(rows);
      assert tail[k - 1] == rows[k];
      assert rows[0].id != id;
      RemovedAt(tail, k - 1);
      RemovedKeepsHead(rows, id);
      SpliceAfterHead(rows, k);
    }
  }

  lemma SpliceAfterHead(rows: seq<Meal>, k: nat)
    requires 0 < k < |rows|
    ensures [rows[0]] + (rows[1..][..k - 1] + rows[1..][k..]) == rows[..k] + rows[k + 1..]
  {
    assert rows[1..][..k - 1] == rows[1..k] && rows[1..][k..] == rows[k + 1..];
    assert [rows[0]] + rows[1..k] == rows[..k];
  }

  lemma RemovedFirst(rows: seq<Meal>)
    requires UniqueIds(rows) && rows != []
    ensures Removed(rows, rows[0].id) == rows[1..]
  {
    var id := rows[0].id;
    var tail := rows[1..];
    assert IdFree(tail, id) by {
      forall j | 0 <= j < |tail| ensures tail[j].id != id {
        assert tail[j] == rows[j + 1];
      }
    }
    RemovedNothing(tail, id);
  }

  lemma RemovedKeepsHead(rows: seq<Meal>, id: MealId)
    requires rows != [] && rows[0].id != id
    ensures Removed(rows, id) == [rows[0]] + Removed(rows[1..], id)
  {
  }

  lemma TailKeepsIdsUnique(rows: seq<Meal>)
    requires UniqueIds(rows) && rows != []
    ensures UniqueIds(rows[1..])
  {
    var tail := rows[1..];
    forall i, j | 0 <= i < j < |tail| ensures tail[i].id != tail[j].id {
      assert tail[i] == rows[i + 1] && tail[j] == rows[j + 1];
    }
  }

  lemma {:induction false} RemovedNothing(rows: seq<Meal>, id: MealId)
    requires IdFree(rows, id)
    ensures Removed(rows, id) == rows
  {
    if rows != [] {
      assert IdFree(rows[1..], id) by {
        forall j | 0 <= j < |rows[1..]| ensures rows[1..][j].id != id {
          assert rows[1..][j] == rows[j + 1];
        }
      }
      RemovedNothing(rows[1..], id);
    }
  }

  /** Dropping one row keeps the ids unique. */
  lemma DropKeepsIdsUnique(rows: seq<Meal>, k: nat)
    requires UniqueIds(rows) && k < |rows|
    ensures UniqueIds(rows[..k] + rows[k + 1..])
  {
    var r := rows[..k] + rows[k + 1..];
    forall i, j | 0 <= i < j < |r| ensures r[i].id != r[j].id {
      var i' := if i < k then i else i + 1;
      var j' := if j < k then j else j + 1;
      assert r[i] == rows[i'] && r[j] == rows[j'];
    }
  }

  /** With unique ids, replacing by id overwrites exactly the row at `k`. */
  lemma UpdatedAt(rows: seq<Meal>, k: nat, f: MealFields)
    requires UniqueIds(rows) && k < |rows|
    ensures Updated(rows, rows[k].id, f) == rows[k := Overwrite(rows[k], f)]
  {
    var r := Updated(rows, rows[k].id, f);
    var expected := rows[k := Overwrite(rows[k], f)];
    forall i | 0 <= i < |rows| ensures r[i] == expected[i] {
      if i < k {
        assert rows[i].id != rows[k].id;
      } else if k < i {
        assert rows[k].id != rows[i].id;
      }
    }
  }

  /** Overwriting one row's fields keeps the ids unique. */
  lemma OverwriteKeepsIdsUnique(rows: seq<Meal>, k: nat, f: MealFields)
    requires UniqueIds(rows) && k < |rows|
    ensures UniqueIds(rows[k := Overwrite(rows[k], f)])
  {
    var r := rows[k := Overwrite(rows[k], f)];
    assert forall i :: 0 <= i < |r| ==> r[i].id == rows[i].id;
  }

  /** Replacing a meal with the values it already has leaves the table as it was. */
  lemma ReplaceWithSameFieldsIsIdentity(rows: seq<Meal>, k: nat, f: MealFields)
    requires UniqueIds(rows) && k < |rows|
    requires FieldsOf(rows[k]) == f
    ensures Updated(rows, rows[k].id, f) == rows
  {
    UpdatedAt(rows, k, f);
    assert Overwrite(rows[k], f) == rows[k];
  }

  /** A row not owned by `user` contributes nothing to that user's view. */
  lemma OwnedBySkips(a: seq<Meal>, x: Meal, b: seq<Meal>, user: UserId)
    requires x.userId != user
    ensures OwnedBy(a + [x] + b, user) == OwnedBy(a + b, user)
  {
    OwnedByAppend(a + [x], b, user);
    OwnedByAppend(a, [x], user);
    OwnedByAppend(a, b, user);
    assert OwnedBy([x], user) == [];
  }

  /**
   * Isolation for delete: when the row at `k` belongs to `owner`, deleting it
   * leaves every other user's rows exactly as they were.
   */
  lemma DeleteLeavesOtherUsersUnchanged(rows: seq<Meal>, k: nat, owner: UserId, other: UserId)
    requires UniqueIds(rows) && k < |rows|
    requires rows[k].userId == owner && other != owner
    ensures OwnedBy(Removed(rows, rows[k].id), other) == OwnedBy(rows, other)
  {
    RemovedAt(rows, k);
    assert rows == rows[..k] + [rows[k]] + rows[k + 1..];
    OwnedBySkips(rows[..k], rows[k], rows[k + 1..], other);
  }

  /**
   * Isolation for replace: when the row at `k` belongs to `owner`, replacing it
   * leaves every other user's rows exactly as they were.
   */
  lemma ReplaceLeavesOtherUsersUnchanged(rows: seq<Meal>, k: nat, owner: UserId, other: UserId, f: MealFields)
    requires UniqueIds(rows) && k < |rows|
    requires rows[k].userId == owner && other != owner
    ensures OwnedBy(Updated(rows, rows[k].id, f), other) == OwnedBy(rows, other)
  {
    UpdatedAt(rows, k, f);
    var m' := Overwrite(rows[k], f);
    SetIsSplice(rows, k, m');
    OwnedBySkips(rows[..k], rows[k], rows[k + 1..], other);
    OwnedBySkips(rows[..k], m', rows[k + 1..], other);
  }

  lemma SetIsSplice(rows: seq<Meal>, k: nat, x: Meal)
    requires k < |rows|
    ensures rows == rows[..k] + [rows[k]] + rows[k + 1..]
    ensures rows[k := x] == rows[..k] + [x] + rows[k + 1..]
  {
  }

  /** Isolation for create: a row inserted for `owner` is invisible to every other user. */
  lemma CreateLeavesOtherUsersUnchanged(rows: seq<Meal>, id: MealId, owner: UserId, other: UserId, f: MealFields)
    requires other != owner
    ensures OwnedBy(rows + [NewMeal(id, owner, f)], other) == OwnedBy(rows, other)
  {
    OwnedByAppend(rows, [NewMeal(id, owner, f)], other);
  }

  // ---------------------------------------------------------------------
  // The table
  // ---------------------------------------------------------------------

  /** The `meals` table, updated in place by create, delete and replace. */
  class MealTable {
    var rows: seq<Meal>

    ghost predicate Valid()
      reads this
    {
      UniqueIds(rows)
    }

    constructor ()
      ensures Valid() && rows == []
    {
      rows := [];
    }

    /**
     * POST /meals. `id` stands for the fresh identifier the handler generates;
     * an empty name is rejected before anything is written.
     */
    method Create(user: UserId, id: MealId, f: MealFields) returns (out: Outcome)
      requires Valid() && IdFree(rows, id)
      modifies this
      ensures Valid()
      ensures out == if |f.name| < 1 then Invalid(NameRequired) else Done
      ensures out.Done? ==> rows == old(rows) + [NewMeal(id, user, f)]
      ensures out.Invalid? ==> rows == old(rows)
      ensures out.Done? ==> NewMeal(id, user, f) in List(rows, user) && Get(rows, user, id) == Some(NewMeal(id, user, f))
      ensures forall other :: other != user ==> OwnedBy(rows, other) == OwnedBy(old(rows), other)
    {
      if |f.name| < 1 {
        return Invalid(NameRequired);
      }
      var m := NewMeal(id, user, f);
      rows := rows + [m];
      out := Done;
      GetFindsOwnedRow(rows, user, id, m);
      assert m in List(rows, user);
      forall other | other != user
        ensures OwnedBy(rows, other) == OwnedBy(old(rows), other)
      {
        CreateLeavesOtherUsersUnchanged(old(rows), id, user, other, f);
      }
    }

    /** DELETE /meals/:id: look the row up by id and owner, then delete by id. */
    method Delete(user: UserId, id: MealId) returns (out: Outcome)
      requires Valid()
      modifies this
      ensures Valid()
      ensures out == if Get(old(rows), user, id).Some? then Done else NotFound
      ensures out.NotFound? ==> rows == old(rows)
      ensures out.Done? ==> exists k :: 0 <= k < |old(rows)| && old(rows)[k] == Get(old(rows), user, id).value
                                      && rows == old(rows)[..k] + old(rows)[k + 1..]
      ensures out.Done? ==> Get(rows, user, id).None?
      ensures forall other :: other != user ==> OwnedBy(rows, other) == OwnedBy(old(rows), other)
    {
      var found := Get(rows, user, id);
      if found.None? {
        return NotFound;
      }
      ghost var before := rows;
      ghost var k :| 0 <= k < |rows| && rows[k] == found.value;
      RemovedAt(rows, k);
      DropKeepsIdsUnique(rows, k);
      rows := Removed(rows, id);
      out := Done;
      assert before[k] == found.value && rows == before[..k] + before[k + 1..];
      forall other | other != user
        ensures OwnedBy(rows, other) == OwnedBy(before, other)
      {
        DeleteLeavesOtherUsersUnchanged(before, k, user, other);
      }
    }

    /**
     * PUT /meals/:id: look the row up by id and owner, then overwrite name,
     * description, flag and date by id. The name is not checked for emptiness.
     */
    method Replace(user: UserId, id: MealId, f: MealFields) returns (out: Outcome)
      requires Valid()
      modifies this
      ensures Valid()
      ensures out == if Get(old(rows), user, id).Some? then Done else NotFound
      ensures out.NotFound? ==> rows == old(rows)
      ensures out.Done? ==> exists k :: 0 <= k < |old(rows)| && old(rows)[k] == Get(old(rows), user, id).value
                                      && rows == old(rows)[k := Overwrite(old(rows)[k], f)]
      ensures out.Done? ==> Get(rows, user, id) == Some(Overwrite(Get(old(rows), user, id).value, f))
      ensures forall other :: other != user ==> OwnedBy(rows, other) == OwnedBy(old(rows), other)
    {
      var found := Get(rows, user, id);
      if found.None? {
        return NotFound;
      }
      ghost var before := rows;
      ghost var k :| 0 <= k < |rows| && rows[k] == found.value;
      UpdatedAt(rows, k, f);
      OverwriteKeepsIdsUnique(rows, k, f);
      rows := Updated(rows, id, f);
      out := Done;
      assert before[k] == found.value && rows == before[k := Overwrite(before[k], f)];
      GetFindsOwnedRow(rows, user, id, Overwrite(found.value, f));
      forall other | other != user
        ensures OwnedBy(rows, other) == OwnedBy(before, other)
      {
        ReplaceLeavesOtherUsersUnchanged(before, k, user, other, f);
      }
    }
  }
}
