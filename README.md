# Daily-diet meals core in Dafny

A model of the meal routes of the daily-diet API (`src/routes/meals.routes.ts`).
Users log meals flagged as on diet or not. Each meal belongs to the user who
created it. The model covers two parts.

- **The meals table and its five handlers** (module `Meals`, `meals.dfy`).
  The table is a class, `MealTable`, whose `rows: seq<Meal>` field is changed
  in place by `Create`, `Delete` and `Replace`. Its invariant `Valid()` says
  meal ids are unique (the primary key). List and get are pure functions over
  the rows. Every handler takes the caller's user id as a parameter.
  - Get, delete and replace first look a row up by id *and* owner. If that
    fails the result is not-found (HTTP 404 "Meal not found"). A meal owned by
    someone else therefore gives the same result as a missing id.
  - Only after a successful lookup do delete and replace act on the row, and
    they address it by id alone (`Removed`, `Updated`). The lemmas
    `RemovedAt` / `UpdatedAt` show that, with unique ids, exactly the looked-up
    row is removed or overwritten and every other row stays in place.
  - Isolation is proved both ways. Reads see only the caller's rows
    (`ReadsSeeOnlyOwnRows`). Writes by one user leave every other user's rows
    unchanged (`…LeaveOtherUsersUnchanged`, and the last `ensures` of each
    table method).
- **Adherence metrics** (modules `Streak`, `streak.dfy`, and `Metrics`,
  `metrics.dfy`).
  - The two count queries partition the caller's meals by the on-diet flag.
  - The total is the length of the date-descending list.
  - `bestOnDietSequence` is computed by the same single left-to-right fold as
    the `reduce` in the source (method `BestOnDietSequence`). The fold keeps a
    running counter, reset by every off-diet meal, and a maximum so far. It is
    proved equal to `LongestRun`, and `LongestRun` is proved to be the length of
    the longest block of consecutive on-diet meals (`IsLongestRun`).
  - The streak is taken over the list in whatever order it is given. The order
    among meals with equal dates is not specified by the source. So the metrics
    handler receives the listed meals as a parameter, constrained only by what
    the list query guarantees (`ListedFor`: date-descending and a permutation of
    the caller's rows). Every bound is proved for every such order. `List` is
    one admissible order: its tie order is table order, but its contract does
    not promise that.

Request handling is sequential in the model. Each handler's lookup and its
write happen together, with no other request in between.

## Model

| member | source | states |
|---|---|---|
| Meals.OwnedBy | src/routes/meals.routes.ts:10-11 | A meal is in the result exactly when it is in the table and owned by the caller. |
| Meals.SortByDateDesc | src/routes/meals.routes.ts:12 | The result is date-descending and is a permutation of the input. |
| Meals.List | src/routes/meals.routes.ts:9-14 | The result is date-descending and a permutation of the caller's rows. It has one entry per caller row and contains exactly the caller's meals. |
| Meals.Get | src/routes/meals.routes.ts:16-26 | A found meal is in the table with the requested id and the caller as owner. Not-found happens exactly when no row matches both id and owner. |
| Meals.GetFindsOwnedRow | src/routes/meals.routes.ts:19-21 | With unique ids, get returns a given meal exactly when that meal is in the table, has the id and is owned by the caller. |
| Meals.ForeignRowLooksMissing | src/routes/meals.routes.ts:19-24 | Asking for another user's meal gives not-found, the same result get gives once that id is gone from the table. |
| Meals.GetSeesOnlyOwnRows | src/routes/meals.routes.ts:19-21 | Get on the whole table equals get on the caller's rows alone. |
| Meals.ReadsSeeOnlyOwnRows | src/routes/meals.routes.ts:9-26 | Two tables that agree on the caller's rows give the caller the same list and the same get result for every id. |
| Meals.Removed | src/routes/meals.routes.ts:37 | Deleting by id keeps exactly the rows whose id differs. |
| Meals.RemovedAt | src/routes/meals.routes.ts:37 | With unique ids, deleting the id of row k removes row k alone and keeps the other rows in order. |
| Meals.Overwrite | src/routes/meals.routes.ts:81-86 | Replace keeps the row's id and owner and sets its four editable fields to the request's values. |
| Meals.Updated | src/routes/meals.routes.ts:81-86 | Updating by id keeps the table's length and every row's id and owner. Every row with the addressed id takes the request's four fields; rows with a different id are left untouched. |
| Meals.UpdatedAt | src/routes/meals.routes.ts:81-86 | With unique ids, updating the id of row k overwrites row k alone and leaves every other row as it was. |
| Meals.ReplaceWithSameFieldsIsIdentity | src/routes/meals.routes.ts:77-86 | Replacing a meal with the values it already holds leaves the table unchanged. |
| Meals.DeleteLeavesOtherUsersUnchanged | src/routes/meals.routes.ts:31-37 | Deleting a row owned by one user leaves every other user's rows unchanged. |
| Meals.ReplaceLeavesOtherUsersUnchanged | src/routes/meals.routes.ts:77-86 | Replacing a row owned by one user leaves every other user's rows unchanged. |
| Meals.CreateLeavesOtherUsersUnchanged | src/routes/meals.routes.ts:51-58 | A row inserted for one user does not appear among any other user's rows. |
| Meals.NewMeal | src/routes/meals.routes.ts:51-58 | The inserted row carries the generated id, the caller as owner, and exactly the request's name, description, flag and millisecond date. |
| Meals.MealTable.Create | src/routes/meals.routes.ts:41-59 | An empty name is rejected with the validation message and the table is untouched. Otherwise exactly one row is appended: the fresh id, the caller as owner, the fields, and the date in integer milliseconds. Ids stay unique, and the new meal is then listed and found for the caller. Other users' rows are unchanged. |
| Meals.MealTable.Delete | src/routes/meals.routes.ts:28-39 | Not-found exactly when the caller owns no meal with that id, and then the table is unchanged. Otherwise exactly the looked-up row is removed, the others stay in order, and the id is no longer found. Other users' rows are unchanged. |
| Meals.MealTable.Replace | src/routes/meals.routes.ts:62-88 | Not-found exactly when the caller owns no meal with that id, and then the table is unchanged. Otherwise only the looked-up row changes: its four fields are overwritten and its id and owner are kept. Get then returns the overwritten meal, and other users' rows are unchanged. |
| Streak.CountOnDiet | src/routes/meals.routes.ts:91-94 | The number of on-diet meals is at most the number of meals. |
| Streak.TrailingRun | src/routes/meals.routes.ts:104-108 | The running counter is the length of the on-diet block ending the list. The meal just before that block, if there is one, is off diet. |
| Streak.LongestRun | src/routes/meals.routes.ts:109-111 | The maximum so far is at least the running counter and at most the list length. |
| Streak.LongestRunIsLongest | src/routes/meals.routes.ts:102-115 | The fold's maximum is the length of some block of consecutive on-diet meals, and no such block is longer. |
| Streak.LongestRunMonotone | src/routes/meals.routes.ts:109-111 | The maximum after a prefix never exceeds the maximum after the whole list, so it never decreases during the fold. |
| Streak.LongestRunAtMostCount | src/routes/meals.routes.ts:91-115 | bestOnDietSequence <= number of on-diet meals <= number of meals. |
| Streak.AllOnDietStreak | src/routes/meals.routes.ts:102-115 | When every meal is on diet, the streak equals the number of meals. |
| Streak.TwoThenOffStreak | src/routes/meals.routes.ts:102-115 | Flags [true, true, false] give a streak of 2. |
| Streak.AlternatingStreak | src/routes/meals.routes.ts:102-115 | A non-empty list that alternates on/off and starts on diet gives a streak of 1. |
| Streak.BestOnDietSequence | src/routes/meals.routes.ts:102-115 | The imperative fold returns the longest run of consecutive on-diet meals, which is at most the on-diet count. |
| Metrics.CountWhere | src/routes/meals.routes.ts:91-98 | A count query counts at most the caller's rows, and it is zero exactly when no row of the caller has the requested on-diet flag. |
| Metrics.CountsPartitionOwnRows | src/routes/meals.routes.ts:91-98 | The on-diet count plus the off-diet count equals the number of the caller's meals. |
| Metrics.OnDietCountIsOwnCount | src/routes/meals.routes.ts:91-94 | The on-diet count query equals the number of on-diet meals among the caller's rows. |
| Metrics.CountOnDietPermutation | src/routes/meals.routes.ts:99-101 | Reordering a list does not change its on-diet count. |
| Metrics.MetricsFor | src/routes/meals.routes.ts:90-122 | For every admissible date-descending order: totalMeals is the number of the caller's meals and the on-diet count is theirs. On plus off equals the total. The streak is the longest on-diet block of the list. bestOnDietSequence <= on-diet <= total, and everything is 0 when the caller has no meals. |
| Metrics.ReplaceSameFieldsKeepsMetrics | src/routes/meals.routes.ts:81-86 | Replacing a meal with its own values leaves the caller's list and both counts unchanged. |

## Left out

- Fastify routing, `reply.status(...).send(...)` and the session pre-handler hook are left out. The hook resolves the cookie to a user. The caller's user id is a plain parameter of every handler. The session middleware is not part of this model, and neither is user registration, which `src/test/users.test.ts` exercises over HTTP.
- knex and the database are left out. The table is the in-memory `rows` sequence. Both count queries are modelled as integers, so how the driver types a `count` result (number or string) is not modelled.
- zod parsing is left out: the UUID format check on `:id`, the type checks of the body, and `z.coerce.date()`'s parsing of date strings. Dates reach the model already as epoch-millisecond integers, and malformed requests (400) are not modelled. The one rule kept is create's non-empty name, with its message.
- `randomUUID()` is a randomness source. `Create` receives the id as a parameter and requires it not to be in the table yet.
- The gap between the ownership lookup and the write in delete and replace is left out. It only matters when requests run concurrently, and in this sequential model the two steps happen together.
- The HTTP status codes and response bodies are left out. A handler's reply is modelled as an `Outcome` (done, not-found, or invalid with its message), or as the meal or list it returns.
- Replace does not check that the name is non-empty (`src/routes/meals.routes.ts:69`). The model follows the code: after a replace, a stored meal can have an empty name, although meal names are otherwise described as non-empty.
