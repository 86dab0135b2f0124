# Job-leasing store of the rdpc server

The server keeps a `queries` table of data-fetch jobs. Pollers lease them in
small batches, and workers reschedule them afterwards. This project models that
table and every statement the gRPC handlers run on it:

- claiming a batch (`GetInfoQueries` for one-shot jobs, `GetPriceQueries` for recurring ones);
- rescheduling (`UpdateNextRun`);
- deleting (`DeleteQuery`);
- inserting (`InsertQuery`);
- the existence checks (`HasPriceQuery`, and the first half of `HasInfo`).

Each row has `id`, `item_id`, `realm`, `league`, `search_query`,
`update_interval` (hours), `next_run`, `status` (`queued` or `in_progress`),
`started_at` and `run_once`. A row is eligible for a claim on pool `f` at time
`now` when:

- `next_run < now`, and
- `run_once = f`, and
- either `status = queued`, or `status = in_progress` and `started_at < now - 300`.

The lease is five minutes. A claim takes the eligible rows with the four
smallest ids, marks them `in_progress` with `started_at = now`, and returns them.

- `queries.dfy` (module `Queries`): the row datatype, and the meaning of each SQL
  statement as a function over the table. The table is a sequence of rows in
  ascending id order. `Selection` is the claim's subquery, `LeaseWhere` and
  `Returning` are its `UPDATE ... RETURNING`, `RescheduleTable` is the
  reschedule, `Without` is the delete and `AnyRow` is `SELECT EXISTS`. The
  module also holds the lemmas about these functions.
- `store.dfy` (module `Store`): class `JobStore`. Its `rows` field is the table
  and its `nextId` field is the next id to hand out. The handlers that change
  the table (`Claim`, `Reschedule`, `Delete`) are methods, each proved to
  produce the state the corresponding function of `Queries` describes; `Insert`
  states its new table directly, as one appended row. The two existence checks
  are functions of the object.
  `Reschedule` and `Delete` each loop over the rows. `Claim` has no loop of its
  own: it calls the module-level methods `SelectForClaim` and `LeaseSelected`,
  which each loop over the rows. `Insert` is a single append. `Valid()` holds three
  invariants: ids are strictly ascending, every id is below `nextId`, and a
  queued row has `started_at = 0`.

The two claim handlers differ only in the `run_once` literal, so they are one
method taking the flag. All times are unix seconds and are passed in as `now`
instead of being read from the clock.

## Model

| member | source | states |
|---|---|---|
| Queries.Eligible | server/main.go:257 | the claim's condition (the same at :298 with the other `run_once` value): a row is eligible if and only if it is due (`next_run < now`), it belongs to the pool, and no lease taken within the last 300 s holds it |
| Queries.Lease | server/main.go:252-253 | a leased row is `in_progress` with `started_at = now`, and every other column is as it was |
| Queries.LeaseWhere | server/main.go:252-254 | the update keeps the table's length and every row's id and `run_once`, and leaves every row whose id is not in the set unchanged |
| Queries.Returning | server/main.go:261 | `RETURNING` gives at most as many rows as the table has |
| Queries.ReturningLeased | server/main.go:252-261 | every returned row has an id in the set and is `in_progress` with `started_at = now` |
| Queries.ClaimTable | server/main.go:252-261 | a claim keeps the table's length and the id at every position |
| Queries.ClaimResult | server/main.go:252-261 | every row a claim returns has an id the subquery picked and holds a lease taken at `now` |
| Store.JobStore.Claim | server/main.go:250-289 | one atomic claim on pool `runOnce` at `now`; the new table is `ClaimTable` of the old one, the result is `ClaimResult` of the old one, and the table invariants and `nextId` are kept |
| Queries.Claimed | server/main.go:254-260 | the subquery with `LIMIT 4`: at most 4 rows, and no more than the table has |
| Store.SelectForClaim | server/main.go:254-260 | the subquery's scan picks exactly `Selection(table, runOnce, now, limit)`, the first `limit` eligible rows in id order; `Claim` passes `BatchSize`, which is 4 |
| Store.LeaseSelected | server/main.go:252-261 | the update leases exactly the rows whose id is in the selected set, leaves the rest as they were, and returns the updated rows in table order |
| Queries.Selection | server/main.go:258-259 | `LIMIT`: the selection has at most `budget` rows and no more rows than the table |
| Queries.SelectionRows | server/main.go:257 | every selected row is a row of the table and satisfies the eligibility condition: due, in the pool, and queued or holding a lease older than 300 s |
| Queries.SelectionAscending | server/main.go:258-259 | the subquery keeps the table's strictly ascending id order, so it picks no row twice |
| Queries.SelectionSmallestFirst | server/main.go:254-260 | `ORDER BY id LIMIT`: an eligible row is left out only if the budget is used up, and then only by rows with smaller ids |
| Queries.ClaimTakesAllWhenFew | server/main.go:254-260 | a claim that picks fewer than 4 rows picks every eligible row |
| Queries.SelectedId | server/main.go:254-255 | with unique ids, `id IN (subquery)` holds of a row exactly when the subquery picked that row |
| Queries.ReturningSelection | server/main.go:252-261 | the `RETURNING` rows are the leased versions of the selected rows, in the same order |
| Queries.ReturningSelectionStep | server/main.go:252-261 | the inductive step of that fact: the first row is returned exactly when the subquery picked it |
| Queries.ReturningNone | server/main.go:254-261 | an update whose id set matches no row returns nothing |
| Queries.ReturningCongruent | server/main.go:254-261 | what the update returns depends only on which rows' ids are in the set |
| Queries.LeaseAllIds | server/main.go:252-253 | leasing rows keeps their ids |
| Queries.ClaimReturnsLeasedSelection | server/main.go:252-282 | a claim returns at most 4 rows; each was eligible before the claim; each is now `in_progress` with `started_at = now`; all other fields are unchanged |
| Queries.ClaimUpdatesOnlyClaimed | server/main.go:252-260 | a claim leases the claimed rows and leaves every other row unchanged; it keeps the table length, the id order and the rule that a queued row has `started_at = 0` |
| Queries.ClaimIsolatesPool | server/main.go:295-298 | a claim changes no row of the other `run_once` pool and no ineligible row, and returns only rows of its own pool |
| Queries.LeasedRowEligibility | server/main.go:257-264 | a row claimed at `t` is eligible at `t2` for pool `f2` if and only if `t < t2 - 300`, it is due at `t2`, and its `run_once` is `f2` |
| Queries.NoReclaimWithinLease | server/main.go:252-264 | a second claim at `t2` with `t2 - 300 <= t`, on either pool, returns none of the ids the claim at `t` returned; with `t2 = t` this means no row is handed out twice |
| Queries.LiveLeaseSurvivesClaim | server/main.go:252-264 | a claim at a time when a row's lease is still live leaves that row unchanged and does not return its id, whichever pool it serves |
| Queries.ClaimSeries | server/main.go:252-261 | claims made one after another keep the table's length |
| Queries.ClaimSeriesPrefix | server/main.go:252-261 | the first `k` claims of a series are its first claim followed by the next `k - 1` |
| Queries.NoReclaimWhileLeased | server/main.go:252-264 | a row whose lease is live at the time of every claim in a series stays unchanged through the series, and no claim in it returns the row's id, on either pool |
| Queries.NextRunAfter | server/main.go:470 | the new `next_run` is a whole number of hours after `now`, and that number is the requested interval; a positive interval gives a time after `now` |
| Queries.Release | server/main.go:466-468 | a released row is `queued` with `started_at = 0` and the new `next_run`, and every other column is as it was |
| Queries.Targets | server/main.go:468 | the reschedule's condition: the row has the given id and the given league |
| Queries.RescheduleTable | server/main.go:466-468 | a reschedule keeps the table's length and every row's id, `item_id`, `league` and `run_once`; a row with the id and the league becomes its `Release`, so it keeps realm, search query and update interval too; every other row is unchanged |
| Store.JobStore.Reschedule | server/main.go:464-475 | the new table is `RescheduleTable`: the row with both the id and the league gets `next_run = now + update*3600`, `status = queued` and `started_at = 0`; invariants are kept |
| Queries.RescheduleMismatchIsNoOp | server/main.go:466-468 | a reschedule whose id and league match no row, for example a stale league, leaves the table unchanged |
| Queries.RescheduleKeepsTable | server/main.go:466-470 | a reschedule keeps the id order and the queued-means-`started_at = 0` rule; the targeted rows become queued with no lease and the new `next_run` |
| Queries.RescheduledNotDue | server/main.go:466-470 | no claim at a time not after the new `next_run` selects the rescheduled row, on either pool |
| Store.JobStore.Delete | server/main.go:477-484 | the new table is `Without(old table, id)`; invariants are kept |
| Queries.Without | server/main.go:478-480 | a delete never lengthens the table, and no row with the id is left |
| Queries.WithoutMembers | server/main.go:478-480 | a delete removes exactly the rows with that id and keeps every other row |
| Queries.WithoutAscending | server/main.go:478-480 | a delete keeps the table in ascending id order |
| Queries.WithoutAbsent | server/main.go:478-482 | deleting an id no row has leaves the table unchanged |
| Store.JobStore.Insert | server/main.go:124-135 | appends one row with a fresh id (`nextId`) and the given columns, queued with `started_at = 0`; invariants are kept |
| Queries.PriceQueryFor | server/main.go:200 | the `HasPriceQuery` condition (item id, league, `run_once = false`); a row that meets it never meets the `HasInfo` condition for the same item |
| Queries.InfoQueryFor | server/main.go:166 | the first `HasInfo` condition: the item id with `run_once = true` |
| Queries.AnyRow | server/main.go:197-200 | `SELECT EXISTS`: true if and only if some row satisfies the condition |
| Store.JobStore.HasPriceQuery | server/main.go:196-209 | true if and only if some row has the item id and the league, with `run_once = false` |
| Store.JobStore.HasInfoQuery | server/main.go:163-176 | true if and only if some row has the item id with `run_once = true` |
| Queries.LifecycleKeepsExistence | server/main.go:197-200 | claims and reschedules never change the answer of either existence check |
| Queries.SameKeysSameExistence | server/main.go:197-200 | two tables whose rows agree position by position on `item_id`, `league` and `run_once` give the same answer to both existence checks |
| Queries.DeleteExistence | server/main.go:478-480 | after deleting `id`, a recurring query for the item and league exists if and only if one with another id existed before |
| Queries.RecurringScenario | server/main.go:464-470 | worked example: a recurring job due a second ago is claimed and returned as leased; after a 24-hour reschedule it is queued with `next_run = now + 86400`, and a claim at the same instant returns nothing |

## Left out

- Transport, TLS, the SQLite connection and its pragmas (`main`), and database or driver errors. Every statement is modelled as succeeding. The single connection set at server/main.go:44 is why a claim is modelled as one atomic method.
- Concurrency: there is one caller at a time. No two claims overlap, so "no double claim" is stated for claims in sequence (`NoReclaimWithinLease` with `t2 = t`, and `NoReclaimWhileLeased` for a whole series of claims).
- Queries.NoReclaimWhileLeased: the series holds only claims. An insert or delete between two claims is not part of the lemma. An insert appends a row and a delete removes other rows without changing any kept row, so a leased row itself is unaffected; the lemma does not state this, because a delete shifts row positions.
- The clock: `time.Now()` is replaced by the parameter `now`. The claim handlers read the clock twice (server/main.go:263-264); the model uses one instant for both the lease cutoff and `now`.
- Store.JobStore.Claim: the order of `RETURNING` rows is not fixed by SQLite. The model returns them in ascending id order, which is a modelling choice.
- Store.JobStore.Reschedule: integers are unbounded, so the model does not capture the int64 nanosecond overflow of `time.Duration(update) * time.Hour`. That overflow happens for intervals above about 2.5 million hours.
- Store.JobStore.Insert: the schema is not part of this model. Three things are assumptions: new rows start `queued` with `started_at = 0`, ids come from a counter that only increases (as with `AUTOINCREMENT`), and ids start at 1.
- `status` is modelled as the two values the handlers write. Other strings the column could hold are not modelled.
- Store.JobStore.Delete: `DeleteQuery` passes the request's `ItemId` field as the row id. The model takes the row id directly.
- `UpdateNextRun` and `DeleteQuery` ignore the affected-row count, so the model has no not-found result: a mismatch simply changes nothing.
- Store.JobStore.HasInfoQuery: this is only the first query of `HasInfo`. The fallback that reads the `icon` column of the `items` table and the `items` table itself are not part of this model.
- The item, stat and price handlers (`InsertStats`, `InsertItem`, `InsertItemWithID`, `InsertPrice`, `HasItem`, `GetMod`, `GetItemsByCategory`, `GetBaseItems`, `UpdateItemInfo`) are left out. They copy columns of other tables and take no part in the job lifecycle.
- client/main.go is not part of this model. It only loads certificates and makes a single remote call.
