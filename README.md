# Duration backfill of the ARA api (migration 0004)

This project models the data step of ARA's migration `0004_duration_in_database`.
The migration adds a nullable `duration` column to the Playbook, Play, Task and
Result tables. It then runs `move_to_duration`, which visits every row of those
four tables. A row that already has a duration is skipped. Any other row gets
`ended - started` when it has ended, or `updated - started` when it has not,
and is saved.

The model is one module, `DurationInDatabase` (`duration_in_database.dfy`):

- `Row` holds the four columns the step touches. Timestamps and durations are
  integers (microseconds). A null column is `None`.
- `Elapsed` is the per-row rule. `Fill` is what one turn of the inner loop
  leaves in a row. `Backfilled` is a whole table after the inner loop.
- `Backfill` is the inner loop, run in place over an `array<Row>`. It is proved
  to leave `Backfilled` of the old contents.
- `Apps` is the historical model registry, with one table per model.
  `MoveToDuration` is the outer loop over `DurationModels` (Playbook, Play,
  Task, Result). It is proved to backfill each table from its own old rows and
  to leave every row of every table with a duration.
- `Visit` applies the per-row step to indices in an arbitrary order, repeats
  allowed. `VisitAnyOrder` shows that the order in which the rows are fetched
  does not change the outcome, as long as every row is visited.

## Model

| member | source | states |
|---|---|---|
| `DurationInDatabase.Backfilled` | ara/api/migrations/0004_duration_in_database.py:12-19 | the table keeps its number of rows |
| `DurationInDatabase.BackfilledAt` | ara/api/migrations/0004_duration_in_database.py:12-19 | row `i` of the result is determined by row `i` of the input alone |
| `DurationInDatabase.BackfilledEach` | ara/api/migrations/0004_duration_in_database.py:13-18 | every row of the result is the one-row step applied to the same input row: skipped when it has a duration, otherwise filled with `ended - started` or `updated - started` |
| `DurationInDatabase.BackfilledComplete` | ara/api/migrations/0004_duration_in_database.py:12-19 | after the backfill every row of the table has a non-null duration |
| `DurationInDatabase.BackfilledOnlyDuration` | ara/api/migrations/0004_duration_in_database.py:12-19 | only `duration` is assigned: row count, `started`, `ended` and `updated` are unchanged, and a row that already had a duration is unchanged altogether |
| `DurationInDatabase.BackfilledDurations` | ara/api/migrations/0004_duration_in_database.py:15-18 | a row whose duration was null gets `ended - started` when `ended` is set and `updated - started` when it is not |
| `DurationInDatabase.LegacyTableBackfilled` | ara/api/migrations/0004_duration_in_database.py:29-49 | on a table fresh from the AddField step (every duration null) each row's new duration is its elapsed time and nothing else changes |
| `DurationInDatabase.BackfilledIdempotent` | ara/api/migrations/0004_duration_in_database.py:13-19 | running the backfill a second time changes nothing |
| `DurationInDatabase.BackfilledUnchangedIff` | ara/api/migrations/0004_duration_in_database.py:13-14 | the backfill leaves a table unchanged if and only if every row already has a duration |
| `DurationInDatabase.Visit` | ara/api/migrations/0004_duration_in_database.py:12-19 | visiting rows in any order keeps the number of rows |
| `DurationInDatabase.VisitAt` | ara/api/migrations/0004_duration_in_database.py:12-19 | after visiting rows in any order (repeats allowed), a visited row holds its filled value and an unvisited row is untouched |
| `DurationInDatabase.VisitAnyOrder` | ara/api/migrations/0004_duration_in_database.py:12-19 | any visiting order that reaches every row leaves the same table as the in-order backfill |
| `DurationInDatabase.Backfill` | ara/api/migrations/0004_duration_in_database.py:12-19 | the inner loop rewrites the table in place to `Backfilled` of its old rows |
| `DurationInDatabase.MoveToDuration` | ara/api/migrations/0004_duration_in_database.py:6-19 | each of the four tables becomes `Backfilled` of its own old rows, independently of the others, and every row of every table then has a duration |
| `DurationInDatabase.DurationModelsExact` | ara/api/migrations/0004_duration_in_database.py:9 | the visited models are exactly Playbook, Play, Task and Result, each once |
| `DurationInDatabase.Apps.constructor` | ara/api/migrations/0004_duration_in_database.py:11 | the registry resolves each of the four models to its own separate table |

## Left out

- The schema operations (`AddField` for the four tables, the `RunPython` wiring, the `dependencies` list) are framework plumbing. Their effect appears only as the precondition of `LegacyTableBackfilled` that every duration starts out null.
- Historical model resolution by `apps.get_model` is reduced to `Apps.GetModel`, a lookup of one of four fixed tables.
- Persistence by `obj.save()` is an in-place array write of the row with its new duration. Database transactions, per-row commits and failures part-way through are not modelled.
- BackfilledOnlyDuration: states that `updated` is unchanged because the step assigns only `duration`. The save also runs whatever the ORM does on save. If `updated` is an auto-updated column (Django's `auto_now`), each save re-stamps it with the time the migration runs, and the model does not capture that. The model class that declares `updated` (ara/api/models.py) is not part of this model. The durations themselves are unaffected, because they are computed before the save. Idempotence is unaffected too, because a second pass saves no row.
- LegacyTableBackfilled: its "nothing else changes" carries the same caveat as `BackfilledOnlyDuration` about a column that the save itself re-stamps.
- Real `datetime`/`timedelta` values (time zones, microsecond rounding) are plain integers.
- A null `started` is not modelled. The subtraction would raise there, and the code has no fallback, so `started` is always present in the model.
- A null `updated` is not modelled either. `Row.updated` is a plain integer, and the fallback `updated - started` would raise on a null `updated`.
- Nothing is claimed about the sign of a duration. The code does not check `ended >= started` or `updated >= started`.
- Columns other than `started`, `ended`, `updated` and `duration` are not part of `Row`. The step neither reads nor assigns them. Any column the ORM sets on save is covered by the `BackfilledOnlyDuration` line above.
- The other tables (Host, File, Record) have no duration column and are not touched by the step, so the registry does not hold them.
- ara/tests/unit/test_cli.py exercises CLI commands and report generators whose implementation is not part of this model.
