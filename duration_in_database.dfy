/** Migration 0004 of the ARA api: the one-time backfill of the `duration`
    column of the Playbook, Play, Task and Result tables.

    Timestamps and durations are integers (microseconds); a null column is
    `None`. The migration first adds `duration` as a nullable column to the
    four tables and then, for every row whose `duration` is still null,
    stores `ended - started`, or `updated - started` when the row never ended.
 */
module DurationInDatabase {

  datatype Option<T> = None | Some(value: T)

  /** The columns of a duration-bearing row that the migration reads or assigns. */
  datatype Row = Row(started: int, ended: Option<int>, updated: int, duration: Option<int>)

  /** The duration-bearing models, in the order the migration visits them. */
  datatype Model = Playbook | Play | Task | Result

  const DurationModels: seq<Model> := [Playbook, Play, Task, Result]

  // ---------------------------------------------------------------------------
  // Specification of one row and of one table
  // ---------------------------------------------------------------------------

  /** The per-row rule: time from start to end, or to the last update when the
      row never ended (an interrupted or abandoned run). */
  function Elapsed(row: Row): int
  {
    if row.ended.Some? then row.ended.value - row.started else row.updated - row.started
  }

  /** What one turn of the migration's inner loop leaves in a row: a row that
      already has a duration is skipped, any other gets its elapsed time. */
  function Fill(row: Row): Row
  {
    if row.duration.Some? then row else row.(duration := Some(Elapsed(row)))
  }

  /** A whole table after the migration's inner loop, row by row in order. */
  function Backfilled(rows: seq<Row>): (r: seq<Row>)
    ensures |r| == |rows|
  {
    if rows == [] then [] else [Fill(rows[0])] + Backfilled(rows[1..])
  }

  /** Every row of the table has a duration. */
  predicate HasDurations(rows: seq<Row>)
  {
    forall i :: 0 <= i < |rows| ==> rows[i].duration.Some?
  }

  /** Two tables agree on everything except `duration`. */
  predicate SameTimestamps(a: seq<Row>, b: seq<Row>)
  {
    |a| == |b| &&
    forall i :: 0 <= i < |a| ==>
      a[i].started == b[i].started && a[i].ended == b[i].ended && a[i].updated == b[i].updated
  }

  // ---------------------------------------------------------------------------
  // Properties of one table
  // ---------------------------------------------------------------------------

  /** Row `i` of the result depends on row `i` of the input alone. */
  lemma {:induction false} BackfilledAt(rows: seq<Row>, i: nat)
    requires i < |rows|
    ensures Backfilled(rows)[i] == Fill(rows[i])
  {
    if i > 0 {
      BackfilledAt(rows[1..], i - 1);
    }
  }

  /** Every row of the result is `Fill` of the same row of the input. */
  lemma {:induction false} BackfilledEach(rows: seq<Row>)
    ensures forall i :: 0 <= i < |rows| ==> Backfilled(rows)[i] == Fill(rows[i])
  {
    forall i | 0 <= i < |rows|
      ensures Backfilled(rows)[i] == Fill(rows[i])
    {
      BackfilledAt(rows, i);
    }
  }

  /** After the backfill every row has a duration. */
  lemma {:induction false} BackfilledComplete(rows: seq<Row>)
    ensures HasDurations(Backfilled(rows))
  {
    BackfilledEach(rows);
  }

  /** The step assigns only `duration`: row count and timestamps are unchanged,
      and a row that already had a duration is unchanged altogether. */
  lemma {:induction false} BackfilledOnlyDuration(rows: seq<Row>)
    ensures SameTimestamps(Backfilled(rows), rows)
    ensures forall i :: 0 <= i < |rows| && rows[i].duration.Some? ==> Backfilled(rows)[i] == rows[i]
  {
    BackfilledEach(rows);
  }

  /** A row whose duration was null gets `ended - started` when it ended and
      `updated - started` otherwise. */
  lemma {:induction false} BackfilledDurations(rows: seq<Row>)
    ensures forall i :: 0 <= i < |rows| && rows[i].duration.None? && rows[i].ended.Some? ==>
              Backfilled(rows)[i].duration == Some(rows[i].ended.value - rows[i].started)
    ensures forall i :: 0 <= i < |rows| && rows[i].duration.None? && rows[i].ended.None? ==>
              Backfilled(rows)[i].duration == Some(rows[i].updated - rows[i].started)
  {
    BackfilledEach(rows);
  }

  /** A table fresh from the migration's AddField step (every duration null)
      ends up with each row's elapsed time as its duration. */
  lemma {:induction false} LegacyTableBackfilled(rows: seq<Row>)
    requires forall i :: 0 <= i < |rows| ==> rows[i].duration.None?
    ensures forall i :: 0 <= i < |rows| ==>
              Backfilled(rows)[i] == rows[i].(duration := Some(Elapsed(rows[i])))
  {
    BackfilledEach(rows);
  }

  /** Running the backfill a second time changes nothing. */
  lemma {:induction false} BackfilledIdempotent(rows: seq<Row>)
    ensures Backfilled(Backfilled(rows)) == Backfilled(rows)
  {
    if rows != [] {
      BackfilledIdempotent(rows[1..]);
      assert Backfilled(rows)[1..] == Backfilled(rows[1..]);
    }
  }

  /** The backfill leaves a table unchanged exactly when every row already has
      a duration. */
  lemma {:induction false} BackfilledUnchangedIff(rows: seq<Row>)
    ensures Backfilled(rows) == rows <==> HasDurations(rows)
  {
    if Backfilled(rows) == rows {
      BackfilledComplete(rows);
    }
    if HasDurations(rows) {
      BackfilledEach(rows);
    }
  }

  // ---------------------------------------------------------------------------
  // The order of the visit does not matter
  // ---------------------------------------------------------------------------

  /** The table after saving row `i` alone. */
  function FillAt(rows: seq<Row>, i: nat): seq<Row>
    requires i < |rows|
  {
    rows[i := Fill(rows[i])]
  }

  /** The table after visiting rows in the given order (an index may recur). */
  function Visit(rows: seq<Row>, order: seq<nat>): (r: seq<Row>)
    requires forall k :: 0 <= k < |order| ==> order[k] < |rows|
    ensures |r| == |rows|
    decreases |order|
  {
    if order == [] then rows else Visit(FillAt(rows, order[0]), order[1..])
  }

  /** Visiting in any order fills exactly the rows visited, each as if alone. */
  lemma {:induction false} VisitAt(rows: seq<Row>, order: seq<nat>, i: nat)
    requires forall k :: 0 <= k < |order| ==> order[k] < |rows|
    requires i < |rows|
    ensures Visit(rows, order)[i] == if i in order then Fill(rows[i]) else rows[i]
    decreases |order|
  {
    if order != [] {
      VisitAt(FillAt(rows, order[0]), order[1..], i);
      assert order == [order[0]] + order[1..];
    }
  }

  /** Whatever order the rows are fetched in, as long as each is visited, the
      table ends up as the in-order backfill leaves it. */
  lemma VisitAnyOrder(rows: seq<Row>, order: seq<nat>)
    requires forall k :: 0 <= k < |order| ==> order[k] < |rows|
    requires forall i :: 0 <= i < |rows| ==> i in order
    ensures Visit(rows, order) == Backfilled(rows)
  {
    forall i | 0 <= i < |rows|
      ensures Visit(rows, order)[i] == Backfilled(rows)[i]
    {
      VisitAt(rows, order, i);
      BackfilledAt(rows, i);
    }
  }

  // ---------------------------------------------------------------------------
  // The migration, in place
  // ---------------------------------------------------------------------------

  /** The historical model registry: one table of rows per duration-bearing
      model. */
  class Apps {
    const playbooks: array<Row>
    const plays: array<Row>
    const tasks: array<Row>
    const results: array<Row>

    /** Four models, four separate tables. */
    ghost predicate Valid()
    {
      playbooks != plays && playbooks != tasks && playbooks != results &&
      plays != tasks && plays != results && tasks != results
    }

    constructor (playbooks: array<Row>, plays: array<Row>, tasks: array<Row>, results: array<Row>)
      requires playbooks != plays && playbooks != tasks && playbooks != results
      requires plays != tasks && plays != results && tasks != results
      ensures Valid()
      ensures this.playbooks == playbooks && this.plays == plays
      ensures this.tasks == tasks && this.results == results
    {
      this.playbooks, this.plays, this.tasks, this.results := playbooks, plays, tasks, results;
    }

    /** The table of one model. */
    function GetModel(model: Model): array<Row>
    {
      match model
      case Playbook => playbooks
      case Play => plays
      case Task => tasks
      case Result => results
    }

    ghost function Tables(): set<array<Row>>
    {
      {playbooks, plays, tasks, results}
    }
  }

  /** The inner loop: visit every row of one table and save the duration of
      each row that lacks one. */
  method Backfill(table: array<Row>)
    modifies table
    ensures table[..] == Backfilled(old(table[..]))
  {
    for i := 0 to table.Length
      invariant forall k :: 0 <= k < i ==> table[k] == Fill(old(table[k]))
      invariant forall k :: i <= k < table.Length ==> table[k] == old(table[k])
    {
      var obj := table[i];
      if obj.duration.Some? {
        continue;
      }
      obj := obj.(duration := Some(Elapsed(obj)));
      table[i] := obj;
    }
    BackfilledEach(old(table[..]));
  }

  /** The whole data migration: each of the four duration-bearing tables is
      backfilled, and each ends up depending only on its own former rows. */
  method MoveToDuration(apps: Apps)
    requires apps.Valid()
    modifies apps.Tables()
    ensures forall m: Model :: apps.GetModel(m)[..] == Backfilled(old(apps.GetModel(m)[..]))
    ensures forall m: Model :: HasDurations(apps.GetModel(m)[..])
  {
    var models := DurationModels;
    for n := 0 to |models|
      invariant forall k :: 0 <= k < n ==>
                  apps.GetModel(models[k])[..] == Backfilled(old(apps.GetModel(models[k])[..]))
      invariant forall k :: n <= k < |models| ==>
                  apps.GetModel(models[k])[..] == old(apps.GetModel(models[k])[..])
    {
      var model := apps.GetModel(models[n]);
      Backfill(model);
    }
    forall m: Model
      ensures apps.GetModel(m)[..] == Backfilled(old(apps.GetModel(m)[..]))
      ensures HasDurations(apps.GetModel(m)[..])
    {
      DurationModelsExact();
      assert m in models;
      BackfilledComplete(old(apps.GetModel(m)[..]));
    }
  }

  /** Every duration-bearing model is visited, and exactly once. */
  lemma DurationModelsExact()
    ensures forall m: Model :: m in DurationModels
    ensures forall j, k :: 0 <= j < k < |DurationModels| ==> DurationModels[j] != DurationModels[k]
  {
    forall m: Model
      ensures m in DurationModels
    {
      match m
      case Playbook => assert DurationModels[0] == m;
      case Play => assert DurationModels[1] == m;
      case Task => assert DurationModels[2] == m;
      case Result => assert DurationModels[3] == m;
    }
  }
}
