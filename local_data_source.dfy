/**
 * TasksLocalDataSource: the data source that keeps tasks in the local
 * database. Each mutator that touches the table issues one insert, update or
 * delete against it; completeTask(String), activateTask(String) and
 * refreshTasks issue nothing. getTask and getTasks query the table and decode
 * the result rows.
 *
 * The queries are modelled by what they evidently select ("every row", "the
 * row with this id"); the SQL text they build, which puts the table name
 * where the column list belongs, is not modelled. Results are delivered
 * synchronously and only once, as `take(1)` asks.
 */
module LocalDataSource {
  import opened Tasks
  import opened TaskTable

  class TasksLocalDataSource {
    /** The tasks table behind the database handle. */
    var rows: Table

    ghost predicate Valid()
      reads this
    {
      WellFormed(rows)
    }

    /** Opens the data source over a database that may already hold tasks. */
    constructor (existing: Table)
      requires WellFormed(existing)
      ensures Valid() && rows == existing
    {
      rows := existing;
    }

    /** getTask: the task stored under the id, or `None` (the default `null`) when no row matches. */
    function GetTask(taskId: string): (r: Option<Task>)
      reads this
      requires Valid()
      ensures r.None? <==> taskId !in rows
      ensures r.Some? ==> r.value.id == taskId && rows[taskId] == ToRow(r.value)
    {
      if taskId in rows then
        RowRoundTrip(rows[taskId]);
        Some(FromRow(rows[taskId]))
      else
        None
    }

    /** getTasks: every stored row, decoded, one task per row, in no particular order. */
    function GetTasks(): (r: set<Task>)
      reads this
      requires Valid()
      ensures forall id :: id in rows ==> FromRow(rows[id]) in r
      ensures forall t :: t in r ==> t.id in rows && rows[t.id] == ToRow(t)
      ensures |r| == |rows|
    {
      DecodedCount(rows);
      Decode(Query(rows, AllRows))
    }

    /** saveTask: inserts the task's row, replacing the row under the same id if there is one. */
    method SaveTask(task: Task)
      requires Valid()
      modifies this
      ensures Valid()
      ensures rows == Insert(old(rows), ToRow(task))
      ensures GetTask(task.id) == Some(task)
      ensures forall id :: id != task.id ==> GetTask(id) == old(GetTask(id))
    {
      rows := Insert(rows, ToRow(task));
    }

    /** completeTask(Task): sets the flag of the row with the task's id; only the id is used. */
    method CompleteTask(task: Task)
      requires Valid()
      modifies this
      ensures Valid()
      ensures rows == Update(old(rows), EntryIdIs(task.id), Flag(true))
      ensures old(GetTask(task.id)).Some? ==>
                GetTask(task.id) == Some(old(GetTask(task.id)).value.(completed := true))
      ensures old(GetTask(task.id)).None? ==> rows == old(rows)
      ensures forall id :: id != task.id ==> GetTask(id) == old(GetTask(id))
    {
      rows := Update(rows, EntryIdIs(task.id), Flag(true));
    }

    /** completeTask(String): left to the repository, so the table is not touched. */
    method CompleteTaskById(taskId: string)
      requires Valid()
      ensures rows == old(rows)
    {
    }

    /** activateTask(Task): clears the flag of the row with the task's id; only the id is used. */
    method ActivateTask(task: Task)
      requires Valid()
      modifies this
      ensures Valid()
      ensures rows == Update(old(rows), EntryIdIs(task.id), Flag(false))
      ensures old(GetTask(task.id)).Some? ==>
                GetTask(task.id) == Some(old(GetTask(task.id)).value.(completed := false))
      ensures old(GetTask(task.id)).None? ==> rows == old(rows)
      ensures forall id :: id != task.id ==> GetTask(id) == old(GetTask(id))
    {
      rows := Update(rows, EntryIdIs(task.id), Flag(false));
    }

    /** activateTask(String): left to the repository, so the table is not touched. */
    method ActivateTaskById(taskId: string)
      requires Valid()
      ensures rows == old(rows)
    {
    }

    /** clearCompletedTasks: deletes the rows whose flag is 1; active rows stay as they were. */
    method ClearCompletedTasks()
      requires Valid()
      modifies this
      ensures Valid()
      ensures rows == Delete(old(rows), CompletedIs(Flag(true)))
      ensures GetTasks() == set t | t in old(GetTasks()) && !t.completed
      ensures forall id :: GetTask(id) ==
                if old(GetTask(id)).Some? && !old(GetTask(id)).value.completed then old(GetTask(id)) else None
    {
      ClearCompletedKeepsActive(rows);
      rows := Delete(rows, CompletedIs(Flag(true)));
    }

    /** refreshTasks: left to the repository, so the table is not touched. */
    method RefreshTasks()
      requires Valid()
      ensures rows == old(rows)
    {
    }

    /** deleteAllTasks: the empty WHERE clause deletes every row. */
    method DeleteAllTasks()
      requires Valid()
      modifies this
      ensures Valid()
      ensures rows == Delete(old(rows), AllRows)
      ensures GetTasks() == {}
      ensures forall id :: GetTask(id) == None
    {
      rows := Delete(rows, AllRows);
    }

    /** deleteTask: deletes the row with the id, if any; every other row stays. */
    method DeleteTask(taskId: string)
      requires Valid()
      modifies this
      ensures Valid()
      ensures rows == Delete(old(rows), EntryIdIs(taskId))
      ensures GetTask(taskId) == None
      ensures forall id :: id != taskId ==> GetTask(id) == old(GetTask(id))
      ensures old(GetTask(taskId)).None? ==> rows == old(rows)
    {
      rows := Delete(rows, EntryIdIs(taskId));
    }
  }
}
