/**
 * The round trips the local data source's integration tests exercise, replayed
 * against the model. Each test creates its tasks with `new Task(title, "")`,
 * so they are active and, their ids being freshly generated, pairwise distinct.
 */
module LocalDataSourceScenarios {
  import opened Tasks
  import opened TaskTable
  import opened LocalDataSource

  /** saveTask_retrievesTask: a saved task is found again under its id. */
  method SaveTaskRetrievesTask(ds: TasksLocalDataSource, newTask: Task) returns (got: Option<Task>)
    requires ds.Valid()
    modifies ds
    ensures ds.Valid()
    ensures got == Some(newTask)
  {
    ds.SaveTask(newTask);
    got := ds.GetTask(newTask.id);
  }

  /** completeTask_retrievedTaskIsComplete: after completing, the same task comes back completed. */
  method CompleteTaskRetrievedTaskIsComplete(ds: TasksLocalDataSource, newTask: Task) returns (got: Option<Task>)
    requires ds.Valid()
    modifies ds
    ensures ds.Valid()
    ensures got == Some(newTask.(completed := true))
  {
    ds.SaveTask(newTask);
    ds.CompleteTask(newTask);
    got := ds.GetTask(newTask.id);
  }

  /** activateTask_retrievedTaskIsActive: completing and then activating gives back an active task. */
  method ActivateTaskRetrievedTaskIsActive(ds: TasksLocalDataSource, newTask: Task) returns (got: Option<Task>)
    requires ds.Valid()
    modifies ds
    ensures ds.Valid()
    ensures got == Some(newTask.(completed := false))
  {
    ds.SaveTask(newTask);
    ds.CompleteTask(newTask);
    ds.ActivateTask(newTask);
    got := ds.GetTask(newTask.id);
  }

  /**
   * clearCompletedTask_taskNotRetrievable: of two completed tasks and one
   * active task, clearing removes the completed two and keeps the active one.
   */
  method ClearCompletedTaskNotRetrievable(ds: TasksLocalDataSource, t1: Task, t2: Task, t3: Task)
    returns (got1: Option<Task>, got2: Option<Task>, got3: Option<Task>)
    requires ds.Valid()
    requires t1.id != t2.id && t1.id != t3.id && t2.id != t3.id
    requires !t3.completed
    modifies ds
    ensures ds.Valid()
    ensures got1 == None && got2 == None && got3 == Some(t3)
  {
    ds.SaveTask(t1);
    ds.CompleteTask(t1);
    ds.SaveTask(t2);
    ds.CompleteTask(t2);
    ds.SaveTask(t3);
    ds.ClearCompletedTasks();
    got1 := ds.GetTask(t1.id);
    got2 := ds.GetTask(t2.id);
    got3 := ds.GetTask(t3.id);
  }

  /** deleteAllTasks_emptyListOfRetrievedTask: after deleting everything, getTasks delivers the empty list. */
  method DeleteAllTasksEmptyListOfRetrievedTask(ds: TasksLocalDataSource, newTask: Task) returns (got: set<Task>)
    requires ds.Valid()
    modifies ds
    ensures ds.Valid()
    ensures got == {}
  {
    ds.SaveTask(newTask);
    ds.DeleteAllTasks();
    got := ds.GetTasks();
  }

  /** The table deleteAllTasks_emptyListOfRetrievedTask leaves behind, as the statements it issues compute it. */
  function DeleteAllFixture(start: Table, newTask: Task): Table
  {
    Delete(Insert(start, ToRow(newTask)), AllRows)
  }

  /**
   * The test's last checks, as written, expect `onNext` never to be called
   * with any list; for every starting table, after the test's set-up, the
   * read of every row finds nothing and so delivers the empty list, which
   * `anyList()` matches. What contradicts the check is that a list is
   * delivered at all, one per read as `take(1)` asks; its emptiness, which
   * the corrected half shares, only says which list it is.
   */
  lemma DeleteAllTestAsWritten(start: Table, newTask: Task)
    ensures Query(DeleteAllFixture(start, newTask), AllRows) == {}
    ensures Decode(Query(DeleteAllFixture(start, newTask), AllRows)) == {}
  {
  }

  /** getTasks_retrieveSavedTasks: two saved tasks are both in the list, which has at least two entries. */
  method GetTasksRetrieveSavedTasks(ds: TasksLocalDataSource, t1: Task, t2: Task) returns (got: set<Task>)
    requires ds.Valid()
    requires t1.id != t2.id
    modifies ds
    ensures ds.Valid()
    ensures t1 in got && t2 in got
    ensures |got| >= 2
  {
    ds.SaveTask(t1);
    ds.SaveTask(t2);
    got := ds.GetTasks();
    assert FromRow(ds.rows[t1.id]) in got && FromRow(ds.rows[t2.id]) in got;
    TwoMembers(got, t1, t2);
  }

  /** A set with two different members has at least two elements. */
  lemma TwoMembers<T>(s: set<T>, a: T, b: T)
    requires a in s && b in s && a != b
    ensures |s| >= 2
  {
    var rest := s - {a};
    assert |rest| == |s| - 1;
    assert b in rest;
  }

  /** The table clearCompletedTask_taskNotRetrievable leaves behind, as the statements it issues compute it. */
  function ClearCompletedFixture(start: Table, t1: Task, t2: Task, t3: Task): Table
  {
    var saved1 := Update(Insert(start, ToRow(t1)), EntryIdIs(t1.id), Flag(true));
    var saved2 := Update(Insert(saved1, ToRow(t2)), EntryIdIs(t2.id), Flag(true));
    Delete(Insert(saved2, ToRow(t3)), CompletedIs(Flag(true)))
  }

  /** A getTask subscriber is never called with `t`: the lookup under t's id delivers something else, or null. */
  predicate NeverDelivered(table: Table, t: Task)
  {
    forall r :: r in Query(table, EntryIdIs(t.id)) ==> FromRow(r) != t
  }

  /** What the clear-completed set-up leaves: no row for the completed tasks, the active task's row unchanged. */
  lemma ClearCompletedFixtureRows(start: Table, t1: Task, t2: Task, t3: Task)
    requires Keyed(start)
    requires t1.id != t2.id && t1.id != t3.id && t2.id != t3.id
    requires !t3.completed
    ensures Keyed(ClearCompletedFixture(start, t1, t2, t3))
    ensures t1.id !in ClearCompletedFixture(start, t1, t2, t3)
    ensures t2.id !in ClearCompletedFixture(start, t1, t2, t3)
    ensures t3.id in ClearCompletedFixture(start, t1, t2, t3)
    ensures ClearCompletedFixture(start, t1, t2, t3)[t3.id] == ToRow(t3)
  {
  }

  /**
   * The test's last check, as written, expects the active task never to be
   * delivered; for every starting table, after the test's set-up, the lookup
   * under its id finds a row that decodes to it.
   */
  lemma ClearCompletedTestAsWritten(start: Table, t1: Task, t2: Task, t3: Task)
    requires Keyed(start)
    requires t1.id != t2.id && t1.id != t3.id && t2.id != t3.id
    requires !t3.completed
    ensures !NeverDelivered(ClearCompletedFixture(start, t1, t2, t3), t3)
  {
    ClearCompletedFixtureRows(start, t1, t2, t3);
    QueryById(ClearCompletedFixture(start, t1, t2, t3), t3.id);
  }

  /** What the test evidently means: the completed tasks are not delivered and the active one is. */
  lemma ClearCompletedTestCorrected(start: Table, t1: Task, t2: Task, t3: Task)
    requires Keyed(start)
    requires t1.id != t2.id && t1.id != t3.id && t2.id != t3.id
    requires !t3.completed
    ensures NeverDelivered(ClearCompletedFixture(start, t1, t2, t3), t1)
    ensures NeverDelivered(ClearCompletedFixture(start, t1, t2, t3), t2)
    ensures Query(ClearCompletedFixture(start, t1, t2, t3), EntryIdIs(t3.id)) == {ToRow(t3)}
  {
    var table := ClearCompletedFixture(start, t1, t2, t3);
    ClearCompletedFixtureRows(start, t1, t2, t3);
    QueryById(table, t1.id);
    QueryById(table, t2.id);
    QueryById(table, t3.id);
  }
}
