# To-do store and add/edit presenter, modelled in Dafny

This project models two pieces of the Android to-do sample:

- **TasksLocalDataSource**, the data source that keeps tasks in one local
  SQLite table (entry id, title, description, and a completed column holding
  0 or 1). It inserts or replaces rows, rewrites the completed flag,
  deletes rows, and reads one row or all rows back as tasks. It is modelled as
  a class whose field `rows` is the table, a map from entry id to row. Its
  mutators are methods with `modifies`, and its reads are functions of that
  state. Underneath, the module `TaskTable` gives the meaning of the
  statements it issues: insert with conflict-replace, update and delete
  restricted by a selection, and select, plus the row encoding and the cursor
  decoder.
- **AddEditTaskPresenter**, the decision logic behind the add/edit screen. It
  creates a task or reports an empty one, updates the task being edited,
  and loads it into the view. It is modelled as a class over the data source
  above and a view. The view records the ordered calls made on it (a trace of
  `ViewEvent`s), together with whether it is still active.

Files: `tasks.dfy` (the Task value and Option), `task_table.dfy` (the table),
`local_data_source.dfy` (the data source class), `add_edit_task.dfy` (the
presenter and its view), and two scenario files. The scenario files replay the
data source's integration tests and combine the two presenter modes. Where a
test's comment and its checks disagree, the replay follows the comment, and
the check as written is recorded under "## Findings".

Modelling choices:

- The table's key is the entry id. The table definition lives in
  TasksDbHelper, which is not part of this model.
- `LIKE ?` selections are modelled as equality on the id, or on the flag for
  clear-completed. Deleting with the empty WHERE clause deletes every row.
- The query strings built with `String.format` put the table name where the
  column list belongs. The model follows what the queries evidently select
  ("every row", "the row with this id"), not the string.
- `getTask` delivers `None` (the default `null`) when no row matches.
  `getTasks` delivers a set of tasks: the list's order is not specified. Ids
  are unique, so the set has one task per row.
- Task.java is not part of this model. The fresh id of `new Task(title,
  description)` is a parameter of `CreateTask`. `Task.isEmpty` is a function
  the presenter is given at construction. Both Task constructors are taken to
  create an active task (completed = false).
- The presenter's repository is the local data source. In the app it is any
  `TasksDataSource`.
- `completeTask(String)` and `activateTask(String)` do nothing in this data
  source, so their models leave the table as it was.
- Emptiness is whatever `Task.isEmpty` decides, taken as a given function.
- One consequence of the code: `updateTask` saves the edited task as active,
  so editing a completed task un-completes it. `EditReplacesTask` states this.

## Model

| member | source | states |
|---|---|---|
| TaskTable.Flag | todoapp/app/src/main/java/com/example/android/architecture/blueprints/todoapp/data/source/local/TasksLocalDataSource.java:123 | a boolean column value is stored as 1 exactly when true and 0 exactly when false |
| TaskTable.ToRow | todoapp/app/src/main/java/com/example/android/architecture/blueprints/todoapp/data/source/local/TasksLocalDataSource.java:119-123 | the row saveTask writes is keyed by the task's id, has a 0/1 flag, and decodes back to the same task |
| TaskTable.RowRoundTrip | todoapp/app/src/main/java/com/example/android/architecture/blueprints/todoapp/data/source/local/TasksLocalDataSource.java:77-88 | a row with a 0/1 flag is exactly the encoding of the task the cursor decoder `FromRow` reads from it (flag read as `== 1`), so `FromRow` and `ToRow` are inverse on well-formed rows |
| TaskTable.Query | todoapp/app/src/main/java/com/example/android/architecture/blueprints/todoapp/data/source/local/TasksLocalDataSource.java:92-99 | a select returns exactly the stored rows the selection matches |
| TaskTable.Insert | todoapp/app/src/main/java/com/example/android/architecture/blueprints/todoapp/data/source/local/TasksLocalDataSource.java:125 | insert-or-replace: the row is under its id afterwards, every other row is unchanged, no other key appears, keying is preserved |
| TaskTable.Update | todoapp/app/src/main/java/com/example/android/architecture/blueprints/todoapp/data/source/local/TasksLocalDataSource.java:130-136 | an update sets the flag of every selected row, changes no other column and no unselected row, and keeps the key set |
| TaskTable.Delete | todoapp/app/src/main/java/com/example/android/architecture/blueprints/todoapp/data/source/local/TasksLocalDataSource.java:162-168 | a delete removes exactly the selected rows and leaves the others as they were |
| TaskTable.QueryById | todoapp/app/src/main/java/com/example/android/architecture/blueprints/todoapp/data/source/local/TasksLocalDataSource.java:92-99 | on a keyed table, selecting by id finds exactly the one row under that id, or nothing |
| TaskTable.DecodedCount | todoapp/app/src/main/java/com/example/android/architecture/blueprints/todoapp/data/source/local/TasksLocalDataSource.java:73-89 | decoding every row of a keyed table yields one distinct task per row |
| TaskTable.InsertIdempotent | todoapp/app/src/main/java/com/example/android/architecture/blueprints/todoapp/data/source/local/TasksLocalDataSource.java:115-126 | saving the same row twice is the same as saving it once |
| TaskTable.DeleteIdempotent | todoapp/app/src/main/java/com/example/android/architecture/blueprints/todoapp/data/source/local/TasksLocalDataSource.java:181-187 | deleting by the same selection twice is the same as deleting once |
| TaskTable.CompleteThenActivate | todoapp/app/src/main/java/com/example/android/architecture/blueprints/todoapp/data/source/local/TasksLocalDataSource.java:128-154 | completing then activating a row is the same as activating it; for a row that was active, the table is restored |
| TaskTable.ClearCompletedKeepsActive | todoapp/app/src/main/java/com/example/android/architecture/blueprints/todoapp/data/source/local/TasksLocalDataSource.java:162-168 | after deleting flag-1 rows, the decoded tasks are exactly the old decoded tasks that are not completed |
| LocalDataSource.TasksLocalDataSource.constructor | todoapp/app/src/main/java/com/example/android/architecture/blueprints/todoapp/data/source/local/TasksLocalDataSource.java:58-63 | the data source opens over an existing well-formed table, unchanged |
| LocalDataSource.TasksLocalDataSource.GetTask | todoapp/app/src/main/java/com/example/android/architecture/blueprints/todoapp/data/source/local/TasksLocalDataSource.java:92-113 | the result is absent (null) exactly when no row is stored under the id; otherwise it is the task with that id whose encoding is the stored row, flag decoded as `== 1` |
| LocalDataSource.TasksLocalDataSource.GetTasks | todoapp/app/src/main/java/com/example/android/architecture/blueprints/todoapp/data/source/local/TasksLocalDataSource.java:72-90 | every stored row's task is in the result, every task in it is stored under its id, and there are as many tasks as rows |
| LocalDataSource.TasksLocalDataSource.SaveTask | todoapp/app/src/main/java/com/example/android/architecture/blueprints/todoapp/data/source/local/TasksLocalDataSource.java:115-126 | afterwards getTask(task.id) is the task, with all four fields; every other id reads as before |
| LocalDataSource.TasksLocalDataSource.CompleteTask | todoapp/app/src/main/java/com/example/android/architecture/blueprints/todoapp/data/source/local/TasksLocalDataSource.java:128-137 | the row with the id reads back completed, with its stored title and description; other ids unchanged; an absent id changes nothing |
| LocalDataSource.TasksLocalDataSource.CompleteTaskById | todoapp/app/src/main/java/com/example/android/architecture/blueprints/todoapp/data/source/local/TasksLocalDataSource.java:139-143 | the table is left exactly as it was |
| LocalDataSource.TasksLocalDataSource.ActivateTask | todoapp/app/src/main/java/com/example/android/architecture/blueprints/todoapp/data/source/local/TasksLocalDataSource.java:145-154 | the row with the id reads back active, with its stored title and description; other ids unchanged; an absent id changes nothing |
| LocalDataSource.TasksLocalDataSource.ActivateTaskById | todoapp/app/src/main/java/com/example/android/architecture/blueprints/todoapp/data/source/local/TasksLocalDataSource.java:156-160 | the table is left exactly as it was |
| LocalDataSource.TasksLocalDataSource.ClearCompletedTasks | todoapp/app/src/main/java/com/example/android/architecture/blueprints/todoapp/data/source/local/TasksLocalDataSource.java:162-168 | getTasks afterwards is the old list filtered to active tasks; each id reads as before if it was active, and as absent otherwise |
| LocalDataSource.TasksLocalDataSource.RefreshTasks | todoapp/app/src/main/java/com/example/android/architecture/blueprints/todoapp/data/source/local/TasksLocalDataSource.java:170-174 | the table is left exactly as it was |
| LocalDataSource.TasksLocalDataSource.DeleteAllTasks | todoapp/app/src/main/java/com/example/android/architecture/blueprints/todoapp/data/source/local/TasksLocalDataSource.java:176-179 | getTasks afterwards is empty and every id reads as absent |
| LocalDataSource.TasksLocalDataSource.DeleteTask | todoapp/app/src/main/java/com/example/android/architecture/blueprints/todoapp/data/source/local/TasksLocalDataSource.java:181-187 | the id reads as absent afterwards, every other id reads as before, and an absent id changes nothing |
| LocalDataSourceScenarios.SaveTaskRetrievesTask | todoapp/app/src/androidTest/java/com/example/android/architecture/blueprints/todoapp/data/TasksLocalDataSourceTest.java:80-95 | a saved task is retrieved equal to itself |
| LocalDataSourceScenarios.CompleteTaskRetrievedTaskIsComplete | todoapp/app/src/androidTest/java/com/example/android/architecture/blueprints/todoapp/data/TasksLocalDataSourceTest.java:98-116 | save then complete: the task is retrieved with completed = true |
| LocalDataSourceScenarios.ActivateTaskRetrievedTaskIsActive | todoapp/app/src/androidTest/java/com/example/android/architecture/blueprints/todoapp/data/TasksLocalDataSourceTest.java:119-135 | save, complete, activate: the task is retrieved with completed = false |
| LocalDataSourceScenarios.ClearCompletedTaskNotRetrievable | todoapp/app/src/androidTest/java/com/example/android/architecture/blueprints/todoapp/data/TasksLocalDataSourceTest.java:138-176 | after clearing, the two completed tasks are absent and the active one is retrieved |
| LocalDataSourceScenarios.DeleteAllTasksEmptyListOfRetrievedTask | todoapp/app/src/androidTest/java/com/example/android/architecture/blueprints/todoapp/data/TasksLocalDataSourceTest.java:179-196 | after deleteAllTasks, getTasks delivers the empty list, as the comment at line 190 says (the check at line 194 says otherwise; see Findings) |
| LocalDataSourceScenarios.DeleteAllTestAsWritten | todoapp/app/src/androidTest/java/com/example/android/architecture/blueprints/todoapp/data/TasksLocalDataSourceTest.java:186-194 | for every starting table, after the test's set-up, the read of every row finds nothing and delivers the empty list, which `anyList()` matches |
| LocalDataSourceScenarios.GetTasksRetrieveSavedTasks | todoapp/app/src/androidTest/java/com/example/android/architecture/blueprints/todoapp/data/TasksLocalDataSourceTest.java:199-227 | two saved tasks with distinct ids are both in getTasks, which has at least two entries |
| LocalDataSourceScenarios.ClearCompletedTestAsWritten | todoapp/app/src/androidTest/java/com/example/android/architecture/blueprints/todoapp/data/TasksLocalDataSourceTest.java:172-175 | for every starting table, after the test's set-up, the lookup under the active task's id finds a row decoding to it, so the last check's expectation that it is never delivered cannot hold |
| LocalDataSourceScenarios.ClearCompletedTestCorrected | todoapp/app/src/androidTest/java/com/example/android/architecture/blueprints/todoapp/data/TasksLocalDataSourceTest.java:155-175 | the completed tasks are never delivered and the active task's row is the one found |
| AddEditTask.AddEditTaskPresenter.constructor | todoapp/app/src/main/java/com/example/android/architecture/blueprints/todoapp/addedittask/AddEditTaskPresenter.java:55-62 | the presenter keeps the given task id, repository and view |
| AddEditTask.AddEditTaskPresenter.Subscribe | todoapp/app/src/main/java/com/example/android/architecture/blueprints/todoapp/addedittask/AddEditTaskPresenter.java:65-69 | a new-task screen emits nothing; an edit screen emits what populateTask emits |
| AddEditTask.AddEditTaskPresenter.CreateTask | todoapp/app/src/main/java/com/example/android/architecture/blueprints/todoapp/addedittask/AddEditTaskPresenter.java:77-85 | an empty task emits only the empty-task error and leaves the table unchanged; any other is saved under the fresh id with nothing else changed, then the task list is shown; a fresh id adds exactly one row; the task id is unchanged |
| AddEditTask.AddEditTaskPresenter.UpdateTask | todoapp/app/src/main/java/com/example/android/architecture/blueprints/todoapp/addedittask/AddEditTaskPresenter.java:88-94 | with no task id, it throws, saves nothing and emits nothing; otherwise it saves Task(title, description, id) under the id, with no emptiness check and nothing else changed, then shows the task list |
| AddEditTask.AddEditTaskPresenter.PopulateTask | todoapp/app/src/main/java/com/example/android/architecture/blueprints/todoapp/addedittask/AddEditTaskPresenter.java:97-119 | with no task id, it throws and emits nothing; otherwise an active view is shown the lookup result and an inactive view gets nothing; the repository and task id are unchanged |
| AddEditTask.AddEditTaskPresenter.OnTaskLoaded | todoapp/app/src/main/java/com/example/android/architecture/blueprints/todoapp/addedittask/AddEditTaskPresenter.java:105-117 | an inactive view gets no call; an active one gets setTitle then setDescription of the task, or the empty-task error |
| AddEditTaskScenarios.CreatedTaskIsShownForEditing | todoapp/app/src/main/java/com/example/android/architecture/blueprints/todoapp/addedittask/AddEditTaskPresenter.java:65-117 | a non-empty task created on a new-task screen is what an active edit screen for its id shows: its title, then its description |
| AddEditTaskScenarios.EditReplacesTask | todoapp/app/src/main/java/com/example/android/architecture/blueprints/todoapp/addedittask/AddEditTaskPresenter.java:88-94 | updating through an edit screen returns normally and stores Task(title, description, id), active, even if empty |

## Findings

| source | as written | input that shows it | evidently intended | confidence | as-written member | corrected member |
|---|---|---|---|---|---|---|
| todoapp/app/src/androidTest/java/com/example/android/architecture/blueprints/todoapp/data/TasksLocalDataSourceTest.java:175 | the last check expects `onNext` never to be called with the active task `newTask3` | the test's own set-up: two saved and completed tasks and one saved active task, all with distinct ids; after clearCompletedTasks, getTask(newTask3.id) delivers newTask3 | the comment at line 155 says the active task can be retrieved, so the check should expect `onNext` to be called with `newTask3` | medium, not executed | LocalDataSourceScenarios.ClearCompletedTestAsWritten | LocalDataSourceScenarios.ClearCompletedTestCorrected |
| todoapp/app/src/androidTest/java/com/example/android/architecture/blueprints/todoapp/data/TasksLocalDataSourceTest.java:194 | the check expects `onNext` never to be called with any list | the test's own set-up: one saved task, then deleteAllTasks; getTasks then finds no row and delivers the empty list, which `anyList()` matches | the comment at line 190 says the retrieved list is empty, so the check should expect `onNext` to be called with an empty list | medium, not executed | LocalDataSourceScenarios.DeleteAllTestAsWritten | LocalDataSourceScenarios.DeleteAllTasksEmptyListOfRetrievedTask |

## Left out

- Singleton access (`getInstance`), the Android `Context`, the database helper, SqlBrite and the Rx schedulers: these are wiring, not behaviour.
- Change notification of the live queries, `take(1)` and the background/main-thread hand-off: each read is modelled as one synchronous delivery.
- SQL `LIKE` pattern and case rules: selections are plain equality.
- A selection matching more than one row in `getTask` (the source would fail with `onError`): with LIKE read as equality and the entry id as key this cannot happen; under LIKE, an id containing `%` or `_`, or differing from a stored id only in ASCII case, can match several rows.
- The order of the list `getTasks` delivers: the model delivers a set.
- Task.java: random id generation, `isEmpty` and `equals` are not part of this model. The fresh id is a parameter and `isEmpty` is a given function.
- The presenter's subscription bookkeeping (`mTaskSubscription`, `clearTaskSubscription`, `unsubscribe`) and the `setPresenter` call in its constructor: these are Rx and view lifecycle, with no effect on the table or on the view trace.
- AddEditTaskPresenter.PopulateTask: the view's active flag is read when the lookup runs. In the source it is read when the result arrives later, and the table may have changed by then.
- Null arguments: the `checkNotNull` calls (TasksLocalDataSource.java:117, AddEditTaskPresenter.java:58-59) throw NullPointerException on null; Dafny values are never null, so that path does not exist in the model.
- A failing query (`onError`): the model's reads always succeed. The presenter's `subscribe(Action1)` at AddEditTaskPresenter.java:105 installs no error handler, so such a failure would go unhandled there.
- Statistics: the live `loadStatistics` never subscribes to its query, so it counts nothing; the counting code exists only in comments.
