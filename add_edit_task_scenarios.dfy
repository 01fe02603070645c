/**
 * The add/edit screen used twice over one data source: a task added on a
 * new-task screen is what an edit screen for its id then shows, and an edit of
 * it replaces it.
 */
module AddEditTaskScenarios {
  import opened Tasks
  import opened LocalDataSource
  import opened AddEditTask

  /** A task created on a new-task screen fills an active edit screen opened for its id. */
  method CreatedTaskIsShownForEditing(ds: TasksLocalDataSource, title: string, description: string,
                                      freshId: string, isEmpty: Task -> bool)
    returns (shown: seq<ViewEvent>)
    requires ds.Valid()
    requires !isEmpty(Task(freshId, title, description, false))
    modifies ds
    ensures ds.Valid()
    ensures shown == [SetTitle(title), SetDescription(description)]
  {
    var addView := new AddEditTaskView(true);
    var adding := new AddEditTaskPresenter(None, ds, addView, isEmpty);
    adding.CreateTask(title, description, freshId);
    var editView := new AddEditTaskView(true);
    var editing := new AddEditTaskPresenter(Some(freshId), ds, editView, isEmpty);
    assert ds.GetTask(freshId) == Some(Task(freshId, title, description, false));
    editing.Subscribe();
    shown := editView.events;
  }

  /**
   * Editing a stored task replaces its row, even with an empty title and
   * description, and leaves it active whatever its flag was before.
   */
  method EditReplacesTask(ds: TasksLocalDataSource, taskId: string, title: string, description: string,
                          isEmpty: Task -> bool)
    returns (outcome: Outcome, stored: Option<Task>)
    requires ds.Valid()
    modifies ds
    ensures ds.Valid()
    ensures outcome == Returned
    ensures stored == Some(Task(taskId, title, description, false))
  {
    var editView := new AddEditTaskView(true);
    var editing := new AddEditTaskPresenter(Some(taskId), ds, editView, isEmpty);
    outcome := editing.UpdateTask(title, description);
    stored := ds.GetTask(taskId);
  }
}
