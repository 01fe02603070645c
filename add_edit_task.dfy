/**
 * AddEditTaskPresenter: the decision logic behind the add/edit task screen.
 * The view is modelled by the ordered calls the presenter makes on it (an
 * event trace) and by whether it is still active; the repository is the
 * local data source.
 *
 * The task a presenter builds with `new Task(title, description)` gets a
 * freshly generated id, which is a parameter here. Whether a task is empty is
 * decided by Task.isEmpty, which is not part of this model: the presenter is
 * given that test as a function. The lookup of populateTask, which runs in the
 * background and reports back on the main thread in the source, runs
 * synchronously here.
 */
module AddEditTask {
  import opened Tasks
  import opened TaskTable
  import opened LocalDataSource

  /** The calls the presenter makes on the add/edit view. */
  datatype ViewEvent =
    | ShowEmptyTaskError
    | ShowTasksList
    | SetTitle(title: string)
    | SetDescription(description: string)

  /** How a presenter operation ends: normally, or with a RuntimeException carrying a message. */
  datatype Outcome = Returned | Thrown(message: string)

  const UpdateNewTaskMessage := "updateTask() was called but task is new."
  const PopulateNewTaskMessage := "populateTask() was called but task is new."

  /** What the view shows for a lookup result: the task's title then its description, or the empty-task error. */
  function Shown(task: Option<Task>): seq<ViewEvent>
  {
    match task
    case Some(t) => [SetTitle(t.title), SetDescription(t.description)]
    case None => [ShowEmptyTaskError]
  }

  /** The add/edit view as the presenter sees it: whether it is active, and the calls made on it so far. */
  class AddEditTaskView {
    var active: bool
    var events: seq<ViewEvent>

    constructor (active: bool)
      ensures this.active == active && events == []
    {
      this.active := active;
      events := [];
    }
  }

  class AddEditTaskPresenter {
    /** The id of the task being edited, or `None` for a new task; set only by the constructor. */
    var taskId: Option<string>
    const repository: TasksLocalDataSource
    const view: AddEditTaskView
    /** Task.isEmpty. */
    const isEmpty: Task -> bool

    ghost predicate Valid()
      reads this, repository
    {
      repository.Valid()
    }

    constructor (taskId: Option<string>, repository: TasksLocalDataSource, view: AddEditTaskView, isEmpty: Task -> bool)
      requires repository.Valid()
      ensures Valid()
      ensures this.taskId == taskId && this.repository == repository && this.view == view && this.isEmpty == isEmpty
    {
      this.taskId := taskId;
      this.repository := repository;
      this.view := view;
      this.isEmpty := isEmpty;
    }

    /** subscribe: an edit screen loads its task; a new-task screen does nothing. */
    method Subscribe()
      requires Valid()
      modifies view`events
      ensures taskId == old(taskId) && repository.rows == old(repository.rows)
      ensures taskId.None? ==> view.events == old(view.events)
      ensures taskId.Some? && view.active ==>
                view.events == old(view.events) + Shown(repository.GetTask(taskId.value))
      ensures !view.active ==> view.events == old(view.events)
    {
      if taskId.Some? {
        var outcome := PopulateTask();
      }
    }

    /**
     * createTask: a new task with a fresh id; an empty one is refused with the
     * empty-task error, any other is saved and the task list is shown.
     */
    method CreateTask(title: string, description: string, freshId: string)
      requires Valid()
      modifies repository, view`events
      ensures Valid()
      ensures taskId == old(taskId)
      ensures isEmpty(Task(freshId, title, description, false)) ==>
                && repository.rows == old(repository.rows)
                && view.events == old(view.events) + [ShowEmptyTaskError]
      ensures !isEmpty(Task(freshId, title, description, false)) ==>
                && repository.rows == Insert(old(repository.rows), ToRow(Task(freshId, title, description, false)))
                && repository.GetTask(freshId) == Some(Task(freshId, title, description, false))
                && (forall id :: id != freshId ==> repository.GetTask(id) == old(repository.GetTask(id)))
                && view.events == old(view.events) + [ShowTasksList]
      ensures !isEmpty(Task(freshId, title, description, false)) && freshId !in old(repository.rows) ==>
                |repository.rows| == |old(repository.rows)| + 1
    {
      var newTask := Task(freshId, title, description, false);
      if isEmpty(newTask) {
        view.events := view.events + [ShowEmptyTaskError];
      } else {
        repository.SaveTask(newTask);
        view.events := view.events + [ShowTasksList];
      }
    }

    /**
     * updateTask: only an edit screen may update; the task is saved under the
     * edited id, with no emptiness check, and the task list is shown. The
     * three-argument Task constructor makes the saved task active.
     */
    method UpdateTask(title: string, description: string) returns (outcome: Outcome)
      requires Valid()
      modifies repository, view`events
      ensures Valid()
      ensures taskId == old(taskId)
      ensures taskId.None? ==>
                && outcome == Thrown(UpdateNewTaskMessage)
                && repository.rows == old(repository.rows)
                && view.events == old(view.events)
      ensures taskId.Some? ==>
                && outcome == Returned
                && repository.rows == Insert(old(repository.rows), ToRow(Task(taskId.value, title, description, false)))
                && repository.GetTask(taskId.value) == Some(Task(taskId.value, title, description, false))
                && (forall id :: id != taskId.value ==> repository.GetTask(id) == old(repository.GetTask(id)))
                && view.events == old(view.events) + [ShowTasksList]
    {
      if taskId.None? {
        return Thrown(UpdateNewTaskMessage);
      }
      repository.SaveTask(Task(taskId.value, title, description, false));
      view.events := view.events + [ShowTasksList];
      outcome := Returned;
    }

    /** populateTask: only an edit screen may populate; it looks the task up and hands the result to the callback. */
    method PopulateTask() returns (outcome: Outcome)
      requires Valid()
      modifies view`events
      ensures taskId == old(taskId) && repository.rows == old(repository.rows)
      ensures taskId.None? ==> outcome == Thrown(PopulateNewTaskMessage) && view.events == old(view.events)
      ensures taskId.Some? ==> outcome == Returned
      ensures taskId.Some? && view.active ==>
                view.events == old(view.events) + Shown(repository.GetTask(taskId.value))
      ensures !view.active ==> view.events == old(view.events)
    {
      if taskId.None? {
        return Thrown(PopulateNewTaskMessage);
      }
      var task := repository.GetTask(taskId.value);
      OnTaskLoaded(task);
      outcome := Returned;
    }

    /** The lookup callback: an inactive view is left alone; an active one is filled in or shown the error. */
    method OnTaskLoaded(task: Option<Task>)
      modifies view`events
      ensures view.active ==> view.events == old(view.events) + Shown(task)
      ensures !view.active ==> view.events == old(view.events)
    {
      if view.active {
        if task.Some? {
          view.events := view.events + [SetTitle(task.value.title)];
          view.events := view.events + [SetDescription(task.value.description)];
        } else {
          view.events := view.events + [ShowEmptyTaskError];
        }
      }
    }
  }
}
