/** The simpler task-list variant (src/types/task.ts) and the three list
    transformations its components perform: adding a task
    (src/components/AddTaskForm.tsx), replacing a task by id
    (src/components/ListView.tsx) and toggling a task's status
    (src/components/TaskItem.tsx). */
module LegacyTasks {
  import opened Wrappers
  import opened JsString

  /** The `Status` values. src/types/status.ts is not part of this model: the
      components use its members `ToDo` and `Completed`; every other member is
      represented by `OtherStatus`. */
  datatype Status = ToDo | Completed | OtherStatus(name: string)

  /** `TaskItem` */
  datatype TaskItem = TaskItem(id: string, text: string, status: Status)

  /** `TaskList` */
  datatype TaskList = TaskList(id: string, tasks: seq<TaskItem>)

  /** Task ids within a list are pairwise distinct. */
  predicate IdsDistinct(tasks: seq<TaskItem>)
  {
    forall i, j :: 0 <= i < j < |tasks| ==> tasks[i].id != tasks[j].id
  }

  /* ---------------------------------------------------------------------- */
  /* AddTaskForm.handleSubmit                                                */
  /* ---------------------------------------------------------------------- */

  /** What a submit leaves behind: the list passed to `setCurrentList` (None
      when it is not called) and the text left in the input. */
  datatype SubmitOutcome = SubmitOutcome(newList: Option<TaskList>, taskText: string)

  /** `handleSubmit`: blank input is ignored; otherwise a fresh `ToDo` task
      with the trimmed text is put in front of the list and the input is cleared. */
  function HandleSubmit(current: TaskList, taskText: string, freshId: string): (r: SubmitOutcome)
    requires forall k :: 0 <= k < |current.tasks| ==> current.tasks[k].id != freshId
    ensures r.newList.Some? <==> Trim(taskText) != []
    ensures r.newList.None? ==> r.taskText == taskText
    ensures r.newList.Some? ==>
      r.taskText == "" && r.newList.value.id == current.id &&
      |r.newList.value.tasks| == |current.tasks| + 1
  {
    if Trim(taskText) == [] then SubmitOutcome(None, taskText)
    else
      var newTask := TaskItem(freshId, Trim(taskText), ToDo);
      SubmitOutcome(Some(current.(tasks := [newTask] + current.tasks)), "")
  }

  /** Empty or whitespace-only input leaves everything as it was: the list is
      not replaced and the input keeps its text. */
  lemma SubmitBlankIgnored(current: TaskList, taskText: string, freshId: string)
    requires forall k :: 0 <= k < |current.tasks| ==> current.tasks[k].id != freshId
    requires forall k :: 0 <= k < |taskText| ==> IsWhitespace(taskText[k])
    ensures HandleSubmit(current, taskText, freshId) == SubmitOutcome(None, taskText)
  {
    TrimEmptyIff(taskText);
  }

  /** Input with a visible character adds one task at the front: a `ToDo` task
      with the trimmed text, followed by the old tasks in their order; the list
      keeps its id, its ids stay distinct, and the input is cleared. */
  lemma SubmitPrepends(current: TaskList, taskText: string, freshId: string)
    requires forall k :: 0 <= k < |current.tasks| ==> current.tasks[k].id != freshId
    requires exists k :: 0 <= k < |taskText| && !IsWhitespace(taskText[k])
    ensures var r := HandleSubmit(current, taskText, freshId);
      r.newList.Some? && r.taskText == "" &&
      r.newList.value.id == current.id &&
      |r.newList.value.tasks| == |current.tasks| + 1 &&
      r.newList.value.tasks[0] == TaskItem(freshId, Trim(taskText), ToDo) &&
      r.newList.value.tasks[1..] == current.tasks &&
      (IdsDistinct(current.tasks) ==> IdsDistinct(r.newList.value.tasks))
  {
    TrimEmptyIff(taskText);
    var tasks := HandleSubmit(current, taskText, freshId).newList.value.tasks;
    assert tasks[1..] == current.tasks;
  }

  /* ---------------------------------------------------------------------- */
  /* ListView.handleUpdateTask                                               */
  /* ---------------------------------------------------------------------- */

  /** `tasks.map(task => task.id === updated.id ? updated : task)`, in a copy of the list. */
  function HandleUpdateTask(current: TaskList, updated: TaskItem): (r: TaskList)
    ensures r.id == current.id && |r.tasks| == |current.tasks|
  {
    current.(tasks := seq(|current.tasks|, i requires 0 <= i < |current.tasks| =>
      if current.tasks[i].id == updated.id then updated else current.tasks[i]))
  }

  /** Every task with the updated task's id is replaced by it; every other task
      stays as it was, where it was. */
  lemma UpdateReplacesMatches(current: TaskList, updated: TaskItem)
    ensures forall i :: 0 <= i < |current.tasks| && current.tasks[i].id == updated.id ==>
      HandleUpdateTask(current, updated).tasks[i] == updated
    ensures forall i :: 0 <= i < |current.tasks| && current.tasks[i].id != updated.id ==>
      HandleUpdateTask(current, updated).tasks[i] == current.tasks[i]
  {
  }

  /** When no task has that id the list comes back unchanged. */
  lemma UpdateWithoutMatch(current: TaskList, updated: TaskItem)
    requires forall i :: 0 <= i < |current.tasks| ==> current.tasks[i].id != updated.id
    ensures HandleUpdateTask(current, updated) == current
  {
    assert HandleUpdateTask(current, updated).tasks == current.tasks;
  }

  /** With distinct ids the update is a single-position write. */
  lemma UpdateIsPointWrite(current: TaskList, updated: TaskItem, k: nat)
    requires IdsDistinct(current.tasks)
    requires k < |current.tasks| && current.tasks[k].id == updated.id
    ensures HandleUpdateTask(current, updated) == current.(tasks := current.tasks[k := updated])
  {
    assert HandleUpdateTask(current, updated).tasks == current.tasks[k := updated];
  }

  /** Applying the same update twice is applying it once. */
  lemma UpdateIdempotent(current: TaskList, updated: TaskItem)
    ensures HandleUpdateTask(HandleUpdateTask(current, updated), updated) == HandleUpdateTask(current, updated)
  {
    var once := HandleUpdateTask(current, updated);
    assert HandleUpdateTask(once, updated).tasks == once.tasks;
  }

  /* ---------------------------------------------------------------------- */
  /* TaskItem.handleToggle                                                   */
  /* ---------------------------------------------------------------------- */

  /** `{ ...task, status: task.status === Status.ToDo ? Status.Completed : Status.ToDo }` */
  function HandleToggle(task: TaskItem): (r: TaskItem)
    ensures r.id == task.id && r.text == task.text
  {
    task.(status := if task.status == ToDo then Completed else ToDo)
  }

  /** `ToDo` becomes `Completed`; every other status, `Completed` included, becomes `ToDo`. */
  lemma ToggleStatus(task: TaskItem)
    ensures task.status == ToDo ==> HandleToggle(task).status == Completed
    ensures task.status != ToDo ==> HandleToggle(task).status == ToDo
  {
  }

  /** Toggling twice gives the task back exactly when its status is `ToDo` or
      `Completed`; from any other status it ends `Completed`. */
  lemma ToggleTwice(task: TaskItem)
    ensures HandleToggle(HandleToggle(task)) == task <==> task.status == ToDo || task.status == Completed
    ensures task.status.OtherStatus? ==> HandleToggle(HandleToggle(task)).status == Completed
  {
  }

  /** A checkbox click in the list view: the clicked task is toggled in place,
      and nothing else in the list changes (ids distinct). */
  lemma ToggleInList(current: TaskList, k: nat)
    requires IdsDistinct(current.tasks) && k < |current.tasks|
    ensures HandleUpdateTask(current, HandleToggle(current.tasks[k])) ==
      current.(tasks := current.tasks[k := HandleToggle(current.tasks[k])])
    ensures IdsDistinct(HandleUpdateTask(current, HandleToggle(current.tasks[k])).tasks)
  {
    UpdateIsPointWrite(current, HandleToggle(current.tasks[k]), k);
  }
}
