/** The records of the store (src/types/todo.ts). Dates are a natural-number
    clock; ids are opaque strings. */
module TodoTypes {
  import opened Wrappers

  type Id = string

  /** `Task` */
  datatype Task = Task(id: Id, title: string, completed: bool, createdAt: nat, updatedAt: nat)

  /** `TodoList` */
  datatype TodoList = TodoList(id: Id, name: string, tasks: seq<Task>, createdAt: nat, updatedAt: nat)

  /** `TodoState.uiState` */
  datatype UiState = UiState(
    sidebarCollapsed: bool,
    isCreatingList: bool,
    isEditingList: Option<Id>,
    isEditingTask: Option<Id>)

  /** `Partial<Task>`: each field either given or absent. */
  datatype TaskUpdate = TaskUpdate(
    id: Option<Id>,
    title: Option<string>,
    completed: Option<bool>,
    createdAt: Option<nat>,
    updatedAt: Option<nat>)

  /** `Partial<TodoList>`: each field either given or absent. */
  datatype ListUpdate = ListUpdate(
    id: Option<Id>,
    name: Option<string>,
    tasks: Option<seq<Task>>,
    createdAt: Option<nat>,
    updatedAt: Option<nat>)

  /** A field after `Object.assign`: the given value if there is one. */
  function Assigned<T>(current: T, given: Option<T>): T
  {
    if given.Some? then given.value else current
  }

  /** `Object.assign(task, updates, { updatedAt: new Date() })`: every given
      field is copied over, and `updatedAt` is the clock whatever the updates say. */
  function MergeTask(t: Task, u: TaskUpdate, now: nat): (r: Task)
    ensures r.updatedAt == now
    ensures u.title.None? ==> r.title == t.title
    ensures u.title.Some? ==> r.title == u.title.value
    ensures u.completed.None? ==> r.completed == t.completed
    ensures u.completed.Some? ==> r.completed == u.completed.value
    ensures u.id.None? ==> r.id == t.id
    ensures u.id.Some? ==> r.id == u.id.value
    ensures u.createdAt.None? ==> r.createdAt == t.createdAt
    ensures u.createdAt.Some? ==> r.createdAt == u.createdAt.value
  {
    Task(Assigned(t.id, u.id), Assigned(t.title, u.title), Assigned(t.completed, u.completed),
         Assigned(t.createdAt, u.createdAt), now)
  }

  /** `Object.assign(list, updates, { updatedAt: new Date() })` */
  function MergeList(l: TodoList, u: ListUpdate, now: nat): (r: TodoList)
    ensures r.updatedAt == now
    ensures u.name.None? ==> r.name == l.name
    ensures u.name.Some? ==> r.name == u.name.value
    ensures u.tasks.None? ==> r.tasks == l.tasks
    ensures u.tasks.Some? ==> r.tasks == u.tasks.value
    ensures u.id.None? ==> r.id == l.id
    ensures u.id.Some? ==> r.id == u.id.value
    ensures u.createdAt.None? ==> r.createdAt == l.createdAt
    ensures u.createdAt.Some? ==> r.createdAt == u.createdAt.value
  {
    TodoList(Assigned(l.id, u.id), Assigned(l.name, u.name), Assigned(l.tasks, u.tasks),
             Assigned(l.createdAt, u.createdAt), now)
  }
}
