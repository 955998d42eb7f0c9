# To-do lists: a verified model of the store and its helpers

This project models the core of a browser to-do list manager. The app keeps
named lists of tasks, remembers which list and which task are selected, and
tracks a few UI flags. The model covers:

- **The store** (`UseTodoLists`, over the records of `TodoTypes`). A class
  `TodoStore` holds the state: `lists`, `selectedListId`, `selectedTaskId` and
  `uiState`. Its methods are the hook's operations: list create, update,
  delete and select; task create, update, delete, toggle and select; the four
  UI setters; and the two lookups. Each method is proved to make exactly the
  change that a value-level function describes (`UpdateListIn`,
  `WithoutList`, `AppendTaskIn`, `UpdateTaskIn`, `ToggleTaskIn`,
  `DeleteTaskIn`). Each method also states which fields it leaves alone. The
  hook's `for … of` scans with `break` are `while` loops, proved against
  `LocateFrom`. Lemmas about the value-level functions state what the
  operations promise: task counts, toggle-twice, and distinct ids.
- **Validation and sanitising** (`Validation`, with the JavaScript string
  built-ins in `JsString`). The two validators are modelled, and so is
  `sanitizeInput`. Its two regular-expression passes are left-to-right
  scanners, `StripScripts` and `StripTags`.
- **Display order** (`TodoListView`). This is the comparator and the stable
  sort behind a list's `sortedTasks`.
- **Storage-error classification** (`ErrorHandling`).
- **The simpler task-list variant** (`LegacyTasks`). This covers adding a
  task in front, replacing a task by id, and toggling a task's status.

Timestamps are a natural-number clock argument `now`. Fresh ids (from
`generateId`, `uuidv4`) are arguments that must not already be in use.

The model follows the code as written, including where it differs from what
the app's screens suggest:

- The store validates nothing. Only callers validate, as
  `CreateValidatedList` models.
- The store will delete the last list.
- `createTask` appends; the simpler variant prepends.
- `deleteList` clears the task selection only when no list stays selected.
  It does not clear it whenever the list selection moves.
- `selectList` does not check that the id exists, so a selected id can point
  at nothing.
- `updateList` and `updateTask` copy whatever fields they are given, ids
  included. So the store keeps no id-uniqueness invariant of its own. Instead,
  lemmas show that list ids stay distinct under `createList` (with a fresh
  id), `deleteList`, and `updateList` without a new id. They also show that
  task ids stay distinct under `createList`, `deleteList`, `updateList`
  without new tasks, `createTask` (with a fresh id), `updateTask` without a
  new id, `toggleTaskStatus` and `deleteTask`.

## Model

| member | source | states |
|---|---|---|
| `UseTodoLists.TodoStore.constructor` | src/hooks/useTodoLists.ts:5-31 | initial state: one list "default"/"Default List" holding one incomplete task "Do something", that list selected, no task selected, every UI flag off |
| `UseTodoLists.TodoStore.CreateList` | src/hooks/useTodoLists.ts:36-49 | appends exactly one list (fresh id, trimmed name, no tasks, both timestamps `now`) after the unchanged old lists, selects it, clears `isCreatingList`, leaves the task selection alone |
| `UseTodoLists.TodoStore.UpdateList` | src/hooks/useTodoLists.ts:51-59 | the lists become `UpdateListIn` of the old ones; `isEditingList` is cleared only when the id was found; selections unchanged |
| `UseTodoLists.UpdateListIn` | src/hooks/useTodoLists.ts:51-58 | unknown id: lists unchanged; otherwise only the first list with that id is replaced, by its merge with the updates, all others kept |
| `TodoTypes.MergeList` | src/hooks/useTodoLists.ts:55 | `Object.assign` on a list: each given field (`id`, `name`, `tasks`, `createdAt`) replaces the old value, each absent one keeps it, and `updatedAt` is `now` whatever the updates say |
| `UseTodoLists.TodoStore.DeleteList` | src/hooks/useTodoLists.ts:61-71 | lists become `WithoutList(old, id)`, with no last-list guard; a deleted selected list hands the selection to the first remaining list or to none; `selectedTaskId` is cleared iff `selectedListId` ends up none |
| `UseTodoLists.WithoutList` | src/hooks/useTodoLists.ts:63 | keeps exactly the lists whose id differs, each as many times as it occurred, and drops every list with that id; the kept lists stay in their order (a subsequence) |
| `UseTodoLists.TodoStore.SelectList` | src/hooks/useTodoLists.ts:73-78 | sets the list selection to the argument unchecked, always clears the task selection, lists and UI flags unchanged |
| `UseTodoLists.TodoStore.CreateTask` | src/hooks/useTodoLists.ts:80-95 | lists become `AppendTaskIn` with the task (fresh id, trimmed title, incomplete, created and updated `now`); selections and UI flags unchanged |
| `UseTodoLists.AppendTaskIn` | src/hooks/useTodoLists.ts:80-95 | unknown list id: no change; otherwise only the first list with that id changes: the task is appended at its end and its `updatedAt` becomes `now` |
| `UseTodoLists.AppendTaskCount` | src/hooks/useTodoLists.ts:91 | on an existing list the total number of tasks grows by exactly one and the new task is that list's last; on an unknown list the count is unchanged |
| `UseTodoLists.TodoStore.UpdateTask` | src/hooks/useTodoLists.ts:97-109 | the scan over lists ends with the lists equal to `UpdateTaskIn` of the old ones; `isEditingTask` is cleared only on a hit; selections unchanged |
| `UseTodoLists.UpdateTaskIn` | src/hooks/useTodoLists.ts:97-109 | absent id: no change; otherwise only the first task found (first list holding the id, first such task in it) is replaced by its merge with the updates, its list gets `updatedAt = now`, and every other task and list is unchanged |
| `TodoTypes.MergeTask` | src/hooks/useTodoLists.ts:102 | `Object.assign` on a task: each given field (`id`, `title`, `completed`, `createdAt`) replaces the old value, each absent one keeps it, and `updatedAt` is `now` whatever the updates say |
| `UseTodoLists.ReplaceTaskAt` | src/hooks/useTodoLists.ts:101-103 | writing one task changes only that task of that list and refreshes that list's `updatedAt`; every other list is unchanged |
| `UseTodoLists.TodoStore.DeleteTask` | src/hooks/useTodoLists.ts:111-125 | lists become `DeleteTaskIn` of the old ones; `selectedTaskId` is cleared iff the task was found and it equalled the id; nothing else changes |
| `UseTodoLists.DeleteTaskIn` | src/hooks/useTodoLists.ts:111-125 | absent id: no change; otherwise the first task with that id is spliced out of the first list holding one, which shrinks by one and gets `updatedAt = now`; other lists unchanged |
| `UseTodoLists.DeleteTaskCount` | src/hooks/useTodoLists.ts:114-116 | a present id removes exactly one task in all; an absent id leaves the lists unchanged |
| `UseTodoLists.DeleteTaskRemovesId` | src/hooks/useTodoLists.ts:111-125 | when task ids are distinct, no task with that id remains afterwards |
| `UseTodoLists.TodoStore.ToggleTaskStatus` | src/hooks/useTodoLists.ts:127-139 | the scan ends with the lists equal to `ToggleTaskIn` of the old ones (first match only, its flag negated, it and its list get `updatedAt = now`); selections and UI flags unchanged |
| `UseTodoLists.ToggleTaskIn` | src/hooks/useTodoLists.ts:127-139 | absent id: no change; otherwise only the first task found is replaced by its toggle, its list gets `updatedAt = now`, and every other task and list is unchanged |
| `UseTodoLists.Toggled` | src/hooks/useTodoLists.ts:132-134 | the completion flag is negated, `updatedAt` becomes `now`, and id, title and `createdAt` are kept |
| `UseTodoLists.ToggleTwiceRestores` | src/hooks/useTodoLists.ts:132-134 | toggling the same id twice gives back every list and task except for `updatedAt` fields; completion flags are restored |
| `UseTodoLists.ToggleKeepsIds` | src/hooks/useTodoLists.ts:127-139 | toggling keeps the shape of the lists and the task id at every position |
| `UseTodoLists.UpdateTaskKeepsIds` | src/hooks/useTodoLists.ts:97-109 | an update that gives no `id` keeps the shape and the task id at every position |
| `UseTodoLists.CreateListKeepsIdsUnique` | src/hooks/useTodoLists.ts:38-45 | appending a list with a fresh id keeps list ids distinct |
| `UseTodoLists.DeleteListKeepsIdsUnique` | src/hooks/useTodoLists.ts:63 | filtering lists out keeps list ids distinct |
| `UseTodoLists.DeleteListKeepsTaskIdsUnique` | src/hooks/useTodoLists.ts:63 | filtering lists out keeps task ids distinct |
| `UseTodoLists.CreateListKeepsTaskIdsUnique` | src/hooks/useTodoLists.ts:38-45 | appending a list with no tasks keeps task ids distinct |
| `UseTodoLists.UpdateListKeepsIdsUnique` | src/hooks/useTodoLists.ts:51-58 | an update that gives no `id` keeps list ids distinct |
| `UseTodoLists.UpdateListKeepsTaskIdsUnique` | src/hooks/useTodoLists.ts:51-58 | an update that gives no `tasks` keeps task ids distinct |
| `UseTodoLists.DeleteTaskKeepsIdsUnique` | src/hooks/useTodoLists.ts:111-125 | splicing out a task keeps the remaining task ids distinct |
| `UseTodoLists.CreateTaskKeepsIdsUnique` | src/hooks/useTodoLists.ts:84-91 | creating a task with a fresh id keeps task ids distinct across all lists; the id is in use afterwards iff the list existed |
| `UseTodoLists.ToggleKeepsIdsUnique` | src/hooks/useTodoLists.ts:127-139 | toggling keeps task ids distinct |
| `UseTodoLists.UpdateTaskKeepsIdsUnique` | src/hooks/useTodoLists.ts:97-109 | an update without an `id` field keeps task ids distinct |
| `UseTodoLists.TodoStore.SelectTask` | src/hooks/useTodoLists.ts:141-145 | only `selectedTaskId` changes, to the argument |
| `UseTodoLists.TodoStore.ToggleSidebar` | src/hooks/useTodoLists.ts:147-151 | only `sidebarCollapsed` changes, to its negation |
| `UseTodoLists.ToggleSidebarTwice` | src/hooks/useTodoLists.ts:147-151 | two sidebar toggles leave the whole state as it was |
| `UseTodoLists.TodoStore.SetCreatingList` | src/hooks/useTodoLists.ts:153-157 | only `isCreatingList` changes, to the argument |
| `UseTodoLists.TodoStore.SetEditingList` | src/hooks/useTodoLists.ts:159-163 | only `isEditingList` changes, to the argument |
| `UseTodoLists.TodoStore.SetEditingTask` | src/hooks/useTodoLists.ts:165-169 | only `isEditingTask` changes, to the argument |
| `UseTodoLists.TodoStore.GetSelectedList` | src/hooks/useTodoLists.ts:171-173 | none iff nothing is selected or no list has the selected id; otherwise the first list with that id |
| `UseTodoLists.TodoStore.GetSelectedTask` | src/hooks/useTodoLists.ts:175-181 | none iff no task is selected or no list holds a task with that id; otherwise the first such task of the first list holding one |
| `UseTodoLists.FindList` | src/hooks/useTodoLists.ts:53 | `find` by id: the index of the first list with that id, none iff there is none |
| `UseTodoLists.FindTask` | src/hooks/useTodoLists.ts:114 | `findIndex` by id: the index of the first task with that id, none iff there is none |
| `UseTodoLists.LocateFrom` | src/hooks/useTodoLists.ts:99-107 | the `for … of` scan from a given list: the first list holding the id and the first such task in it; none iff no later list holds it |
| `UseTodoLists.LocateTask` | src/hooks/useTodoLists.ts:99-107 | the scan from the first list: what it finds is in bounds and has the id (see `LocateTaskIff`) |
| `UseTodoLists.LocateTaskIff` | src/hooks/useTodoLists.ts:99-107 | the scan finds a task iff some list holds that id, and what it finds has that id and precedes every other match |
| `UseTodoLists.CreateValidatedList` | src/components/layout/Sidebar.tsx:42-52 | the caller's validate-then-create: an invalid name returns its message and leaves the store untouched; a valid one appends and selects a list whose name has 1..50 characters, keeps the task selection and clears `isCreatingList`, as `CreateList` does |
| `Validation.CheckTrimmed` | src/utils/validation.ts:9-27 | the shared check of both validators returns no message, the "required" message or the length message |
| `Validation.ValidateTaskTitle` | src/utils/validation.ts:9-17 | the result is no message, "Task title is required" or the length message |
| `Validation.ValidateListName` | src/utils/validation.ts:19-27 | the result is no message, "List name is required" or the length message |
| `Validation.CheckTrimmedOutcomes` | src/utils/validation.ts:9-27 | the shared shape: valid iff there is a visible character and the trimmed length is within the bound; "required" iff all whitespace; the length message iff the trimmed length is over the bound |
| `Validation.TaskTitleAcceptedIff` | src/utils/validation.ts:9-17 | a title is valid iff it has a visible character and its trimmed length is in 1..200 (200 accepted) |
| `Validation.TaskTitleRequiredIff` | src/utils/validation.ts:10-12 | "Task title is required" iff the title is empty or all whitespace, however long: the blank check comes first |
| `Validation.TaskTitleTooLongIff` | src/utils/validation.ts:13-15 | the length message iff the trimmed title is longer than 200 |
| `Validation.ListNameAcceptedIff` | src/utils/validation.ts:19-27 | a name is valid iff it has a visible character and its trimmed length is in 1..50 (50 accepted) |
| `Validation.ListNameRequiredIff` | src/utils/validation.ts:20-22 | "List name is required" iff the name is empty or all whitespace |
| `Validation.ListNameTooLongIff` | src/utils/validation.ts:23-25 | the length message iff the trimmed name is longer than 50 |
| `Validation.SanitizeInput` | src/utils/validation.ts:1-7 | the sanitised text has at most 200 characters |
| `Validation.StripScripts` | src/utils/validation.ts:4 | the script pass never lengthens its input; `StripScriptsRemovesBlock` and `StripScriptsKeepsOther` give its effect at every position |
| `Validation.StripTags` | src/utils/validation.ts:5 | the tag pass never lengthens its input (its effect is given by the lemmas below) |
| `Validation.SanitizeInputSpec` | src/utils/validation.ts:1-7 | at most 200 characters, and exactly the first 200 characters of the stripped text (all of it when shorter), as `slice(0, 200)` keeps; only deletes characters of the trimmed input, keeping their order (so also of the raw input); no `<` is followed later by `>` |
| `Validation.FindClose` | src/utils/validation.ts:4 | the first case-insensitive `</script>` at or after a position, none iff there is none |
| `Validation.StripScriptsSubsequence` | src/utils/validation.ts:4 | the script pass only deletes characters, keeping the order of the rest |
| `Validation.StripScriptsRemovesBlock` | src/utils/validation.ts:4 | a `<script` (any ASCII case, at a word boundary) is removed through the first `</script>` after it, and the scan resumes after that |
| `Validation.StripScriptsUnterminated` | src/utils/validation.ts:4 | with no closing tag anywhere, the script pass changes nothing: an unterminated `<script` is left for the tag pass |
| `Validation.StripScriptsKeepsOther` | src/utils/validation.ts:4 | at a character that does not start a removable block (no `<script` opening at a word boundary there, or no closing tag after it) the character is kept and the scan moves on by one; with `StripScriptsRemovesBlock` this fixes the pass at every position |
| `Validation.StripScriptsNeedsWordBoundary` | src/utils/validation.ts:4 | a `<script` followed by a word character (as in `<scriptx</script>`) is not an opening: its `<` is kept even if a closing tag follows |
| `Validation.StripScriptsPlainPrefix` | src/utils/validation.ts:4 | text without `<` passes the script pass unchanged and can be split off the front |
| `Validation.FindChar` | src/utils/validation.ts:5 | the first `>` at or after a position, none iff there is none |
| `Validation.StripTagsSubsequence` | src/utils/validation.ts:5 | the tag pass only deletes characters, keeping the order of the rest |
| `Validation.StripTagsLeavesNoTagSpan` | src/utils/validation.ts:5 | after the tag pass no `<` is followed anywhere later by `>` |
| `Validation.StripTagsPlainPrefix` | src/utils/validation.ts:5 | text without `<` passes the tag pass unchanged and can be split off the front |
| `Validation.StripTagsRemovesSpan` | src/utils/validation.ts:5 | a `<` is removed through the first `>` after it, and the scan resumes after that |
| `Validation.StripTagsUnterminated` | src/utils/validation.ts:5 | text without `>` passes the tag pass unchanged: a `<` that no `>` follows is kept |
| `JsString.Trim` | src/utils/validation.ts:3 | `trim` never lengthens a string, and a non-empty result neither starts nor ends with whitespace |
| `JsString.TrimSlice` | src/utils/validation.ts:3 | `trim` returns a contiguous slice; everything cut off is whitespace; the slice neither starts nor ends with whitespace |
| `JsString.TrimEmptyIff` | src/utils/validation.ts:10 | a string trims to nothing iff it is all whitespace |
| `JsString.TrimIdempotent` | src/utils/validation.ts:3 | trimming twice is trimming once |
| `JsString.Includes` | src/utils/errorHandling.ts:16 | `includes` is false for a pattern longer than the text and true for the empty pattern (exactly characterised by `IncludesIff`) |
| `JsString.IncludesIff` | src/utils/errorHandling.ts:16 | `includes` is true iff the pattern occurs at some position |
| `JsString.LowerAscii` | src/utils/validation.ts:4 | the `i` flag folds exactly the ASCII capitals, each to its own lower-case letter (code point plus 32), and leaves every other character alone |
| `TodoListView.Compare` | src/components/todo/TodoList.tsx:22-28 | the comparator is negative exactly when `a` is incomplete and `b` completed, or both agree and `a` is newer; zero exactly when both keys tie |
| `TodoListView.Insert` | src/components/todo/TodoList.tsx:22-28 | one insertion step of the sort adds exactly the inserted task (multiset plus that task, one longer) |
| `TodoListView.SortedTasks` | src/components/todo/TodoList.tsx:22-28 | the sorted copy has as many tasks as the input |
| `TodoListView.SortedTasksPermutes` | src/components/todo/TodoList.tsx:22 | the displayed sequence is a permutation of the tasks (same multiset, same length) |
| `TodoListView.SortedTasksOrdered` | src/components/todo/TodoList.tsx:22-28 | every incomplete task precedes every completed one; within a group `createdAt` is non-increasing |
| `TodoListView.SortedTasksStable` | src/components/todo/TodoList.tsx:22-28 | tasks equal on both keys keep their input order (stable sort, comparator 0 on ties) |
| `TodoListView.InsertOrdered` | src/components/todo/TodoList.tsx:24-27 | inserting a task into a display-ordered sequence keeps it display-ordered |
| `ErrorHandling.CreateError` | src/utils/errorHandling.ts:7-11 | the record carries exactly the given message, code and original error |
| `ErrorHandling.IsQuotaExceededError` | src/utils/errorHandling.ts:13-17 | quota exceeded iff the name is `QuotaExceededError`, or the code is 22, or `quota` occurs case-sensitively in the message |
| `ErrorHandling.QuotaInMessage` | src/utils/errorHandling.ts:16 | any message containing `quota` classifies as quota exceeded, whatever the name and code |
| `ErrorHandling.QuotaIsCaseSensitive` | src/utils/errorHandling.ts:16 | a message `Quota` alone (capital Q), with another name and no code, is not a quota error |
| `ErrorHandling.HandleStorageError` | src/utils/errorHandling.ts:19-24 | the result is one of the two fixed messages |
| `ErrorHandling.HandleStorageErrorIff` | src/utils/errorHandling.ts:19-24 | the quota message iff the error is a quota error; the generic message otherwise |
| `LegacyTasks.HandleSubmit` | src/components/AddTaskForm.tsx:15-32 | `setCurrentList` is called iff the trimmed text is non-empty; otherwise the input keeps its text; when called, the input is cleared and the list keeps its id and grows by one |
| `LegacyTasks.SubmitBlankIgnored` | src/components/AddTaskForm.tsx:18 | empty or whitespace-only input: `setCurrentList` is not called and the input keeps its text |
| `LegacyTasks.SubmitPrepends` | src/components/AddTaskForm.tsx:15-32 | otherwise the new `ToDo` task with the trimmed text is at index 0, followed by the old tasks in order (one longer), the list id is kept, distinct ids stay distinct, and the input is cleared |
| `LegacyTasks.HandleUpdateTask` | src/components/ListView.tsx:15-23 | the list keeps its id and its task count |
| `LegacyTasks.UpdateReplacesMatches` | src/components/ListView.tsx:16-17 | every task with the updated id is replaced by the update; every other task is unchanged at its position |
| `LegacyTasks.UpdateWithoutMatch` | src/components/ListView.tsx:16-18 | no matching id: the list comes back unchanged |
| `LegacyTasks.UpdateIsPointWrite` | src/components/ListView.tsx:16-22 | with distinct ids, the update writes one position only |
| `LegacyTasks.UpdateIdempotent` | src/components/ListView.tsx:16-17 | applying the same update twice is applying it once |
| `LegacyTasks.HandleToggle` | src/components/TaskItem.tsx:12-17 | toggling keeps the task's id and text |
| `LegacyTasks.ToggleStatus` | src/components/TaskItem.tsx:15 | `ToDo` becomes `Completed`; any other status, `Completed` included, becomes `ToDo` |
| `LegacyTasks.ToggleTwice` | src/components/TaskItem.tsx:15 | toggling twice restores the task iff its status is `ToDo` or `Completed`; any other status ends `Completed` |
| `LegacyTasks.ToggleInList` | src/components/TaskItem.tsx:12-17 | a checkbox click, passed through the list view's update, toggles that one task in place and keeps ids distinct |

## Left out

- Persistence is not modelled. No storage code is part of this model, and the
  store lives in memory. Immer's copy-on-write is modelled as updates in place
  on the store object.
- `generateId`, `uuidv4` and `new Date()` are calls outside the model. Fresh
  ids and the clock `now` are parameters. Each operation reads the clock once,
  whereas the source calls `new Date()` several times within one operation:
  for each timestamp of the initial state and of a new list or task
  (`initialState`, `createList`, `createTask`), and for the task and its list
  in `updateTask` and `toggleTaskStatus`. The model gives all of them the
  same value.
- Lengths and `slice(0, 200)` count JavaScript UTF-16 code units. The model
  counts Unicode scalar values (Dafny `char`s), so the two differ for
  characters outside the Basic Multilingual Plane.
- `Partial<…>` updates: a field given as `undefined` is not modelled. Each
  field is either absent or given a value.
- `ErrorHandling.StorageError`: a `code` that is not a number counts as absent.
  Such a code is never strictly equal to 22 either.
- `LegacyTasks.Status`: `src/types/status.ts` is not part of this model. Any
  member other than `ToDo` and `Completed` is `OtherStatus`.
- `TodoListView.SortedTasks` models `Array.prototype.sort` as a stable
  insertion sort on a copy. Invalid `Date` values, whose `getTime()` is `NaN`,
  are not modelled. The input sequence is a value, so it cannot be reordered.
- Rendering, styling, DOM events and the App handlers that only forward to the
  store are not modelled. Neither are the `localStorage` mock and the test
  files, which target functions that do not exist in the modelled source.
- `ListsState` (src/types/task.ts:14) is not used by the modelled
  transformations.
- `AddTaskForm.handleSubmit`: `preventDefault` and the React state setter are
  not modelled. The outcome record says whether `setCurrentList` is called and
  what text the input keeps.
