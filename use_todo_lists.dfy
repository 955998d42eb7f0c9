/** The to-do store (src/hooks/useTodoLists.ts): lists of tasks, the selected
    list and task, and the UI flags, updated in place one operation at a time.

    The value-level functions below say what each operation does to the
    sequence of lists; the class `TodoStore` holds the state and its methods
    are proved to perform exactly those updates and nothing else. */
module UseTodoLists {
  import opened Wrappers
  import opened Sequences
  import opened JsString
  import opened TodoTypes
  import Validation

  const DefaultListId := "default"
  const DefaultListName := "Default List"
  const DefaultTaskTitle := "Do something"

  /* ---------------------------------------------------------------------- */
  /* Lookups                                                                 */
  /* ---------------------------------------------------------------------- */

  /** `lists.find(l => l.id === id)`, as the index of the first match. */
  function FindList(lists: seq<TodoList>, id: Id): (r: Option<nat>)
    ensures r.Some? ==> r.value < |lists| && lists[r.value].id == id
    ensures r.Some? ==> forall k :: 0 <= k < r.value ==> lists[k].id != id
    ensures r.None? <==> forall k :: 0 <= k < |lists| ==> lists[k].id != id
  {
    if lists == [] then None
    else if lists[0].id == id then Some(0)
    else match FindList(lists[1..], id)
      case None => None
      case Some(k) => Some(k + 1)
  }

  /** `tasks.findIndex(t => t.id === id)`, with None for -1. */
  function FindTask(tasks: seq<Task>, id: Id): (r: Option<nat>)
    ensures r.Some? ==> r.value < |tasks| && tasks[r.value].id == id
    ensures r.Some? ==> forall k :: 0 <= k < r.value ==> tasks[k].id != id
    ensures r.None? <==> forall k :: 0 <= k < |tasks| ==> tasks[k].id != id
  {
    if tasks == [] then None
    else if tasks[0].id == id then Some(0)
    else match FindTask(tasks[1..], id)
      case None => None
      case Some(k) => Some(k + 1)
  }

  /** Where a task sits: the index of its list and its index in that list. */
  datatype Loc = Loc(list: nat, task: nat)

  /** The `for (const list of lists)` scan from list `from` on: the first list
      holding a task with that id, and the first such task in it. */
  function LocateFrom(lists: seq<TodoList>, id: Id, from: nat): (r: Option<Loc>)
    requires from <= |lists|
    decreases |lists| - from
    ensures r.Some? ==>
      (from <= r.value.list < |lists| && FindTask(lists[r.value.list].tasks, id) == Some(r.value.task))
    ensures r.Some? ==> forall k :: from <= k < r.value.list ==> FindTask(lists[k].tasks, id).None?
    ensures r.None? <==> forall k :: from <= k < |lists| ==> FindTask(lists[k].tasks, id).None?
  {
    if from == |lists| then None
    else match FindTask(lists[from].tasks, id)
      case Some(j) => Some(Loc(from, j))
      case None => LocateFrom(lists, id, from + 1)
  }

  function LocateTask(lists: seq<TodoList>, id: Id): (r: Option<Loc>)
    ensures r.Some? ==>
      r.value.list < |lists| && r.value.task < |lists[r.value.list].tasks| &&
      lists[r.value.list].tasks[r.value.task].id == id
  {
    LocateFrom(lists, id, 0)
  }

  /** Some list holds a task with that id. */
  predicate TaskIdUsed(lists: seq<TodoList>, id: Id)
  {
    exists i, j :: 0 <= i < |lists| && 0 <= j < |lists[i].tasks| && lists[i].tasks[j].id == id
  }

  /** The scan finds a task exactly when some list holds one with that id;
      what it finds is the first such task of the first such list. */
  lemma LocateTaskIff(lists: seq<TodoList>, id: Id)
    ensures LocateTask(lists, id).Some? <==> TaskIdUsed(lists, id)
    ensures LocateTask(lists, id).Some? ==>
      var loc := LocateTask(lists, id).value;
      loc.list < |lists| && loc.task < |lists[loc.list].tasks| &&
      lists[loc.list].tasks[loc.task].id == id &&
      (forall k :: 0 <= k < loc.task ==> lists[loc.list].tasks[k].id != id) &&
      (forall i, j :: 0 <= i < loc.list && 0 <= j < |lists[i].tasks| ==> lists[i].tasks[j].id != id)
  {
    var r := LocateTask(lists, id);
    if r.Some? {
      var loc := r.value;
      assert lists[loc.list].tasks[loc.task].id == id;
      forall i, j | 0 <= i < loc.list && 0 <= j < |lists[i].tasks|
        ensures lists[i].tasks[j].id != id
      {
        assert FindTask(lists[i].tasks, id).None?;
      }
    }
  }

  /* ---------------------------------------------------------------------- */
  /* What each operation does to the lists                                   */
  /* ---------------------------------------------------------------------- */

  /** `updateList`: the first list with that id is merged with the updates. */
  function UpdateListIn(lists: seq<TodoList>, id: Id, u: ListUpdate, now: nat): (r: seq<TodoList>)
    ensures |r| == |lists|
    ensures FindList(lists, id).None? ==> r == lists
    ensures FindList(lists, id).Some? ==>
      var k := FindList(lists, id).value;
      r[k] == MergeList(lists[k], u, now) &&
      forall m :: 0 <= m < |lists| && m != k ==> r[m] == lists[m]
  {
    match FindList(lists, id)
    case None => lists
    case Some(k) => lists[k := MergeList(lists[k], u, now)]
  }

  /** `lists.filter(l => l.id !== id)` */
  function WithoutList(lists: seq<TodoList>, id: Id): (r: seq<TodoList>)
    ensures forall l :: l in r <==> l in lists && l.id != id
    ensures forall l :: multiset(r)[l] == if l.id != id then multiset(lists)[l] else 0
    ensures IsSubsequence(r, lists)
    ensures |r| <= |lists|
  {
    if lists == [] then []
    else if lists[0].id == id then
      var rest := WithoutList(lists[1..], id);
      DropPrefix(rest, lists, 1);
      assert lists == [lists[0]] + lists[1..];
      assert multiset(lists) == multiset{lists[0]} + multiset(lists[1..]);
      rest
    else
      var rest := WithoutList(lists[1..], id);
      KeepHead(lists[0], rest, lists[1..]);
      assert [lists[0]] + lists[1..] == lists;
      assert multiset(lists) == multiset{lists[0]} + multiset(lists[1..]);
      assert multiset([lists[0]] + rest) == multiset{lists[0]} + multiset(rest);
      [lists[0]] + rest
  }

  /** `createTask` on the lists: the task goes at the end of the first list
      with that id, whose `updatedAt` is refreshed. */
  function AppendTaskIn(lists: seq<TodoList>, listId: Id, t: Task, now: nat): (r: seq<TodoList>)
    ensures |r| == |lists|
    ensures FindList(lists, listId).None? ==> r == lists
    ensures FindList(lists, listId).Some? ==>
      var k := FindList(lists, listId).value;
      r[k] == lists[k].(tasks := lists[k].tasks + [t], updatedAt := now) &&
      forall m :: 0 <= m < |lists| && m != k ==> r[m] == lists[m]
  {
    match FindList(lists, listId)
    case None => lists
    case Some(k) => lists[k := lists[k].(tasks := lists[k].tasks + [t], updatedAt := now)]
  }

  /** Writes `t` at `loc` and refreshes the owning list's `updatedAt`. */
  function ReplaceTaskAt(lists: seq<TodoList>, loc: Loc, t: Task, now: nat): (r: seq<TodoList>)
    requires loc.list < |lists| && loc.task < |lists[loc.list].tasks|
    ensures |r| == |lists|
    ensures forall m :: 0 <= m < |lists| && m != loc.list ==> r[m] == lists[m]
    ensures r[loc.list].tasks == lists[loc.list].tasks[loc.task := t]
    ensures r[loc.list] == lists[loc.list].(tasks := r[loc.list].tasks, updatedAt := now)
  {
    var l := lists[loc.list];
    lists[loc.list := l.(tasks := l.tasks[loc.task := t], updatedAt := now)]
  }

  /** `updateTask` on the lists: the first task with that id is merged with the updates. */
  function UpdateTaskIn(lists: seq<TodoList>, id: Id, u: TaskUpdate, now: nat): (r: seq<TodoList>)
    ensures |r| == |lists|
    ensures LocateTask(lists, id).None? ==> r == lists
    ensures LocateTask(lists, id).Some? ==>
      var loc := LocateTask(lists, id).value;
      var ts := lists[loc.list].tasks;
      r[loc.list] == lists[loc.list].(tasks := ts[loc.task := MergeTask(ts[loc.task], u, now)], updatedAt := now) &&
      forall m :: 0 <= m < |lists| && m != loc.list ==> r[m] == lists[m]
  {
    match LocateTask(lists, id)
    case None => lists
    case Some(loc) => ReplaceTaskAt(lists, loc, MergeTask(lists[loc.list].tasks[loc.task], u, now), now)
  }

  /** The task with its completion flag flipped and `updatedAt` refreshed. */
  function Toggled(t: Task, now: nat): (r: Task)
    ensures r.completed == !t.completed
    ensures r.updatedAt == now
    ensures r.id == t.id && r.title == t.title && r.createdAt == t.createdAt
  {
    t.(completed := !t.completed, updatedAt := now)
  }

  /** `toggleTaskStatus` on the lists. */
  function ToggleTaskIn(lists: seq<TodoList>, id: Id, now: nat): (r: seq<TodoList>)
    ensures |r| == |lists|
    ensures LocateTask(lists, id).None? ==> r == lists
    ensures LocateTask(lists, id).Some? ==>
      var loc := LocateTask(lists, id).value;
      var ts := lists[loc.list].tasks;
      r[loc.list] == lists[loc.list].(tasks := ts[loc.task := Toggled(ts[loc.task], now)], updatedAt := now) &&
      forall m :: 0 <= m < |lists| && m != loc.list ==> r[m] == lists[m]
  {
    match LocateTask(lists, id)
    case None => lists
    case Some(loc) => ReplaceTaskAt(lists, loc, Toggled(lists[loc.list].tasks[loc.task], now), now)
  }

  /** `deleteTask` on the lists: `splice` out the first task with that id. */
  function DeleteTaskIn(lists: seq<TodoList>, id: Id, now: nat): (r: seq<TodoList>)
    ensures |r| == |lists|
    ensures LocateTask(lists, id).None? ==> r == lists
    ensures LocateTask(lists, id).Some? ==>
      var loc := LocateTask(lists, id).value;
      var ts := lists[loc.list].tasks;
      r[loc.list] == lists[loc.list].(tasks := ts[..loc.task] + ts[loc.task + 1..], updatedAt := now) &&
      forall m :: 0 <= m < |lists| && m != loc.list ==> r[m] == lists[m]
  {
    match LocateTask(lists, id)
    case None => lists
    case Some(loc) =>
      var l := lists[loc.list];
      lists[loc.list := l.(tasks := l.tasks[..loc.task] + l.tasks[loc.task + 1..], updatedAt := now)]
  }

  /* ---------------------------------------------------------------------- */
  /* Properties of the operations                                            */
  /* ---------------------------------------------------------------------- */

  /** Total number of tasks over all lists. */
  function TaskCount(lists: seq<TodoList>): nat
  {
    if lists == [] then 0 else |lists[0].tasks| + TaskCount(lists[1..])
  }

  lemma {:induction false} TaskCountReplace(lists: seq<TodoList>, k: nat, l: TodoList)
    requires k < |lists|
    ensures TaskCount(lists[k := l]) + |lists[k].tasks| == TaskCount(lists) + |l.tasks|
  {
    if k > 0 {
      TaskCountReplace(lists[1..], k - 1, l);
      assert lists[k := l][1..] == lists[1..][k - 1 := l];
    }
  }

  /** Creating a task on an existing list adds exactly one task in all, at the
      end of that list; on an unknown list nothing changes. */
  lemma AppendTaskCount(lists: seq<TodoList>, listId: Id, t: Task, now: nat)
    ensures FindList(lists, listId).Some? ==>
      TaskCount(AppendTaskIn(lists, listId, t, now)) == TaskCount(lists) + 1
    ensures FindList(lists, listId).Some? ==>
      var r := AppendTaskIn(lists, listId, t, now)[FindList(lists, listId).value].tasks;
      r[|r| - 1] == t
    ensures FindList(lists, listId).None? ==> TaskCount(AppendTaskIn(lists, listId, t, now)) == TaskCount(lists)
  {
    if FindList(lists, listId).Some? {
      var k := FindList(lists, listId).value;
      TaskCountReplace(lists, k, lists[k].(tasks := lists[k].tasks + [t], updatedAt := now));
    }
  }

  /** Deleting a present task removes exactly one task in all; an absent id
      removes none. */
  lemma DeleteTaskCount(lists: seq<TodoList>, id: Id, now: nat)
    ensures TaskIdUsed(lists, id) ==> TaskCount(DeleteTaskIn(lists, id, now)) + 1 == TaskCount(lists)
    ensures !TaskIdUsed(lists, id) ==> DeleteTaskIn(lists, id, now) == lists
  {
    LocateTaskIff(lists, id);
    if TaskIdUsed(lists, id) {
      var loc := LocateTask(lists, id).value;
      var l := lists[loc.list];
      TaskCountReplace(lists, loc.list, l.(tasks := l.tasks[..loc.task] + l.tasks[loc.task + 1..], updatedAt := now));
    }
  }

  /** The two lists agree everywhere except in `updatedAt` fields. */
  predicate SameUpToUpdatedAt(a: seq<TodoList>, b: seq<TodoList>)
  {
    |a| == |b| &&
    forall i :: 0 <= i < |a| ==>
      a[i].id == b[i].id && a[i].name == b[i].name && a[i].createdAt == b[i].createdAt &&
      |a[i].tasks| == |b[i].tasks| &&
      forall j :: 0 <= j < |a[i].tasks| ==> a[i].tasks[j].(updatedAt := 0) == b[i].tasks[j].(updatedAt := 0)
  }

  /** The two lists have the same shape and the same task id at every position. */
  predicate SameTaskIds(a: seq<TodoList>, b: seq<TodoList>)
  {
    |a| == |b| &&
    forall i :: 0 <= i < |a| ==>
      |a[i].tasks| == |b[i].tasks| &&
      forall j :: 0 <= j < |a[i].tasks| ==> a[i].tasks[j].id == b[i].tasks[j].id
  }

  lemma ReplaceKeepsIds(lists: seq<TodoList>, loc: Loc, t: Task, now: nat)
    requires loc.list < |lists| && loc.task < |lists[loc.list].tasks|
    requires t.id == lists[loc.list].tasks[loc.task].id
    ensures SameTaskIds(ReplaceTaskAt(lists, loc, t, now), lists)
  {
  }

  lemma {:induction false} SameIdsSameTaskIndex(a: seq<Task>, b: seq<Task>, id: Id)
    requires |a| == |b| && forall j :: 0 <= j < |a| ==> a[j].id == b[j].id
    ensures FindTask(a, id) == FindTask(b, id)
  {
    if a != [] {
      SameIdsSameTaskIndex(a[1..], b[1..], id);
    }
  }

  lemma {:induction false} SameIdsSameLocation(a: seq<TodoList>, b: seq<TodoList>, id: Id, from: nat)
    requires SameTaskIds(a, b) && from <= |a|
    ensures LocateFrom(a, id, from) == LocateFrom(b, id, from)
    decreases |a| - from
  {
    if from < |a| {
      SameIdsSameTaskIndex(a[from].tasks, b[from].tasks, id);
      SameIdsSameLocation(a, b, id, from + 1);
    }
  }

  /** Toggling leaves every task id where it was. */
  lemma ToggleKeepsIds(lists: seq<TodoList>, id: Id, now: nat)
    ensures SameTaskIds(ToggleTaskIn(lists, id, now), lists)
  {
    match LocateTask(lists, id)
    case None =>
    case Some(loc) => ReplaceKeepsIds(lists, loc, Toggled(lists[loc.list].tasks[loc.task], now), now);
  }

  /** An update that does not give an id leaves every task id where it was. */
  lemma UpdateTaskKeepsIds(lists: seq<TodoList>, id: Id, u: TaskUpdate, now: nat)
    requires u.id.None?
    ensures SameTaskIds(UpdateTaskIn(lists, id, u, now), lists)
  {
    match LocateTask(lists, id)
    case None =>
    case Some(loc) => ReplaceKeepsIds(lists, loc, MergeTask(lists[loc.list].tasks[loc.task], u, now), now);
  }

  lemma ReplaceUpToUpdatedAt(lists: seq<TodoList>, loc: Loc, t: Task, now: nat)
    requires loc.list < |lists| && loc.task < |lists[loc.list].tasks|
    requires t.(updatedAt := 0) == lists[loc.list].tasks[loc.task].(updatedAt := 0)
    ensures SameUpToUpdatedAt(ReplaceTaskAt(lists, loc, t, now), lists)
  {
  }

  /** Toggling a task twice gives back every completion flag, title and id:
      only `updatedAt` fields differ. */
  lemma ToggleTwiceRestores(lists: seq<TodoList>, id: Id, t1: nat, t2: nat)
    ensures SameUpToUpdatedAt(ToggleTaskIn(ToggleTaskIn(lists, id, t1), id, t2), lists)
  {
    var once := ToggleTaskIn(lists, id, t1);
    match LocateTask(lists, id)
    case None =>
      assert once == lists;
      ToggleAbsentUpToUpdatedAt(lists, id, t2);
    case Some(loc) =>
      ToggleKeepsIds(lists, id, t1);
      SameIdsSameLocation(once, lists, id, 0);
      var t := lists[loc.list].tasks[loc.task];
      assert LocateTask(once, id) == Some(loc);
      assert Toggled(once[loc.list].tasks[loc.task], t2) == t.(updatedAt := t2);
      ReplaceTwice(lists, loc, Toggled(t, t1), t.(updatedAt := t2), t1, t2);
      ReplaceUpToUpdatedAt(lists, loc, t.(updatedAt := t2), t2);
  }

  lemma ReplaceTwice(lists: seq<TodoList>, loc: Loc, a: Task, b: Task, n1: nat, n2: nat)
    requires loc.list < |lists| && loc.task < |lists[loc.list].tasks|
    ensures ReplaceTaskAt(ReplaceTaskAt(lists, loc, a, n1), loc, b, n2) == ReplaceTaskAt(lists, loc, b, n2)
  {
    var x := ReplaceTaskAt(ReplaceTaskAt(lists, loc, a, n1), loc, b, n2);
    var y := ReplaceTaskAt(lists, loc, b, n2);
    assert x[loc.list].tasks == y[loc.list].tasks;
  }

  lemma ToggleAbsentUpToUpdatedAt(lists: seq<TodoList>, id: Id, now: nat)
    requires LocateTask(lists, id).None?
    ensures SameUpToUpdatedAt(ToggleTaskIn(lists, id, now), lists)
  {
  }

  /** Same task ids in the same places keep ids distinct. */
  lemma SameIdsKeepUnique(a: seq<TodoList>, b: seq<TodoList>)
    requires SameTaskIds(a, b) && TaskIdsUnique(b)
    ensures TaskIdsUnique(a)
  {
  }

  /** List ids are pairwise distinct. */
  predicate ListIdsUnique(lists: seq<TodoList>)
  {
    forall a, b :: 0 <= a < b < |lists| ==> lists[a].id != lists[b].id
  }

  /** Task ids are pairwise distinct across the whole state. */
  predicate TaskIdsUnique(lists: seq<TodoList>)
  {
    forall i1, j1, i2, j2 ::
      0 <= i1 < |lists| && 0 <= j1 < |lists[i1].tasks| &&
      0 <= i2 < |lists| && 0 <= j2 < |lists[i2].tasks| && (i1, j1) != (i2, j2) ==>
      lists[i1].tasks[j1].id != lists[i2].tasks[j2].id
  }

  /** Creating a list with a fresh id keeps list ids distinct. */
  lemma CreateListKeepsIdsUnique(lists: seq<TodoList>, l: TodoList)
    requires ListIdsUnique(lists)
    requires FindList(lists, l.id).None?
    ensures ListIdsUnique(lists + [l])
  {
  }

  /** Removing lists keeps list ids distinct. */
  lemma {:induction false} DeleteListKeepsIdsUnique(lists: seq<TodoList>, id: Id)
    requires ListIdsUnique(lists)
    ensures ListIdsUnique(WithoutList(lists, id))
  {
    if lists != [] {
      DeleteListKeepsIdsUnique(lists[1..], id);
      var rest := WithoutList(lists[1..], id);
      if lists[0].id != id {
        forall m | 0 <= m < |rest| ensures rest[m].id != lists[0].id {
          assert rest[m] in lists[1..];
        }
      }
    }
  }

  /** Task ids stay distinct when lists are filtered out. */
  lemma {:induction false} DeleteListKeepsTaskIdsUnique(lists: seq<TodoList>, id: Id)
    requires TaskIdsUnique(lists)
    ensures TaskIdsUnique(WithoutList(lists, id))
  {
    if lists != [] {
      TaskIdsUniqueTail(lists);
      DeleteListKeepsTaskIdsUnique(lists[1..], id);
      if lists[0].id != id {
        var rest := WithoutList(lists[1..], id);
        assert WithoutList(lists, id) == [lists[0]] + rest;
        TaskIdsUniqueKeepHead(lists, rest);
      }
    }
  }

  lemma TaskIdsUniqueTail(lists: seq<TodoList>)
    requires lists != [] && TaskIdsUnique(lists)
    ensures TaskIdsUnique(lists[1..])
  {
    var tail := lists[1..];
    forall i1, j1, i2, j2 |
      0 <= i1 < |tail| && 0 <= j1 < |tail[i1].tasks| &&
      0 <= i2 < |tail| && 0 <= j2 < |tail[i2].tasks| && (i1, j1) != (i2, j2)
      ensures tail[i1].tasks[j1].id != tail[i2].tasks[j2].id
    {
      assert lists[i1 + 1].tasks[j1].id != lists[i2 + 1].tasks[j2].id;
    }
  }

  /** Keeping the head list in front of distinct-id lists taken from the tail
      keeps task ids distinct. */
  lemma TaskIdsUniqueKeepHead(lists: seq<TodoList>, rest: seq<TodoList>)
    requires lists != [] && TaskIdsUnique(lists) && TaskIdsUnique(rest)
    requires forall l :: l in rest ==> l in lists[1..]
    ensures TaskIdsUnique([lists[0]] + rest)
  {
    var r := [lists[0]] + rest;
    forall i1, j1, i2, j2 |
      0 <= i1 < |r| && 0 <= j1 < |r[i1].tasks| &&
      0 <= i2 < |r| && 0 <= j2 < |r[i2].tasks| && (i1, j1) != (i2, j2)
      ensures r[i1].tasks[j1].id != r[i2].tasks[j2].id
    {
      if i1 == 0 && i2 == 0 {
        assert r[0] == lists[0];
      } else if i1 == 0 {
        var p2 := OriginalIndex(lists, rest, i2);
        assert lists[0].tasks[j1].id != lists[p2].tasks[j2].id;
      } else if i2 == 0 {
        var p1 := OriginalIndex(lists, rest, i1);
        assert lists[p1].tasks[j1].id != lists[0].tasks[j2].id;
      } else {
        assert r[i1] == rest[i1 - 1] && r[i2] == rest[i2 - 1];
      }
    }
  }

  /** The index in `lists` of the list at position `i` of `[lists[0]] + rest`,
      where `rest` keeps only lists of `lists[1..]`; a list taken from the tail
      never lands on index 0. */
  lemma OriginalIndex(lists: seq<TodoList>, rest: seq<TodoList>, i: nat) returns (p: nat)
    requires lists != [] && i <= |rest|
    requires forall l :: l in rest ==> l in lists[1..]
    ensures p < |lists| && ([lists[0]] + rest)[i] == lists[p]
    ensures i == 0 <==> p == 0
  {
    if i == 0 {
      p := 0;
    } else {
      assert rest[i - 1] in lists[1..];
      var m :| 0 <= m < |lists[1..]| && lists[1..][m] == rest[i - 1];
      p := m + 1;
    }
  }

  /** Creating a list, which starts with no tasks, keeps task ids distinct. */
  lemma CreateListKeepsTaskIdsUnique(lists: seq<TodoList>, l: TodoList)
    requires TaskIdsUnique(lists) && l.tasks == []
    ensures TaskIdsUnique(lists + [l])
  {
  }

  /** Updating a list without giving a new id keeps list ids distinct. */
  lemma UpdateListKeepsIdsUnique(lists: seq<TodoList>, id: Id, u: ListUpdate, now: nat)
    requires ListIdsUnique(lists) && u.id.None?
    ensures ListIdsUnique(UpdateListIn(lists, id, u, now))
  {
  }

  /** Updating a list without giving new tasks keeps task ids distinct. */
  lemma UpdateListKeepsTaskIdsUnique(lists: seq<TodoList>, id: Id, u: ListUpdate, now: nat)
    requires TaskIdsUnique(lists) && u.tasks.None?
    ensures TaskIdsUnique(UpdateListIn(lists, id, u, now))
  {
  }

  /** Deleting a task keeps the remaining task ids distinct. */
  lemma DeleteTaskKeepsIdsUnique(lists: seq<TodoList>, id: Id, now: nat)
    requires TaskIdsUnique(lists)
    ensures TaskIdsUnique(DeleteTaskIn(lists, id, now))
  {
    var r := DeleteTaskIn(lists, id, now);
    if LocateTask(lists, id).Some? {
      var loc := LocateTask(lists, id).value;
      forall i1, j1, i2, j2 |
        0 <= i1 < |r| && 0 <= j1 < |r[i1].tasks| &&
        0 <= i2 < |r| && 0 <= j2 < |r[i2].tasks| && (i1, j1) != (i2, j2)
        ensures r[i1].tasks[j1].id != r[i2].tasks[j2].id
      {
        var k1 := DeletedTaskOrigin(lists, id, now, i1, j1);
        var k2 := DeletedTaskOrigin(lists, id, now, i2, j2);
        assert lists[i1].tasks[k1].id != lists[i2].tasks[k2].id;
      }
    }
  }

  /** Where a task left by `deleteTask` sat before: the same list, at the same
      index, or one further on in the list it was deleted from. */
  lemma DeletedTaskOrigin(lists: seq<TodoList>, id: Id, now: nat, i: nat, j: nat) returns (k: nat)
    requires LocateTask(lists, id).Some?
    requires i < |DeleteTaskIn(lists, id, now)| && j < |DeleteTaskIn(lists, id, now)[i].tasks|
    ensures k < |lists[i].tasks| && DeleteTaskIn(lists, id, now)[i].tasks[j] == lists[i].tasks[k]
    ensures k == if i == LocateTask(lists, id).value.list && j >= LocateTask(lists, id).value.task then j + 1 else j
  {
    var loc := LocateTask(lists, id).value;
    k := if i == loc.list && j >= loc.task then j + 1 else j;
  }

  /** Creating a task with a fresh id keeps task ids distinct. */
  lemma CreateTaskKeepsIdsUnique(lists: seq<TodoList>, listId: Id, t: Task, now: nat)
    requires TaskIdsUnique(lists)
    requires !TaskIdUsed(lists, t.id)
    ensures TaskIdsUnique(AppendTaskIn(lists, listId, t, now))
    ensures TaskIdUsed(AppendTaskIn(lists, listId, t, now), t.id) <==> FindList(lists, listId).Some?
  {
    var r := AppendTaskIn(lists, listId, t, now);
    if FindList(lists, listId).Some? {
      var k := FindList(lists, listId).value;
      assert r[k].tasks[|lists[k].tasks|] == t;
    }
  }

  /** Toggling a task keeps task ids distinct. */
  lemma ToggleKeepsIdsUnique(lists: seq<TodoList>, id: Id, now: nat)
    requires TaskIdsUnique(lists)
    ensures TaskIdsUnique(ToggleTaskIn(lists, id, now))
  {
    ToggleKeepsIds(lists, id, now);
    SameIdsKeepUnique(ToggleTaskIn(lists, id, now), lists);
  }

  /** An update that does not give a new id keeps task ids distinct. */
  lemma UpdateTaskKeepsIdsUnique(lists: seq<TodoList>, id: Id, u: TaskUpdate, now: nat)
    requires TaskIdsUnique(lists) && u.id.None?
    ensures TaskIdsUnique(UpdateTaskIn(lists, id, u, now))
  {
    UpdateTaskKeepsIds(lists, id, u, now);
    SameIdsKeepUnique(UpdateTaskIn(lists, id, u, now), lists);
  }

  /** With distinct task ids, `deleteTask` leaves no task with that id. */
  lemma DeleteTaskRemovesId(lists: seq<TodoList>, id: Id, now: nat)
    requires TaskIdsUnique(lists)
    ensures !TaskIdUsed(DeleteTaskIn(lists, id, now), id)
  {
    LocateTaskIff(lists, id);
  }

  /* ---------------------------------------------------------------------- */
  /* The store                                                               */
  /* ---------------------------------------------------------------------- */

  /** The state of `useTodoLists` and its operations. */
  class TodoStore {
    var lists: seq<TodoList>
    var selectedListId: Option<Id>
    var selectedTaskId: Option<Id>
    var uiState: UiState

    /** `initialState`: one default list holding one task, selected; every UI flag off. */
    constructor (defaultTaskId: Id, now: nat)
      ensures lists == [TodoList(DefaultListId, DefaultListName,
                                 [Task(defaultTaskId, DefaultTaskTitle, false, now, now)], now, now)]
      ensures selectedListId == Some(DefaultListId) && selectedTaskId == None
      ensures uiState == UiState(false, false, None, None)
    {
      lists := [TodoList(DefaultListId, DefaultListName,
                         [Task(defaultTaskId, DefaultTaskTitle, false, now, now)], now, now)];
      selectedListId := Some(DefaultListId);
      selectedTaskId := None;
      uiState := UiState(false, false, None, None);
    }

    /** `createList`: appends a list with the trimmed name and no tasks, selects
        it and closes the "creating" flag. The name is not validated here. */
    method CreateList(name: string, freshId: Id, now: nat)
      requires FindList(lists, freshId).None?
      modifies this
      ensures lists == old(lists) + [TodoList(freshId, Trim(name), [], now, now)]
      ensures selectedListId == Some(freshId)
      ensures selectedTaskId == old(selectedTaskId)
      ensures uiState == old(uiState).(isCreatingList := false)
    {
      var newList := TodoList(freshId, Trim(name), [], now, now);
      lists := lists + [newList];
      selectedListId := Some(newList.id);
      uiState := uiState.(isCreatingList := false);
    }

    /** `updateList`: merges the first list with that id and closes list editing;
        an unknown id changes nothing. */
    method UpdateList(id: Id, updates: ListUpdate, now: nat)
      modifies this
      ensures lists == UpdateListIn(old(lists), id, updates, now)
      ensures uiState == if FindList(old(lists), id).Some? then old(uiState).(isEditingList := None) else old(uiState)
      ensures selectedListId == old(selectedListId) && selectedTaskId == old(selectedTaskId)
    {
      var found := FindList(lists, id);
      if found.Some? {
        var k := found.value;
        lists := lists[k := MergeList(lists[k], updates, now)];
        uiState := uiState.(isEditingList := None);
      }
    }

    /** `deleteList`: removes every list with that id, even the last one. If the
        deleted list was selected, the first remaining list (or none) becomes
        selected; the task selection is cleared only when no list ends up selected. */
    method DeleteList(id: Id)
      modifies this
      ensures lists == WithoutList(old(lists), id)
      ensures old(selectedListId) == Some(id) ==>
        selectedListId == if lists == [] then None else Some(lists[0].id)
      ensures old(selectedListId) != Some(id) ==> selectedListId == old(selectedListId)
      ensures selectedTaskId == if selectedListId.None? then None else old(selectedTaskId)
      ensures uiState == old(uiState)
    {
      lists := WithoutList(lists, id);
      if selectedListId == Some(id) {
        selectedListId := if |lists| > 0 then Some(lists[0].id) else None;
      }
      if selectedListId.None? {
        selectedTaskId := None;
      }
    }

    /** `selectList`: selects the given id, unchecked, and clears the task selection. */
    method SelectList(id: Option<Id>)
      modifies this
      ensures selectedListId == id && selectedTaskId == None
      ensures lists == old(lists) && uiState == old(uiState)
    {
      selectedListId := id;
      selectedTaskId := None;
    }

    /** `createTask`: appends a fresh incomplete task with the trimmed title to
        the list with that id; an unknown list id changes nothing. */
    method CreateTask(listId: Id, title: string, freshId: Id, now: nat)
      requires !TaskIdUsed(lists, freshId)
      modifies this
      ensures lists == AppendTaskIn(old(lists), listId, Task(freshId, Trim(title), false, now, now), now)
      ensures selectedListId == old(selectedListId) && selectedTaskId == old(selectedTaskId)
      ensures uiState == old(uiState)
    {
      var found := FindList(lists, listId);
      if found.Some? {
        var k := found.value;
        var newTask := Task(freshId, Trim(title), false, now, now);
        lists := lists[k := lists[k].(tasks := lists[k].tasks + [newTask], updatedAt := now)];
      }
    }

    /** `updateTask`: merges the first task with that id (in the first list
        holding one) and closes task editing; an unknown id changes nothing. */
    method UpdateTask(id: Id, updates: TaskUpdate, now: nat)
      modifies this
      ensures lists == UpdateTaskIn(old(lists), id, updates, now)
      ensures uiState == if LocateTask(old(lists), id).Some? then old(uiState).(isEditingTask := None) else old(uiState)
      ensures selectedListId == old(selectedListId) && selectedTaskId == old(selectedTaskId)
    {
      var i := 0;
      while i < |lists|
        invariant 0 <= i <= |lists|
        invariant lists == old(lists) && uiState == old(uiState)
        invariant selectedListId == old(selectedListId) && selectedTaskId == old(selectedTaskId)
        invariant LocateFrom(lists, id, i) == LocateTask(lists, id)
      {
        var found := FindTask(lists[i].tasks, id);
        if found.Some? {
          var j := found.value;
          var list := lists[i];
          var task := MergeTask(list.tasks[j], updates, now);
          lists := lists[i := list.(tasks := list.tasks[j := task], updatedAt := now)];
          uiState := uiState.(isEditingTask := None);
          return;
        }
        i := i + 1;
      }
    }

    /** `deleteTask`: splices out the first task with that id and clears the task
        selection if it was that id; an unknown id changes nothing. */
    method DeleteTask(id: Id, now: nat)
      modifies this
      ensures lists == DeleteTaskIn(old(lists), id, now)
      ensures selectedTaskId ==
        if LocateTask(old(lists), id).Some? && old(selectedTaskId) == Some(id) then None else old(selectedTaskId)
      ensures selectedListId == old(selectedListId) && uiState == old(uiState)
    {
      var i := 0;
      while i < |lists|
        invariant 0 <= i <= |lists|
        invariant lists == old(lists) && uiState == old(uiState)
        invariant selectedListId == old(selectedListId) && selectedTaskId == old(selectedTaskId)
        invariant LocateFrom(lists, id, i) == LocateTask(lists, id)
      {
        var found := FindTask(lists[i].tasks, id);
        if found.Some? {
          var j := found.value;
          var list := lists[i];
          lists := lists[i := list.(tasks := list.tasks[..j] + list.tasks[j + 1..], updatedAt := now)];
          if selectedTaskId == Some(id) {
            selectedTaskId := None;
          }
          return;
        }
        i := i + 1;
      }
    }

    /** `toggleTaskStatus`: flips the first task with that id and refreshes its
        and its list's `updatedAt`; an unknown id changes nothing. */
    method ToggleTaskStatus(id: Id, now: nat)
      modifies this
      ensures lists == ToggleTaskIn(old(lists), id, now)
      ensures selectedListId == old(selectedListId) && selectedTaskId == old(selectedTaskId)
      ensures uiState == old(uiState)
    {
      var i := 0;
      while i < |lists|
        invariant 0 <= i <= |lists|
        invariant lists == old(lists) && uiState == old(uiState)
        invariant selectedListId == old(selectedListId) && selectedTaskId == old(selectedTaskId)
        invariant LocateFrom(lists, id, i) == LocateTask(lists, id)
      {
        var found := FindTask(lists[i].tasks, id);
        if found.Some? {
          var j := found.value;
          var list := lists[i];
          var task := list.tasks[j];
          lists := lists[i := list.(tasks := list.tasks[j := task.(completed := !task.completed, updatedAt := now)],
                                    updatedAt := now)];
          return;
        }
        i := i + 1;
      }
    }

    /** `selectTask`: only the task selection changes. */
    method SelectTask(id: Option<Id>)
      modifies this
      ensures selectedTaskId == id
      ensures lists == old(lists) && selectedListId == old(selectedListId) && uiState == old(uiState)
    {
      selectedTaskId := id;
    }

    /** `toggleSidebar`: only the collapsed flag changes, to its negation. */
    method ToggleSidebar()
      modifies this
      ensures uiState == old(uiState).(sidebarCollapsed := !old(uiState).sidebarCollapsed)
      ensures lists == old(lists) && selectedListId == old(selectedListId) && selectedTaskId == old(selectedTaskId)
    {
      uiState := uiState.(sidebarCollapsed := !uiState.sidebarCollapsed);
    }

    /** `setCreatingList` */
    method SetCreatingList(creating: bool)
      modifies this
      ensures uiState == old(uiState).(isCreatingList := creating)
      ensures lists == old(lists) && selectedListId == old(selectedListId) && selectedTaskId == old(selectedTaskId)
    {
      uiState := uiState.(isCreatingList := creating);
    }

    /** `setEditingList` */
    method SetEditingList(id: Option<Id>)
      modifies this
      ensures uiState == old(uiState).(isEditingList := id)
      ensures lists == old(lists) && selectedListId == old(selectedListId) && selectedTaskId == old(selectedTaskId)
    {
      uiState := uiState.(isEditingList := id);
    }

    /** `setEditingTask` */
    method SetEditingTask(id: Option<Id>)
      modifies this
      ensures uiState == old(uiState).(isEditingTask := id)
      ensures lists == old(lists) && selectedListId == old(selectedListId) && selectedTaskId == old(selectedTaskId)
    {
      uiState := uiState.(isEditingTask := id);
    }

    /** `getSelectedList`: the first list whose id is the selected one, if any. */
    function GetSelectedList(): (r: Option<TodoList>)
      reads this
      ensures r.None? <==> selectedListId.None? || forall k :: 0 <= k < |lists| ==> lists[k].id != selectedListId.value
      ensures r.Some? ==>
        (selectedListId.Some? && r.value.id == selectedListId.value &&
         FindList(lists, selectedListId.value).Some? && r.value == lists[FindList(lists, selectedListId.value).value])
    {
      if selectedListId.None? then None
      else match FindList(lists, selectedListId.value)
        case None => None
        case Some(k) => Some(lists[k])
    }

    /** `getSelectedTask`: scans the lists in order for the selected task id and
        returns the first task found, if any. */
    method GetSelectedTask() returns (r: Option<Task>)
      ensures r.None? <==> selectedTaskId.None? || !TaskIdUsed(lists, selectedTaskId.value)
      ensures r.Some? ==>
        (selectedTaskId.Some? && r.value.id == selectedTaskId.value &&
         LocateTask(lists, selectedTaskId.value).Some? &&
         var loc := LocateTask(lists, selectedTaskId.value).value;
         r.value == lists[loc.list].tasks[loc.task])
    {
      if selectedTaskId.None? {
        return None;
      }
      var id := selectedTaskId.value;
      LocateTaskIff(lists, id);
      var i := 0;
      while i < |lists|
        invariant 0 <= i <= |lists|
        invariant LocateFrom(lists, id, i) == LocateTask(lists, id)
      {
        var found := FindTask(lists[i].tasks, id);
        if found.Some? {
          return Some(lists[i].tasks[found.value]);
        }
        i := i + 1;
      }
      return None;
    }
  }

  /** Toggling the sidebar twice leaves the whole state as it was. */
  method ToggleSidebarTwice(store: TodoStore)
    modifies store
    ensures store.uiState == old(store.uiState) && store.lists == old(store.lists)
    ensures store.selectedListId == old(store.selectedListId) && store.selectedTaskId == old(store.selectedTaskId)
  {
    store.ToggleSidebar();
    store.ToggleSidebar();
  }

  /** The sidebar's create action (src/components/layout/Sidebar.tsx): the name is
      validated first, and only a valid name reaches `createList`; an invalid one
      leaves the store untouched and returns the message. */
  method CreateValidatedList(store: TodoStore, name: string, freshId: Id, now: nat) returns (error: Option<string>)
    requires FindList(store.lists, freshId).None?
    modifies store
    ensures error == Validation.ValidateListName(name)
    ensures error.Some? ==>
      (store.lists == old(store.lists) && store.selectedListId == old(store.selectedListId) &&
       store.selectedTaskId == old(store.selectedTaskId) && store.uiState == old(store.uiState))
    ensures error.None? ==>
      (store.lists == old(store.lists) + [TodoList(freshId, Trim(name), [], now, now)] &&
       1 <= |store.lists[|store.lists| - 1].name| <= Validation.MaxNameLength &&
       store.selectedListId == Some(freshId) &&
       store.selectedTaskId == old(store.selectedTaskId) &&
       store.uiState == old(store.uiState).(isCreatingList := false))
  {
    error := Validation.ValidateListName(name);
    if error.None? {
      store.CreateList(name, freshId, now);
    }
  }
}
