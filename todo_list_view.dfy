/** The display order of a list's tasks (the `sortedTasks` copy-and-sort in
    src/components/todo/TodoList.tsx). */
module TodoListView {
  import opened TodoTypes

  /** The comparator handed to `sort`: negative puts `a` first. */
  function Compare(a: Task, b: Task): (r: int)
    ensures r < 0 <==> ((!a.completed && b.completed) ||
      (a.completed == b.completed && a.createdAt > b.createdAt))
    ensures r == 0 <==> a.completed == b.completed && a.createdAt == b.createdAt
  {
    if a.completed != b.completed then (if a.completed then 1 else -1)
    else b.createdAt - a.createdAt
  }

  predicate Before(a: Task, b: Task)
  {
    Compare(a, b) < 0
  }

  /** Inserts `x` after the elements that sort strictly before it, so that `x`
      stays ahead of the elements it ties with. */
  function Insert(x: Task, s: seq<Task>): (r: seq<Task>)
    ensures multiset(r) == multiset(s) + multiset{x}
    ensures |r| == |s| + 1
  {
    if s == [] then [x]
    else if Before(s[0], x) then
      assert s == [s[0]] + s[1..];
      [s[0]] + Insert(x, s[1..])
    else [x] + s
  }

  /** `[...tasks].sort(comparator)`, as the stable sort `Array.prototype.sort` is. */
  function SortedTasks(tasks: seq<Task>): (r: seq<Task>)
    ensures |r| == |tasks|
  {
    if tasks == [] then [] else Insert(tasks[0], SortedTasks(tasks[1..]))
  }

  /** Incomplete tasks come before completed ones, and within each group the
      newest creation time comes first. */
  predicate DisplayOrdered(s: seq<Task>)
  {
    forall i, j :: 0 <= i < j < |s| ==>
      (s[i].completed ==> s[j].completed) &&
      (s[i].completed == s[j].completed ==> s[i].createdAt >= s[j].createdAt)
  }

  /** The two keys the comparator looks at. */
  datatype SortKey = SortKey(completed: bool, createdAt: nat)

  function KeyOf(t: Task): SortKey
  {
    SortKey(t.completed, t.createdAt)
  }

  /** The tasks of `s` that carry key `k`, in their order in `s`. */
  function WithKey(s: seq<Task>, k: SortKey): seq<Task>
  {
    if s == [] then []
    else if KeyOf(s[0]) == k then [s[0]] + WithKey(s[1..], k)
    else WithKey(s[1..], k)
  }

  /** `a` may be displayed before `b`. */
  predicate InOrder(a: Task, b: Task)
  {
    (a.completed ==> b.completed) && (a.completed == b.completed ==> a.createdAt >= b.createdAt)
  }

  lemma {:induction false} InsertOrdered(x: Task, s: seq<Task>)
    requires DisplayOrdered(s)
    ensures DisplayOrdered(Insert(x, s))
  {
    if s != [] && Before(s[0], x) {
      var rest := Insert(x, s[1..]);
      InsertOrdered(x, s[1..]);
      forall j | 0 <= j < |rest| ensures InOrder(s[0], rest[j]) {
        assert rest[j] in multiset(rest);
        if rest[j] != x {
          assert rest[j] in multiset(s[1..]);
          var m :| 0 <= m < |s[1..]| && s[1..][m] == rest[j];
          assert s[m + 1] == rest[j];
        }
      }
      ConsOrdered(s[0], rest);
    } else if s != [] {
      forall j | 0 <= j < |s| ensures InOrder(x, s[j]) {
        if j > 0 {
          assert InOrder(s[0], s[j]);
        }
      }
      ConsOrdered(x, s);
    }
  }

  /** A task that may precede every element of an ordered sequence may be put
      in front of it. */
  lemma ConsOrdered(h: Task, r: seq<Task>)
    requires DisplayOrdered(r)
    requires forall j :: 0 <= j < |r| ==> InOrder(h, r[j])
    ensures DisplayOrdered([h] + r)
  {
    var t := [h] + r;
    forall i, j | 0 <= i < j < |t| ensures InOrder(t[i], t[j]) {
      assert t[j] == r[j - 1];
      if i > 0 {
        assert t[i] == r[i - 1];
      }
    }
  }

  lemma {:induction false} InsertKeepsKeyOrder(x: Task, s: seq<Task>, k: SortKey)
    ensures WithKey(Insert(x, s), k) == if KeyOf(x) == k then [x] + WithKey(s, k) else WithKey(s, k)
  {
    if s == [] {
    } else if Before(s[0], x) {
      InsertKeepsKeyOrder(x, s[1..], k);
      assert KeyOf(s[0]) != KeyOf(x);
      assert Insert(x, s)[1..] == Insert(x, s[1..]);
    } else {
      assert Insert(x, s)[1..] == s;
    }
  }

  /** The displayed sequence holds the same tasks, as many times each. */
  lemma {:induction false} SortedTasksPermutes(tasks: seq<Task>)
    ensures multiset(SortedTasks(tasks)) == multiset(tasks)
    ensures |SortedTasks(tasks)| == |tasks|
  {
    if tasks != [] {
      SortedTasksPermutes(tasks[1..]);
      assert tasks == [tasks[0]] + tasks[1..];
    }
    assert |multiset(SortedTasks(tasks))| == |SortedTasks(tasks)|;
  }

  /** The displayed sequence is in display order. */
  lemma {:induction false} SortedTasksOrdered(tasks: seq<Task>)
    ensures DisplayOrdered(SortedTasks(tasks))
  {
    if tasks != [] {
      SortedTasksOrdered(tasks[1..]);
      InsertOrdered(tasks[0], SortedTasks(tasks[1..]));
    }
  }

  /** Tasks that tie on both keys keep their input order (the sort is stable). */
  lemma {:induction false} SortedTasksStable(tasks: seq<Task>, k: SortKey)
    ensures WithKey(SortedTasks(tasks), k) == WithKey(tasks, k)
  {
    if tasks != [] {
      SortedTasksStable(tasks[1..], k);
      InsertKeepsKeyOrder(tasks[0], SortedTasks(tasks[1..]), k);
    }
  }
}
