/**
 * The display order of the task list (src/components/TaskList.tsx): a copy of the
 * tasks sorted by `order` with ECMAScript's stable `Array.prototype.sort`. The
 * sort is modelled as a stable insertion sort; the lemmas below show it is the
 * only stable sort by `order`, so any stable algorithm gives the same list.
 */
module TaskList {
  import opened TaskModel
  import TaskStore

  /** Put `t` in front of the first element whose order is at least `t.order`. */
  function InsertByOrder(t: Task, sorted: seq<Task>): (r: seq<Task>)
    ensures multiset(r) == multiset(sorted) + multiset{t}
    ensures OrdersNondecreasing(sorted) ==> OrdersNondecreasing(r)
    decreases |sorted|
  {
    if sorted == [] || t.order <= sorted[0].order then
      var r := [t] + sorted;
      assert OrdersNondecreasing(sorted) ==> OrdersNondecreasing(r) by {
        if OrdersNondecreasing(sorted) {
          PrependKeepsOrdersNondecreasing(t, sorted);
        }
      }
      r
    else
      var rest := InsertByOrder(t, sorted[1..]);
      assert sorted == [sorted[0]] + sorted[1..];
      assert OrdersNondecreasing(sorted) ==> OrdersNondecreasing([sorted[0]] + rest) by {
        if OrdersNondecreasing(sorted) {
          InsertAfterHead(t, sorted, rest);
        }
      }
      [sorted[0]] + rest
  }

  /** The head of a nondecreasing list may precede the insertion of a later task into its tail. */
  lemma InsertAfterHead(t: Task, sorted: seq<Task>, rest: seq<Task>)
    requires OrdersNondecreasing(sorted) && sorted != [] && sorted[0].order < t.order
    requires multiset(rest) == multiset(sorted[1..]) + multiset{t}
    requires OrdersNondecreasing(sorted[1..]) ==> OrdersNondecreasing(rest)
    ensures OrdersNondecreasing([sorted[0]] + rest)
  {
    var tail := sorted[1..];
    TailKeepsOrdersNondecreasing(sorted);
    forall j | 0 <= j < |rest| ensures sorted[0].order <= rest[j].order {
      assert rest[j] in multiset(rest);
      if rest[j] != t {
        assert rest[j] in multiset(tail);
        var k :| 0 <= k < |tail| && tail[k] == rest[j];
        assert tail[k] == sorted[k + 1];
      }
    }
    PrependKeepsOrdersNondecreasing(sorted[0], rest);
  }

  /** `[...tasks].sort((a, b) => a.order - b.order)`. */
  function SortByOrder(tasks: seq<Task>): (sorted: seq<Task>)
    ensures |sorted| == |tasks|
    ensures multiset(sorted) == multiset(tasks)
    ensures OrdersNondecreasing(sorted)
    decreases |tasks|
  {
    if tasks == [] then []
    else
      assert tasks == [tasks[0]] + tasks[1..];
      var sorted := InsertByOrder(tasks[0], SortByOrder(tasks[1..]));
      assert |sorted| == |multiset(sorted)|;
      sorted
  }

  /** The tasks of `s` whose order is `k`, in their order in `s`. */
  function WithOrder(s: seq<Task>, k: int): (r: seq<Task>)
    ensures forall i :: 0 <= i < |r| ==> r[i].order == k
    decreases |s|
  {
    if s == [] then []
    else if s[0].order == k then [s[0]] + WithOrder(s[1..], k)
    else WithOrder(s[1..], k)
  }

  /** Inserting `t` passes only tasks of strictly smaller order, so it overtakes no equal one. */
  lemma {:induction false} InsertKeepsEqualOrders(t: Task, sorted: seq<Task>, k: int)
    ensures WithOrder(InsertByOrder(t, sorted), k) == WithOrder([t] + sorted, k)
    decreases |sorted|
  {
    if sorted != [] && t.order > sorted[0].order {
      var rest := sorted[1..];
      InsertKeepsEqualOrders(t, rest, k);
      var r := [sorted[0]] + InsertByOrder(t, rest);
      assert r[1..] == InsertByOrder(t, rest);
      assert ([t] + sorted)[1..] == sorted;
      assert ([t] + rest)[1..] == rest;
      assert sorted[1..] == rest;
    }
  }

  /** The sort is stable: for every order value, tasks carrying it keep their input order. */
  lemma {:induction false} SortIsStable(tasks: seq<Task>, k: int)
    ensures WithOrder(SortByOrder(tasks), k) == WithOrder(tasks, k)
    decreases |tasks|
  {
    if tasks != [] {
      SortIsStable(tasks[1..], k);
      InsertKeepsEqualOrders(tasks[0], SortByOrder(tasks[1..]), k);
      assert ([tasks[0]] + SortByOrder(tasks[1..]))[1..] == SortByOrder(tasks[1..]);
    }
  }

  /** A list already nondecreasing by order is returned as it is. */
  lemma {:induction false} SortOfNondecreasingIsIdentity(tasks: seq<Task>)
    requires OrdersNondecreasing(tasks)
    ensures SortByOrder(tasks) == tasks
    decreases |tasks|
  {
    if tasks != [] {
      var tail := tasks[1..];
      TailKeepsOrdersNondecreasing(tasks);
      SortOfNondecreasingIsIdentity(tail);
      assert tail == [] || tasks[0].order <= tail[0].order;
      assert tasks == [tasks[0]] + tail;
    }
  }

  /** When every order equals its index, the displayed list is the stored list. */
  lemma SortOfIndexedIsIdentity(tasks: seq<Task>)
    requires OrdersAreIndices(tasks)
    ensures SortByOrder(tasks) == tasks
  {
    SortOfNondecreasingIsIdentity(tasks);
  }

  /** A task of order `k` in `s` makes `WithOrder(s, k)` nonempty. */
  lemma {:induction false} WithOrderNonEmpty(s: seq<Task>, i: nat)
    requires i < |s|
    ensures WithOrder(s, s[i].order) != []
    decreases i
  {
    if i > 0 && s[0].order != s[i].order {
      WithOrderNonEmpty(s[1..], i - 1);
    }
  }

  /** A nonempty list shows up in the subsequence for its head's order. */
  lemma HeadShowsInWithOrder(s: seq<Task>)
    ensures s != [] ==> WithOrder(s, s[0].order) != []
  {
    if s != [] {
      WithOrderNonEmpty(s, 0);
    }
  }

  /** A nonempty `WithOrder(s, k)` comes from some index of `s` that holds order `k`. */
  lemma {:induction false} WithOrderHasSource(s: seq<Task>, k: int)
    requires WithOrder(s, k) != []
    ensures exists i :: 0 <= i < |s| && s[i].order == k
    decreases |s|
  {
    if s[0].order != k {
      WithOrderHasSource(s[1..], k);
      var i :| 0 <= i < |s[1..]| && s[1..][i].order == k;
      assert s[i + 1].order == k;
    }
  }

  /** In a nondecreasing list, every order that occurs is at least the head's. */
  lemma HeadIsLeast(s: seq<Task>, k: int)
    requires OrdersNondecreasing(s) && WithOrder(s, k) != []
    ensures s[0].order <= k
  {
    WithOrderHasSource(s, k);
    var i :| 0 <= i < |s| && s[i].order == k;
    assert i == 0 || s[0].order <= s[i].order;
  }

  /**
   * Uniqueness: a list that is nondecreasing by order and agrees with `tasks` on every
   * per-order subsequence is exactly `SortByOrder(tasks)`.
   */
  lemma StableSortIsUnique(tasks: seq<Task>, r: seq<Task>)
    requires OrdersNondecreasing(r)
    requires forall k :: WithOrder(r, k) == WithOrder(tasks, k)
    ensures r == SortByOrder(tasks)
  {
    forall k ensures WithOrder(r, k) == WithOrder(SortByOrder(tasks), k) {
      SortIsStable(tasks, k);
    }
    SortedAgreeingAreEqual(r, SortByOrder(tasks));
  }

  /** Two nondecreasing lists with the same per-order subsequences are equal. */
  lemma {:induction false} SortedAgreeingAreEqual(a: seq<Task>, b: seq<Task>)
    requires OrdersNondecreasing(a) && OrdersNondecreasing(b)
    requires forall k :: WithOrder(a, k) == WithOrder(b, k)
    ensures a == b
    decreases |a|
  {
    HeadShowsInWithOrder(a);
    HeadShowsInWithOrder(b);
    if a != [] && b != [] {
      HeadIsLeast(a, b[0].order);
      HeadIsLeast(b, a[0].order);
      var k0 := a[0].order;
      assert b[0].order == k0;
      assert a[0] == WithOrder(a, k0)[0] == WithOrder(b, k0)[0] == b[0];
      var ta, tb := a[1..], b[1..];
      TailKeepsOrdersNondecreasing(a);
      TailKeepsOrdersNondecreasing(b);
      forall k ensures WithOrder(ta, k) == WithOrder(tb, k) {
        assert WithOrder(a, k) == WithOrder(b, k);
        if k == k0 {
          assert WithOrder(ta, k) == WithOrder(a, k)[1..];
          assert WithOrder(tb, k) == WithOrder(b, k)[1..];
        }
      }
      SortedAgreeingAreEqual(ta, tb);
      assert a == [a[0]] + ta && b == [b[0]] + tb;
    }
  }

  /**
   * Because `deleteTask` does not renumber, a task added after two deletes can be
   * listed above a task that was created before it.
   */
  lemma NewTaskCanBeListedFirst(a: Task, b: Task, c: Task, draft: Task)
    requires a.id != b.id && a.id != c.id && b.id != c.id && c.order > 1
    ensures var next := TaskStore.AddTask(TaskStore.DeleteTask(TaskStore.DeleteTask([a, b, c], a.id), b.id), draft);
            next[|next| - 1] == draft.(order := 1)
            && SortByOrder(next) == [draft.(order := 1), c]
  {
    TaskStore.DeletesThenAddCanInvertOrders(a, b, c, draft);
    SortOfInvertedPair(c, draft.(order := 1));
  }

  /** Two tasks in decreasing order are listed the other way round. */
  lemma SortOfInvertedPair(x: Task, y: Task)
    requires y.order < x.order
    ensures SortByOrder([x, y]) == [y, x]
  {
    assert [x, y][1..] == [y] && [y][1..] == [];
    assert SortByOrder([y]) == [y];
  }

  /** With the renumbering delete, a task added after a delete is always listed last. */
  lemma NewTaskIsListedLast(prev: seq<Task>, taskId: string, draft: Task)
    ensures var next := TaskStore.AddTask(TaskStore.DeleteTaskRenumbered(prev, taskId), draft);
            SortByOrder(next) == next && next[|next| - 1] == draft.(order := |next| - 1)
  {
    var kept := TaskStore.DeleteTaskRenumbered(prev, taskId);
    TaskStore.AddKeepsOrdersAtIndices(kept, draft);
    SortOfIndexedIsIdentity(TaskStore.AddTask(kept, draft));
  }
}
