/**
 * The task-list updaters of the home page (src/app/page.tsx). Each handler hands
 * React a function from the previous task array to the next one; here each such
 * updater is a function on `seq<Task>`.
 */
module TaskStore {
  import opened TaskModel

  // ---------------------------------------------------------------- addTask

  /** `addTask`: append the task, giving it the previous length as its `order`. */
  function AddTask(prev: seq<Task>, task: Task): (next: seq<Task>)
    ensures |next| == |prev| + 1
    ensures next[..|prev|] == prev
    ensures next[|prev|] == task.(order := |prev|)
  {
    prev + [task.(order := |prev|)]
  }

  /** Adding never breaks "every order equals its index". */
  lemma AddKeepsOrdersAtIndices(prev: seq<Task>, task: Task)
    requires OrdersAreIndices(prev)
    ensures OrdersAreIndices(AddTask(prev, task))
  {
    var next := AddTask(prev, task);
    forall i | 0 <= i < |next| ensures next[i].order == i {
      if i < |prev| {
        assert next[i] == next[..|prev|][i];
      }
    }
  }

  /** The list obtained by adding `drafts` one after another, starting from the empty list. */
  function AddAll(drafts: seq<Task>): (tasks: seq<Task>)
    decreases |drafts|
  {
    if drafts == [] then [] else AddTask(AddAll(drafts[..|drafts| - 1]), drafts[|drafts| - 1])
  }

  /** Adds from empty keep insertion order and number the tasks 0..n-1. */
  lemma {:induction false} AddAllFromEmpty(drafts: seq<Task>)
    ensures |AddAll(drafts)| == |drafts|
    ensures forall i :: 0 <= i < |drafts| ==> AddAll(drafts)[i] == drafts[i].(order := i)
    decreases |drafts|
  {
    if drafts != [] {
      var init := drafts[..|drafts| - 1];
      AddAllFromEmpty(init);
      var next := AddAll(drafts);
      assert next == AddTask(AddAll(init), drafts[|drafts| - 1]);
      forall i | 0 <= i < |drafts| ensures next[i] == drafts[i].(order := i) {
        if i < |init| {
          assert next[i] == next[..|init|][i];
          assert drafts[i] == init[i];
        }
      }
    }
  }

  // ------------------------------------------------------------- updateTask

  /** `updateTask`: every entry whose id matches is replaced by `updated`. */
  function UpdateTask(prev: seq<Task>, updated: Task): (next: seq<Task>)
    ensures |next| == |prev|
    ensures forall i :: 0 <= i < |prev| && prev[i].id == updated.id ==> next[i] == updated
    ensures forall i :: 0 <= i < |prev| && prev[i].id != updated.id ==> next[i] == prev[i]
    decreases |prev|
  {
    if prev == [] then []
    else [if prev[0].id == updated.id then updated else prev[0]] + UpdateTask(prev[1..], updated)
  }

  /** An update for an id that is not in the list leaves the list identical. */
  lemma UpdateUnknownIdIsIdentity(prev: seq<Task>, updated: Task)
    requires !HasId(prev, updated.id)
    ensures UpdateTask(prev, updated) == prev
  {
    var next := UpdateTask(prev, updated);
    assert forall i :: 0 <= i < |prev| ==> next[i] == prev[i];
  }

  /** With unique ids, updating the task at index `k` is a single-slot replacement. */
  lemma UpdateUniqueIsSlotWrite(prev: seq<Task>, k: nat, updated: Task)
    requires UniqueIds(prev) && k < |prev| && prev[k].id == updated.id
    ensures UpdateTask(prev, updated) == prev[k := updated]
  {
    var next := UpdateTask(prev, updated);
    forall i | 0 <= i < |prev| ensures next[i] == prev[k := updated][i] {
      if i != k {
        assert prev[i].id != prev[k].id by {
          if i < k { assert prev[i].id != prev[k].id; } else { assert prev[k].id != prev[i].id; }
        }
      }
    }
  }

  // ------------------------------------------------------------- deleteTask

  /** `deleteTask`: keep exactly the entries whose id differs; orders are not touched. */
  function DeleteTask(prev: seq<Task>, taskId: string): (next: seq<Task>)
    ensures |next| <= |prev|
    ensures forall t :: multiset(next)[t] == if t.id == taskId then 0 else multiset(prev)[t]
    ensures forall i :: 0 <= i < |next| ==> next[i].id != taskId && next[i] in prev
    decreases |prev|
  {
    if prev == [] then []
    else
      assert prev == [prev[0]] + prev[1..];
      if prev[0].id == taskId then DeleteTask(prev[1..], taskId)
      else [prev[0]] + DeleteTask(prev[1..], taskId)
  }

  /** Deleting distributes over concatenation: survivors keep their relative order. */
  lemma {:induction false} DeleteConcat(a: seq<Task>, b: seq<Task>, taskId: string)
    ensures DeleteTask(a + b, taskId) == DeleteTask(a, taskId) + DeleteTask(b, taskId)
    decreases |a|
  {
    if a == [] {
      assert a + b == b;
    } else {
      assert (a + b)[0] == a[0];
      assert (a + b)[1..] == a[1..] + b;
      DeleteConcat(a[1..], b, taskId);
    }
  }

  /** An id that is absent deletes nothing. */
  lemma {:induction false} DeleteUnknownIdIsIdentity(prev: seq<Task>, taskId: string)
    requires !HasId(prev, taskId)
    ensures DeleteTask(prev, taskId) == prev
    decreases |prev|
  {
    if prev != [] {
      assert prev[0].id != taskId;
      DeleteUnknownIdIsIdentity(prev[1..], taskId);
    }
  }

  /** Deleting keeps "orders nondecreasing along the array". */
  lemma {:induction false} DeleteKeepsOrdersNondecreasing(prev: seq<Task>, taskId: string)
    requires OrdersNondecreasing(prev)
    ensures OrdersNondecreasing(DeleteTask(prev, taskId))
    decreases |prev|
  {
    if prev != [] {
      var tail := prev[1..];
      TailKeepsOrdersNondecreasing(prev);
      DeleteKeepsOrdersNondecreasing(tail, taskId);
      if prev[0].id != taskId {
        forall i | 0 <= i < |tail| ensures prev[0].order <= tail[i].order {
          assert tail[i] == prev[i + 1];
        }
        DeleteKeepsLowerBound(tail, taskId, prev[0].order);
        PrependKeepsOrdersNondecreasing(prev[0], DeleteTask(tail, taskId));
      }
    }
  }

  /** Every survivor of a delete is an original entry, so a lower bound on orders survives. */
  lemma DeleteKeepsLowerBound(prev: seq<Task>, taskId: string, lo: int)
    requires forall i :: 0 <= i < |prev| ==> lo <= prev[i].order
    ensures forall j :: 0 <= j < |DeleteTask(prev, taskId)| ==> lo <= DeleteTask(prev, taskId)[j].order
  {
    var next := DeleteTask(prev, taskId);
    forall j | 0 <= j < |next| ensures lo <= next[j].order {
      assert next[j] in prev;
    }
  }

  /** The first task of a two-element list numbered 0, 1. */
  const First: Task := Task("a", "A", "", DueDate(""), Low, false, None, None, 0)

  /** The second task of a two-element list numbered 0, 1. */
  const Second: Task := Task("b", "B", "", DueDate(""), High, false, None, None, 1)

  /** Deleting does not renumber: it can break "every order equals its index". */
  lemma DeleteCanBreakOrdersAtIndices()
    ensures OrdersAreIndices([First, Second])
    ensures DeleteTask([First, Second], "a") == [Second]
    ensures !OrdersAreIndices(DeleteTask([First, Second], "a"))
  {
    assert [First, Second][1..] == [Second];
    assert [Second][1..] == [];
  }

  /** Because `addTask` numbers by length, a delete followed by an add can duplicate an order. */
  lemma DeleteThenAddCanDuplicateOrders(draft: Task)
    ensures AddTask(DeleteTask([First, Second], "a"), draft)[0].order == 1
    ensures AddTask(DeleteTask([First, Second], "a"), draft)[1].order == 1
  {
    assert [First, Second][1..] == [Second];
    assert [Second][1..] == [];
  }

  /**
   * Deleting the first two of three tasks and then adding one: the added task gets
   * the new length, 1, as its order, which is below the order of the task left in
   * front of it whenever that task's order was above 1 (as in a list numbered 0, 1, 2).
   */
  lemma DeletesThenAddCanInvertOrders(a: Task, b: Task, c: Task, draft: Task)
    requires a.id != b.id && a.id != c.id && b.id != c.id && c.order > 1
    ensures var next := AddTask(DeleteTask(DeleteTask([a, b, c], a.id), b.id), draft);
            next == [c, draft.(order := 1)] && !OrdersNondecreasing(next)
  {
    DeleteFirstOfThree(a, b, c);
    DeleteFirstOfTwo(b, c);
    var next := AddTask([c], draft);
    assert next[0].order > next[1].order;
  }

  lemma DeleteFirstOfThree(a: Task, b: Task, c: Task)
    requires a.id != b.id && a.id != c.id
    ensures DeleteTask([a, b, c], a.id) == [b, c]
  {
    DeleteKeepsLast(c, a.id);
    DeleteKeepsHead(b, [c], a.id, [c]);
    DeleteDropsHead(a, [b, c], a.id, [b, c]);
  }

  lemma DeleteFirstOfTwo(b: Task, c: Task)
    requires b.id != c.id
    ensures DeleteTask([b, c], b.id) == [c]
  {
    DeleteKeepsLast(c, b.id);
    DeleteDropsHead(b, [c], b.id, [c]);
  }

  lemma DeleteKeepsLast(t: Task, taskId: string)
    requires t.id != taskId
    ensures DeleteTask([t], taskId) == [t]
  {
    assert [t][1..] == [];
  }

  lemma DeleteKeepsHead(t: Task, rest: seq<Task>, taskId: string, r: seq<Task>)
    requires t.id != taskId && DeleteTask(rest, taskId) == r
    ensures DeleteTask([t] + rest, taskId) == [t] + r
  {
    assert ([t] + rest)[1..] == rest;
  }

  lemma DeleteDropsHead(t: Task, rest: seq<Task>, taskId: string, r: seq<Task>)
    requires t.id == taskId && DeleteTask(rest, taskId) == r
    ensures DeleteTask([t] + rest, taskId) == r
  {
    assert ([t] + rest)[1..] == rest;
  }

  /**
   * A delete that renumbers the survivors, as "orders equal indices" requires: the
   * tasks `deleteTask` keeps, in the same relative order, numbered 0..n-1.
   */
  function DeleteTaskRenumbered(prev: seq<Task>, taskId: string): (next: seq<Task>)
    ensures OrdersAreIndices(next)
    ensures Unordered(next) == Unordered(DeleteTask(prev, taskId))
  {
    Reindex(DeleteTask(prev, taskId))
  }

  // ---------------------------------------------------------- handleDragEnd

  /** `Array.prototype.findIndex` by id: the first matching index, or -1. */
  function FindIndex(items: seq<Task>, id: string): (k: int)
    ensures -1 <= k < |items|
    ensures k == -1 <==> !HasId(items, id)
    ensures k >= 0 ==> items[k].id == id && forall i :: 0 <= i < k ==> items[i].id != id
    decreases |items|
  {
    if items == [] then -1
    else if items[0].id == id then 0
    else
      var k := FindIndex(items[1..], id);
      assert HasId(items[1..], id) ==> HasId(items, id) by {
        if HasId(items[1..], id) {
          var i :| 0 <= i < |items[1..]| && items[1..][i].id == id;
          assert items[i + 1].id == id;
        }
      }
      assert HasId(items, id) ==> HasId(items[1..], id) by {
        if HasId(items, id) {
          var i :| 0 <= i < |items| && items[i].id == id;
          assert items[1..][i - 1].id == id;
        }
      }
      if k == -1 then -1 else k + 1
  }

  /**
   * `next` is `prev` with the element at `from` taken out and put back at `to`: the
   * same elements, the moved one at `to`, and the others in their relative order.
   */
  ghost predicate MovedOne<T>(next: seq<T>, prev: seq<T>, from: nat, to: nat) {
    && from < |prev| && to < |prev| && |next| == |prev|
    && multiset(next) == multiset(prev)
    && next[to] == prev[from]
    && next[..to] + next[to + 1..] == prev[..from] + prev[from + 1..]
  }

  /**
   * dnd-kit's `arrayMove`, taken as: copy the array, remove the element at `from`,
   * insert it at `to`.
   */
  function ArrayMove<T>(s: seq<T>, from: nat, to: nat): (r: seq<T>)
    requires from < |s| && to < |s|
    ensures MovedOne(r, s, from, to)
  {
    var rest := s[..from] + s[from + 1..];
    assert s == s[..from] + [s[from]] + s[from + 1..];
    assert rest == rest[..to] + rest[to..];
    var r := rest[..to] + [s[from]] + rest[to..];
    assert r[..to] == rest[..to] && r[to + 1..] == rest[to..];
    assert multiset(r) == multiset(rest[..to]) + multiset{s[from]} + multiset(rest[to..]);
    assert multiset(rest) == multiset(rest[..to]) + multiset(rest[to..]);
    assert multiset(rest) == multiset(s[..from]) + multiset(s[from + 1..]);
    assert multiset(s) == multiset(s[..from]) + multiset{s[from]} + multiset(s[from + 1..]);
    assert multiset(r) == multiset(rest) + multiset{s[from]};
    r
  }

  /** Where each element of `ArrayMove(s, from, to)` comes from, index by index. */
  lemma ArrayMoveAt<T>(s: seq<T>, from: nat, to: nat, i: nat)
    requires from < |s| && to < |s| && i < |s|
    ensures ArrayMove(s, from, to)[i] ==
      if i == to then s[from]
      else if from <= i < to then s[i + 1]
      else if to < i <= from then s[i - 1]
      else s[i]
  {
    var r := ArrayMove(s, from, to);
    var rest := s[..from] + s[from + 1..];
    assert r[..to] + r[to + 1..] == rest;
    if i < to {
      assert r[i] == rest[i];
    } else if i > to {
      assert r[i] == (r[..to] + r[to + 1..])[i - 1];
    }
  }

  /** Forgetting orders commutes with moving an element. */
  lemma UnorderedArrayMove(s: seq<Task>, from: nat, to: nat)
    requires from < |s| && to < |s|
    ensures Unordered(ArrayMove(s, from, to)) == ArrayMove(Unordered(s), from, to)
  {
    var l := Unordered(ArrayMove(s, from, to));
    var r := ArrayMove(Unordered(s), from, to);
    forall i | 0 <= i < |s| ensures l[i] == r[i] {
      ArrayMoveAt(s, from, to, i);
      ArrayMoveAt(Unordered(s), from, to, i);
    }
  }

  /** Rewrite every `order` to the array index; all other fields stay. */
  function Reindex(s: seq<Task>): (r: seq<Task>)
    ensures |r| == |s| && OrdersAreIndices(r)
    ensures Unordered(r) == Unordered(s)
  {
    var r := seq(|s|, i requires 0 <= i < |s| => s[i].(order := i));
    assert forall i :: 0 <= i < |s| ==> Unordered(r)[i] == Unordered(s)[i];
    r
  }

  /** What dnd-kit reports when a drag ends: the dragged id and the id under it, if any. */
  datatype DragEndEvent = DragEndEvent(active: string, over: Option<string>)

  /** The event asks for a real move (there is a target and it is another task). */
  predicate IsMove(ev: DragEndEvent) {
    ev.over.Some? && ev.active != ev.over.value
  }

  /** dnd-kit only reports ids that the sortable context registered from `items`. */
  predicate DragIdsRegistered(items: seq<Task>, ev: DragEndEvent) {
    IsMove(ev) ==> HasId(items, ev.active) && HasId(items, ev.over.value)
  }

  /** `handleDragEnd`: move the dragged task to the target's index, then renumber. */
  function HandleDragEnd(items: seq<Task>, ev: DragEndEvent): (next: seq<Task>)
    requires DragIdsRegistered(items, ev)
    ensures !IsMove(ev) ==> next == items
    ensures |next| == |items|
    ensures IsMove(ev) ==> OrdersAreIndices(next)
  {
    if ev.over.None? then items
    else if ev.active == ev.over.value then items
    else
      var oldIndex := FindIndex(items, ev.active);
      var newIndex := FindIndex(items, ev.over.value);
      Reindex(ArrayMove(items, oldIndex, newIndex))
  }

  /** A real drag finds both ids, then renumbers the moved array. */
  lemma DragEndIsMoveThenReindex(items: seq<Task>, ev: DragEndEvent)
    requires DragIdsRegistered(items, ev) && IsMove(ev)
    ensures var oldIndex := FindIndex(items, ev.active);
            var newIndex := FindIndex(items, ev.over.value);
            && 0 <= oldIndex < |items| && 0 <= newIndex < |items|
            && HandleDragEnd(items, ev) == Reindex(ArrayMove(items, oldIndex, newIndex))
  {
    var oldIndex := FindIndex(items, ev.active);
    var newIndex := FindIndex(items, ev.over.value);
    assert oldIndex != -1 && newIndex != -1;
  }

  /**
   * A real drag is a permutation of the tasks up to their orders: the dragged task
   * lands at the target's old index and every other task keeps its relative order.
   */
  lemma DragEndMoves(items: seq<Task>, ev: DragEndEvent)
    requires DragIdsRegistered(items, ev) && IsMove(ev)
    ensures MovedOne(Unordered(HandleDragEnd(items, ev)), Unordered(items),
                     FindIndex(items, ev.active), FindIndex(items, ev.over.value))
  {
    var oldIndex := FindIndex(items, ev.active);
    var newIndex := FindIndex(items, ev.over.value);
    DragEndIsMoveThenReindex(items, ev);
    UnorderedArrayMove(items, oldIndex, newIndex);
  }

  /**
   * The drag's final list, element by element: each task's fields other than
   * `order` come from the source index `ArrayMoveAt` names, and its order is its index.
   */
  lemma DragEndAt(items: seq<Task>, ev: DragEndEvent, i: nat)
    requires DragIdsRegistered(items, ev) && IsMove(ev) && i < |items|
    ensures var oldIndex := FindIndex(items, ev.active);
            var newIndex := FindIndex(items, ev.over.value);
            && 0 <= oldIndex < |items| && 0 <= newIndex < |items|
            && HandleDragEnd(items, ev)[i] ==
                 (if i == newIndex then items[oldIndex]
                  else if oldIndex <= i < newIndex then items[i + 1]
                  else if newIndex < i <= oldIndex then items[i - 1]
                  else items[i]).(order := i)
  {
    DragEndIsMoveThenReindex(items, ev);
    ArrayMoveAt(items, FindIndex(items, ev.active), FindIndex(items, ev.over.value), i);
  }
}
