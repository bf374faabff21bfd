/** The task record shared by every component of the to-do app (src/lib/types.ts). */
module TaskModel {

  datatype Option<T> = None | Some(value: T)

  /** The closed set of priorities a task may carry. */
  datatype Priority = Low | Medium | High

  /** A due date. The modelled code carries it through unchanged and never inspects it. */
  datatype DueDate = DueDate(stamp: string)

  /** One to-do item. `order` is the position the list view sorts by. */
  datatype Task = Task(
    id: string,
    title: string,
    description: string,
    dueDate: DueDate,
    priority: Priority,
    completed: bool,
    videoUrl: Option<string>,
    paymentAmount: Option<int>,
    order: int)

  /** Every task's `order` equals its index in the array. */
  predicate OrdersAreIndices(s: seq<Task>) {
    forall i :: 0 <= i < |s| ==> s[i].order == i
  }

  /** The `order` fields never decrease along the array. */
  predicate OrdersNondecreasing(s: seq<Task>) {
    forall i, j :: 0 <= i < j < |s| ==> s[i].order <= s[j].order
  }

  /** Some task in `s` carries the identifier `id`. */
  predicate HasId(s: seq<Task>, id: string) {
    exists i :: 0 <= i < |s| && s[i].id == id
  }

  /** No two tasks in `s` share an identifier. */
  predicate UniqueIds(s: seq<Task>) {
    forall i, j :: 0 <= i < j < |s| ==> s[i].id != s[j].id
  }

  /** The tasks with their `order` field forgotten (set to 0): what a reorder must preserve. */
  function Unordered(s: seq<Task>): (u: seq<Task>)
    ensures |u| == |s|
    ensures forall i :: 0 <= i < |s| ==> u[i].order == 0 && u[i].(order := s[i].order) == s[i]
  {
    seq(|s|, i requires 0 <= i < |s| => s[i].(order := 0))
  }

  /** Dropping the head keeps a list nondecreasing. */
  lemma TailKeepsOrdersNondecreasing(s: seq<Task>)
    requires OrdersNondecreasing(s) && s != []
    ensures OrdersNondecreasing(s[1..])
  {
    var tail := s[1..];
    forall i, j | 0 <= i < j < |tail| ensures tail[i].order <= tail[j].order {
      assert tail[i] == s[i + 1] && tail[j] == s[j + 1];
    }
  }

  /** A task no later than every element of a nondecreasing list can go in front of it. */
  lemma PrependKeepsOrdersNondecreasing(t: Task, rest: seq<Task>)
    requires OrdersNondecreasing(rest)
    requires forall j :: 0 <= j < |rest| ==> t.order <= rest[j].order
    ensures OrdersNondecreasing([t] + rest)
  {
    var next := [t] + rest;
    forall i, j | 0 <= i < j < |next| ensures next[i].order <= next[j].order {
      assert next[j] == rest[j - 1];
      if i > 0 {
        assert next[i] == rest[i - 1];
      }
    }
  }
}
