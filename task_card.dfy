/**
 * The record-level logic of one task card (src/components/TaskCard.tsx): the
 * completion toggle it passes to `updateTask`, and the amount it hands to the
 * payment button.
 */
module TaskCard {
  import opened TaskModel
  import TaskStore

  /** `toggleComplete`: the same task with `completed` negated. */
  function ToggleComplete(task: Task): (toggled: Task)
    ensures toggled.completed == !task.completed
    ensures toggled.(completed := task.completed) == task
  {
    task.(completed := !task.completed)
  }

  /** Toggling twice gives back the original task. */
  lemma ToggleTwiceIsIdentity(task: Task)
    ensures ToggleComplete(ToggleComplete(task)) == task
  {
  }

  /**
   * Toggling a card of a list with unique ids, through `updateTask`, flips exactly
   * that task's `completed` and leaves every other task and every order as it was.
   */
  lemma ToggleThroughUpdate(tasks: seq<Task>, k: nat)
    requires TaskModel.UniqueIds(tasks) && k < |tasks|
    ensures var next := TaskStore.UpdateTask(tasks, ToggleComplete(tasks[k]));
            && |next| == |tasks|
            && next[k].completed == !tasks[k].completed
            && next[k].(completed := tasks[k].completed) == tasks[k]
            && forall i :: 0 <= i < |tasks| && i != k ==> next[i] == tasks[i]
  {
    TaskStore.UpdateUniqueIsSlotWrite(tasks, k, ToggleComplete(tasks[k]));
  }

  /**
   * `task.paymentAmount || 0`: the amount when it is present and nonzero, otherwise 0
   * (JavaScript's `||` treats an absent value and 0 alike).
   */
  function PaymentAmount(task: Task): (amount: int)
    ensures task.paymentAmount.None? || task.paymentAmount.value == 0 ==> amount == 0
    ensures task.paymentAmount.Some? && task.paymentAmount.value != 0 ==> amount == task.paymentAmount.value
    ensures amount > 0 <==> task.paymentAmount.Some? && task.paymentAmount.value > 0
  {
    match task.paymentAmount
    case None => 0
    case Some(a) => if a != 0 then a else 0
  }
}
