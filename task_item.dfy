/**
 * The rules one task row applies: whether the task is past due and
 * incomplete, and what that locks. `now` is the clock reading at render time.
 */
module TaskItem {
  import opened Wrappers
  import opened TaskTypes
  import App

  /** `isPastDueAndIncomplete`. */
  predicate IsPastDueAndIncomplete(t: Task, now: int) {
    t.dueDate.Some? && !t.completed && t.dueDate.value < now
  }

  /** The row's rule and the application's overdue bucket rule agree at the same clock reading. */
  lemma LockedIffOverdue(t: Task, now: int)
    ensures IsPastDueAndIncomplete(t, now) <==> App.IsOverdue(t, now)
  {
  }

  /** A completed task is never locked, whatever its due date. */
  lemma CompletedNeverLocked(t: Task, now: int)
    requires t.completed
    ensures !IsPastDueAndIncomplete(t, now)
  {
  }

  /**
   * The row's `onClick`: the id to toggle, or nothing when the task is
   * locked. A locked task therefore cannot be completed from its row.
   */
  function ToggleClick(t: Task, now: int): (r: Option<string>)
    ensures r == None <==> IsPastDueAndIncomplete(t, now)
    ensures r.Some? ==> r.value == t.id
  {
    if IsPastDueAndIncomplete(t, now) then None else Some(t.id)
  }

  /**
   * The delete button's `disabled`: a locked task can be deleted only by an
   * admin; an admin can always delete.
   */
  function DeleteDisabled(t: Task, now: int, isAdmin: bool): (disabled: bool)
    ensures isAdmin ==> !disabled
    ensures !IsPastDueAndIncomplete(t, now) ==> !disabled
    ensures IsPastDueAndIncomplete(t, now) && !isAdmin ==> disabled
  {
    IsPastDueAndIncomplete(t, now) && !isAdmin
  }

  /** The three text colours of a row. */
  datatype TextStyle = CompletedText | PastDueText | NormalText

  /** `taskTextColor`: completed wins over past due, which wins over normal. */
  function TextColor(t: Task, now: int): (style: TextStyle)
    ensures style == CompletedText <==> t.completed
    ensures style == PastDueText <==> IsPastDueAndIncomplete(t, now)
    ensures style == NormalText <==> !t.completed && !IsPastDueAndIncomplete(t, now)
  {
    if t.completed then CompletedText
    else if IsPastDueAndIncomplete(t, now) then PastDueText
    else NormalText
  }
}
