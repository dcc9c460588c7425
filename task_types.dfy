/**
 * The task record shared by the application root and the task item view.
 * Timestamps (`createdAt`, the due date) are integer epoch milliseconds; the
 * due date is already parsed, and an absent one is `None`.
 */
module TaskTypes {
  import opened Wrappers

  datatype Priority = High | Medium | Low

  datatype Task = Task(
    id: string,
    text: string,
    completed: bool,
    createdAt: int,
    priority: Priority,
    dueDate: Option<int>)
}
