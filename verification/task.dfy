/** A personal task: construction checks, completion and the overdue test. */
module Tasks {

  import opened Wrappers
  import opened Dates

  const FirstId: int := 1

  /** Priority runs from 1 (high) to 5 (low). */
  datatype Task = Task(id: int, description: string, priority: int, dueDate: Date, completed: bool)

  datatype TaskError = InvalidPriority | DateParse | AlreadyCompleted | NotFound

  predicate IsValidPriority(priority: int) { 1 <= priority <= 5 }

  /** The constructor. `parsedDue` is what `LocalDate.parse` yields for the
      entered text, None when it throws. The priority is checked first, so a
      bad priority is reported even when the date is bad too; the id is
      taken only when both checks pass. A new task is pending. */
  function NewTask(nextId: int, description: string, priority: int, parsedDue: Option<Date>)
    : (r: Result<Task, TaskError>)
    ensures !IsValidPriority(priority) ==> r == Failure(InvalidPriority)
    ensures IsValidPriority(priority) && parsedDue.None? ==> r == Failure(DateParse)
    ensures r.Success? <==> IsValidPriority(priority) && parsedDue.Some?
    ensures r.Success? ==> r.value == Task(nextId, description, priority, parsedDue.value, false)
  {
    if !IsValidPriority(priority) then Failure(InvalidPriority)
    else match parsedDue
      case None => Failure(DateParse)
      case Some(d) => Success(Task(nextId, description, priority, d, false))
  }

  /** `markComplete`: a pending task becomes completed; a completed one is
      refused (and stays completed). Only the flag changes. */
  function MarkComplete(t: Task): (r: Result<Task, TaskError>)
    ensures r.Failure? <==> t.completed
    ensures r.Failure? ==> r.error == AlreadyCompleted
    ensures r.Success? ==> r.value.completed && r.value.(completed := t.completed) == t
  {
    if t.completed then Failure(AlreadyCompleted) else Success(t.(completed := true))
  }

  /** `isOverdue`, with the current date handed in. */
  predicate IsOverdue(t: Task, today: Date): (b: bool)
    ensures b ==> !t.completed && t.dueDate != today
  {
    !t.completed && Before(t.dueDate, today)
  }

  predicate IsCompleted(t: Task) { t.completed }

  /** A task overdue on one day is still overdue on every later day until
      it is completed. */
  lemma OverdueStaysOverdue(t: Task, today: Date, later: Date)
    requires IsOverdue(t, today) && Before(today, later)
    ensures IsOverdue(t, later)
  {
    BeforeIsStrictOrder(t.dueDate, today, later);
  }

  /** Completing a task clears its overdue state whatever the date, and a
      second completion is refused. */
  lemma CompleteClearsOverdue(t: Task, today: Date)
    requires MarkComplete(t).Success?
    ensures !IsOverdue(MarkComplete(t).value, today)
    ensures MarkComplete(MarkComplete(t).value) == Failure(AlreadyCompleted)
  {
  }
}
