/** The task CLI: the task list, adding, lookup by id, completion by id,
    the overdue listing and the completion rate. */
module TaskManager {

  import opened Wrappers
  import opened Text
  import opened Dates
  import opened Tasks
  import opened Percent
  import Seqs

  /** The task list together with the next value of `Task.NEXT_ID`. */
  datatype TaskList = TaskList(tasks: seq<Task>, nextId: int)

  const Empty: TaskList := TaskList([], FirstId)

  ghost predicate IdsConsecutive(ts: seq<Task>) {
    forall i :: 0 <= i < |ts| ==> ts[i].id == FirstId + i
  }

  /** Every list the CLI can reach: consecutive ids and valid priorities. */
  ghost predicate Valid(tl: TaskList) {
    && tl.nextId == FirstId + |tl.tasks|
    && IdsConsecutive(tl.tasks)
    && (forall i :: 0 <= i < |tl.tasks| ==> IsValidPriority(tl.tasks[i].priority))
  }

  /** `findTask`: the position of the first task with that id. */
  function FindTask(ts: seq<Task>, id: int): (r: Option<nat>)
    ensures r.Some? ==> r.value < |ts| && ts[r.value].id == id
    ensures r.Some? ==> forall j :: 0 <= j < r.value ==> ts[j].id != id
    ensures r.None? <==> forall j :: 0 <= j < |ts| ==> ts[j].id != id
  {
    Seqs.FirstIndex(ts, (t: Task) => t.id == id)
  }

  lemma FindTaskValid(ts: seq<Task>, id: int)
    requires IdsConsecutive(ts)
    ensures FirstId <= id < FirstId + |ts| ==> FindTask(ts, id) == Some(id - FirstId)
    ensures !(FirstId <= id < FirstId + |ts|) ==> FindTask(ts, id).None?
  {
    var r := FindTask(ts, id);
    if FirstId <= id < FirstId + |ts| {
      assert ts[id - FirstId].id == id;
      assert ts[r.value].id == FirstId + r.value;
    }
  }

  /** `addTask`: the trimmed description, the priority and the parse result
      of the trimmed date go to the constructor; one task is appended
      exactly when it succeeds. */
  function AddTask(tl: TaskList, descLine: string, priority: int, parsedDue: Option<Date>)
    : (r: Result<TaskList, TaskError>)
    ensures r.Success? <==> IsValidPriority(priority) && parsedDue.Some?
    ensures r.Failure? ==> r.error == (if IsValidPriority(priority) then DateParse else InvalidPriority)
    ensures r.Success? ==>
              && r.value.tasks == tl.tasks + [Task(tl.nextId, Trim(descLine), priority, parsedDue.value, false)]
              && r.value.nextId == tl.nextId + 1
  {
    match NewTask(tl.nextId, Trim(descLine), priority, parsedDue)
    case Failure(e) => Failure(e)
    case Success(t) => Success(TaskList(tl.tasks + [t], tl.nextId + 1))
  }

  /** The `markComplete` menu item: an unknown id is NotFound; otherwise
      `Task.markComplete` on the found task, no other task changing. */
  function MarkCompleteById(tl: TaskList, id: int): (r: Result<TaskList, TaskError>)
    ensures r == Failure(NotFound) <==> FindTask(tl.tasks, id).None?
    ensures r == Failure(AlreadyCompleted) <==>
              FindTask(tl.tasks, id).Some? && tl.tasks[FindTask(tl.tasks, id).value].completed
    ensures r.Success? <==>
              FindTask(tl.tasks, id).Some? && !tl.tasks[FindTask(tl.tasks, id).value].completed
    ensures r.Success? ==>
              var i := FindTask(tl.tasks, id).value;
              r.value == tl.(tasks := tl.tasks[i := tl.tasks[i].(completed := true)])
  {
    match FindTask(tl.tasks, id)
    case None => Failure(NotFound)
    case Some(i) =>
      match MarkComplete(tl.tasks[i])
      case Failure(e) => Failure(e)
      case Success(t) => Success(tl.(tasks := tl.tasks[i := t]))
  }

  /** `showOverdue`: exactly the overdue tasks, in insertion order. */
  function Overdue(ts: seq<Task>, today: Date): (r: seq<Task>)
    ensures Seqs.Selects(r, ts, (t: Task) => IsOverdue(t, today))
  {
    Seqs.Filter(ts, (t: Task) => IsOverdue(t, today))
  }

  /** `showCompletionRate`: nothing for an empty list; otherwise the
      percentage of completed tasks, which lies in [0, 100] and is 100
      exactly when every task is done. */
  function CompletionRate(ts: seq<Task>): (r: Option<real>)
    ensures r.None? <==> |ts| == 0
    ensures r.Some? ==> r.value == Percentage(Seqs.Count(ts, IsCompleted), |ts|)
    ensures r.Some? ==> 0.0 <= r.value <= 100.0
    ensures r.Some? ==> (r.value == 0.0 <==> forall i :: 0 <= i < |ts| ==> !ts[i].completed)
    ensures r.Some? ==> (r.value == 100.0 <==> forall i :: 0 <= i < |ts| ==> ts[i].completed)
  {
    if |ts| == 0 then None
    else
      var done := Seqs.Count(ts, IsCompleted);
      Seqs.CountAllIff(ts, IsCompleted);
      Some(Percentage(done, |ts|))
  }

  /** Completing a pending task raises the completed count by one, so the
      rate grows by exactly 100/total. */
  lemma MarkCompleteRaisesRate(tl: TaskList, id: int)
    requires MarkCompleteById(tl, id).Success?
    ensures var ts' := MarkCompleteById(tl, id).value.tasks;
            && |ts'| == |tl.tasks|
            && Seqs.Count(ts', IsCompleted) == Seqs.Count(tl.tasks, IsCompleted) + 1
  {
    var i := FindTask(tl.tasks, id).value;
    Seqs.CountUpdate(tl.tasks, i, tl.tasks[i].(completed := true), IsCompleted);
  }

  /** Adding and completing keep the list valid. */
  lemma OperationsKeepValid(tl: TaskList, descLine: string, priority: int, parsedDue: Option<Date>, id: int)
    requires Valid(tl)
    ensures AddTask(tl, descLine, priority, parsedDue).Success? ==>
              Valid(AddTask(tl, descLine, priority, parsedDue).value)
    ensures MarkCompleteById(tl, id).Success? ==> Valid(MarkCompleteById(tl, id).value)
  {
    var r := AddTask(tl, descLine, priority, parsedDue);
    if r.Success? {
      var ts := r.value.tasks;
      forall k | 0 <= k < |ts| ensures ts[k].id == FirstId + k && IsValidPriority(ts[k].priority) {
        if k < |tl.tasks| {
          assert ts[k] == tl.tasks[k];
        }
      }
    }
  }
}
