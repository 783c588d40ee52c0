/** The recent-tasks store of the vanilla page: a list of at most ten task
    records, most recent upload first, kept under one localStorage key. */
module TaskStore {
  import opened Common

  /** A recent task (the `RecentTask` record). */
  datatype Task = Task(
    taskId: string,
    docId: Option<string>,
    filename: string,
    timestamp: string,
    status: string)

  /** How many records the store keeps. */
  const MaxRecent: nat := 10

  /** Whether some record carries `id`. */
  predicate HasId(tasks: seq<Task>, id: string) {
    exists j | 0 <= j < |tasks| :: tasks[j].taskId == id
  }

  /** No two records share a task id. */
  predicate Distinct(tasks: seq<Task>) {
    forall i, j | 0 <= i < j < |tasks| :: tasks[i].taskId != tasks[j].taskId
  }

  /** What the store keeps true: distinct ids and at most `MaxRecent` records. */
  predicate Valid(tasks: seq<Task>) {
    Distinct(tasks) && |tasks| <= MaxRecent
  }

  /** `tasks.findIndex(t => t.task_id === id)`: the first record with `id`. */
  function FindIndex(tasks: seq<Task>, id: string): (r: Option<nat>)
    ensures r.None? <==> !HasId(tasks, id)
    ensures r.Some? ==> r.value < |tasks| && tasks[r.value].taskId == id
    ensures r.Some? ==> forall j | 0 <= j < r.value :: tasks[j].taskId != id
  {
    if |tasks| == 0 then None
    else if tasks[0].taskId == id then Some(0)
    else
      match FindIndex(tasks[1..], id)
      case None => None
      case Some(i) => Some(i + 1)
  }

  /** The first `MaxRecent` records (`tasks.slice(0, 10)`). */
  function KeepRecent(tasks: seq<Task>): (r: seq<Task>)
    ensures |r| == Min(|tasks|, MaxRecent)
    ensures r <= tasks
  {
    if |tasks| <= MaxRecent then tasks else tasks[..MaxRecent]
  }

  /** `saveTask` on the list. A task with a new id goes first, the previous
      records follow in their order, and the oldest beyond ten are dropped. A
      task whose id is stored overwrites the first record with that id where
      it stands, and every other record (and, for a list of at most ten, the
      length) stays as it was. */
  function Save(tasks: seq<Task>, task: Task): (r: seq<Task>)
    ensures |r| <= MaxRecent
    ensures !HasId(tasks, task.taskId) ==>
      && |r| == Min(|tasks| + 1, MaxRecent)
      && r[0] == task
      && r[1..] == tasks[..Min(|tasks|, MaxRecent - 1)]
    ensures HasId(tasks, task.taskId) ==>
      var i := FindIndex(tasks, task.taskId).value;
      && |r| == Min(|tasks|, MaxRecent)
      && (i < MaxRecent ==> r[i] == task)
      && forall j | 0 <= j < |r| && j != i :: r[j] == tasks[j]
  {
    var updated :=
      match FindIndex(tasks, task.taskId)
      case Some(i) => tasks[i := task]
      case None => [task] + tasks;
    KeepRecent(updated)
  }

  /** Saving keeps ids distinct and the list at most ten long. */
  lemma SavePreservesValid(tasks: seq<Task>, task: Task)
    requires Valid(tasks)
    ensures Valid(Save(tasks, task))
  {
  }

  /** Saving twice under one id leaves exactly one record with that id, and
      it is the second one saved. */
  lemma SaveTwiceSameId(tasks: seq<Task>, first: Task, second: Task)
    requires Valid(tasks)
    requires first.taskId == second.taskId
    ensures var r := Save(Save(tasks, first), second);
      && Valid(r)
      && HasId(r, second.taskId)
      && forall j | 0 <= j < |r| && r[j].taskId == second.taskId :: r[j] == second
  {
    var m := Save(tasks, first);
    SavePreservesValid(tasks, first);
    SavePreservesValid(m, second);
    var k := if HasId(tasks, first.taskId) then FindIndex(tasks, first.taskId).value else 0;
    assert m[k] == first;
    assert HasId(m, second.taskId);
  }

  /** `updateTaskStatus` on the list: `None` when no record has `id` (the
      page then writes nothing back), otherwise the list with the status of
      the first record with `id` replaced. */
  function UpdateStatus(tasks: seq<Task>, id: string, status: string): (r: Option<seq<Task>>)
    ensures r.None? <==> !HasId(tasks, id)
    ensures r.Some? ==>
      var i := FindIndex(tasks, id).value;
      && |r.value| == |tasks|
      && r.value[i] == tasks[i].(status := status)
      && forall j | 0 <= j < |tasks| && j != i :: r.value[j] == tasks[j]
  {
    match FindIndex(tasks, id)
    case None => None
    case Some(i) => Some(tasks[i := tasks[i].(status := status)])
  }

  /** A status update keeps the ids, so it keeps the store valid. */
  lemma UpdateStatusPreservesValid(tasks: seq<Task>, id: string, status: string)
    requires Valid(tasks)
    requires HasId(tasks, id)
    ensures Valid(UpdateStatus(tasks, id, status).value)
  {
  }

  // ---------------------------------------------------------------------------
  // The localStorage entry

  /** The storage entry under the recent-tasks key: absent, or holding a list. */
  type Stored = Option<seq<Task>>

  /** Reading the entry: an absent key reads as the empty list. */
  function Load(stored: Stored): (tasks: seq<Task>)
    ensures stored.None? ==> tasks == []
    ensures stored.Some? ==> tasks == stored.value
  {
    stored.GetOr([])
  }

  /** `saveTask`: always writes the entry. */
  function SaveTask(stored: Stored, task: Task): (r: Stored)
    ensures r.Some?
    ensures Load(r) == Save(Load(stored), task)
  {
    Some(Save(Load(stored), task))
  }

  /** `updateTaskStatus`: writes only when a record with `id` exists, so an
      unknown id leaves the entry exactly as it was, absent or not. */
  function UpdateTaskStatus(stored: Stored, id: string, status: string): (r: Stored)
    ensures !HasId(Load(stored), id) ==> r == stored
    ensures HasId(Load(stored), id) ==> r == Some(UpdateStatus(Load(stored), id, status).value)
  {
    match UpdateStatus(Load(stored), id, status)
    case None => stored
    case Some(tasks) => Some(tasks)
  }

  /** `clearRecentTasks`: removes the entry when the user confirms, and
      otherwise does nothing. */
  function ClearRecentTasks(stored: Stored, confirmed: bool): (r: Stored)
    ensures confirmed ==> Load(r) == []
    ensures !confirmed ==> r == stored
  {
    if confirmed then None else stored
  }
}
