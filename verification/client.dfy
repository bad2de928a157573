/** The client's local list (client/src/App.tsx): what it sends for a new task, how each
    server reply changes the list it shows, and the summary counts. The server call is a
    parameter: the reply it gave, `Ok` or `Err`. A failed call only logs, so the list stays
    as it was. */
module Client {
  import opened Results
  import opened Strings
  import opened Raw
  import opened Schema
  import opened Rows
  import opened Ordering
  import opened TaskTable
  import opened Handlers

  /** The tasks shown and the text typed into the new-task field. */
  datatype ClientState = ClientState(tasks: seq<Task>, draft: string)

  /** The create request the add form sends: nothing when the draft trims to the empty string,
      otherwise the trimmed draft. */
  function AddRequest(draft: string): (r: Option<CreateTaskInput>)
    ensures r.None? <==> IsBlank(draft)
    ensures r.Some? ==> r.value.text == Trim(draft) && r.value.text != "" && IsTrimmed(r.value.text)
  {
    TrimEmptyIffBlank(draft);
    if Trim(draft) == "" then None else Some(CreateTaskInput(Trim(draft)))
  }

  /** `handleAddTask` once the server replied to the request `AddRequest(c.draft)`: a created
      task goes at the end of the list and the field is cleared; a failure, or a blank draft
      (no request at all), changes nothing. */
  function HandleAdd(c: ClientState, reply: Result<Task, TaskError>): (r: ClientState)
    ensures IsBlank(c.draft) || reply.Err? ==> r == c
    ensures !IsBlank(c.draft) && reply.Ok? ==>
              && |r.tasks| == |c.tasks| + 1
              && r.tasks[..|c.tasks|] == c.tasks && r.tasks[|c.tasks|] == reply.value
              && r.draft == ""
  {
    if AddRequest(c.draft).None? then c
    else match reply
      case Ok(created) => ClientState(c.tasks + [created], "")
      case Err(_) => c
  }

  /** `handleToggleTask` after the server's reply: on success every entry with the id becomes
      the returned task and every other entry stays where it was; on failure nothing changes. */
  function HandleToggle(tasks: seq<Task>, taskId: int, reply: Result<Task, TaskError>): (r: seq<Task>)
    ensures reply.Err? ==> r == tasks
    ensures |r| == |tasks|
    ensures reply.Ok? ==>
              forall i :: 0 <= i < |tasks| ==> r[i] == (if tasks[i].id == taskId then reply.value else tasks[i])
  {
    if reply.Ok? then Replace(tasks, taskId, reply.value) else tasks
  }

  /** `handleDeleteTask` after the server's reply: on success the entries with the id are
      dropped and no other; on failure nothing changes. */
  function HandleDelete(tasks: seq<Task>, taskId: int, reply: Result<(), TaskError>): (r: seq<Task>)
    ensures reply.Err? ==> r == tasks
    ensures reply.Ok? ==> taskId !in Ids(r) && forall t :: t in r <==> t in tasks && t.id != taskId
  {
    if reply.Ok? then Without(tasks, taskId) else tasks
  }

  /** A successful delete filters the list entry by entry: split anywhere, it is the delete
      on each part, so the kept entries keep their relative order; each entry is dropped
      exactly when it has the id, and every kept entry keeps its multiplicity. */
  lemma DeleteKeepsOrder(tasks: seq<Task>, taskId: int, k: nat)
    requires k <= |tasks|
    ensures HandleDelete(tasks, taskId, Ok(()))
         == HandleDelete(tasks[..k], taskId, Ok(())) + HandleDelete(tasks[k..], taskId, Ok(()))
    ensures k < |tasks| ==>
              HandleDelete([tasks[k]], taskId, Ok(())) == if tasks[k].id == taskId then [] else [tasks[k]]
    ensures forall t :: multiset(HandleDelete(tasks, taskId, Ok(())))[t]
                     == if t.id == taskId then 0 else multiset(tasks)[t]
  {
    assert tasks == tasks[..k] + tasks[k..];
    WithoutAppend(tasks[..k], tasks[k..], taskId);
    forall t {
      WithoutCounts(tasks, taskId, t);
    }
  }

  /** With ids unique, a successful delete removes exactly the position holding the id. */
  lemma DeleteRemovesPosition(tasks: seq<Task>, k: nat)
    requires UniqueIds(tasks) && k < |tasks|
    ensures HandleDelete(tasks, tasks[k].id, Ok(())) == tasks[..k] + tasks[k + 1..]
  {
    WithoutRemovesPosition(tasks, k);
  }

  /** How many entries have the given `completed` value: the summary's "Completed" count for
      `true`, its "Remaining" count for `false`. */
  function CountWhere(tasks: seq<Task>, completed: bool): (n: nat)
    ensures n <= |tasks|
    ensures n == 0 <==> forall i :: 0 <= i < |tasks| ==> tasks[i].completed != completed
    ensures n == |tasks| <==> forall i :: 0 <= i < |tasks| ==> tasks[i].completed == completed
  {
    if |tasks| == 0 then 0
    else (if tasks[0].completed == completed then 1 else 0) + CountWhere(tasks[1..], completed)
  }

  /** Completed plus remaining is the total. */
  lemma {:induction false} CountsAddUp(tasks: seq<Task>)
    ensures CountWhere(tasks, true) + CountWhere(tasks, false) == |tasks|
  {
    if |tasks| > 0 {
      CountsAddUp(tasks[1..]);
    }
  }

  /** The count over a list split in two is the sum of the counts over the parts. */
  lemma {:induction false} CountAppend(a: seq<Task>, b: seq<Task>, completed: bool)
    ensures CountWhere(a + b, completed) == CountWhere(a, completed) + CountWhere(b, completed)
  {
    if |a| == 0 {
      assert a + b == b;
    } else {
      assert (a + b)[1..] == a[1..] + b;
      CountAppend(a[1..], b, completed);
    }
  }

  /** Adding a task the server created (never completed) raises "Remaining" by one and leaves
      "Completed" as it was. */
  lemma AddCounts(c: ClientState, created: Task)
    requires !IsBlank(c.draft) && !created.completed
    ensures CountWhere(HandleAdd(c, Ok(created)).tasks, false) == CountWhere(c.tasks, false) + 1
    ensures CountWhere(HandleAdd(c, Ok(created)).tasks, true) == CountWhere(c.tasks, true)
  {
    CountAppend(c.tasks, [created], false);
    CountAppend(c.tasks, [created], true);
  }

  /** Marking the entry at position `k` completed, where it was not, moves one task from
      "Remaining" to "Completed". */
  lemma ToggleCounts(tasks: seq<Task>, k: nat, updated: Task)
    requires UniqueIds(tasks) && k < |tasks| && !tasks[k].completed
    requires updated.completed
    ensures var r := HandleToggle(tasks, tasks[k].id, Ok(updated));
            && CountWhere(r, true) == CountWhere(tasks, true) + 1
            && CountWhere(r, false) == CountWhere(tasks, false) - 1
  {
    ReplaceUnique(tasks, k, updated);
    CountUpdate(tasks, k, updated, true);
    CountUpdate(tasks, k, updated, false);
  }

  /** Overwriting one position moves that entry's contribution to the count. */
  lemma {:induction false} CountUpdate(tasks: seq<Task>, k: nat, v: Task, completed: bool)
    requires k < |tasks|
    ensures CountWhere(tasks[k := v], completed)
         == CountWhere(tasks, completed) - (if tasks[k].completed == completed then 1 else 0)
            + (if v.completed == completed then 1 else 0)
  {
    if k > 0 {
      assert tasks[k := v][1..] == tasks[1..][k - 1 := v];
      CountUpdate(tasks[1..], k - 1, v, completed);
    }
  }

  /** A request the add form sends passes the server's create schema unchanged, so the task
      created from it carries the trimmed draft, which is never empty. */
  lemma AddAcceptedByServer(st: Store, draft: string)
    requires !IsBlank(draft)
    ensures var req := AddRequest(draft).value;
            && ParseCreateTaskInput(CreateInputToValue(req)) == Ok(req)
            && CreateTask(st, req).out.text == Trim(draft) != ""
  {
    CreateRevalidation(AddRequest(draft).value);
  }

  /** The add form's blank check is the only guard against whitespace-only text: such a draft
      sends nothing, while the server's schema would accept the same text and store "". */
  lemma ClientBlocksWhatServerAccepts(draft: string)
    requires draft != "" && IsBlank(draft)
    ensures AddRequest(draft).None?
    ensures ParseCreateTaskInput(CreateInputToValue(CreateTaskInput(draft))) == Ok(CreateTaskInput(""))
  {
    WhitespaceOnlyAcceptedAsEmpty(draft);
  }

  /** A client showing the server's listing still shows it after a toggle, whatever the
      server answered. */
  lemma ToggleMirrorsServer(st: Store, input: UpdateTaskInput)
    requires Valid(st)
    ensures var u := UpdateTask(st, input);
            HandleToggle(GetTasks(st), input.id, u.out) == GetTasks(u.store)
  {
    var u := UpdateTask(st, input);
    if u.out.Ok? {
      var t := u.out.value;
      assert SameCreated(st.rows, input.id, t) by {
        forall y | y in st.rows && y.id == input.id ensures y.created_at == t.created_at {
          var k :| 0 <= k < |st.rows| && st.rows[k] == y;
          FindUnique(st.rows, k);
        }
      }
      SortReplace(st.rows, input.id, t);
    }
  }

  /** A client showing the server's listing still shows it after a successful delete. */
  lemma DeleteMirrorsServer(st: Store, input: DeleteTaskInput)
    ensures HandleDelete(GetTasks(st), input.id, Ok(())) == GetTasks(DeleteTask(st, input))
  {
    SortWithout(st.rows, input.id);
  }

  /** An add is where the two part ways: the client shows the new task last, the server lists
      it first. Both hold the same tasks, and on a non-empty table the orders differ until the
      list is loaded again. */
  lemma AddOrderDiverges(st: Store, draft: string)
    requires Valid(st) && !IsBlank(draft)
    ensures var c := CreateTask(st, AddRequest(draft).value);
            var shown := HandleAdd(ClientState(GetTasks(st), draft), Ok(c.out)).tasks;
            var listed := GetTasks(c.store);
            && shown == GetTasks(st) + [c.out]
            && listed == [c.out] + GetTasks(st)
            && multiset(shown) == multiset(listed)
            && (|st.rows| > 0 ==> shown != listed)
  {
    var req := AddRequest(draft).value;
    var c := CreateTask(st, req);
    var before := GetTasks(st);
    AddAppends(ClientState(before, draft), c.out);
    CreateListedOnce(st, req);
    GetTasksMembers(st);
    AppendDiffers(before, c.out);
  }

  /** A successful add appends the created task. */
  lemma AddAppends(c: ClientState, created: Task)
    requires !IsBlank(c.draft)
    ensures HandleAdd(c, Ok(created)).tasks == c.tasks + [created]
  {
  }

  /** Appending and prepending a new element give the same elements; in a different order
      unless the list was empty. */
  lemma AppendDiffers(s: seq<Task>, x: Task)
    requires x !in s
    ensures multiset(s + [x]) == multiset([x] + s)
    ensures |s| > 0 ==> s + [x] != [x] + s
  {
    if |s| > 0 {
      assert (s + [x])[0] == s[0] && s[0] in s;
    }
  }
}
