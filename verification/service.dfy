/** The service as its callers see it: a raw request is validated by its schema, then handed
    to its operation; a validation failure never reaches the table. Runs of requests show
    the lifecycle promises: the table stays valid, ids are never handed out twice. */
module Service {
  import opened Results
  import opened Strings
  import opened Raw
  import opened Schema
  import opened Rows
  import opened Ordering
  import opened TaskTable
  import opened Handlers

  datatype Request = ListReq | CreateReq(raw: Value) | UpdateReq(raw: Value) | DeleteReq(raw: Value)

  datatype Response =
    | Listed(tasks: seq<Task>)
    | Created(task: Task)
    | Updated(task: Task)
    | Deleted
    | Failed(error: TaskError)

  /** One request against the store. A failed request leaves the store as it was; listing
      never changes it; only a create draws from the serial sequence. */
  function Handle(st: Store, req: Request): (s: Step<Response>)
    ensures s.out.Failed? ==> s.store == st
    ensures req.ListReq? ==> s.store == st && s.out == Listed(GetTasks(st))
    ensures req.CreateReq? ==> (s.out.Created? <==> ParseCreateTaskInput(req.raw).Ok?)
    ensures req.UpdateReq? ==>
              (s.out.Updated? <==> ParseUpdateTaskInput(req.raw).Ok? && ParseUpdateTaskInput(req.raw).value.id in Ids(st.rows))
    ensures req.UpdateReq? && ParseUpdateTaskInput(req.raw).Ok? && ParseUpdateTaskInput(req.raw).value.id !in Ids(st.rows) ==>
              s.out == Failed(NotFound(ParseUpdateTaskInput(req.raw).value.id))
    ensures req.DeleteReq? ==> (s.out.Deleted? <==> ParseDeleteTaskInput(req.raw).Ok?)
    ensures !req.ListReq? && !s.out.Failed? ==> s.out.Created? || s.out.Updated? || s.out.Deleted?
    ensures (req.CreateReq? && ParseCreateTaskInput(req.raw).Err?) ==> s.out == Failed(ValidationError(ParseCreateTaskInput(req.raw).error))
    ensures (req.UpdateReq? && ParseUpdateTaskInput(req.raw).Err?) ==> s.out == Failed(ValidationError(ParseUpdateTaskInput(req.raw).error))
    ensures (req.DeleteReq? && ParseDeleteTaskInput(req.raw).Err?) ==> s.out == Failed(ValidationError(ParseDeleteTaskInput(req.raw).error))
    ensures s.store.clock >= st.clock
    ensures s.out.Created? ==> s.out.task.id == st.nextId && s.store.nextId == st.nextId + 1
    ensures !s.out.Created? ==> s.store.nextId == st.nextId
  {
    match req
    case ListReq => Step(st, Listed(GetTasks(st)))
    case CreateReq(raw) =>
      var input := ParseCreateTaskInput(raw);
      if input.Err? then Step(st, Failed(ValidationError(input.error)))
      else
        var c := CreateTask(st, input.value);
        Step(c.store, Created(c.out))
    case UpdateReq(raw) =>
      var input := ParseUpdateTaskInput(raw);
      if input.Err? then Step(st, Failed(ValidationError(input.error)))
      else
        var u := UpdateTask(st, input.value);
        if u.out.Err? then Step(u.store, Failed(u.out.error)) else Step(u.store, Updated(u.out.value))
    case DeleteReq(raw) =>
      var input := ParseDeleteTaskInput(raw);
      if input.Err? then Step(st, Failed(ValidationError(input.error)))
      else Step(DeleteTask(st, input.value), Deleted)
  }

  /** Every request keeps the table's constraints. */
  lemma HandleKeepsValid(st: Store, req: Request)
    requires Valid(st)
    ensures Valid(Handle(st, req).store)
  {
    match req
    case ListReq =>
    case CreateReq(raw) =>
      var input := ParseCreateTaskInput(raw);
      if input.Ok? {
        InsertKeepsValid(st, NewTask(input.value.text, None));
      }
    case UpdateReq(raw) =>
      var input := ParseUpdateTaskInput(raw);
      if input.Ok? {
        UpdateKeepsValid(st, input.value);
      }
    case DeleteReq(raw) =>
      var input := ParseDeleteTaskInput(raw);
      if input.Ok? {
        DeleteKeepsValid(st, input.value);
      }
  }

  /** Requests served one after another; the final store and every response in order. */
  function Run(st: Store, reqs: seq<Request>): (r: (Store, seq<Response>))
    ensures |r.1| == |reqs|
    decreases |reqs|
  {
    if |reqs| == 0 then (st, [])
    else
      var s := Handle(st, reqs[0]);
      var rest := Run(s.store, reqs[1..]);
      (rest.0, [s.out] + rest.1)
  }

  /** The ids of the tasks created, in the order the responses came. */
  function CreatedIds(responses: seq<Response>): seq<int> {
    if |responses| == 0 then []
    else (if responses[0].Created? then [responses[0].task.id] else []) + CreatedIds(responses[1..])
  }

  /** Any run keeps the table's constraints. */
  lemma {:induction false} RunKeepsValid(st: Store, reqs: seq<Request>)
    requires Valid(st)
    ensures Valid(Run(st, reqs).0)
    decreases |reqs|
  {
    if |reqs| > 0 {
      HandleKeepsValid(st, reqs[0]);
      RunKeepsValid(Handle(st, reqs[0]).store, reqs[1..]);
    }
  }

  /** Ids handed out by a run strictly increase, start at the sequence's next value and stay
      below its final one: no id is given twice, and none that existed before the run. */
  lemma {:induction false} CreatedIdsIncrease(st: Store, reqs: seq<Request>)
    ensures var r := Run(st, reqs);
            var ids := CreatedIds(r.1);
            && (forall i :: 0 <= i < |ids| ==> st.nextId <= ids[i] < r.0.nextId)
            && (forall i, j :: 0 <= i < j < |ids| ==> ids[i] < ids[j])
            && st.nextId <= r.0.nextId
    decreases |reqs|
  {
    if |reqs| > 0 {
      var s := Handle(st, reqs[0]);
      CreatedIdsIncrease(s.store, reqs[1..]);
      var rest := Run(s.store, reqs[1..]);
      CreatedIdsPrepend(s.out, rest.1, st.nextId, s.store.nextId, rest.0.nextId);
    }
  }

  /** One more response in front of a run whose ids are increasing and within `[mid, hi)`:
      if it created a task with an id in `[lo, mid)`, the ids stay increasing, within `[lo, hi)`. */
  lemma CreatedIdsPrepend(first: Response, rest: seq<Response>, lo: int, mid: int, hi: int)
    requires lo <= mid <= hi
    requires first.Created? ==> lo <= first.task.id < mid
    requires var ids := CreatedIds(rest);
             && (forall i :: 0 <= i < |ids| ==> mid <= ids[i] < hi)
             && (forall i, j :: 0 <= i < j < |ids| ==> ids[i] < ids[j])
    ensures var ids := CreatedIds([first] + rest);
            && (forall i :: 0 <= i < |ids| ==> lo <= ids[i] < hi)
            && (forall i, j :: 0 <= i < j < |ids| ==> ids[i] < ids[j])
  {
    CreatedIdsCons(first, rest);
  }

  /** The ids created by a response followed by more responses. */
  lemma CreatedIdsCons(first: Response, rest: seq<Response>)
    ensures CreatedIds([first] + rest)
         == (if first.Created? then [first.task.id] else []) + CreatedIds(rest)
  {
    assert ([first] + rest)[1..] == rest;
  }

  /** An id some row had before a run (even one the run deletes) is never given to a task the
      run creates. */
  lemma IdNeverReissued(st: Store, reqs: seq<Request>, k: nat)
    requires Valid(st) && k < |st.rows|
    ensures st.rows[k].id !in CreatedIds(Run(st, reqs).1)
  {
    CreatedIdsIncrease(st, reqs);
  }

  /** Creating then listing: the new task has the trimmed text and is not completed, is
      listed first, and is listed exactly once. */
  lemma CreateThenList(st: Store, raw: Value)
    requires Valid(st)
    requires raw.Object? && Field(raw, "text").Str? && Field(raw, "text").s != ""
    ensures var s := Handle(st, CreateReq(raw));
            && s.out.Created?
            && s.out.task.text == Trim(Field(raw, "text").s) && !s.out.task.completed
            && GetTasks(s.store)[0] == s.out.task
            && multiset(GetTasks(s.store))[s.out.task] == 1
  {
    HandleCreate(st, raw);
    CreateListedOnce(st, ParseCreateTaskInput(raw).value);
  }

  /** A whitespace-only text of length at least 1 is accepted and stored as "": the length
      check sees the untrimmed text. */
  lemma WhitespaceCreateStored(st: Store, s: string)
    requires s != "" && IsBlank(s)
    ensures var r := Handle(st, CreateReq(Object(map["text" := Str(s)])));
            && r.out.Created? && r.out.task.text == ""
            && |r.store.rows| == |st.rows| + 1
  {
    WhitespaceOnlyAcceptedAsEmpty(s);
    assert CreateInputToValue(CreateTaskInput(s)) == Object(map["text" := Str(s)]);
  }

  /** Deleting the same id twice: both calls succeed, and the second changes nothing. */
  lemma DeleteTwiceSucceeds(st: Store, raw: Value)
    requires ParseDeleteTaskInput(raw).Ok?
    ensures var first := Handle(st, DeleteReq(raw));
            var second := Handle(first.store, DeleteReq(raw));
            && first.out == Deleted && second.out == Deleted
            && second.store == first.store
  {
    DeleteIdempotent(st, ParseDeleteTaskInput(raw).value);
  }

  /** Updating an id no row has fails with not-found and creates nothing. */
  lemma UpdateMissingFails(st: Store, u: UpdateTaskInput)
    requires u.id !in Ids(st.rows)
    ensures Handle(st, UpdateReq(UpdateInputToValue(u))) == Step(st, Failed(NotFound(u.id)))
  {
    UpdateInputRoundTrip(u);
  }

  /** Once a task is deleted, updating it fails with not-found. */
  lemma UpdateAfterDeleteFails(st: Store, id: int, completed: bool)
    ensures var gone := Handle(st, DeleteReq(DeleteInputToValue(DeleteTaskInput(id)))).store;
            Handle(gone, UpdateReq(UpdateInputToValue(UpdateTaskInput(id, completed))))
              == Step(gone, Failed(NotFound(id)))
  {
    DeleteInputRoundTrip(DeleteTaskInput(id));
    UpdateMissingFails(DeleteTask(st, DeleteTaskInput(id)), UpdateTaskInput(id, completed));
  }

  /** An update request built from a typed input is exactly `updateTask` on that input, its
      failure reported as a failed response. */
  lemma HandleUpdate(st: Store, u: UpdateTaskInput)
    ensures var r := UpdateTask(st, u);
            Handle(st, UpdateReq(UpdateInputToValue(u)))
            == Step(r.store, if r.out.Err? then Failed(r.out.error) else Updated(r.out.value))
  {
    UpdateInputRoundTrip(u);
  }

  /** Any update request whose input validates does exactly what the update handler does
      with the validated input: the same store afterwards, and its answer or its not-found. */
  lemma HandleUpdateAny(st: Store, raw: Value)
    requires ParseUpdateTaskInput(raw).Ok?
    ensures var r := UpdateTask(st, ParseUpdateTaskInput(raw).value);
            Handle(st, UpdateReq(raw))
            == Step(r.store, if r.out.Err? then Failed(r.out.error) else Updated(r.out.value))
  {
  }

  /** Any delete request whose input validates removes the rows with the validated id and
      nothing else, and answers success. */
  lemma HandleDeleteAny(st: Store, raw: Value)
    requires ParseDeleteTaskInput(raw).Ok?
    ensures Handle(st, DeleteReq(raw)) == Step(DeleteTask(st, ParseDeleteTaskInput(raw).value), Deleted)
    ensures var id := ParseDeleteTaskInput(raw).value.id;
            var after := Handle(st, DeleteReq(raw)).store;
            && after.rows == Without(st.rows, id)
            && after.nextId == st.nextId && after.clock == st.clock
  {
  }

  /** Updating the row at position `k` through the service: the answer is that row with the
      new `completed` and a strictly later `updated_at`, it takes the row's place, nothing else
      changes, and the table stays valid. */
  lemma UpdateStored(st: Store, k: nat, completed: bool)
    requires Valid(st) && k < |st.rows|
    ensures var u := Handle(st, UpdateReq(UpdateInputToValue(UpdateTaskInput(st.rows[k].id, completed))));
            && u.out == Updated(st.rows[k].(completed := completed, updated_at := u.store.clock))
            && u.store.rows == st.rows[k := u.out.task]
            && u.store.clock > st.clock >= st.rows[k].updated_at
            && Valid(u.store)
  {
    HandleUpdate(st, UpdateTaskInput(st.rows[k].id, completed));
    UpdateStoredRow(st, k, completed);
  }

  /** A create request the schema accepts is exactly a create with the parsed input. */
  lemma HandleCreate(st: Store, raw: Value)
    requires ParseCreateTaskInput(raw).Ok?
    ensures var r := CreateTask(st, ParseCreateTaskInput(raw).value);
            Handle(st, CreateReq(raw)) == Step(r.store, Created(r.out))
  {
  }

  /** Creating through the service appends one incomplete task with the trimmed text and a
      fresh id, and keeps the table valid. */
  lemma CreateStored(st: Store, text: string)
    requires Valid(st) && text != ""
    ensures var c := Handle(st, CreateReq(CreateInputToValue(CreateTaskInput(text))));
            && c.out.Created?
            && c.store.rows == st.rows + [c.out.task]
            && c.out.task.text == Trim(text) && !c.out.task.completed
            && c.out.task.created_at == c.out.task.updated_at == c.store.clock > st.clock
            && c.out.task.id !in Ids(st.rows)
            && Valid(c.store)
  {
    assert Field(CreateInputToValue(CreateTaskInput(text)), "text") == Str(text);
    HandleCreate(st, CreateInputToValue(CreateTaskInput(text)));
    InsertKeepsValid(st, NewTask(Trim(text), None));
  }

  /** Create a task, mark it completed, mark it incomplete again: each update answers the new
      state, keeps id and text, and moves `updated_at` strictly forward past `created_at`. */
  lemma ToggleCycle(st: Store, text: string)
    requires Valid(st) && text != ""
    ensures var c := Handle(st, CreateReq(CreateInputToValue(CreateTaskInput(text))));
            var id := c.out.task.id;
            var on := Handle(c.store, UpdateReq(UpdateInputToValue(UpdateTaskInput(id, true))));
            var off := Handle(on.store, UpdateReq(UpdateInputToValue(UpdateTaskInput(id, false))));
            && c.out.Created? && on.out.Updated? && off.out.Updated?
            && on.out.task.id == id && on.out.task.text == c.out.task.text && on.out.task.completed
            && on.out.task.updated_at > on.out.task.created_at
            && off.out.task.id == id && off.out.task.text == c.out.task.text && !off.out.task.completed
            && off.out.task.updated_at > on.out.task.updated_at
  {
    CreateStored(st, text);
    var c := Handle(st, CreateReq(CreateInputToValue(CreateTaskInput(text))));
    var k := |st.rows|;
    assert c.store.rows[k] == c.out.task;
    UpdateStored(c.store, k, true);
    var on := Handle(c.store, UpdateReq(UpdateInputToValue(UpdateTaskInput(c.out.task.id, true))));
    assert on.store.rows[k] == on.out.task;
    UpdateStored(on.store, k, false);
  }
}
