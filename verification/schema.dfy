/** The task record and the zod schemas that validate inbound requests
    (server/src/schema.ts). A schema is a partial function from a raw value to a typed
    value or a non-empty list of issues. */
module Schema {
  import opened Results
  import opened Strings
  import opened Raw

  /** The one entity: exactly these five fields. Timestamps are milliseconds. */
  datatype Task = Task(id: int, text: string, completed: bool, created_at: int, updated_at: int)

  datatype CreateTaskInput = CreateTaskInput(text: string)
  datatype UpdateTaskInput = UpdateTaskInput(id: int, completed: bool)
  datatype DeleteTaskInput = DeleteTaskInput(id: int)

  /** What went wrong at one place in the input. */
  datatype IssueCode =
    | InvalidType(expected: Kind, received: Kind)
    | TooSmall(minimum: nat, message: string)
    | InvalidDate

  /** An issue and the property path it was found at (`[]` for the input itself). */
  datatype Issue = Issue(path: seq<string>, code: IssueCode)

  type Issues = seq<Issue>

  const EmptyTextMessage: string := "Task text cannot be empty"

  /** The largest time value a JavaScript `Date` can hold, in milliseconds either side of the epoch. */
  const MaxTime: int := 8_640_000_000_000_000

  /** The refinements of a zod string schema, run in the order they were chained. */
  datatype StringCheck = MinLength(minimum: nat, message: string) | TrimValue

  /** `z.string().min(1, "Task text cannot be empty").trim()`. */
  const CreateTextChecks: seq<StringCheck> := [MinLength(1, EmptyTextMessage), TrimValue]

  /** The issues a failed field parse reports, none for a successful one. */
  function IssuesOf<T>(r: Result<T, Issues>): Issues {
    if r.Err? then r.error else []
  }

  /** Whether a trim is among the checks. */
  predicate HasTrim(checks: seq<StringCheck>) {
    exists i :: 0 <= i < |checks| && checks[i].TrimValue?
  }

  lemma HasTrimCons(checks: seq<StringCheck>)
    requires |checks| > 0
    ensures HasTrim(checks) <==> checks[0].TrimValue? || HasTrim(checks[1..])
  {
    if HasTrim(checks) && !checks[0].TrimValue? {
      var i :| 0 <= i < |checks| && checks[i].TrimValue?;
      assert checks[1..][i - 1].TrimValue?;
    }
    if HasTrim(checks[1..]) {
      var i :| 0 <= i < |checks| - 1 && checks[1..][i].TrimValue?;
      assert checks[i + 1].TrimValue?;
    }
  }

  /** The string the check at position `i` sees: the input, or its trim once an earlier
      check has trimmed it (trimming twice is trimming once). */
  function SeenBy(s: string, checks: seq<StringCheck>, i: nat): string
    requires i <= |checks|
  {
    if HasTrim(checks[..i]) then Trim(s) else s
  }

  /** Runs the checks left to right on a string: a length check looks at the string as the
      earlier checks left it and only records an issue; a trim replaces the string. */
  function RunChecks(s: string, checks: seq<StringCheck>, path: seq<string>): (out: (string, Issues))
    ensures out.0 == (if HasTrim(checks) then Trim(s) else s)
    ensures |out.1| <= |checks|
    ensures forall k :: 0 <= k < |out.1| ==> out.1[k].path == path && out.1[k].code.TooSmall?
    ensures (forall i :: 0 <= i < |checks| ==> checks[i].TrimValue?) ==> out.1 == []
    decreases |checks|
  {
    if |checks| == 0 then (s, [])
    else
      HasTrimCons(checks);
      match checks[0]
      case MinLength(n, msg) =>
        var rest := RunChecks(s, checks[1..], path);
        (rest.0, (if |s| < n then [Issue(path, TooSmall(n, msg))] else []) + rest.1)
      case TrimValue =>
        TrimIdempotent(s);
        RunChecks(Trim(s), checks[1..], path)
  }

  /** No check reports an issue exactly when every length check passes on the string it sees. */
  lemma {:induction false} RunChecksPassIff(s: string, checks: seq<StringCheck>, path: seq<string>)
    ensures RunChecks(s, checks, path).1 == [] <==>
              forall i :: 0 <= i < |checks| && checks[i].MinLength? ==> checks[i].minimum <= |SeenBy(s, checks, i)|
    decreases |checks|
  {
    if |checks| > 0 {
      var tail := checks[1..];
      assert !HasTrim(checks[..0]);
      forall i | 0 <= i < |tail|
        ensures checks[..i + 1][1..] == tail[..i]
      {
      }
      forall i | 0 <= i < |tail|
        ensures HasTrim(checks[..i + 1]) <==> checks[0].TrimValue? || HasTrim(tail[..i])
      {
        HasTrimCons(checks[..i + 1]);
      }
      match checks[0]
      case MinLength(n, msg) =>
        RunChecksPassIff(s, tail, path);
        assert forall i :: 0 <= i < |tail| ==> SeenBy(s, checks, i + 1) == SeenBy(s, tail, i);
      case TrimValue =>
        TrimIdempotent(s);
        RunChecksPassIff(Trim(s), tail, path);
        assert forall i :: 0 <= i < |tail| ==> SeenBy(s, checks, i + 1) == SeenBy(Trim(s), tail, i);
    }
  }

  /** Running two lists of checks one after the other is running their concatenation: the
      second list sees the first list's string, and the issues come in check order. */
  lemma {:induction false} RunChecksAppend(s: string, a: seq<StringCheck>, b: seq<StringCheck>, path: seq<string>)
    ensures var first := RunChecks(s, a, path);
            var second := RunChecks(first.0, b, path);
            RunChecks(s, a + b, path) == (second.0, first.1 + second.1)
    decreases |a|
  {
    if |a| == 0 {
      assert a + b == b;
      assert [] + RunChecks(s, b, path).1 == RunChecks(s, b, path).1;
    } else {
      assert (a + b)[0] == a[0];
      assert (a + b)[1..] == a[1..] + b;
      match a[0]
      case MinLength(n, msg) =>
        RunChecksAppend(s, a[1..], b, path);
        var issue := if |s| < n then [Issue(path, TooSmall(n, msg))] else [];
        var first := RunChecks(s, a[1..], path);
        var second := RunChecks(first.0, b, path);
        assert issue + (first.1 + second.1) == (issue + first.1) + second.1;
      case TrimValue =>
        RunChecksAppend(Trim(s), a[1..], b, path);
    }
  }

  /** The create schema's checks in their chained order: the length test sees the raw string,
      the value that comes out is the trimmed one. */
  lemma {:induction false} CreateTextChecksOutcome(s: string, path: seq<string>)
    ensures RunChecks(s, CreateTextChecks, path)
         == (Trim(s), if s == "" then [Issue(path, TooSmall(1, EmptyTextMessage))] else [])
  {
    assert CreateTextChecks[0] == MinLength(1, EmptyTextMessage);
    assert CreateTextChecks[1..] == [TrimValue];
    assert [TrimValue][1..] == [];
    var rest := RunChecks(s, CreateTextChecks[1..], path);
    assert rest == (Trim(s), []);
    var issues := if |s| < 1 then [Issue(path, TooSmall(1, EmptyTextMessage))] else [];
    assert RunChecks(s, CreateTextChecks, path) == (rest.0, issues + rest.1);
    assert issues + [] == issues;
  }

  /** A zod string schema with refinements: the type test, then the checks. */
  function ParseString(v: Value, checks: seq<StringCheck>, path: seq<string>): (r: Result<string, Issues>)
    ensures r.Err? ==> |r.error| >= 1
    ensures !v.Str? ==> r == Err([Issue(path, InvalidType(KString, KindOf(v)))])
  {
    if !v.Str? then Err([Issue(path, InvalidType(KString, KindOf(v)))])
    else
      var out := RunChecks(v.s, checks, path);
      if out.1 == [] then Ok(out.0) else Err(out.1)
  }

  /** `z.number()`. */
  function ParseNumber(v: Value, path: seq<string>): (r: Result<int, Issues>)
    ensures r.Ok? <==> v.Number?
    ensures r.Ok? ==> r.value == v.n
  {
    if v.Number? then Ok(v.n) else Err([Issue(path, InvalidType(KNumber, KindOf(v)))])
  }

  /** `z.boolean()`. */
  function ParseBool(v: Value, path: seq<string>): (r: Result<bool, Issues>)
    ensures r.Ok? <==> v.Bool?
    ensures r.Ok? ==> r.value == v.b
  {
    if v.Bool? then Ok(v.b) else Err([Issue(path, InvalidType(KBoolean, KindOf(v)))])
  }

  /** The time value of a `Date` built from `t`: out-of-range values make an invalid date. */
  function TimeClip(t: int): Option<int> {
    if -MaxTime <= t <= MaxTime then Some(t) else None
  }

  /** `new Date(v)`, as `z.coerce.date()` does before checking the date is valid.
      Strings go through the host's date parser, which is a parameter here; an object other
      than a `Date` becomes the string "[object Object]" first. */
  function CoerceDate(v: Value, parseDate: string -> Option<int>): (r: Option<int>)
    ensures r.Some? ==> -MaxTime <= r.value <= MaxTime
    ensures v.Undefined? ==> r == None
    ensures v.Null? ==> r == Some(0)
    ensures v.Bool? ==> r == Some(if v.b then 1 else 0)
    ensures v.Number? ==> (r.Some? <==> -MaxTime <= v.n <= MaxTime)
    ensures v.Number? && r.Some? ==> r.value == v.n
    ensures v.Date? ==> (r.Some? <==> -MaxTime <= v.time <= MaxTime)
    ensures v.Date? && r.Some? ==> r.value == v.time
    ensures v.Str? ==> (r.Some? <==> parseDate(v.s).Some? && -MaxTime <= parseDate(v.s).value <= MaxTime)
    ensures v.Str? && r.Some? ==> r.value == parseDate(v.s).value
  {
    match v
    case Undefined => None
    case Null => Some(0)
    case Bool(b) => Some(if b then 1 else 0)
    case Number(n) => TimeClip(n)
    case Str(s) => if parseDate(s).Some? then TimeClip(parseDate(s).value) else None
    case Date(t) => TimeClip(t)
    case Object(_) =>
      var p := parseDate("[object Object]");
      if p.Some? then TimeClip(p.value) else None
  }

  /** `z.coerce.date()`. */
  function ParseDate(v: Value, parseDate: string -> Option<int>, path: seq<string>): (r: Result<int, Issues>)
    ensures r.Ok? <==> CoerceDate(v, parseDate).Some?
    ensures r.Ok? ==> r.value == CoerceDate(v, parseDate).value && -MaxTime <= r.value <= MaxTime
    ensures r.Err? ==> r.error == [Issue(path, InvalidDate)]
  {
    var d := CoerceDate(v, parseDate);
    if d.Some? then Ok(d.value) else Err([Issue(path, InvalidDate)])
  }

  /** The issue `z.object` reports for an input that is not an object. */
  function NotAnObject(raw: Value): Issues {
    [Issue([], InvalidType(KObject, KindOf(raw)))]
  }

  /** `createTaskInputSchema`: `text` must be a string of length at least 1 before trimming;
      the accepted value is the trimmed string. Unknown keys are dropped. */
  function ParseCreateTaskInput(raw: Value): (r: Result<CreateTaskInput, Issues>)
    ensures r.Ok? <==> raw.Object? && Field(raw, "text").Str? && Field(raw, "text").s != ""
    ensures r.Ok? ==> r.value.text == Trim(Field(raw, "text").s) && IsTrimmed(r.value.text)
    ensures raw.Object? && Field(raw, "text") == Str("") ==>
              r == Err([Issue(["text"], TooSmall(1, EmptyTextMessage))])
    ensures r.Err? ==> |r.error| >= 1
  {
    if !raw.Object? then Err(NotAnObject(raw))
    else
      var v := Field(raw, "text");
      var text := ParseString(v, CreateTextChecks, ["text"]);
      CreateTextChecksOutcome(if v.Str? then v.s else "", ["text"]);
      if text.Ok? then Ok(CreateTaskInput(text.value)) else Err(text.error)
  }

  /** `updateTaskInputSchema`: a numeric `id` and a boolean `completed`. Both fields are
      checked and all their issues reported; whether a row has that id is not checked here. */
  function ParseUpdateTaskInput(raw: Value): (r: Result<UpdateTaskInput, Issues>)
    ensures r.Ok? <==> raw.Object? && Field(raw, "id").Number? && Field(raw, "completed").Bool?
    ensures r.Ok? ==> r.value == UpdateTaskInput(Field(raw, "id").n, Field(raw, "completed").b)
    ensures r.Err? && raw.Object? ==>
              |r.error| == (if Field(raw, "id").Number? then 0 else 1)
                         + (if Field(raw, "completed").Bool? then 0 else 1)
  {
    if !raw.Object? then Err(NotAnObject(raw))
    else
      var id := ParseNumber(Field(raw, "id"), ["id"]);
      var completed := ParseBool(Field(raw, "completed"), ["completed"]);
      if id.Ok? && completed.Ok? then Ok(UpdateTaskInput(id.value, completed.value))
      else Err(IssuesOf(id) + IssuesOf(completed))
  }

  /** `deleteTaskInputSchema`: only a numeric `id`; whether a row has it is not checked here. */
  function ParseDeleteTaskInput(raw: Value): (r: Result<DeleteTaskInput, Issues>)
    ensures r.Ok? <==> raw.Object? && Field(raw, "id").Number?
    ensures r.Ok? ==> r.value == DeleteTaskInput(Field(raw, "id").n)
    ensures r.Err? ==> |r.error| == 1
  {
    if !raw.Object? then Err(NotAnObject(raw))
    else
      var id := ParseNumber(Field(raw, "id"), ["id"]);
      if id.Ok? then Ok(DeleteTaskInput(id.value)) else Err(id.error)
  }

  /** `taskSchema`: the five fields, the two timestamps coerced to dates. */
  function ParseTask(raw: Value, parseDate: string -> Option<int>): (r: Result<Task, Issues>)
    ensures r.Ok? <==>
              && raw.Object?
              && Field(raw, "id").Number? && Field(raw, "text").Str? && Field(raw, "completed").Bool?
              && CoerceDate(Field(raw, "created_at"), parseDate).Some?
              && CoerceDate(Field(raw, "updated_at"), parseDate).Some?
    ensures r.Err? ==> |r.error| >= 1
    ensures r.Ok? ==>
              && raw.Object?
              && Field(raw, "id") == Number(r.value.id)
              && Field(raw, "text") == Str(r.value.text)
              && Field(raw, "completed") == Bool(r.value.completed)
              && CoerceDate(Field(raw, "created_at"), parseDate) == Some(r.value.created_at)
              && CoerceDate(Field(raw, "updated_at"), parseDate) == Some(r.value.updated_at)
  {
    if !raw.Object? then Err(NotAnObject(raw))
    else
      var id := ParseNumber(Field(raw, "id"), ["id"]);
      var text := ParseString(Field(raw, "text"), [], ["text"]);
      var completed := ParseBool(Field(raw, "completed"), ["completed"]);
      var created := ParseDate(Field(raw, "created_at"), parseDate, ["created_at"]);
      var updated := ParseDate(Field(raw, "updated_at"), parseDate, ["updated_at"]);
      if id.Ok? && text.Ok? && completed.Ok? && created.Ok? && updated.Ok? then
        Ok(Task(id.value, text.value, completed.value, created.value, updated.value))
      else
        Err(IssuesOf(id) + IssuesOf(text) + IssuesOf(completed) + IssuesOf(created) + IssuesOf(updated))
  }

  /** The boundary shape of a task: an object whose timestamps are `Date` instances. */
  function TaskToValue(t: Task): Value {
    Object(map["id" := Number(t.id), "text" := Str(t.text), "completed" := Bool(t.completed),
               "created_at" := Date(t.created_at), "updated_at" := Date(t.updated_at)])
  }

  function CreateInputToValue(c: CreateTaskInput): Value {
    Object(map["text" := Str(c.text)])
  }

  function UpdateInputToValue(u: UpdateTaskInput): Value {
    Object(map["id" := Number(u.id), "completed" := Bool(u.completed)])
  }

  function DeleteInputToValue(d: DeleteTaskInput): Value {
    Object(map["id" := Number(d.id)])
  }

  /** A task whose timestamps a `Date` can hold survives serialisation and `taskSchema`. */
  lemma TaskRoundTrip(t: Task, parseDate: string -> Option<int>)
    requires -MaxTime <= t.created_at <= MaxTime && -MaxTime <= t.updated_at <= MaxTime
    ensures ParseTask(TaskToValue(t), parseDate) == Ok(t)
  {
    var raw := TaskToValue(t);
    assert Field(raw, "id") == Number(t.id);
    assert Field(raw, "text") == Str(t.text);
    assert Field(raw, "completed") == Bool(t.completed);
    assert Field(raw, "created_at") == Date(t.created_at);
    assert Field(raw, "updated_at") == Date(t.updated_at);
  }

  /** `taskSchema` reads only its five keys: any other property is dropped. */
  lemma ParseTaskIgnoresUnknownKeys(raw: Value, extra: map<string, Value>, parseDate: string -> Option<int>)
    requires raw.Object?
    requires forall k :: k in extra ==> k !in {"id", "text", "completed", "created_at", "updated_at"}
    ensures ParseTask(Object(raw.fields + extra), parseDate) == ParseTask(raw, parseDate)
  {
    var raw' := Object(raw.fields + extra);
    assert Field(raw', "id") == Field(raw, "id");
    assert Field(raw', "text") == Field(raw, "text");
    assert Field(raw', "completed") == Field(raw, "completed");
    assert Field(raw', "created_at") == Field(raw, "created_at");
    assert Field(raw', "updated_at") == Field(raw, "updated_at");
  }

  /** The empty string fails the length check, with the schema's own message. */
  lemma EmptyTextRejected()
    ensures ParseCreateTaskInput(CreateInputToValue(CreateTaskInput("")))
         == Err([Issue(["text"], TooSmall(1, EmptyTextMessage))])
  {
    assert Field(CreateInputToValue(CreateTaskInput("")), "text") == Str("");
  }

  /** The length check runs before the trim, so a whitespace-only text of length at least 1
      is accepted and becomes the empty string. */
  lemma WhitespaceOnlyAcceptedAsEmpty(s: string)
    requires s != "" && IsBlank(s)
    ensures ParseCreateTaskInput(CreateInputToValue(CreateTaskInput(s))) == Ok(CreateTaskInput(""))
  {
    assert Field(CreateInputToValue(CreateTaskInput(s)), "text") == Str(s);
    TrimEmptyIffBlank(s);
  }

  /** Had the trim been chained before the length check, the same input would be rejected:
      the order of the refinements is what lets whitespace-only text through. */
  lemma {:induction false} CheckOrderDecidesBlankText(s: string)
    requires s != "" && IsBlank(s)
    ensures RunChecks(s, CreateTextChecks, ["text"]) == ("", [])
    ensures RunChecks(s, [TrimValue, MinLength(1, EmptyTextMessage)], ["text"]).1
         == [Issue(["text"], TooSmall(1, EmptyTextMessage))]
  {
    TrimEmptyIffBlank(s);
    CreateTextChecksOutcome(s, ["text"]);
    var swapped := [TrimValue, MinLength(1, EmptyTextMessage)];
    assert swapped[1..] == [MinLength(1, EmptyTextMessage)];
    assert [MinLength(1, EmptyTextMessage)][1..] == [];
  }

  /** Re-validating an accepted create value gives it back unchanged exactly when its text is
      non-empty; the text of every accepted value is already trimmed, and trimming is idempotent. */
  lemma CreateRevalidation(c: CreateTaskInput)
    ensures ParseCreateTaskInput(CreateInputToValue(c)) == Ok(c) <==> c.text != "" && IsTrimmed(c.text)
  {
    assert Field(CreateInputToValue(c), "text") == Str(c.text);
    TrimFixedPoints(c.text);
  }

  /** Every raw create input the schema accepts with non-empty text is a fixed point of the
      schema after one pass. */
  lemma CreateParseIdempotent(raw: Value)
    requires ParseCreateTaskInput(raw).Ok? && ParseCreateTaskInput(raw).value.text != ""
    ensures ParseCreateTaskInput(CreateInputToValue(ParseCreateTaskInput(raw).value)) == ParseCreateTaskInput(raw)
  {
    CreateRevalidation(ParseCreateTaskInput(raw).value);
  }

  /** Every update input survives serialisation and `updateTaskInputSchema`. */
  lemma UpdateInputRoundTrip(u: UpdateTaskInput)
    ensures ParseUpdateTaskInput(UpdateInputToValue(u)) == Ok(u)
  {
    assert Field(UpdateInputToValue(u), "id") == Number(u.id);
    assert Field(UpdateInputToValue(u), "completed") == Bool(u.completed);
  }

  /** Every delete input survives serialisation and `deleteTaskInputSchema`. */
  lemma DeleteInputRoundTrip(d: DeleteTaskInput)
    ensures ParseDeleteTaskInput(DeleteInputToValue(d)) == Ok(d)
  {
    assert Field(DeleteInputToValue(d), "id") == Number(d.id);
  }
}
