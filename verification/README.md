# opti-list task store, modelled in Dafny

opti-list is a to-do list. A server keeps tasks in a single `tasks` table: a serial `id`,
the `text`, a `completed` flag, and the `created_at` and `updated_at` timestamps. A browser
client shows that list and keeps a local copy of it up to date. This project models:

- **the task record and the request schemas** (`Schema`, with `Raw` for untyped request
  values and `Strings` for JavaScript's `trim` and integer rendering). A zod schema becomes a
  function from a raw value to either a typed value or a non-empty list of issues. The
  string checks run in the order they are chained, so the length check on `text` sees the
  string before it is trimmed.
- **the table** (`TaskTable`, over the keyed-row helpers in `Rows`): rows, the serial
  sequence as `nextId`, and a logical clock in place of the wall clock. Each statement that
  stamps a time ticks the clock once, and every row that statement writes shares that time.
  `Valid` states the constraints:
  - `id` is a primary key;
  - every id was drawn from the sequence;
  - `created_at <= updated_at <= clock`.
- **the handlers** (`Handlers`):
  - create: an insert that uses the column defaults;
  - `updateTask`;
  - `getTasks`, which lists rows newest `created_at` first (`Ordering`);
  - delete.

  Each handler is one atomic step from one store to the next.
- **the service** (`Service`): each request is validated by its schema and then handled.
  `Service.Run` models a sequence of requests.
- **the behaviour the handler tests check** (`Scenarios`), stated for all inputs of the
  tests' shapes.
- **the client reducers** (`Client`): what the add form sends; how the list changes on each
  reply from the server; the completed and remaining counts. The module also relates the
  client's list to the server's listing.

Two behaviours of the code a reader may not expect:

- **Whitespace-only text.** A task text made only of whitespace is not rejected. `min(1)`
  runs before `trim`, so `"   "` passes the check and is stored as `""`.
  - `Schema.WhitespaceOnlyAcceptedAsEmpty` and `Service.WhitespaceCreateStored` prove this.
  - `Schema.CheckOrderDecidesBlankText` shows that the other check order would reject the
    text.
  - Only the client's blank check (`Client.ClientBlocksWhatServerAccepts`) keeps such a text
    from being sent.
- **Delete.** The delete handler's body is not part of this model. Its behaviour is taken
  from its tests: rows with the id are removed, and a missing id is not an error.

## Model

| member | source | states |
|---|---|---|
| Strings.Trim | server/src/schema.ts:17 | the result is a contiguous infix of the input, starting at the count of leading whitespace, with only whitespace removed on either side, and neither end of the result is whitespace |
| Strings.LeadingBlanks | server/src/schema.ts:17 | the longest whitespace prefix: every character before the count is whitespace, and the one at the count is not |
| Strings.TrailingBlanks | server/src/schema.ts:17 | the longest whitespace suffix: every character after the cut is whitespace, and the one before it is not |
| Strings.TrimFixedPoints | server/src/schema.ts:17 | trimming leaves a string unchanged exactly when it has no whitespace at either end |
| Strings.TrimIdempotent | server/src/schema.ts:17 | trimming twice is trimming once |
| Strings.TrimEmptyIffBlank | server/src/schema.ts:17 | a string trims to "" exactly when every character is whitespace |
| Strings.TrimNonBlank | client/src/App.tsx:35 | a string that is not all whitespace trims to a non-empty string |
| Strings.NatToString | server/src/handlers/update_task.ts:20 | the rendering of a natural number is a non-empty run of decimal digits with no leading zero |
| Strings.NatToStringRoundTrip | server/src/handlers/update_task.ts:20 | reading the digits back gives the number |
| Strings.NatToStringInjective | server/src/handlers/update_task.ts:20 | different naturals render differently |
| Strings.IntToString | server/src/handlers/update_task.ts:20 | an integer renders with a leading minus sign exactly when it is negative |
| Strings.IntToStringDigits | server/src/handlers/update_task.ts:20 | after the sign, an integer renders as the decimal digits of its magnitude, with no leading zero, reading back to the magnitude |
| Strings.IntToStringInjective | server/src/handlers/update_task.ts:20 | different ids render differently |
| Schema.RunChecks | server/src/schema.ts:17 | the value that comes out is the trimmed string when any trim is chained and the input otherwise; every issue is a "too small" issue at the field's path; at most one issue per check, and trims alone never report any |
| Schema.RunChecksPassIff | server/src/schema.ts:17 | no issue is reported exactly when every length check passes on the string it sees, which is the trimmed string once an earlier check has trimmed it |
| Schema.RunChecksAppend | server/src/schema.ts:17 | running two chains one after the other is running their concatenation: the second sees the string the first left, and the issues come in check order |
| Schema.CreateTextChecksOutcome | server/src/schema.ts:17 | `min(1, "Task text cannot be empty").trim()` gives the trimmed string, and reports exactly one "too small" issue with that message when the raw string is empty |
| Schema.ParseString | server/src/schema.ts:7 | a non-string fails with one "expected string" issue naming what it received; a failure always has an issue |
| Schema.ParseNumber | server/src/schema.ts:24 | accepted exactly when the value is a number, and the number is returned as is |
| Schema.ParseBool | server/src/schema.ts:25 | accepted exactly when the value is a boolean, and it is returned as is |
| Schema.CoerceDate | server/src/schema.ts:9-10 | `new Date(v)`: undefined is invalid, null is time 0, a boolean is 0 or 1; a number, a `Date` and a parsed string keep their value and are valid exactly when it is within ±8.64e15 ms |
| Schema.ParseDate | server/src/schema.ts:9-10 | a date field is accepted exactly when coercion yields a valid date, with that date's value; otherwise it fails with one invalid-date issue at the field's path |
| Schema.ParseCreateTaskInput | server/src/schema.ts:16-18 | accepted exactly when `text` is a non-empty string; the accepted text is the trimmed raw text; an empty text fails with exactly "Task text cannot be empty"; every failure has an issue |
| Schema.ParseUpdateTaskInput | server/src/schema.ts:23-26 | accepted exactly when `id` is a number and `completed` a boolean, with those values; a failure reports one issue per bad field; existence of the row is not checked |
| Schema.ParseDeleteTaskInput | server/src/schema.ts:31-33 | accepted exactly when `id` is a number, with that value; a failure reports one issue |
| Schema.ParseTask | server/src/schema.ts:5-11 | accepted exactly when the input is an object with a numeric `id`, a string `text`, a boolean `completed` and two coercible dates; an accepted task takes its five values from those fields; a failure carries at least one issue |
| Schema.TaskRoundTrip | server/src/schema.ts:5-11 | a task with in-range timestamps, sent as an object with exactly its five fields, parses back to itself |
| Schema.ParseTaskIgnoresUnknownKeys | server/src/schema.ts:5 | extra keys do not change what the task schema accepts or returns |
| Schema.EmptyTextRejected | server/src/schema.ts:17 | creating with text "" fails with the single issue "Task text cannot be empty" |
| Schema.WhitespaceOnlyAcceptedAsEmpty | server/src/schema.ts:17 | a non-empty all-whitespace text is accepted and becomes "" |
| Schema.CheckOrderDecidesBlankText | server/src/schema.ts:17 | with the checks in source order a whitespace-only text passes, and with trim first it would be rejected |
| Schema.CreateRevalidation | server/src/schema.ts:16-18 | a create value validates to itself exactly when its text is non-empty and already trimmed |
| Schema.CreateParseIdempotent | server/src/schema.ts:17 | re-validating an accepted create value with non-empty text returns it unchanged |
| Schema.UpdateInputRoundTrip | server/src/schema.ts:23-26 | every update input, sent as an object, validates to itself |
| Schema.DeleteInputRoundTrip | server/src/schema.ts:31-33 | every delete input, sent as an object, validates to itself |
| Rows.Find | server/src/handlers/update_task.ts:15-23 | a row is found exactly when some row has the id, and what is found is a stored row with that id |
| Rows.FindUnique | server/src/db/schema.ts:5 | under a primary key, finding a row's id gives that very row |
| Rows.Without | server/src/tests/delete_task.test.ts:14-44 | removing an id keeps exactly the rows with other ids, leaves no row with the id, and changes nothing when the id is absent |
| Rows.WithoutAppend | server/src/tests/delete_task.test.ts:46-71 | removal from a list split in two is the removal from each part, so the rows kept keep their relative order |
| Rows.WithoutCounts | server/src/tests/delete_task.test.ts:14-44 | every row without the id is kept as many times as it occurs, and rows with the id are gone |
| Rows.WithoutRemovesPosition | server/src/tests/delete_task.test.ts:46-71 | under a primary key, removing a stored row's id removes exactly its position, and the other rows keep their order |
| Rows.WithoutRemovesFirst | server/src/tests/delete_task.test.ts:46-71 | under a primary key, removing the first row's id leaves the rest |
| Rows.WithoutKeepsUnique | server/src/db/schema.ts:5 | removing rows keeps ids unique |
| Rows.Replace | client/src/App.tsx:53-57 | same length; every entry with the id becomes the new row, and every other entry stays at its position |
| Rows.ReplaceUnique | server/src/db/schema.ts:5 | under a primary key, replacing a stored row's id changes exactly that row's position |
| Rows.Where | server/src/tests/update_task.test.ts:64-67 | `SELECT … WHERE id = …` selects exactly the rows with the id, and together with the rows removed by id they account for every row |
| Rows.WhereUnique | server/src/tests/update_task.test.ts:63-70 | under a primary key, selecting an absent id gives nothing and selecting a stored id gives exactly its row |
| Ordering.NewestFirstPairwise | server/src/handlers/get_tasks.ts:12 | newest-first between neighbours implies newest-first between any two positions |
| Ordering.NewestFirstTail | server/src/handlers/get_tasks.ts:12 | a newest-first list stays newest first without its head |
| Ordering.InsertByCreated | server/src/handlers/get_tasks.ts:12 | inserting into a newest-first list keeps it newest first and adds exactly the one row |
| Ordering.SortNewestFirst | server/src/handlers/get_tasks.ts:10-15 | the result is newest first and a permutation of the rows |
| Ordering.NewestFirstUnique | server/src/handlers/get_tasks.ts:12 | with distinct `created_at` values, two newest-first permutations of the same rows are equal |
| Ordering.SortNewestRowFirst | server/src/tests/get_tasks.test.ts:49-80 | a row strictly newer than every other row is listed first, with the rest keeping their listed order |
| Ordering.WithoutNewestFirst | server/src/handlers/get_tasks.ts:12 | removing an id from a newest-first list keeps it newest first |
| Ordering.ConsNewestFirst | server/src/handlers/get_tasks.ts:12 | a row no older than the head of a newest-first list can go in front of it |
| Ordering.WithoutInsert | server/src/handlers/get_tasks.ts:12 | removing an id commutes with inserting a row in created order |
| Ordering.SortWithout | server/src/handlers/get_tasks.ts:10-15 | listing after a delete equals deleting from the listing |
| Ordering.ReplaceNewestFirst | server/src/handlers/update_task.ts:11-14 | replacing rows by one with the same `created_at` keeps a list newest first |
| Ordering.ReplaceInsert | server/src/handlers/update_task.ts:11-14 | replacing by id commutes with inserting in created order when `created_at` is kept |
| Ordering.SortReplace | server/src/handlers/update_task.ts:11-14 | listing after replacing a row by one with the same `created_at` equals replacing in the listing |
| TaskTable.NewRows | server/src/db/schema.ts:4-10 | the rows one statement inserts: consecutive serial ids, the given text, `completed` defaulting to false, both timestamps the statement's time |
| TaskTable.InsertMany | server/src/db/schema.ts:4-10 | a multi-row insert appends exactly the new rows, draws one id per row from the sequence, ticks the clock once, and gives every row the defaults and the same timestamps |
| TaskTable.Insert | server/src/db/schema.ts:4-10 | a single insert appends one row with the next id, the text, `completed` false unless supplied, and `created_at == updated_at ==` a later time; existing rows are unchanged |
| TaskTable.InsertManyKeepsValid | server/src/db/schema.ts:5 | an insert keeps the table valid, and no new id was already in use |
| TaskTable.InsertKeepsValid | server/src/db/schema.ts:5 | a single insert keeps the table valid with a fresh id |
| Handlers.NotFoundMessage | server/src/handlers/update_task.ts:20 | the message is "Task with id ", then the id as JavaScript renders it, then " not found" |
| Handlers.SetCompleted | server/src/handlers/update_task.ts:10-15 | every row with the id gets the new `completed` and `updated_at`, every other row keeps its position and value, and no row is added or removed |
| Handlers.NotFoundMessageIdentifiesId | server/src/handlers/update_task.ts:20 | the not-found message ends in " not found", and different ids give different messages |
| Handlers.CreateTask | server/src/db/schema.ts:4-10 | creating appends the validated text under the next id, not completed, stamped with a later time |
| Handlers.UpdateTask | server/src/handlers/update_task.ts:10-23 | fails with not-found, leaving the store unchanged, exactly when no row has the id; otherwise returns the stored row with the new `completed`, the same id, text and `created_at`, `updated_at` set to the new time, all other rows unchanged; under a primary key the matching row is replaced by the answer |
| Handlers.SetCompletedIsReplace | server/src/handlers/update_task.ts:10-17 | under a primary key, setting the two columns on the rows with a stored id replaces that one row by its updated copy |
| Handlers.UpdateStoredRow | server/src/handlers/update_task.ts:10-23 | updating the id of the row at a position answers that row with the new `completed` and the new time, puts the answer at that position and nowhere else, moves the clock past every stored time, and keeps the table valid |
| Handlers.FindAfterSet | server/src/handlers/update_task.ts:15-23 | the first row returned by the update is the first matching row before it, with the two columns set |
| Handlers.UpdateKeepsValid | server/src/handlers/update_task.ts:10-23 | an update keeps the table valid, and the new `updated_at` is strictly later than the row's previous one |
| Handlers.GetTasks | server/src/handlers/get_tasks.ts:10-15 | the listing is newest first and a permutation of the stored rows |
| Handlers.GetTasksMembers | server/src/handlers/get_tasks.ts:10-15 | a row is listed exactly when it is stored, as many rows as stored, and an empty table lists nothing |
| Handlers.InsertListedFirst | server/src/tests/get_tasks.test.ts:49-80 | a single insert into a valid table is listed first, followed by the earlier listing; this exact order is the source's only when no two `created_at` values tie (`Handlers.GetTasksDetermined`), since SQL may order ties either way |
| Handlers.CreateListedOnce | server/src/tests/get_tasks.test.ts:49-80 | a created task is listed first, ahead of the earlier listing, exactly once, and was not listed before; this exact order is the source's only when no two `created_at` values tie (`Handlers.GetTasksDetermined`), since SQL may order ties either way |
| Handlers.GetTasksDetermined | server/src/handlers/get_tasks.ts:12 | with distinct `created_at` values, every newest-first permutation of the rows is the listing |
| Handlers.DistinctElements | server/src/handlers/get_tasks.ts:12 | two positions of a permutation of rows with distinct `created_at` hold different `created_at` values |
| Handlers.CountOnce | server/src/handlers/get_tasks.ts:12 | a row of a list with distinct `created_at` values occurs in it once |
| Handlers.DeleteTask | server/src/tests/delete_task.test.ts:14-44 | after a delete no row has the id; exactly the rows with other ids remain; a missing id changes nothing; the sequence and clock are untouched |
| Handlers.DeleteIdempotent | server/src/tests/delete_task.test.ts:14-44 | deleting twice is deleting once |
| Handlers.DeleteRemovesOneRow | server/src/tests/delete_task.test.ts:46-71 | deleting a stored row removes exactly its position, and the other rows keep their order |
| Handlers.DeleteKeepsValid | server/src/db/schema.ts:5 | a delete keeps the table valid |
| Service.Handle | server/src/schema.ts:15-33 | a list answers the current listing and changes nothing; a create succeeds exactly when its input validates, an update exactly when its input validates and a row has the id, a delete exactly when its input validates; a validation failure answers the schema's issues and an update of an absent id answers not-found; a failed request leaves the store as it was; only a create draws the next id; the clock never goes back; what a successful request does to the store and answers is stated by `Service.HandleCreate`, `Service.HandleUpdateAny` and `Service.HandleDeleteAny` |
| Service.HandleKeepsValid | server/src/db/schema.ts:4-10 | every request keeps the table valid |
| Service.RunKeepsValid | server/src/db/schema.ts:4-10 | every run of requests keeps the table valid |
| Service.CreatedIdsIncrease | server/src/db/schema.ts:5 | ids created by a run strictly increase and lie between the sequence's values before and after the run |
| Service.IdNeverReissued | server/src/db/schema.ts:5 | an id any row had before a run, even one the run deletes, is never given to a task the run creates |
| Service.CreateThenList | server/src/db/schema.ts:4-10 | a created task has the trimmed text and is not completed, and the next listing shows it first and exactly once |
| Service.WhitespaceCreateStored | server/src/schema.ts:17 | creating with a non-empty all-whitespace text stores a task with text "" |
| Service.DeleteTwiceSucceeds | server/src/tests/delete_task.test.ts:14-44 | deleting the same id twice succeeds both times, and the second delete changes nothing |
| Service.UpdateMissingFails | server/src/handlers/update_task.ts:19-21 | updating an id no row has fails with not-found and leaves the store unchanged |
| Service.UpdateAfterDeleteFails | server/src/handlers/update_task.ts:19-21 | once an id is deleted, updating it fails with not-found |
| Service.HandleUpdate | server/src/schema.ts:23-26 | a request built from an update input does exactly what the update handler does with that input |
| Service.HandleUpdateAny | server/src/schema.ts:23-26 | any update request whose input validates leaves the store the update handler leaves and answers its row or its not-found |
| Service.HandleDeleteAny | server/src/schema.ts:31-33 | any delete request whose input validates removes exactly the rows with the validated id, keeps the sequence and clock, and answers success |
| Service.HandleCreate | server/src/schema.ts:16-18 | any create request whose input validates leaves the store the create handler leaves with the validated (trimmed) text and answers the created task |
| Service.UpdateStored | server/src/handlers/update_task.ts:10-23 | an update request for the row at a position answers that row with the new `completed` and a strictly later `updated_at`, replaces it in place, and keeps the table valid |
| Service.CreateStored | server/src/db/schema.ts:4-10 | a create request appends one incomplete task with the trimmed text, a fresh id and equal timestamps later than the clock before, and keeps the table valid |
| Service.ToggleCycle | server/src/tests/update_task.test.ts:14-97 | create, complete, un-complete: each step keeps id and text, sets `completed`, and moves `updated_at` strictly forward |
| Scenarios.InsertedRowSelectable | server/src/tests/update_task.test.ts:16-24 | an inserted row is found, and selected as exactly itself, under its id |
| Scenarios.InsertThenUpdate | server/src/tests/update_task.test.ts:16-70 | after an insert, updating the new id answers the inserted row with the new `completed` and a strictly later `updated_at`, and selecting the id gives exactly that answer |
| Scenarios.UpdateMarksCompleted | server/src/tests/update_task.test.ts:14-73 | after inserting an incomplete task and completing it, the answer keeps id and text and is completed; selecting the id gives one completed row with a strictly later `updated_at` |
| Scenarios.UpdateMarksIncomplete | server/src/tests/update_task.test.ts:75-97 | un-completing a completed task answers it incomplete with the text unchanged |
| Scenarios.UpdateMissingNotFound | server/src/tests/update_task.test.ts:99-106 | updating any id no row has (999 on a fresh database among them) fails with not-found, leaving the table unchanged, and the message ends in " not found" |
| Scenarios.DeleteRemovesTask | server/src/tests/delete_task.test.ts:14-37 | after inserting and deleting a task, selecting its id gives nothing |
| Scenarios.DeleteMissingIsNoop | server/src/tests/delete_task.test.ts:39-44 | deleting any id no row has (999 on a fresh database among them) changes nothing |
| Scenarios.DeleteMiddleOfThree | server/src/tests/delete_task.test.ts:46-71 | deleting the middle of three stored rows leaves the first and the third, in order |
| Scenarios.DeleteOnlySpecified | server/src/tests/delete_task.test.ts:46-71 | after a three-row insert, deleting the middle row leaves the first and third rows with their texts, and its id is gone |
| Scenarios.ListEmpty | server/src/tests/get_tasks.test.ts:13-17 | the listing is empty exactly when the table is, so a fresh database lists nothing |
| Scenarios.ListAllInserted | server/src/tests/get_tasks.test.ts:19-47 | after a three-row insert, three rows are listed, each inserted row among them with its text and `completed` value |
| Scenarios.ListCompletedPreserved | server/src/tests/get_tasks.test.ts:82-103 | a completed and an incomplete task inserted together are both listed with their own `completed` value and text |
| Scenarios.ListNewestFirst | server/src/tests/get_tasks.test.ts:49-80 | three single inserts in sequence are listed newest, middle, oldest, ahead of the earlier rows |
| Scenarios.InsertEach | server/src/tests/get_tasks.test.ts:115-119 | inserting texts one statement at a time keeps the table valid and appends one incomplete row per text, in order, with that text |
| Scenarios.ListTextsVerbatim | server/src/tests/get_tasks.test.ts:105-129 | whatever the texts, one row per text is listed, and each text is listed verbatim |
| Client.AddRequest | client/src/App.tsx:35-39 | nothing is sent exactly when the draft is all whitespace; otherwise the sent text is the trimmed draft, non-empty and trimmed |
| Client.HandleAdd | client/src/App.tsx:33-48 | a created task is appended at the end of the list and the draft cleared; a failed call or a blank draft changes nothing |
| Client.HandleToggle | client/src/App.tsx:50-61 | on success every entry with the id becomes the returned task and every other entry stays at its position; a failure changes nothing |
| Client.HandleDelete | client/src/App.tsx:63-70 | on success exactly the entries with other ids remain; a failure changes nothing (order and multiplicity: `Client.DeleteKeepsOrder`) |
| Client.DeleteKeepsOrder | client/src/App.tsx:66 | a successful delete splits over any cut of the list and drops a single entry exactly when it has the id, so every other entry stays, in its relative order and with its multiplicity |
| Client.DeleteRemovesPosition | client/src/App.tsx:66 | with unique ids, a successful delete removes exactly the position holding the id |
| Client.CountWhere | client/src/App.tsx:168-171 | a count is at most the total, zero exactly when no entry has the value, and the total exactly when every entry has it |
| Client.CountsAddUp | client/src/App.tsx:165-171 | completed plus remaining is the total |
| Client.CountAppend | client/src/App.tsx:168-171 | a count over two joined lists is the sum of the counts |
| Client.AddCounts | client/src/App.tsx:41 | adding a task the server created raises the remaining count by one and leaves the completed count as it was |
| Client.CountUpdate | client/src/App.tsx:168-171 | overwriting one entry moves that entry's contribution to a count from the old value to the new one |
| Client.ToggleCounts | client/src/App.tsx:53-57 | completing an incomplete entry moves one task from remaining to completed |
| Client.AddAcceptedByServer | client/src/App.tsx:39 | what the add form sends passes the server's create schema unchanged, so the created task's text is the trimmed, non-empty draft |
| Client.ClientBlocksWhatServerAccepts | client/src/App.tsx:35 | a non-empty all-whitespace draft sends nothing, though the server's schema would accept it and store "" |
| Client.ToggleMirrorsServer | client/src/App.tsx:53-57 | a client showing the server's listing still shows it after any update reply; this exact order is the source's only when no two `created_at` values tie (`Handlers.GetTasksDetermined`), since SQL may order ties either way |
| Client.DeleteMirrorsServer | client/src/App.tsx:66 | a client showing the server's listing still shows it after a successful delete; this exact order is the source's only when no two `created_at` values tie (`Handlers.GetTasksDetermined`), since SQL may order ties either way |
| Client.AddOrderDiverges | client/src/App.tsx:41 | after an add, the client shows the new task last while the server lists it first; both hold the same tasks, and on a non-empty table the orders differ |

## Left out

- Postgres, drizzle-orm and the database connection are replaced by the abstract table. The
  model gives standard `INSERT … RETURNING`, `UPDATE … WHERE id = … RETURNING`, `DELETE … WHERE
  id = …` and `SELECT … ORDER BY created_at DESC` semantics.
- Real time (`new Date()`, `defaultNow()`) is replaced by a logical clock that every stamping
  statement advances by one. That is why `updated_at` grows strictly. Wall-clock time can
  repeat, and the model does not cover that.
- Ties in `created_at`: SQL leaves their order open. `Ordering.SortNewestFirst` (an insertion
  sort) is one allowed order. `Handlers.GetTasks` promises only newest-first plus
  permutation. `Handlers.GetTasksDetermined` shows the order is forced when there are no
  ties. The row order of a plain `SELECT` and of `RETURNING` is taken as insertion order.
- `TaskTable.InsertMany` requires at least one row, because drizzle refuses an empty values
  list before it issues any statement.
- Inserts that supply their own `id` or timestamps are not modelled. Every insert shown in
  the code and tests lets the database fill them in.
- The create and delete handler bodies and the tRPC router file are not part of this model.
  `Service.Handle` assumes the usual wiring: each procedure validates its input with the
  matching schema, then calls its handler. `Handlers.CreateTask` is the insert the column
  defaults imply. `Handlers.DeleteTask` follows the delete tests.
- Promises, concurrency, and an update racing a delete are not modelled. Each operation is
  one atomic step.
- Logging and the catch-and-rethrow wrappers are left out. They do not change outcomes.
- The tRPC transport is left out. The client's server calls are parameters: the reply the
  server gave.
- React rendering, styling, the loading flags and date display are left out. So is
  `loadTasks`, which replaces the local list with a fresh listing.
- JavaScript numbers are modelled as integers. `z.number()` also accepts fractions, and it
  rejects NaN. Ids, and times in milliseconds, are integers in every case shown.
- Strings are sequences of code points. zod's `min(1)` counts UTF-16 code units. The two
  agree on whether a string is empty, which is the only length checked.
- Strings.NatToString: does not model JavaScript's exponent notation for magnitudes of 1e21
  and above. Such ids are far beyond the serial sequence.
- Schema.CoerceDate: the host's date-string parser is a parameter, not a model of the
  JavaScript date format.
- Arrays are not among the raw values. The three input schemas reject an array like any
  other non-matching value. `z.coerce.date()` in the task schema would instead hand it to
  `new Date`, which reads it through its string form (`[2020]` becomes the year 2020). The
  task schema's handling of arrays is not modelled.
- Handlers.UpdateTask: ids are unbounded integers here. The `id` column is a 32-bit
  `serial`, so Postgres rejects an id outside -2147483648..2147483647 with an out-of-range
  error. The model answers "not found" for such an id instead.
- TaskTable.Insert: the serial sequence has no upper bound here. Postgres' `serial`
  sequence stops at 2147483647, and the insert after that fails. The same holds for
  `TaskTable.InsertMany`, `Handlers.CreateTask` and `Service.Handle`.
- Scenarios.ListTextsVerbatim: the model stores every string verbatim. A Postgres `text`
  value cannot hold the character U+0000, so an insert of such a text fails. The same
  holds for `Handlers.CreateTask` and `Service.CreateStored`.
- Schema.ParseString: states the issue for a non-string and that failures carry an issue,
  not zod's exact issue wording. Issues are a datatype of codes, paths and the one custom
  message.
