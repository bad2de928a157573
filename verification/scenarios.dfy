/** The behaviour the repository's handler tests check (server/src/tests), stated for every
    input of the same shape instead of the tests' sample values. Each test starts from a
    fresh database or, where the property does not depend on it, from any valid table. */
module Scenarios {
  import opened Results
  import opened Strings
  import opened Schema
  import opened Rows
  import opened Ordering
  import opened TaskTable
  import opened Handlers

  /** Inserting one row keeps the table valid and makes its id selectable as exactly that row. */
  lemma InsertedRowSelectable(st: Store, nt: NewTask)
    requires Valid(st)
    ensures var ins := Insert(st, nt);
            && Valid(ins.store)
            && Where(ins.store.rows, ins.out.id) == [ins.out]
            && Find(ins.store.rows, ins.out.id) == Some(ins.out)
  {
    var ins := Insert(st, nt);
    InsertKeepsValid(st, nt);
    var k := |ins.store.rows| - 1;
    assert ins.store.rows[k] == ins.out;
    WhereUnique(ins.store.rows, ins.out.id);
    FindUnique(ins.store.rows, k);
  }

  /** Insert a task, then set its `completed`: the answer is the inserted row with the new
      value and a strictly later `updated_at`, and selecting its id gives exactly that row. */
  lemma InsertThenUpdate(st: Store, nt: NewTask, completed: bool)
    requires Valid(st)
    ensures var ins := Insert(st, nt);
            var u := UpdateTask(ins.store, UpdateTaskInput(ins.out.id, completed));
            && u.out == Ok(ins.out.(completed := completed, updated_at := u.store.clock))
            && u.store.clock > ins.out.updated_at
            && Where(u.store.rows, ins.out.id) == [u.out.value]
  {
    var ins := Insert(st, nt);
    InsertKeepsValid(st, nt);
    var k := |st.rows|;
    assert ins.store.rows[k] == ins.out;
    UpdateStoredRow(ins.store, k, completed);
    var u := UpdateTask(ins.store, UpdateTaskInput(ins.out.id, completed));
    assert u.store.rows[k] == u.out.value;
    WhereUnique(u.store.rows, ins.out.id);
  }

  /** Insert an incomplete task, mark it completed: the answer has the same id and text and
      is completed; selecting the id afterwards gives exactly one row, completed, whose
      `updated_at` is strictly later than at insert. */
  lemma UpdateMarksCompleted(st: Store, text: string)
    requires Valid(st)
    ensures var ins := Insert(st, NewTask(text, Some(false)));
            var u := UpdateTask(ins.store, UpdateTaskInput(ins.out.id, true));
            && u.out.Ok?
            && u.out.value.id == ins.out.id && u.out.value.text == text && u.out.value.completed
            && var selected := Where(u.store.rows, ins.out.id);
               && |selected| == 1 && selected[0].completed
               && selected[0].updated_at > ins.out.updated_at
  {
    InsertThenUpdate(st, NewTask(text, Some(false)), true);
  }

  /** Insert a completed task, mark it incomplete: the answer is incomplete, text unchanged. */
  lemma UpdateMarksIncomplete(st: Store, text: string)
    requires Valid(st)
    ensures var ins := Insert(st, NewTask(text, Some(true)));
            var u := UpdateTask(ins.store, UpdateTaskInput(ins.out.id, false));
            && u.out.Ok? && !u.out.value.completed && u.out.value.text == text
  {
    InsertThenUpdate(st, NewTask(text, Some(true)), false);
  }

  /** Updating an id no row has (999 on a fresh database, say) fails, leaves the table as it
      was, and the message names the id and says "not found". */
  lemma UpdateMissingNotFound(st: Store, id: int, completed: bool)
    requires id !in Ids(st.rows)
    ensures UpdateTask(st, UpdateTaskInput(id, completed)) == Step(st, Err(NotFound(id)))
    ensures var m := NotFoundMessage(id); m[|m| - 10..] == " not found"
  {
    NotFoundMessageIdentifiesId(id, id);
  }

  /** Insert a task and delete it: selecting its id yields nothing. */
  lemma DeleteRemovesTask(st: Store, text: string)
    requires Valid(st)
    ensures var ins := Insert(st, NewTask(text, Some(false)));
            var gone := DeleteTask(ins.store, DeleteTaskInput(ins.out.id));
            Where(gone.rows, ins.out.id) == []
  {
    var ins := Insert(st, NewTask(text, Some(false)));
    InsertKeepsValid(st, NewTask(text, Some(false)));
    var gone := DeleteTask(ins.store, DeleteTaskInput(ins.out.id));
    DeleteKeepsValid(ins.store, DeleteTaskInput(ins.out.id));
    WhereUnique(gone.rows, ins.out.id);
  }

  /** Deleting an id no row has (999 on a fresh database, say) changes nothing and raises
      nothing. */
  lemma DeleteMissingIsNoop(st: Store, id: int)
    requires id !in Ids(st.rows)
    ensures DeleteTask(st, DeleteTaskInput(id)) == st
  {
  }

  /** Deleting the middle one of three stored rows leaves the first and the third, in order. */
  lemma DeleteMiddleOfThree(st: Store)
    requires Valid(st) && |st.rows| == 3
    ensures DeleteTask(st, DeleteTaskInput(st.rows[1].id)).rows == [st.rows[0], st.rows[2]]
  {
    DeleteRemovesOneRow(st, 1);
    assert st.rows[..1] + st.rows[2..] == [st.rows[0], st.rows[2]];
  }

  /** Insert three tasks in one statement and delete the middle one: exactly the first and
      the third remain, in that order, and the deleted id is gone. */
  lemma DeleteOnlySpecified(a: NewTask, b: NewTask, c: NewTask)
    ensures var ins := InsertMany(EmptyStore, [a, b, c]);
            var gone := DeleteTask(ins.store, DeleteTaskInput(ins.out[1].id));
            && gone.rows == [ins.out[0], ins.out[2]]
            && gone.rows[0].text == a.text && gone.rows[1].text == c.text
            && ins.out[1].id !in Ids(gone.rows)
  {
    var ins := InsertMany(EmptyStore, [a, b, c]);
    InsertManyKeepsValid(EmptyStore, [a, b, c]);
    DeleteMiddleOfThree(ins.store);
  }

  /** The listing is empty exactly when the table is: a fresh database lists nothing. */
  lemma ListEmpty(st: Store)
    ensures GetTasks(st) == [] <==> st.rows == []
    ensures GetTasks(EmptyStore) == []
  {
    GetTasksMembers(st);
    GetTasksMembers(EmptyStore);
  }

  /** Three tasks inserted in one statement are all listed, texts and `completed` values as
      inserted. */
  lemma ListAllInserted(a: NewTask, b: NewTask, c: NewTask)
    ensures var ins := InsertMany(EmptyStore, [a, b, c]);
            var listed := GetTasks(ins.store);
            && |listed| == 3
            && (forall k :: 0 <= k < 3 ==> ins.out[k] in listed)
            && (forall k :: 0 <= k < 3 ==>
                  ins.out[k].text == [a, b, c][k].text
                  && ins.out[k].completed == [a, b, c][k].completed.GetOr(false))
  {
    var ins := InsertMany(EmptyStore, [a, b, c]);
    assert ins.store.rows == ins.out;
    GetTasksMembers(ins.store);
    forall k | 0 <= k < 3 ensures ins.out[k] in GetTasks(ins.store) {
      assert ins.out[k] in ins.store.rows;
    }
  }

  /** A completed and an incomplete task inserted together are both listed, each with the
      `completed` value and text it was inserted with. */
  lemma ListCompletedPreserved(done: string, open: string)
    ensures var ins := InsertMany(EmptyStore, [NewTask(done, Some(true)), NewTask(open, Some(false))]);
            var listed := GetTasks(ins.store);
            && |listed| == 2
            && (exists t :: t in listed && t.completed && t.text == done)
            && (exists t :: t in listed && !t.completed && t.text == open)
  {
    var ins := InsertMany(EmptyStore, [NewTask(done, Some(true)), NewTask(open, Some(false))]);
    GetTasksMembers(ins.store);
    assert ins.out[0] in ins.store.rows && ins.out[1] in ins.store.rows;
  }

  /** Three single inserts, each a later statement than the one before: the listing starts
      with the newest, then the middle, then the oldest, followed by what was listed before. */
  lemma ListNewestFirst(st: Store, a: string, b: string, c: string)
    requires Valid(st)
    ensures var s1 := Insert(st, NewTask(a, Some(false)));
            var s2 := Insert(s1.store, NewTask(b, Some(true)));
            var s3 := Insert(s2.store, NewTask(c, Some(false)));
            GetTasks(s3.store) == [s3.out, s2.out, s1.out] + GetTasks(st)
  {
    var s1 := Insert(st, NewTask(a, Some(false)));
    var s2 := Insert(s1.store, NewTask(b, Some(true)));
    InsertListedFirst(st, NewTask(a, Some(false)));
    InsertListedFirst(s1.store, NewTask(b, Some(true)));
    InsertListedFirst(s2.store, NewTask(c, Some(false)));
  }

  /** Tasks inserted one statement at a time, as a loop over texts does. */
  method InsertEach(st: Store, texts: seq<string>) returns (st': Store)
    requires Valid(st)
    ensures Valid(st')
    ensures |st'.rows| == |st.rows| + |texts|
    ensures st'.rows[..|st.rows|] == st.rows
    ensures forall k :: 0 <= k < |texts| ==>
              st'.rows[|st.rows| + k].text == texts[k] && !st'.rows[|st.rows| + k].completed
  {
    st' := st;
    var added: seq<Task> := [];
    while |added| < |texts|
      invariant |added| <= |texts|
      invariant Valid(st')
      invariant st'.rows == st.rows + added
      invariant forall j :: 0 <= j < |added| ==> added[j].text == texts[j] && !added[j].completed
    {
      var ins := Insert(st', NewTask(texts[|added|], Some(false)));
      InsertKeepsValid(st', NewTask(texts[|added|], Some(false)));
      added := added + [ins.out];
      st' := ins.store;
    }
    assert st'.rows[..|st.rows|] == st.rows;
  }

  /** Whatever the texts (punctuation, digits, any Unicode), each one inserted is listed
      verbatim. */
  method ListTextsVerbatim(texts: seq<string>) returns (listed: seq<Task>)
    ensures |listed| == |texts|
    ensures forall k :: 0 <= k < |texts| ==> exists t :: t in listed && t.text == texts[k]
  {
    var st := InsertEach(EmptyStore, texts);
    listed := GetTasks(st);
    GetTasksMembers(st);
    forall k | 0 <= k < |texts| ensures exists t :: t in listed && t.text == texts[k] {
      assert st.rows[k] in st.rows;
    }
  }
}
