/** The service operations over the table: create (an insert with the column defaults),
    `updateTask` (server/src/handlers/update_task.ts), `getTasks`
    (server/src/handlers/get_tasks.ts) and delete. Each is one atomic step of the store. */
module Handlers {
  import opened Results
  import opened Strings
  import opened Schema
  import opened Rows
  import opened Ordering
  import opened TaskTable

  /** A request whose input failed its schema, or an update of an id no row has. */
  datatype TaskError = ValidationError(issues: Issues) | NotFound(id: int)

  /** The message `updateTask` throws for a missing row. */
  function NotFoundMessage(id: int): (m: string)
    ensures |m| > 23 && m[..13] == "Task with id " && m[|m| - 10..] == " not found"
    ensures m[13..|m| - 10] == IntToString(id)
  {
    "Task with id " + IntToString(id) + " not found"
  }

  /** The message ends in "not found", and different ids give different messages. */
  lemma NotFoundMessageIdentifiesId(id: int, other: int)
    ensures var m := NotFoundMessage(id);
            |m| >= 10 && m[|m| - 10..] == " not found"
    ensures NotFoundMessage(id) == NotFoundMessage(other) ==> id == other
  {
    var prefix := "Task with id ";
    if NotFoundMessage(id) == NotFoundMessage(other) {
      var m := NotFoundMessage(id);
      var a, b := IntToString(id), IntToString(other);
      assert |a| == |b|;
      assert a == m[|prefix|..|prefix| + |a|];
      assert b == m[|prefix|..|prefix| + |b|];
      IntToStringInjective(id, other);
    }
  }

  /** Creating a task inserts the validated text and lets every other column take its
      default: a fresh serial id, `completed = false`, both timestamps now. */
  function CreateTask(st: Store, input: CreateTaskInput): (s: Step<Task>)
    ensures s.out == Task(st.nextId, input.text, false, s.store.clock, s.store.clock)
    ensures s.store.clock > st.clock
    ensures s.store == Store(st.rows + [s.out], st.nextId + 1, s.store.clock)
  {
    Insert(st, NewTask(input.text, None))
  }

  /** The table after `UPDATE tasks SET completed = $c, updated_at = $now WHERE id = $id`:
      every matching row gets the two columns, every other row is untouched. */
  function SetCompleted(rows: seq<Task>, id: int, completed: bool, now: int): (r: seq<Task>)
    ensures |r| == |rows|
    ensures forall i :: 0 <= i < |rows| && rows[i].id != id ==> r[i] == rows[i]
    ensures forall i :: 0 <= i < |rows| && rows[i].id == id ==>
              r[i] == rows[i].(completed := completed, updated_at := now)
  {
    seq(|rows|, i requires 0 <= i < |rows| =>
      if rows[i].id == id then rows[i].(completed := completed, updated_at := now) else rows[i])
  }

  /** `updateTask`: runs the update with `RETURNING *` and answers the first returned row, or
      fails with "not found" (leaving the table as it was) when no row matched. */
  function UpdateTask(st: Store, input: UpdateTaskInput): (s: Step<Result<Task, TaskError>>)
    ensures s.out.Err? <==> input.id !in Ids(st.rows)
    ensures s.out.Err? ==> s.store == st && s.out.error == NotFound(input.id)
    ensures s.out.Ok? ==>
              && Find(st.rows, input.id).Some?
              && var before := Find(st.rows, input.id).value;
                 var t := s.out.value;
                 && t.id == input.id && t.text == before.text && t.created_at == before.created_at
                 && t.completed == input.completed
                 && t.updated_at == s.store.clock && s.store.clock > st.clock
                 && Find(s.store.rows, input.id) == Some(t)
                 && s.store.nextId == st.nextId
                 && |s.store.rows| == |st.rows|
                 && (forall i :: 0 <= i < |st.rows| && st.rows[i].id != input.id ==>
                       s.store.rows[i] == st.rows[i])
                 && (UniqueIds(st.rows) ==> s.store.rows == Replace(st.rows, input.id, t))
  {
    var now := st.clock + 1;
    var rows := SetCompleted(st.rows, input.id, input.completed, now);
    var returned := Find(rows, input.id);
    FindAfterSet(st.rows, input.id, input.completed, now);
    SetCompletedIsReplace(st.rows, input.id, input.completed, now);
    if returned.None? then Step(st, Err(NotFound(input.id)))
    else Step(Store(rows, st.nextId, now), Ok(returned.value))
  }

  /** The first row with the id after the update is the first row with it before, with the
      two columns set. */
  lemma {:induction false} FindAfterSet(rows: seq<Task>, id: int, completed: bool, now: int)
    ensures var r := Find(SetCompleted(rows, id, completed, now), id);
            && r.Some? == Find(rows, id).Some?
            && (r.Some? ==> r.value == Find(rows, id).value.(completed := completed, updated_at := now))
  {
    if |rows| > 0 {
      var updated := SetCompleted(rows, id, completed, now);
      assert updated[1..] == SetCompleted(rows[1..], id, completed, now);
      FindAfterSet(rows[1..], id, completed, now);
    }
  }

  /** Under the primary key the update is the replacement of the one matching row by that
      row with the two columns set. */
  lemma SetCompletedIsReplace(rows: seq<Task>, id: int, completed: bool, now: int)
    ensures UniqueIds(rows) && Find(rows, id).Some? ==>
              SetCompleted(rows, id, completed, now)
              == Replace(rows, id, Find(rows, id).value.(completed := completed, updated_at := now))
  {
    if UniqueIds(rows) && Find(rows, id).Some? {
      var t := Find(rows, id).value.(completed := completed, updated_at := now);
      var updated := SetCompleted(rows, id, completed, now);
      var replaced := Replace(rows, id, t);
      forall i | 0 <= i < |rows| ensures updated[i] == replaced[i] {
        if rows[i].id == id {
          FindUnique(rows, i);
        }
      }
    }
  }

  /** Updating the row at position `k` of a valid table: the answer is that row with the new
      `completed` and a later `updated_at`, it takes the row's place and nothing else changes,
      and the table stays valid. */
  lemma UpdateStoredRow(st: Store, k: nat, completed: bool)
    requires Valid(st) && k < |st.rows|
    ensures var u := UpdateTask(st, UpdateTaskInput(st.rows[k].id, completed));
            && u.out == Ok(st.rows[k].(completed := completed, updated_at := u.store.clock))
            && u.store == Store(st.rows[k := u.out.value], st.nextId, u.store.clock)
            && u.store.clock > st.clock >= st.rows[k].updated_at
            && Valid(u.store)
  {
    var input := UpdateTaskInput(st.rows[k].id, completed);
    var u := UpdateTask(st, input);
    assert Ids(st.rows)[k] == input.id;
    FindUnique(st.rows, k);
    var t := u.out.value;
    assert t == st.rows[k].(completed := completed, updated_at := u.store.clock);
    ReplaceUnique(st.rows, k, t);
    SetRowKeepsValid(st, k, completed, u.store.clock);
  }

  /** Setting the two columns of one row of a valid table, at a later time, keeps it valid. */
  lemma SetRowKeepsValid(st: Store, k: nat, completed: bool, clock: int)
    requires Valid(st) && k < |st.rows| && clock > st.clock
    ensures st.clock >= st.rows[k].updated_at
    ensures Valid(Store(st.rows[k := st.rows[k].(completed := completed, updated_at := clock)], st.nextId, clock))
  {
    var rows := st.rows[k := st.rows[k].(completed := completed, updated_at := clock)];
    forall i | 0 <= i < |rows|
      ensures rows[i].id == st.rows[i].id
      ensures rows[i].created_at <= rows[i].updated_at <= clock
    {
      assert st.rows[i].created_at <= st.rows[i].updated_at <= st.clock;
    }
    SameIdsKeepValid(st, rows, clock);
  }

  /** Rows with the same ids position by position, and timestamps in order up to a later
      clock, form a valid table under the same sequence. */
  lemma SameIdsKeepValid(st: Store, rows: seq<Task>, clock: int)
    requires Valid(st) && |rows| == |st.rows|
    requires forall i :: 0 <= i < |rows| ==> rows[i].id == st.rows[i].id
    requires forall i :: 0 <= i < |rows| ==> rows[i].created_at <= rows[i].updated_at <= clock
    ensures Valid(Store(rows, st.nextId, clock))
  {
    assert UniqueIds(rows) by {
      forall i, j | 0 <= i < j < |rows| ensures rows[i].id != rows[j].id {
        assert st.rows[i].id != st.rows[j].id;
      }
    }
  }

  /** An update keeps the table valid, and the new `updated_at` is strictly later than the
      row's previous one. */
  lemma UpdateKeepsValid(st: Store, input: UpdateTaskInput)
    requires Valid(st)
    ensures Valid(UpdateTask(st, input).store)
    ensures UpdateTask(st, input).out.Ok? ==>
              UpdateTask(st, input).out.value.updated_at > Find(st.rows, input.id).value.updated_at
  {
    if input.id in Ids(st.rows) {
      var k :| 0 <= k < |st.rows| && Ids(st.rows)[k] == input.id;
      UpdateStoredRow(st, k, input.completed);
      FindUnique(st.rows, k);
    }
  }

  /** `getTasks`: every row, newest `created_at` first. */
  function GetTasks(st: Store): (r: seq<Task>)
    ensures NewestFirst(r)
    ensures multiset(r) == multiset(st.rows)
  {
    SortNewestFirst(st.rows)
  }

  /** The listing holds exactly the stored rows, unmodified: a row is listed iff it is stored. */
  lemma GetTasksMembers(st: Store)
    ensures |GetTasks(st)| == |st.rows|
    ensures forall t :: t in GetTasks(st) <==> t in st.rows
    ensures st.rows == [] ==> GetTasks(st) == []
  {
    var r := GetTasks(st);
    assert |r| == |multiset(r)| == |multiset(st.rows)| == |st.rows|;
    forall t ensures t in r <==> t in st.rows {
      assert t in r <==> t in multiset(r);
      assert t in st.rows <==> t in multiset(st.rows);
    }
  }

  /** A single insert into a valid table is listed first, ahead of everything listed before. */
  lemma InsertListedFirst(st: Store, nt: NewTask)
    requires Valid(st)
    ensures Valid(Insert(st, nt).store)
    ensures GetTasks(Insert(st, nt).store) == [Insert(st, nt).out] + GetTasks(st)
  {
    var ins := Insert(st, nt);
    InsertKeepsValid(st, nt);
    forall y | y in st.rows ensures y.created_at < ins.out.created_at {
      var i :| 0 <= i < |st.rows| && st.rows[i] == y;
    }
    SortNewestRowFirst(st.rows, ins.out);
  }

  /** A created task is listed first and exactly once: no task listed before is the new one. */
  lemma CreateListedOnce(st: Store, input: CreateTaskInput)
    requires Valid(st)
    ensures var c := CreateTask(st, input);
            && Valid(c.store)
            && GetTasks(c.store) == [c.out] + GetTasks(st)
            && multiset(GetTasks(c.store))[c.out] == 1
            && c.out !in GetTasks(st)
  {
    var c := CreateTask(st, input);
    InsertListedFirst(st, NewTask(input.text, None));
    GetTasksMembers(st);
    assert c.out !in st.rows by {
      forall i | 0 <= i < |st.rows| ensures st.rows[i] != c.out {
        assert Ids(st.rows)[i] == st.rows[i].id;
      }
    }
    assert multiset([c.out] + GetTasks(st)) == multiset{c.out} + multiset(GetTasks(st));
  }

  /** With no two rows created at the same instant, any newest-first permutation of the rows
      is the listing: how the model breaks ties cannot show. */
  lemma GetTasksDetermined(st: Store, listing: seq<Task>)
    requires DistinctCreated(st.rows)
    requires NewestFirst(listing) && multiset(listing) == multiset(st.rows)
    ensures listing == GetTasks(st)
  {
    var r := GetTasks(st);
    assert DistinctCreated(r) by {
      forall i, j | 0 <= i < j < |r| ensures r[i].created_at != r[j].created_at {
        DistinctElements(st.rows, r, i, j);
      }
    }
    NewestFirstUnique(r, listing);
  }

  /** Two positions of a permutation of a list with distinct `created_at` hold different
      `created_at` values. */
  lemma DistinctElements(rows: seq<Task>, r: seq<Task>, i: nat, j: nat)
    requires DistinctCreated(rows) && multiset(r) == multiset(rows)
    requires i < j < |r|
    ensures r[i].created_at != r[j].created_at
  {
    assert r[i] in multiset(rows) && r[j] in multiset(rows);
    var a :| 0 <= a < |rows| && rows[a] == r[i];
    var b :| 0 <= b < |rows| && rows[b] == r[j];
    CountOnce(rows, a);
    TwoPositionsCount(r, i, j);
    assert r[i] != r[j];
    assert a != b;
  }

  /** A value at two positions of a list occurs at least twice in it. */
  lemma TwoPositionsCount<T>(r: seq<T>, i: nat, j: nat)
    requires i < j < |r|
    ensures r[i] == r[j] ==> multiset(r)[r[i]] >= 2
  {
    assert r == r[..i] + [r[i]] + r[i + 1..j] + [r[j]] + r[j + 1..];
  }

  /** A row of a list with distinct `created_at` occurs once in it. */
  lemma {:induction false} CountOnce(rows: seq<Task>, a: nat)
    requires DistinctCreated(rows) && a < |rows|
    ensures multiset(rows)[rows[a]] == 1
  {
    var x := rows[a];
    assert rows == rows[..a] + [x] + rows[a + 1..];
    assert x !in rows[..a] by {
      forall k | 0 <= k < a ensures rows[..a][k] != x {
        assert rows[k].created_at != x.created_at;
      }
    }
    var rest := rows[a + 1..];
    assert x !in rest by {
      forall k | 0 <= k < |rest| ensures rest[k] != x {
        assert rest[k] == rows[a + 1 + k];
      }
    }
    assert multiset(rows) == multiset(rows[..a]) + multiset{x} + multiset(rows[a + 1..]);
  }

  /** Deleting by id: every row with the id goes, every other row stays in order; a missing
      row is not an error. The serial sequence and the clock are untouched, so a deleted id is
      never handed out again. */
  function DeleteTask(st: Store, input: DeleteTaskInput): (st': Store)
    ensures input.id !in Ids(st'.rows)
    ensures forall t :: t in st'.rows <==> t in st.rows && t.id != input.id
    ensures st'.nextId == st.nextId && st'.clock == st.clock
    ensures input.id !in Ids(st.rows) ==> st' == st
  {
    st.(rows := Without(st.rows, input.id))
  }

  /** Deleting twice leaves the table as deleting once does. */
  lemma DeleteIdempotent(st: Store, input: DeleteTaskInput)
    ensures DeleteTask(DeleteTask(st, input), input) == DeleteTask(st, input)
  {
  }

  /** Deleting a stored row removes exactly its position; the other rows keep their order. */
  lemma DeleteRemovesOneRow(st: Store, k: nat)
    requires Valid(st) && k < |st.rows|
    ensures DeleteTask(st, DeleteTaskInput(st.rows[k].id)).rows == st.rows[..k] + st.rows[k + 1..]
  {
    WithoutRemovesPosition(st.rows, k);
  }

  /** A delete keeps the table valid. */
  lemma DeleteKeepsValid(st: Store, input: DeleteTaskInput)
    requires Valid(st)
    ensures Valid(DeleteTask(st, input))
  {
    var rows := DeleteTask(st, input).rows;
    WithoutKeepsUnique(st.rows, input.id);
    forall i | 0 <= i < |rows|
      ensures 1 <= rows[i].id < st.nextId
      ensures rows[i].created_at <= rows[i].updated_at <= st.clock
    {
      assert rows[i] in st.rows;
    }
  }
}
