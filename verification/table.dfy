/** The `tasks` table (server/src/db/schema.ts) as an abstract keyed collection: its rows, the
    serial sequence behind `id`, and a logical clock standing for the wall clock that
    `defaultNow()` and `new Date()` read. Every statement that stamps a time advances the
    clock by one and uses the new value. */
module TaskTable {
  import opened Results
  import opened Schema
  import opened Rows

  datatype Store = Store(rows: seq<Task>, nextId: int, clock: int)

  /** A freshly created database: no rows, and the serial sequence starts at 1. */
  const EmptyStore: Store := Store([], 1, 0)

  /** What an insert may supply: `text` is required (`notNull`, no default), `completed` may be
      left to its default. */
  datatype NewTask = NewTask(text: string, completed: Option<bool>)

  /** The store after a statement, and what the statement returned. */
  datatype Step<T> = Step(store: Store, out: T)

  /** The table's constraints and the sequence's promise: `id` is a primary key, every id was
      drawn from the sequence (so it is below the next value), and no timestamp lies ahead of
      the clock, with `updated_at` never before `created_at`. */
  predicate Valid(st: Store) {
    && st.nextId >= 1
    && UniqueIds(st.rows)
    && (forall i :: 0 <= i < |st.rows| ==> 1 <= st.rows[i].id < st.nextId)
    && (forall i :: 0 <= i < |st.rows| ==> st.rows[i].created_at <= st.rows[i].updated_at <= st.clock)
  }

  /** The rows one insert statement creates: consecutive serial ids from `firstId`, the
      `completed` default applied, both timestamps `now`. */
  function NewRows(nts: seq<NewTask>, firstId: int, now: int): (r: seq<Task>)
    ensures |r| == |nts|
    ensures forall i :: 0 <= i < |r| ==>
              && r[i].id == firstId + i
              && r[i].text == nts[i].text
              && r[i].completed == nts[i].completed.GetOr(false)
              && r[i].created_at == now && r[i].updated_at == now
  {
    if |nts| == 0 then []
    else [Task(firstId, nts[0].text, nts[0].completed.GetOr(false), now, now)]
         + NewRows(nts[1..], firstId + 1, now)
  }

  /** `INSERT INTO tasks ... VALUES (...), (...) RETURNING *`: one statement, one `now` shared
      by all its rows. An empty values list is refused before any statement is issued. */
  function InsertMany(st: Store, nts: seq<NewTask>): (s: Step<seq<Task>>)
    requires |nts| > 0
    ensures s.store.rows == st.rows + s.out
    ensures s.store.nextId == st.nextId + |nts| && s.store.clock == st.clock + 1
    ensures |s.out| == |nts|
    ensures forall i :: 0 <= i < |s.out| ==>
              && s.out[i].id == st.nextId + i
              && s.out[i].text == nts[i].text
              && s.out[i].completed == nts[i].completed.GetOr(false)
              && s.out[i].created_at == s.store.clock && s.out[i].updated_at == s.store.clock
  {
    var now := st.clock + 1;
    var added := NewRows(nts, st.nextId, now);
    Step(Store(st.rows + added, st.nextId + |nts|, now), added)
  }

  /** A single-row insert: the next serial id, `completed` defaulting to false, and
      `created_at == updated_at ==` the current time, appended to the table. */
  function Insert(st: Store, nt: NewTask): (s: Step<Task>)
    ensures s.out.id == st.nextId && s.out.text == nt.text
    ensures s.out.completed == (nt.completed.Some? && nt.completed.value)
    ensures s.store.clock > st.clock
    ensures s.out.created_at == s.store.clock && s.out.updated_at == s.store.clock
    ensures s.store.rows == st.rows + [s.out]
    ensures s.store.nextId == st.nextId + 1
  {
    var m := InsertMany(st, [nt]);
    assert m.out == [m.out[0]];
    Step(m.store, m.out[0])
  }

  /** An insert keeps the table valid, and every row it adds has an id no existing row has. */
  lemma InsertManyKeepsValid(st: Store, nts: seq<NewTask>)
    requires Valid(st) && |nts| > 0
    ensures Valid(InsertMany(st, nts).store)
    ensures forall i :: 0 <= i < |nts| ==> InsertMany(st, nts).out[i].id !in Ids(st.rows)
  {
    var s := InsertMany(st, nts);
    var rows := s.store.rows;
    assert forall i :: 0 <= i < |rows| ==> rows[i] == if i < |st.rows| then st.rows[i] else s.out[i - |st.rows|];
  }

  /** A single insert keeps the table valid, and its id is new. */
  lemma InsertKeepsValid(st: Store, nt: NewTask)
    requires Valid(st)
    ensures Valid(Insert(st, nt).store)
    ensures Insert(st, nt).out.id !in Ids(st.rows)
  {
    InsertManyKeepsValid(st, [nt]);
  }
}
