/** Operations on a sequence of task rows that both the server table and the client's local
    list use: looking a row up by id, removing every row with an id, replacing every row with
    an id. */
module Rows {
  import opened Results
  import opened Schema

  /** The ids of the rows, position by position. */
  function Ids(rows: seq<Task>): (ids: seq<int>)
    ensures |ids| == |rows|
    ensures forall i :: 0 <= i < |rows| ==> ids[i] == rows[i].id
  {
    if |rows| == 0 then [] else [rows[0].id] + Ids(rows[1..])
  }

  /** No two rows share an id (the table's primary key). */
  predicate UniqueIds(rows: seq<Task>) {
    forall i, j :: 0 <= i < j < |rows| ==> rows[i].id != rows[j].id
  }

  /** The first row with the given id, if any. */
  function Find(rows: seq<Task>, id: int): (r: Option<Task>)
    ensures r.Some? <==> id in Ids(rows)
    ensures r.Some? ==> r.value in rows && r.value.id == id
  {
    if |rows| == 0 then None
    else if rows[0].id == id then Some(rows[0])
    else
      Find(rows[1..], id)
  }

  /** Under a unique key the row found is the only row with that id. */
  lemma {:induction false} FindUnique(rows: seq<Task>, k: nat)
    requires UniqueIds(rows) && k < |rows|
    ensures Find(rows, rows[k].id) == Some(rows[k])
  {
    if k > 0 {
      FindUnique(rows[1..], k - 1);
    }
  }

  /** The rows whose id differs from `id`, in their original order. */
  function Without(rows: seq<Task>, id: int): (r: seq<Task>)
    ensures |r| <= |rows|
    ensures id !in Ids(r)
    ensures forall t :: t in r <==> t in rows && t.id != id
    ensures id !in Ids(rows) ==> r == rows
  {
    if |rows| == 0 then []
    else
      var rest := Without(rows[1..], id);
      var r := if rows[0].id == id then rest else [rows[0]] + rest;
      assert forall t :: t in r <==> t in rows && t.id != id by {
        HeadTailMembers(rows);
      }
      assert id !in Ids(rows) ==> r == rows by {
        if id !in Ids(rows) {
          assert rows == [rows[0]] + rows[1..];
        }
      }
      r
  }

  /** A row is in a non-empty list when it is the first row or in the rest. */
  lemma HeadTailMembers(rows: seq<Task>)
    requires |rows| > 0
    ensures forall t :: t in rows <==> t == rows[0] || t in rows[1..]
  {
    assert rows == [rows[0]] + rows[1..];
  }

  /** Removal works row by row: on a list split in two it is the removal on each part, so the
      rows kept keep their relative order. */
  lemma {:induction false} WithoutAppend(a: seq<Task>, b: seq<Task>, id: int)
    ensures Without(a + b, id) == Without(a, id) + Without(b, id)
    decreases |a|
  {
    if |a| == 0 {
      assert a + b == b;
    } else {
      assert (a + b)[0] == a[0];
      assert (a + b)[1..] == a[1..] + b;
      WithoutAppend(a[1..], b, id);
      if a[0].id != id {
        assert [a[0]] + (Without(a[1..], id) + Without(b, id))
            == ([a[0]] + Without(a[1..], id)) + Without(b, id);
      }
    }
  }

  /** Every row without the id is kept as many times as it occurs; rows with it are gone. */
  lemma {:induction false} WithoutCounts(rows: seq<Task>, id: int, t: Task)
    ensures multiset(Without(rows, id))[t] == if t.id == id then 0 else multiset(rows)[t]
    decreases |rows|
  {
    if |rows| > 0 {
      WithoutCounts(rows[1..], id, t);
      assert rows == [rows[0]] + rows[1..];
      assert multiset(rows) == multiset{rows[0]} + multiset(rows[1..]);
      if rows[0].id != id {
        var rest := Without(rows[1..], id);
        assert multiset([rows[0]] + rest) == multiset{rows[0]} + multiset(rest);
      }
    }
  }

  /** Removing a row that is present under a unique key takes out exactly that position and
      keeps every other row, in order. */
  lemma {:induction false} WithoutRemovesPosition(rows: seq<Task>, k: nat)
    requires UniqueIds(rows) && k < |rows|
    ensures Without(rows, rows[k].id) == rows[..k] + rows[k + 1..]
  {
    if k == 0 {
      WithoutRemovesFirst(rows);
    } else {
      var id := rows[k].id;
      var tail := rows[1..];
      assert rows[0].id != id;
      assert Without(rows, id) == [rows[0]] + Without(tail, id);
      assert Without(tail, id) == tail[..k - 1] + tail[k..] by {
        assert UniqueIds(tail);
        assert tail[k - 1] == rows[k];
        WithoutRemovesPosition(tail, k - 1);
      }
      DropInsideTail(rows, k);
    }
  }

  /** Under a unique key, removing the id of the first row leaves the rest of the rows. */
  lemma WithoutRemovesFirst(rows: seq<Task>)
    requires UniqueIds(rows) && 0 < |rows|
    ensures Without(rows, rows[0].id) == rows[1..]
  {
    var tail := rows[1..];
    assert rows[0].id !in Ids(tail) by {
      assert forall j :: 0 <= j < |tail| ==> tail[j].id != rows[0].id;
    }
  }

  /** Dropping position `k > 0` of a sequence is keeping its head and dropping `k - 1` of its tail. */
  lemma DropInsideTail<T>(s: seq<T>, k: nat)
    requires 0 < k < |s|
    ensures s[..k] + s[k + 1..] == [s[0]] + (s[1..][..k - 1] + s[1..][k..])
  {
    assert s[..k] == [s[0]] + s[1..][..k - 1];
    assert s[k + 1..] == s[1..][k..];
  }

  /** Removing rows keeps the key unique. */
  lemma {:induction false} WithoutKeepsUnique(rows: seq<Task>, id: int)
    requires UniqueIds(rows)
    ensures UniqueIds(Without(rows, id))
  {
    if |rows| > 0 {
      WithoutKeepsUnique(rows[1..], id);
      var rest := Without(rows[1..], id);
      if rows[0].id != id {
        var r := [rows[0]] + rest;
        forall j | 0 < j < |r| ensures r[0].id != r[j].id {
          assert r[j] in rows[1..];
        }
      }
    }
  }

  /** `row`, or `t` in its place when `row` has the id. */
  function Pick(row: Task, id: int, t: Task): Task {
    if row.id == id then t else row
  }

  /** Every row with the given id replaced by `t`, every other row kept, position by position. */
  function Replace(rows: seq<Task>, id: int, t: Task): (r: seq<Task>)
    ensures |r| == |rows|
    ensures forall i :: 0 <= i < |rows| && rows[i].id != id ==> r[i] == rows[i]
    ensures forall i :: 0 <= i < |rows| && rows[i].id == id ==> r[i] == t
  {
    if |rows| == 0 then [] else [Pick(rows[0], id, t)] + Replace(rows[1..], id, t)
  }

  /** Under a unique key, replacing a stored row's id replaces exactly its position. */
  lemma ReplaceUnique(rows: seq<Task>, k: nat, t: Task)
    requires UniqueIds(rows) && k < |rows|
    ensures Replace(rows, rows[k].id, t) == rows[k := t]
  {
    var r := Replace(rows, rows[k].id, t);
    forall i | 0 <= i < |rows| ensures r[i] == rows[k := t][i] {
      if i != k {
        assert rows[i].id != rows[k].id;
      }
    }
  }

  /** `SELECT * FROM tasks WHERE id = $id`: the rows with the id, in order. */
  function Where(rows: seq<Task>, id: int): (r: seq<Task>)
    ensures forall t :: t in r <==> t in rows && t.id == id
    ensures |r| + |Without(rows, id)| == |rows|
  {
    if |rows| == 0 then []
    else
      assert rows == [rows[0]] + rows[1..];
      (if rows[0].id == id then [rows[0]] else []) + Where(rows[1..], id)
  }

  /** Under a unique key, selecting a stored id yields exactly its row; an absent id yields
      nothing. */
  lemma WhereUnique(rows: seq<Task>, id: int)
    requires UniqueIds(rows)
    ensures id !in Ids(rows) ==> Where(rows, id) == []
    ensures forall k :: 0 <= k < |rows| && rows[k].id == id ==> Where(rows, id) == [rows[k]]
  {
    if id !in Ids(rows) {
      assert forall t :: t in rows ==> t.id != id;
    }
    forall k | 0 <= k < |rows| && rows[k].id == id ensures Where(rows, id) == [rows[k]] {
      WithoutRemovesPosition(rows, k);
      var w := Where(rows, id);
      assert |w| == 1;
      assert w[0] in rows && w[0].id == id;
      assert rows[k] in w;
    }
  }
}
