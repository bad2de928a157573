/** `ORDER BY created_at DESC`: what it promises (a newest-first permutation of the rows) and
    one deterministic way of producing it. The SQL leaves the order of rows with equal
    `created_at` open; the insertion sort here is one choice, and the lemmas show where that
    choice cannot matter. */
module Ordering {
  import opened Schema
  import opened Rows

  /** Each row is at least as recent as the one after it. */
  predicate NewestFirst(s: seq<Task>) {
    forall i :: 0 <= i < |s| - 1 ==> s[i].created_at >= s[i + 1].created_at
  }

  /** No two rows were created at the same instant. */
  predicate DistinctCreated(s: seq<Task>) {
    forall i, j :: 0 <= i < j < |s| ==> s[i].created_at != s[j].created_at
  }

  /** Newest-first between neighbours is newest-first between any two positions. */
  lemma {:induction false} NewestFirstPairwise(s: seq<Task>)
    requires NewestFirst(s)
    ensures forall i, j :: 0 <= i <= j < |s| ==> s[i].created_at >= s[j].created_at
  {
    if |s| > 1 {
      NewestFirstPairwise(s[1..]);
      forall i, j | 0 <= i <= j < |s| ensures s[i].created_at >= s[j].created_at {
        if 0 < i {
          assert s[i] == s[1..][i - 1] && s[j] == s[1..][j - 1];
        } else if 0 < j {
          assert s[1] == s[1..][0] && s[j] == s[1..][j - 1];
        }
      }
    }
  }

  /** Dropping the newest row of a newest-first list leaves a newest-first list. */
  lemma NewestFirstTail(s: seq<Task>)
    requires NewestFirst(s) && |s| > 0
    ensures NewestFirst(s[1..])
  {
    var tail := s[1..];
    forall i | 0 <= i < |tail| - 1 ensures tail[i].created_at >= tail[i + 1].created_at {
      assert tail[i] == s[i + 1] && tail[i + 1] == s[i + 2];
    }
  }

  /** Places `x` in front of the first row that is not newer than it. */
  function InsertByCreated(x: Task, s: seq<Task>): (r: seq<Task>)
    requires NewestFirst(s)
    ensures NewestFirst(r)
    ensures multiset(r) == multiset(s) + multiset{x}
    ensures |r| == |s| + 1
    ensures r[0] == x || (|s| > 0 && r[0] == s[0])
  {
    if |s| == 0 || x.created_at >= s[0].created_at then [x] + s
    else
      assert s == [s[0]] + s[1..];
      [s[0]] + InsertByCreated(x, s[1..])
  }

  /** The rows, newest `created_at` first. */
  function SortNewestFirst(s: seq<Task>): (r: seq<Task>)
    ensures NewestFirst(r)
    ensures multiset(r) == multiset(s)
  {
    if |s| == 0 then []
    else
      assert s == [s[0]] + s[1..];
      InsertByCreated(s[0], SortNewestFirst(s[1..]))
  }

  /** When no two rows share a `created_at`, there is only one newest-first arrangement of
      them: the listing is then fixed by `ORDER BY created_at DESC` alone. */
  lemma {:induction false} NewestFirstUnique(a: seq<Task>, b: seq<Task>)
    requires NewestFirst(a) && NewestFirst(b)
    requires multiset(a) == multiset(b)
    requires DistinctCreated(a)
    ensures a == b
  {
    assert |a| == |multiset(a)| == |multiset(b)| == |b|;
    if |a| > 0 {
      SameNewest(a, b);
      MultisetTail(a);
      MultisetTail(b);
      NewestFirstTail(a);
      NewestFirstTail(b);
      DistinctTail(a);
      NewestFirstUnique(a[1..], b[1..]);
      SameHeadSameTail(a, b);
    }
  }

  /** Two newest-first arrangements of the same rows, with creation instants distinct, begin
      with the same row. */
  lemma SameNewest(a: seq<Task>, b: seq<Task>)
    requires NewestFirst(a) && NewestFirst(b)
    requires multiset(a) == multiset(b)
    requires DistinctCreated(a) && |a| > 0
    ensures |b| > 0 && a[0] == b[0]
  {
    NewestFirstPairwise(a);
    NewestFirstPairwise(b);
    assert a[0] in multiset(b);
    var j :| 0 <= j < |b| && b[j] == a[0];
    assert b[0] in multiset(a);
    var i :| 0 <= i < |a| && a[i] == b[0];
    assert a[i].created_at == a[0].created_at;
  }

  /** Sequences with the same first element and the same rest are equal. */
  lemma SameHeadSameTail(a: seq<Task>, b: seq<Task>)
    requires |a| > 0 && |b| > 0 && a[0] == b[0] && a[1..] == b[1..]
    ensures a == b
  {
    assert a == [a[0]] + a[1..];
    assert b == [b[0]] + b[1..];
  }

  /** The rows after the first are the rows less one occurrence of the first. */
  lemma MultisetTail(s: seq<Task>)
    requires |s| > 0
    ensures multiset(s[1..]) == multiset(s) - multiset{s[0]}
  {
    assert s == [s[0]] + s[1..];
  }

  /** Dropping the first row keeps creation instants distinct. */
  lemma DistinctTail(s: seq<Task>)
    requires DistinctCreated(s) && |s| > 0
    ensures DistinctCreated(s[1..])
  {
    var tail := s[1..];
    forall i, j | 0 <= i < j < |tail| ensures tail[i].created_at != tail[j].created_at {
      assert tail[i] == s[i + 1] && tail[j] == s[j + 1];
    }
  }

  /** A row newer than every other row is listed first, the others keeping their order. */
  lemma {:induction false} SortNewestRowFirst(s: seq<Task>, t: Task)
    requires forall y :: y in s ==> y.created_at < t.created_at
    ensures SortNewestFirst(s + [t]) == [t] + SortNewestFirst(s)
  {
    if |s| == 0 {
      assert s + [t] == [t];
    } else {
      var s' := s + [t];
      assert s'[0] == s[0] && s'[1..] == s[1..] + [t];
      SortNewestRowFirst(s[1..], t);
      assert SortNewestFirst(s') == InsertByCreated(s[0], [t] + SortNewestFirst(s[1..]));
    }
  }

  /** Rows without the id, out of a newest-first list, are still newest first, and the first
      of them is no newer than the first of the list. */
  lemma {:induction false} WithoutNewestFirst(s: seq<Task>, id: int)
    requires NewestFirst(s)
    ensures NewestFirst(Without(s, id))
    ensures |Without(s, id)| > 0 ==> Without(s, id)[0].created_at <= s[0].created_at
  {
    if |s| > 0 {
      var w := Without(s[1..], id);
      NewestFirstTail(s);
      WithoutNewestFirst(s[1..], id);
      assert |w| > 0 ==> w[0].created_at <= s[0].created_at by {
        if |w| > 0 {
          assert s[1..][0] == s[1];
        }
      }
      if s[0].id != id {
        WithoutKeepsFirst(s, id);
        ConsNewestFirst(s[0], w);
      }
    }
  }

  /** A row kept by the removal stays in front of the rest. */
  lemma WithoutKeepsFirst(s: seq<Task>, id: int)
    requires |s| > 0 && s[0].id != id
    ensures Without(s, id) == [s[0]] + Without(s[1..], id)
  {
  }

  /** A row no older than the head of a newest-first list can go in front of it. */
  lemma ConsNewestFirst(x: Task, w: seq<Task>)
    requires NewestFirst(w)
    requires |w| > 0 ==> w[0].created_at <= x.created_at
    ensures NewestFirst([x] + w)
  {
    var r := [x] + w;
    forall i | 0 <= i < |r| - 1 ensures r[i].created_at >= r[i + 1].created_at {
      if i > 0 {
        assert r[i] == w[i - 1] && r[i + 1] == w[i];
      }
    }
  }

  /** Removing an id from a list with a given head: the head goes exactly when it has the id. */
  lemma WithoutCons(x: Task, s: seq<Task>, id: int)
    ensures Without([x] + s, id) == if x.id == id then Without(s, id) else [x] + Without(s, id)
  {
    assert ([x] + s)[1..] == s;
  }

  /** One step of the insertion when `x` is older than the head. */
  lemma InsertUnfold(x: Task, s: seq<Task>)
    requires NewestFirst(s) && |s| > 0 && x.created_at < s[0].created_at
    ensures NewestFirst(s[1..])
    ensures InsertByCreated(x, s) == [s[0]] + InsertByCreated(x, s[1..])
  {
    NewestFirstTail(s);
  }

  /** One step of the removal on a non-empty list. */
  lemma WithoutUnfold(s: seq<Task>, id: int)
    requires |s| > 0
    ensures Without(s, id) == if s[0].id == id then Without(s[1..], id) else [s[0]] + Without(s[1..], id)
  {
  }

  /** Removing an id commutes with inserting a row into a newest-first list. */
  lemma {:induction false} WithoutInsert(x: Task, s: seq<Task>, id: int)
    requires NewestFirst(s)
    ensures NewestFirst(Without(s, id))
    ensures Without(InsertByCreated(x, s), id)
         == if x.id == id then Without(s, id) else InsertByCreated(x, Without(s, id))
    decreases |s|, 1
  {
    WithoutNewestFirst(s, id);
    if |s| == 0 || x.created_at >= s[0].created_at {
      WithoutInsertFront(x, s, id);
    } else {
      WithoutInsertBehind(x, s, id);
    }
  }

  /** The case of `WithoutInsert` where `x` goes in front. */
  lemma WithoutInsertFront(x: Task, s: seq<Task>, id: int)
    requires NewestFirst(s) && NewestFirst(Without(s, id))
    requires |s| == 0 || x.created_at >= s[0].created_at
    ensures Without(InsertByCreated(x, s), id)
         == if x.id == id then Without(s, id) else InsertByCreated(x, Without(s, id))
  {
    InsertFront(x, s);
    WithoutCons(x, s, id);
    if x.id != id {
      WithoutNewestFirst(s, id);
      InsertFront(x, Without(s, id));
    }
  }

  /** A row at least as new as the head goes in front. */
  lemma InsertFront(x: Task, s: seq<Task>)
    requires NewestFirst(s) && (|s| == 0 || x.created_at >= s[0].created_at)
    ensures InsertByCreated(x, s) == [x] + s
  {
  }

  /** The case of `WithoutInsert` where `x` goes behind the head. */
  lemma WithoutInsertBehind(x: Task, s: seq<Task>, id: int)
    requires NewestFirst(s) && |s| > 0 && x.created_at < s[0].created_at
    ensures NewestFirst(Without(s, id))
    ensures Without(InsertByCreated(x, s), id)
         == if x.id == id then Without(s, id) else InsertByCreated(x, Without(s, id))
    decreases |s|, 0
  {
    WithoutNewestFirst(s, id);
    NewestFirstTail(s);
    WithoutInsert(x, s[1..], id);
    var head, tail := s[0], s[1..];
    var inserted := InsertByCreated(x, tail);
    var w := Without(tail, id);
    InsertUnfold(x, s);
    WithoutCons(head, inserted, id);
    WithoutUnfold(s, id);
    if x.id == id {
      assert Without(inserted, id) == w;
      assert Without(InsertByCreated(x, s), id) == Without(s, id);
    } else if head.id == id {
      assert Without(InsertByCreated(x, s), id) == Without(inserted, id) == InsertByCreated(x, w);
    } else {
      InsertBehindHead(x, head, w);
      assert Without(InsertByCreated(x, s), id) == [head] + InsertByCreated(x, w);
    }
  }

  /** A row older than the head goes behind it. */
  lemma InsertBehindHead(x: Task, head: Task, w: seq<Task>)
    requires NewestFirst([head] + w) && x.created_at < head.created_at
    ensures NewestFirst(w)
    ensures InsertByCreated(x, [head] + w) == [head] + InsertByCreated(x, w)
  {
    NewestFirstTail([head] + w);
    assert ([head] + w)[1..] == w;
  }

  /** Removing an id from the rows and then sorting gives the sorted rows with that id removed. */
  lemma {:induction false} SortWithout(s: seq<Task>, id: int)
    ensures SortNewestFirst(Without(s, id)) == Without(SortNewestFirst(s), id)
  {
    if |s| > 0 {
      SortWithout(s[1..], id);
      WithoutInsert(s[0], SortNewestFirst(s[1..]), id);
      if s[0].id != id {
        var w := Without(s[1..], id);
        assert Without(s, id) == [s[0]] + w;
        assert ([s[0]] + w)[1..] == w;
      }
    }
  }

  /** Every row with the id already has the same `created_at` as its replacement `t`. */
  predicate SameCreated(s: seq<Task>, id: int, t: Task) {
    forall y :: y in s && y.id == id ==> y.created_at == t.created_at
  }

  /** A replacement that keeps `created_at` keeps a list newest first. */
  lemma ReplaceNewestFirst(s: seq<Task>, id: int, t: Task)
    requires NewestFirst(s) && SameCreated(s, id, t)
    ensures NewestFirst(Replace(s, id, t))
  {
    var r := Replace(s, id, t);
    forall i | 0 <= i < |s| ensures r[i].created_at == s[i].created_at {
      assert s[i] in s;
    }
  }

  /** Replacing rows commutes with inserting a row into a newest-first list, provided the
      replacement keeps `created_at`. */
  lemma {:induction false} ReplaceInsert(x: Task, s: seq<Task>, id: int, t: Task)
    requires NewestFirst(s)
    requires SameCreated(s, id, t)
    requires x.id == id ==> x.created_at == t.created_at
    ensures NewestFirst(Replace(s, id, t))
    ensures Replace(InsertByCreated(x, s), id, t) == InsertByCreated(Pick(x, id, t), Replace(s, id, t))
    decreases |s|, 1
  {
    ReplaceNewestFirst(s, id, t);
    if |s| == 0 || x.created_at >= s[0].created_at {
      ReplaceInsertFront(x, s, id, t);
    } else {
      ReplaceInsertBehind(x, s, id, t);
    }
  }

  /** Rows after the first keep the `created_at` agreement. */
  lemma SameCreatedTail(s: seq<Task>, id: int, t: Task)
    requires SameCreated(s, id, t) && |s| > 0
    ensures SameCreated(s[1..], id, t)
  {
    forall y | y in s[1..] && y.id == id ensures y.created_at == t.created_at {
      assert y in s;
    }
  }

  /** The case of `ReplaceInsert` where `x` goes in front. */
  lemma ReplaceInsertFront(x: Task, s: seq<Task>, id: int, t: Task)
    requires NewestFirst(s) && SameCreated(s, id, t)
    requires x.id == id ==> x.created_at == t.created_at
    requires |s| == 0 || x.created_at >= s[0].created_at
    requires NewestFirst(Replace(s, id, t))
    ensures Replace(InsertByCreated(x, s), id, t) == InsertByCreated(Pick(x, id, t), Replace(s, id, t))
  {
    var rs := Replace(s, id, t);
    InsertFront(x, s);
    ReplaceCons(x, s, id, t);
    if |s| > 0 {
      assert s[0] in s;
      assert rs[0].created_at == s[0].created_at;
    }
    InsertFront(Pick(x, id, t), rs);
  }

  /** The case of `ReplaceInsert` where `x` goes behind the head. */
  lemma ReplaceInsertBehind(x: Task, s: seq<Task>, id: int, t: Task)
    requires NewestFirst(s) && SameCreated(s, id, t) && |s| > 0
    requires x.id == id ==> x.created_at == t.created_at
    requires x.created_at < s[0].created_at
    requires NewestFirst(Replace(s, id, t))
    ensures Replace(InsertByCreated(x, s), id, t) == InsertByCreated(Pick(x, id, t), Replace(s, id, t))
    decreases |s|, 0
  {
    NewestFirstTail(s);
    SameCreatedTail(s, id, t);
    ReplaceInsert(x, s[1..], id, t);
    var head, rt := Pick(s[0], id, t), Replace(s[1..], id, t);
    InsertUnfold(x, s);
    ReplaceCons(s[0], InsertByCreated(x, s[1..]), id, t);
    assert s[0] in s;
    assert Replace(s, id, t) == [head] + rt;
    InsertBehindHead(Pick(x, id, t), head, rt);
  }

  /** One step of the replacement on a list with a given head. */
  lemma ReplaceCons(a: Task, r: seq<Task>, id: int, t: Task)
    ensures Replace([a] + r, id, t) == [Pick(a, id, t)] + Replace(r, id, t)
  {
    assert ([a] + r)[1..] == r;
  }

  /** Sorting rows after replacing some of them by a row with the same `created_at` gives the
      sorted rows with the same replacement made. */
  lemma {:induction false} SortReplace(s: seq<Task>, id: int, t: Task)
    requires SameCreated(s, id, t)
    ensures SortNewestFirst(Replace(s, id, t)) == Replace(SortNewestFirst(s), id, t)
  {
    if |s| > 0 {
      assert s == [s[0]] + s[1..];
      assert SameCreated(s[1..], id, t) by {
        forall y | y in s[1..] ensures y in s { }
      }
      SortReplace(s[1..], id, t);
      var sorted := SortNewestFirst(s[1..]);
      assert SameCreated(sorted, id, t) by {
        forall y | y in sorted && y.id == id ensures y.created_at == t.created_at {
          assert y in multiset(sorted);
          assert y in s[1..];
        }
      }
      assert s[0] in s;
      ReplaceInsert(s[0], sorted, id, t);
      var rs := Replace(s, id, t);
      assert rs[0] == Pick(s[0], id, t) && rs[1..] == Replace(s[1..], id, t);
    }
  }
}
