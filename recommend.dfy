/** `recommendations`: four buckets built from one full scan of the table. */
module Recommend {
  import opened Common
  import opened CatalogStore

  /** How many rows a bucket holds at most. */
  const BucketSize := 10

  /** The four buckets, under the keys the endpoint returns them by. */
  datatype Buckets = Buckets(
    becauseYouWatched: seq<Row>,   // "Because You Watched…"
    darkPsychological: seq<Row>,   // "Dark / Psychological"
    slowBurn: seq<Row>,            // "Slow-Burn Character Films"
    highPopularity: seq<Row>)      // "High Popularity Picks"

  /** Every row has a popularity, so that the sort key `-x[7]` can be computed. */
  predicate Ranked(rows: seq<Row>)
  {
    forall i :: 0 <= i < |rows| ==> rows[i].popularity.Some?
  }

  /** The sort key, on rows that have a popularity. A null popularity maps to 0 only to keep
      the function total: Python raises on `-None`, so `Descending`, `SortByPopularity` and
      everything stated with them mean something only for rows satisfying `Ranked`, which is
      what `HighPopularityPicks` checks first. */
  function Pop(r: Row): int
  {
    if r.popularity.Some? then r.popularity.value else 0
  }

  /** Non-increasing popularity. */
  predicate Descending(rows: seq<Row>)
  {
    forall i, j :: 0 <= i < j < |rows| ==> Pop(rows[i]) >= Pop(rows[j])
  }

  /** Equal popularity keeps ascending tmdb_id, the scan order. */
  predicate TiesById(rows: seq<Row>)
  {
    forall i, j :: 0 <= i < j < |rows| && Pop(rows[i]) == Pop(rows[j]) ==> rows[i].tmdbId < rows[j].tmdbId
  }

  /** No two rows share a tmdb_id. */
  predicate DistinctIds(rows: seq<Row>)
  {
    forall i, j :: 0 <= i < j < |rows| ==> rows[i].tmdbId != rows[j].tmdbId
  }

  /** The rows of a given popularity, in order. */
  function WithPopularity(rows: seq<Row>, p: int): seq<Row>
  {
    if rows == [] then []
    else (if rows[0].popularity == Some(p) then [rows[0]] else []) + WithPopularity(rows[1..], p)
  }

  /** Places `x` before the first row that is not more popular than it, so that `x`
      precedes the rows of equal popularity that came after it in the input. */
  function Insert(x: Row, rows: seq<Row>): (r: seq<Row>)
    requires Descending(rows)
    ensures |r| == |rows| + 1 && (r[0] == x || (rows != [] && r[0] == rows[0]))
    ensures Descending(r)
  {
    if rows == [] || Pop(rows[0]) <= Pop(x) then [x] + rows
    else
      var rest := Insert(x, rows[1..]);
      assert Pop(rows[0]) >= Pop(rest[0]);
      [rows[0]] + rest
  }

  /** Inserting adds `x` and loses nothing. */
  lemma {:induction false} InsertPermutes(x: Row, rows: seq<Row>)
    requires Descending(rows)
    ensures multiset(Insert(x, rows)) == multiset(rows) + multiset{x}
    ensures forall e :: e in Insert(x, rows) <==> e == x || e in rows
  {
    if rows != [] && Pop(rows[0]) > Pop(x) {
      var head, tail := rows[0], rows[1..];
      var rest := Insert(x, tail);
      InsertPermutes(x, tail);
      assert rows == [head] + tail;
      assert Insert(x, rows) == [head] + rest;
      assert multiset(Insert(x, rows)) == multiset{head} + multiset(rest);
    }
  }

  /** `sorted(rows, key=lambda x: -x[7])`, as an insertion sort. */
  function SortByPopularity(rows: seq<Row>): (r: seq<Row>)
    ensures Descending(r) && |r| == |rows|
  {
    if rows == [] then [] else Insert(rows[0], SortByPopularity(rows[1..]))
  }

  /** The sort is a permutation: it loses, adds and duplicates nothing. */
  lemma {:induction false} SortPermutes(rows: seq<Row>)
    ensures multiset(SortByPopularity(rows)) == multiset(rows)
    ensures forall e :: e in SortByPopularity(rows) <==> e in rows
  {
    if rows != [] {
      var head, tail := rows[0], rows[1..];
      SortPermutes(tail);
      InsertPermutes(head, SortByPopularity(tail));
      assert rows == [head] + tail;
      assert multiset(rows) == multiset(tail) + multiset{head};
      assert forall e :: e in rows <==> e == head || e in tail;
    }
  }

  lemma {:induction false} InsertStable(x: Row, rows: seq<Row>, p: int)
    requires Descending(rows)
    ensures WithPopularity(Insert(x, rows), p) == WithPopularity([x] + rows, p)
  {
    if rows != [] && Pop(rows[0]) > Pop(x) {
      var head, tail := rows[0], rows[1..];
      var rest := Insert(x, tail);
      InsertStable(x, tail, p);
      var hx := if x.popularity == Some(p) then [x] else [];
      var hh := if head.popularity == Some(p) then [head] else [];
      assert hx == [] || hh == [];
      assert ([head] + rest)[1..] == rest;
      assert WithPopularity(Insert(x, rows), p) == hh + WithPopularity(rest, p);
      assert WithPopularity([x] + tail, p) == hx + WithPopularity(tail, p);
      assert ([x] + rows)[1..] == rows;
      assert WithPopularity([x] + rows, p) == hx + WithPopularity(rows, p);
      assert WithPopularity(rows, p) == hh + WithPopularity(tail, p);
    }
  }

  /** The sort is stable: for every popularity, the rows having it appear in the
      same order before and after sorting. */
  lemma {:induction false} SortStable(rows: seq<Row>, p: int)
    ensures WithPopularity(SortByPopularity(rows), p) == WithPopularity(rows, p)
  {
    if rows != [] {
      SortStable(rows[1..], p);
      InsertStable(rows[0], SortByPopularity(rows[1..]), p);
      var sorted := SortByPopularity(rows[1..]);
      assert ([rows[0]] + sorted)[1..] == sorted;
    }
  }

  lemma TiesByIdCons(head: Row, rest: seq<Row>)
    requires TiesById(rest)
    requires forall j :: 0 <= j < |rest| && Pop(head) == Pop(rest[j]) ==> head.tmdbId < rest[j].tmdbId
    ensures TiesById([head] + rest)
  {
    var r := [head] + rest;
    assert forall i :: 1 <= i < |r| ==> r[i] == rest[i - 1];
  }

  lemma {:induction false} InsertTies(x: Row, rows: seq<Row>)
    requires Descending(rows) && TiesById(rows)
    requires forall e :: e in rows ==> x.tmdbId < e.tmdbId
    ensures TiesById(Insert(x, rows))
  {
    if rows == [] || Pop(rows[0]) <= Pop(x) {
      TiesByIdCons(x, rows);
    } else {
      var head, tail := rows[0], rows[1..];
      var rest := Insert(x, tail);
      assert TiesById(tail) by {
        assert forall k :: 0 <= k < |tail| ==> tail[k] == rows[k + 1];
      }
      InsertTies(x, tail);
      InsertPermutes(x, tail);
      forall j | 0 <= j < |rest| && Pop(head) == Pop(rest[j])
        ensures head.tmdbId < rest[j].tmdbId
      {
        assert rest[j] in rest;
        var k :| 0 <= k < |tail| && tail[k] == rest[j];
        assert rows[k + 1] == tail[k];
      }
      TiesByIdCons(head, rest);
    }
  }

  /** On rows in ascending tmdb_id order (the scan order), ties in popularity stay in
      ascending tmdb_id order after sorting. */
  lemma {:induction false} SortTiesById(rows: seq<Row>)
    requires forall i, j :: 0 <= i < j < |rows| ==> rows[i].tmdbId < rows[j].tmdbId
    ensures TiesById(SortByPopularity(rows))
  {
    if rows != [] {
      SortTiesById(rows[1..]);
      var sorted := SortByPopularity(rows[1..]);
      SortPermutes(rows[1..]);
      assert forall e :: e in sorted ==> rows[0].tmdbId < e.tmdbId;
      InsertTies(rows[0], sorted);
    }
  }

  /** A prefix of a descending sequence holds its most popular elements, and is a sub-multiset. */
  lemma PrefixOfDescending(sorted: seq<Row>, k: nat)
    requires Descending(sorted) && k <= |sorted|
    ensures multiset(sorted[..k]) <= multiset(sorted)
    ensures forall e :: e in sorted && e !in sorted[..k] ==>
      forall i :: 0 <= i < k ==> Pop(e) <= Pop(sorted[i])
  {
    assert sorted == sorted[..k] + sorted[k..];
    forall e | e in sorted && e !in sorted[..k]
      ensures forall i :: 0 <= i < k ==> Pop(e) <= Pop(sorted[i])
    {
      var j :| 0 <= j < |sorted| && sorted[j] == e;
      assert forall i :: 0 <= i < k ==> sorted[i] in sorted[..k];
      assert k <= j;
    }
  }

  /** `sorted(rows, key=lambda x: -x[7])[:10]`: an exception when some row has no
      popularity, otherwise the ten (or fewer) most popular rows, most popular first. */
  function HighPopularityPicks(rows: seq<Row>): (r: Result<seq<Row>>)
    ensures r.Ok? <==> Ranked(rows)
    ensures r.Err? ==> r.fault == TypeError("popularity")
    ensures r.Ok? ==> Descending(r.value)
    ensures r.Ok? ==> |r.value| == Min(BucketSize, |rows|) && multiset(r.value) <= multiset(rows)
    ensures r.Ok? ==> forall e :: e in rows && e !in r.value ==>
      forall i :: 0 <= i < |r.value| ==> Pop(e) <= Pop(r.value[i])
  {
    if !Ranked(rows) then Err(TypeError("popularity"))
    else
      var sorted := SortByPopularity(rows);
      var picks := Take(sorted, BucketSize);
      SortPermutes(rows);
      PrefixOfDescending(sorted, |picks|);
      Ok(picks)
  }

  /** Ties among the picks of a scan keep ascending tmdb_id order. */
  lemma PicksTiesById(rows: seq<Row>)
    requires Ranked(rows)
    requires forall i, j :: 0 <= i < j < |rows| ==> rows[i].tmdbId < rows[j].tmdbId
    ensures TiesById(HighPopularityPicks(rows).value)
  {
    SortTiesById(rows);
  }

  /** Picking out one popularity distributes over concatenation. */
  lemma {:induction false} WithPopularityAppend(a: seq<Row>, b: seq<Row>, p: int)
    ensures WithPopularity(a + b, p) == WithPopularity(a, p) + WithPopularity(b, p)
  {
    if a != [] {
      assert (a + b)[0] == a[0];
      assert (a + b)[1..] == a[1..] + b;
      WithPopularityAppend(a[1..], b, p);
    } else {
      assert a + b == b;
    }
  }

  /** The rows of one popularity in a prefix are a prefix of the rows of that popularity. */
  lemma WithPopularityPrefix(s: seq<Row>, k: nat, p: int)
    requires k <= |s|
    ensures var w := WithPopularity(s[..k], p);
      |w| <= |WithPopularity(s, p)| && w == WithPopularity(s, p)[..|w|]
  {
    assert s == s[..k] + s[k..];
    WithPopularityAppend(s[..k], s[k..], p);
  }

  /** The cut at ten keeps, for each popularity, the rows of that popularity that come
      first in the scan: among equal-popularity rows the earlier ones survive. */
  lemma PicksKeepEarliest(rows: seq<Row>, p: int)
    requires Ranked(rows)
    ensures var w := WithPopularity(HighPopularityPicks(rows).value, p);
      |w| <= |WithPopularity(rows, p)| && w == WithPopularity(rows, p)[..|w|]
  {
    var sorted := SortByPopularity(rows);
    SortStable(rows, p);
    WithPopularityPrefix(sorted, |Take(sorted, BucketSize)|, p);
  }

  // A worked case, proved one insertion step per lemma so that each proof stays small:
  // popularities 5, 80, 3, 80, 1 under ids 1..5 rank as ids 2, 4, 1, 3, 5, and the two
  // rows of popularity 80 keep their scan order.

  /** A row with only an id and a popularity. */
  function RankedRow(id: int, p: int): Row
  {
    Row(id, None, "", None, "", "", "", Some(p), None)
  }

  lemma PicksExample()
    ensures HighPopularityPicks([RankedRow(1, 5), RankedRow(2, 80), RankedRow(3, 3), RankedRow(4, 80), RankedRow(5, 1)])
      == Ok([RankedRow(2, 80), RankedRow(4, 80), RankedRow(1, 5), RankedRow(3, 3), RankedRow(5, 1)])
  {
    var sorted := [RankedRow(2, 80), RankedRow(4, 80), RankedRow(1, 5), RankedRow(3, 3), RankedRow(5, 1)];
    ExampleSortFive();
    assert Take(sorted, BucketSize) == sorted;
  }

  lemma ExampleSortFive()
    ensures SortByPopularity([RankedRow(1, 5), RankedRow(2, 80), RankedRow(3, 3), RankedRow(4, 80), RankedRow(5, 1)])
      == [RankedRow(2, 80), RankedRow(4, 80), RankedRow(1, 5), RankedRow(3, 3), RankedRow(5, 1)]
  {
    var rows := [RankedRow(1, 5), RankedRow(2, 80), RankedRow(3, 3), RankedRow(4, 80), RankedRow(5, 1)];
    SortStep(rows);
    assert rows[1..] == [RankedRow(2, 80), RankedRow(3, 3), RankedRow(4, 80), RankedRow(5, 1)];
    ExampleSortFour();
    ExampleInsertFirst();
  }

  lemma ExampleInsertFirst()
    ensures Insert(RankedRow(1, 5), [RankedRow(2, 80), RankedRow(4, 80), RankedRow(3, 3), RankedRow(5, 1)])
      == [RankedRow(2, 80), RankedRow(4, 80), RankedRow(1, 5), RankedRow(3, 3), RankedRow(5, 1)]
  {
    assert Insert(RankedRow(1, 5), [RankedRow(4, 80), RankedRow(3, 3), RankedRow(5, 1)]) == [RankedRow(4, 80), RankedRow(1, 5), RankedRow(3, 3), RankedRow(5, 1)];
  }

  lemma ExampleSortFour()
    ensures SortByPopularity([RankedRow(2, 80), RankedRow(3, 3), RankedRow(4, 80), RankedRow(5, 1)]) == [RankedRow(2, 80), RankedRow(4, 80), RankedRow(3, 3), RankedRow(5, 1)]
  {
    var rows := [RankedRow(2, 80), RankedRow(3, 3), RankedRow(4, 80), RankedRow(5, 1)];
    SortStep(rows);
    assert rows[1..] == [RankedRow(3, 3), RankedRow(4, 80), RankedRow(5, 1)];
    ExampleSortThree();
  }

  lemma ExampleSortThree()
    ensures SortByPopularity([RankedRow(3, 3), RankedRow(4, 80), RankedRow(5, 1)]) == [RankedRow(4, 80), RankedRow(3, 3), RankedRow(5, 1)]
  {
    var rows := [RankedRow(3, 3), RankedRow(4, 80), RankedRow(5, 1)];
    SortStep(rows);
    assert rows[1..] == [RankedRow(4, 80), RankedRow(5, 1)];
    ExampleSortTwo();
  }

  lemma ExampleSortTwo()
    ensures SortByPopularity([RankedRow(4, 80), RankedRow(5, 1)]) == [RankedRow(4, 80), RankedRow(5, 1)]
  {
    var rows := [RankedRow(4, 80), RankedRow(5, 1)];
    SortStep(rows);
    assert rows[1..] == [RankedRow(5, 1)];
    SortStep([RankedRow(5, 1)]);
    assert [RankedRow(5, 1)][1..] == [];
  }

  lemma SortStep(rows: seq<Row>)
    requires rows != []
    ensures SortByPopularity(rows) == Insert(rows[0], SortByPopularity(rows[1..]))
  {
  }

  lemma {:induction false} DuplicateCounted(s: seq<Row>, i: nat, j: nat)
    requires i < j < |s| && s[i] == s[j]
    ensures multiset(s)[s[i]] >= 2
  {
    var x := s[i];
    assert s == s[..j] + [x] + s[j + 1..];
    assert s[..j][i] == x;
    assert multiset(s[..j])[x] >= 1;
  }

  lemma {:induction false} DistinctCountedOnce(rows: seq<Row>, x: Row)
    requires DistinctIds(rows)
    ensures multiset(rows)[x] <= 1
  {
    if rows != [] {
      DistinctCountedOnce(rows[1..], x);
      assert rows == [rows[0]] + rows[1..];
      if rows[0] == x {
        assert x !in rows[1..];
      }
    }
  }

  /** Drawing without replacement from rows with distinct ids gives rows with distinct ids. */
  lemma SampleDistinct(s: seq<Row>, rows: seq<Row>)
    requires multiset(s) <= multiset(rows) && DistinctIds(rows)
    ensures DistinctIds(s)
  {
    forall i, j | 0 <= i < j < |s|
      ensures s[i].tmdbId != s[j].tmdbId
    {
      if s[i] == s[j] {
        DuplicateCounted(s, i, j);
        DistinctCountedOnce(rows, s[i]);
      } else {
        assert s[i] in multiset(rows) && s[j] in multiset(rows);
        var a :| 0 <= a < |rows| && rows[a] == s[i];
        var b :| 0 <= b < |rows| && rows[b] == s[j];
        assert a != b;
      }
    }
  }

  /** `random.sample(rows, k)`: `k` rows drawn without replacement; which ones is left open. */
  method Sample(rows: seq<Row>, k: nat) returns (s: seq<Row>)
    requires k <= |rows|
    ensures |s| == k && multiset(s) <= multiset(rows)
  {
    var pool := rows;
    s := [];
    while |s| < k
      invariant |s| + |pool| == |rows| && |s| <= k
      invariant multiset(s) + multiset(pool) == multiset(rows)
    {
      var j :| 0 <= j < |pool|;
      assert pool == pool[..j] + [pool[j]] + pool[j + 1..];
      s := s + [pool[j]];
      pool := pool[..j] + pool[j + 1..];
    }
  }

  /** The endpoint: three independent samples of `min(10, n)` rows and the popularity picks.
      It raises exactly when some row has no popularity. */
  method Recommendations(store: MovieStore) returns (r: Result<Buckets>)
    requires store.Valid() && store.created
    ensures var rows := store.ScanAll();
      && (r.Ok? <==> Ranked(rows))
      && (r.Err? ==> r.fault == TypeError("popularity"))
      && (r.Ok? ==>
            && |r.value.becauseYouWatched| == Min(BucketSize, |rows|)
            && |r.value.darkPsychological| == Min(BucketSize, |rows|)
            && |r.value.slowBurn| == Min(BucketSize, |rows|)
            && multiset(r.value.becauseYouWatched) <= multiset(rows)
            && multiset(r.value.darkPsychological) <= multiset(rows)
            && multiset(r.value.slowBurn) <= multiset(rows)
            && DistinctIds(r.value.becauseYouWatched)
            && DistinctIds(r.value.darkPsychological)
            && DistinctIds(r.value.slowBurn)
            && HighPopularityPicks(rows) == Ok(r.value.highPopularity))
  {
    var rows := store.ScanAll();
    var k := Min(BucketSize, |rows|);
    var a := Sample(rows, k);
    var b := Sample(rows, k);
    var c := Sample(rows, k);
    SampleDistinct(a, rows);
    SampleDistinct(b, rows);
    SampleDistinct(c, rows);
    var top := HighPopularityPicks(rows);
    if top.Err? {
      return Err(top.fault);
    }
    r := Ok(Buckets(a, b, c, top.value));
  }
}
