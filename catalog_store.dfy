/** The `movies` table: its row shape, the comma-joined list columns,
    `init_db`, `store_movie` (INSERT OR REPLACE) and the full-table SELECT. */
module CatalogStore {
  import opened Common
  import opened Normalizer

  /** One row, in the table's column order. The list columns hold comma-joined text;
      popularity is kept as an integer key. */
  datatype Row = Row(
    tmdbId: int,
    title: Option<string>,
    genres: string,
    overview: Option<string>,
    castList: string,
    directors: string,
    keywords: string,
    popularity: Option<int>,
    poster: Option<string>)

  /** The separator `store_movie` joins list fields with. */
  const Separator := ','

  /** Python's `sep.join(xs)`: the empty list joins to "", and the text starts with the
      first element. */
  function Join(xs: seq<string>, sep: char): (r: string)
    ensures xs == [] ==> r == ""
    ensures xs != [] ==> |r| >= |xs[0]| && r[..|xs[0]|] == xs[0]
  {
    if |xs| == 0 then ""
    else if |xs| == 1 then xs[0]
    else xs[0] + [sep] + Join(xs[1..], sep)
  }

  /** The position of the first occurrence of `c` in `s`. */
  function IndexOf(s: string, c: char): (i: nat)
    requires c in s
    ensures i < |s| && s[i] == c && c !in s[..i]
  {
    if s[0] == c then 0 else 1 + IndexOf(s[1..], c)
  }

  /** Python's `s.split(sep)`: always at least one piece. */
  function Split(s: string, sep: char): (r: seq<string>)
    ensures |r| >= 1
    decreases |s|
  {
    if sep !in s then [s]
    else
      var i := IndexOf(s, sep);
      [s[..i]] + Split(s[i + 1..], sep)
  }

  /** Reading a list column back: the empty text is the empty list. */
  function ReadBack(s: string): seq<string>
  {
    if s == "" then [] else Split(s, Separator)
  }

  /** A list whose elements survive joining: none empty, none holding the separator. */
  predicate Storable(xs: seq<string>)
  {
    forall i :: 0 <= i < |xs| ==> xs[i] != "" && Separator !in xs[i]
  }

  lemma FirstSeparator(x: string, sep: char, rest: string)
    requires sep !in x
    ensures sep in x + [sep] + rest && IndexOf(x + [sep] + rest, sep) == |x|
  {
    var s := x + [sep] + rest;
    assert s[|x|] == sep;
    assert forall j :: 0 <= j < |x| ==> s[j] == x[j];
    IndexOfAtMost(s, sep, |x|);
  }

  /** No occurrence comes before the first one. */
  lemma {:induction false} IndexOfAtMost(s: string, c: char, j: nat)
    requires j < |s| && s[j] == c
    ensures c in s && IndexOf(s, c) <= j
  {
    if s[0] != c {
      IndexOfAtMost(s[1..], c, j - 1);
    }
  }

  /** Splitting a join gives the list back when no element holds the separator. */
  lemma {:induction false} SplitJoin(xs: seq<string>, sep: char)
    requires |xs| >= 1
    requires forall i :: 0 <= i < |xs| ==> sep !in xs[i]
    ensures Split(Join(xs, sep), sep) == xs
  {
    if |xs| > 1 {
      var x, tail := xs[0], xs[1..];
      var rest := Join(tail, sep);
      var s := x + [sep] + rest;
      assert Join(xs, sep) == s;
      FirstSeparator(x, sep, rest);
      assert s[..|x|] == x;
      assert s[|x| + 1..] == rest;
      assert Split(s, sep) == [x] + Split(rest, sep);
      SplitJoin(tail, sep);
      assert xs == [x] + tail;
    }
  }

  /** A stored list column reads back as the list that was stored. */
  lemma ReadBackJoin(xs: seq<string>)
    requires Storable(xs)
    ensures ReadBack(Join(xs, Separator)) == xs
  {
    if xs != [] {
      assert Join(xs, Separator) != "";
      SplitJoin(xs, Separator);
    }
  }

  /** The row `store_movie` writes for a record: list fields comma-joined, the rest as is.
      The row is keyed by the record's own id; `RowRoundTrip` shows it holds the whole record. */
  function ToRow(d: MovieData): (r: Row)
    ensures r.tmdbId == d.tmdbId
  {
    Row(d.tmdbId, d.title, Join(d.genres, Separator), d.overview, Join(d.cast, Separator),
        Join(d.directors, Separator), Join(d.keywords, Separator), d.popularity, d.poster)
  }

  /** Reading a row back into a record by splitting its list columns. */
  function FromRow(r: Row): MovieData
  {
    MovieData(r.tmdbId, r.title, ReadBack(r.genres), r.overview, ReadBack(r.castList),
              ReadBack(r.directors), ReadBack(r.keywords), r.popularity, r.poster)
  }

  /** A record whose list elements are non-empty and comma-free reads back unchanged:
      storing keeps every list and its order. */
  lemma RowRoundTrip(d: MovieData)
    requires Storable(d.genres) && Storable(d.cast) && Storable(d.directors) && Storable(d.keywords)
    ensures FromRow(ToRow(d)) == d
  {
    ReadBackJoin(d.genres);
    ReadBackJoin(d.cast);
    ReadBackJoin(d.directors);
    ReadBackJoin(d.keywords);
  }

  /** Joining loses information outside `Storable`: an element holding a comma reads
      back as two elements, and an empty list and a list of one empty name store alike. */
  lemma JoinIsLossy()
    ensures Join(["Drama, Crime"], Separator) == Join(["Drama", " Crime"], Separator)
    ensures Join([], Separator) == Join([""], Separator)
  {
  }

  /** Every row sits under its own tmdb_id: the primary-key invariant. */
  predicate Keyed(t: map<int, Row>)
  {
    forall k :: k in t ==> t[k].tmdbId == k
  }

  /** INSERT OR REPLACE keyed by tmdb_id: the record's row replaces any row under its id,
      and every other row is untouched. */
  function Upsert(t: map<int, Row>, d: MovieData): (r: map<int, Row>)
    ensures r.Keys == t.Keys + {d.tmdbId}
    ensures r[d.tmdbId] == ToRow(d)
    ensures forall k :: k in t && k != d.tmdbId ==> r[k] == t[k]
    ensures Keyed(t) ==> Keyed(r)
  {
    t[d.tmdbId := ToRow(d)]
  }

  /** Upserting two records with the same id leaves one row, the second's (no merge). */
  lemma UpsertSameIdTwice(t: map<int, Row>, a: MovieData, b: MovieData)
    requires a.tmdbId == b.tmdbId
    ensures Upsert(Upsert(t, a), b) == Upsert(t, b)
  {
  }

  /** `m` is the smallest element of `s`. */
  predicate IsLeast(m: int, s: set<int>)
  {
    m in s && forall x :: x in s ==> m <= x
  }

  lemma {:induction false} HasLeast(s: set<int>)
    requires s != {}
    ensures exists m :: IsLeast(m, s)
    decreases |s|
  {
    assert (forall z :: z !in s) ==> s == {};
    var y :| y in s;
    if forall x :: x in s ==> x == y {
      assert IsLeast(y, s);
    } else {
      var z :| z in s && z != y;
      var rest := s - {y};
      assert z in rest;
      HasLeast(rest);
      var m :| IsLeast(m, rest);
      var least := if y < m then y else m;
      forall x | x in s
        ensures least <= x
      {
        if x != y {
          assert x in rest;
        }
      }
      assert IsLeast(least, s);
    }
  }

  function Least(s: set<int>): (m: int)
    requires s != {}
    ensures IsLeast(m, s)
  {
    HasLeast(s);
    var m :| IsLeast(m, s);
    m
  }

  /** `ks` lists the elements of `s` once each, in ascending order. */
  predicate ListsAscending(ks: seq<int>, s: set<int>)
  {
    && (forall i :: 0 <= i < |ks| ==> ks[i] in s)
    && (forall k :: k in s ==> k in ks)
    && (forall i, j :: 0 <= i < j < |ks| ==> ks[i] < ks[j])
    && |ks| == |s|
  }

  lemma ListsAscendingStep(s: set<int>, m: int, rest: seq<int>)
    requires IsLeast(m, s) && ListsAscending(rest, s - {m})
    ensures ListsAscending([m] + rest, s)
  {
    assert forall i :: 0 <= i < |rest| ==> rest[i] in s - {m} && m < rest[i];
    assert forall k :: k in s ==> k == m || k in s - {m};
    assert |s - {m}| == |s| - 1;
  }

  /** The keys of a rowid table in the order a full scan visits them: ascending. */
  function SortedKeys(s: set<int>): (ks: seq<int>)
    ensures ListsAscending(ks, s)
    decreases |s|
  {
    if s == {} then []
    else
      var m := Least(s);
      var rest := SortedKeys(s - {m});
      ListsAscendingStep(s, m, rest);
      [m] + rest
  }

  /** The rows stored under the given keys, in the keys' order. */
  function RowsAt(t: map<int, Row>, ks: seq<int>): (rows: seq<Row>)
    requires forall i :: 0 <= i < |ks| ==> ks[i] in t
    requires Keyed(t)
    ensures |rows| == |ks|
    ensures forall i :: 0 <= i < |ks| ==> rows[i] == t[ks[i]] && rows[i].tmdbId == ks[i]
  {
    if ks == [] then [] else [t[ks[0]]] + RowsAt(t, ks[1..])
  }

  /** `rows` is a full scan of `t`: each row once, in ascending tmdb_id order. */
  predicate IsScan(rows: seq<Row>, t: map<int, Row>)
  {
    && |rows| == |t|
    && (forall i :: 0 <= i < |rows| ==> rows[i].tmdbId in t && t[rows[i].tmdbId] == rows[i])
    && (forall k :: k in t ==> t[k] in rows)
    && (forall i, j :: 0 <= i < j < |rows| ==> rows[i].tmdbId < rows[j].tmdbId)
  }

  lemma RowsAtIsScan(t: map<int, Row>, ks: seq<int>)
    requires Keyed(t) && ListsAscending(ks, t.Keys)
    ensures IsScan(RowsAt(t, ks), t)
  {
    var rows := RowsAt(t, ks);
    forall k | k in t
      ensures t[k] in rows
    {
      var i :| 0 <= i < |ks| && ks[i] == k;
      assert rows[i] == t[k];
    }
    assert |t.Keys| == |t|;
  }

  /** The SQLite file holding the `movies` table. */
  class MovieStore {
    /** Whether the table exists yet. */
    var created: bool
    /** The rows, keyed by tmdb_id. */
    var movies: map<int, Row>

    ghost predicate Valid()
      reads this
    {
      Keyed(movies) && (!created ==> movies == map[])
    }

    /** A database file without the table. */
    constructor ()
      ensures Valid() && !created && movies == map[]
    {
      created := false;
      movies := map[];
    }

    /** `init_db`: CREATE TABLE IF NOT EXISTS. A fresh table is empty; an existing one
        keeps its rows, so calling it again changes nothing. */
    method InitDb()
      requires Valid()
      modifies this
      ensures Valid() && created
      ensures !old(created) ==> movies == map[]
      ensures movies == old(movies)
    {
      if !created {
        created := true;
        movies := map[];
      }
    }

    /** `store_movie`: INSERT OR REPLACE of the record's row. */
    method StoreMovie(d: MovieData)
      requires Valid() && created
      modifies this
      ensures Valid() && created
      ensures movies == Upsert(old(movies), d)
    {
      movies := Upsert(movies, d);
    }

    /** `SELECT ... FROM movies`: every row once, in ascending tmdb_id (rowid) order. */
    function ScanAll(): (rows: seq<Row>)
      reads this
      requires Valid()
      ensures IsScan(rows, movies)
    {
      var ks := SortedKeys(movies.Keys);
      RowsAtIsScan(movies, ks);
      RowsAt(movies, ks)
    }
  }
}
