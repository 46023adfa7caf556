/** `sync_watchlist`: resolve every external id, then fetch, normalize and upsert
    every resolved catalog id. The network calls are the parameters `lookup`
    (the cross-reference lookup response for an IMDb id) and `fetch` (the detail
    response for a catalog id). */
module Sync {
  import opened Common
  import opened TmdbJson
  import opened Resolver
  import opened Normalizer
  import opened CatalogStore

  /** `if tmdb_id:` on the resolver's answer: a match whose id is not 0. */
  predicate Resolved(o: Option<int>)
  {
    o.Some? && o.value != 0
  }

  /** The first pass: the truthy resolved ids, in encounter order, duplicates kept. */
  function CollectIds(imdbIds: seq<string>, lookup: string -> FindResponse): (ids: seq<int>)
    ensures |ids| <= |imdbIds|
    ensures forall i :: 0 <= i < |ids| ==> ids[i] != 0
    decreases |imdbIds|
  {
    if imdbIds == [] then []
    else
      var id := ImdbToTmdb(lookup(imdbIds[|imdbIds| - 1]));
      CollectIds(imdbIds[..|imdbIds| - 1], lookup) + (if Resolved(id) then [id.value] else [])
  }

  /** The table after a run of upserts, and the exception that ended it early, if any. */
  datatype SyncState = SyncState(table: map<int, Row>, fault: Option<Fault>)

  /** One iteration of the second pass on the fetched response `data`. */
  function Step(t: map<int, Row>, data: Details): (r: SyncState)
    ensures t.Keys <= r.table.Keys
    ensures Keyed(t) ==> Keyed(r.table)
    ensures r.fault.Some? ==> r.table == t && data.id.Some? && !WellShaped(data)
  {
    if data.id.None? then SyncState(t, None)
    else
      match Normalize(data)
      case Err(f) => SyncState(t, Some(f))
      case Ok(m) => SyncState(Upsert(t, m), None)
  }

  /** The second pass over `ids`: stops at the first exception, keeping earlier upserts. */
  function StoreAll(t: map<int, Row>, ids: seq<int>, fetch: int -> Details): (r: SyncState)
    ensures t.Keys <= r.table.Keys
    ensures Keyed(t) ==> Keyed(r.table)
    decreases |ids|
  {
    if ids == [] then SyncState(t, None)
    else
      var prev := StoreAll(t, ids[..|ids| - 1], fetch);
      if prev.fault.Some? then prev else Step(prev.table, fetch(ids[|ids| - 1]))
  }

  /** The row a fetched response writes, if it writes one. */
  function Written(data: Details): Option<Row>
  {
    if data.id.Some? && Normalize(data).Ok? then Some(ToRow(Normalize(data).value)) else None
  }

  /** Whether the response writes a row under `k`. */
  predicate WritesKey(data: Details, k: int)
  {
    Written(data).Some? && Written(data).value.tmdbId == k
  }

  /** The first loop of `sync_watchlist`: append every truthy resolved id. */
  method ResolveAll(imdbIds: seq<string>, lookup: string -> FindResponse) returns (tmdbIds: seq<int>)
    ensures tmdbIds == CollectIds(imdbIds, lookup)
  {
    tmdbIds := [];
    for i := 0 to |imdbIds|
      invariant tmdbIds == CollectIds(imdbIds[..i], lookup)
    {
      var tmdbId := ImdbToTmdb(lookup(imdbIds[i]));
      assert imdbIds[..i + 1][..i] == imdbIds[..i];
      if Resolved(tmdbId) {
        tmdbIds := tmdbIds + [tmdbId.value];
      }
    }
    assert imdbIds[..|imdbIds|] == imdbIds;
  }

  /** `sync_watchlist`: `synced` is the number of collected ids, not of rows written. */
  method SyncWatchlist(store: MovieStore, imdbIds: seq<string>, lookup: string -> FindResponse,
                       fetch: int -> Details) returns (r: Result<nat>)
    requires store.Valid() && store.created
    modifies store
    ensures store.Valid() && store.created
    ensures var outcome := StoreAll(old(store.movies), CollectIds(imdbIds, lookup), fetch);
      && store.movies == outcome.table
      && r == (if outcome.fault.None? then Ok(|CollectIds(imdbIds, lookup)|) else Err(outcome.fault.value))
  {
    var tmdbIds := ResolveAll(imdbIds, lookup);
    ghost var start := store.movies;
    for j := 0 to |tmdbIds|
      invariant store.Valid() && store.created
      invariant StoreAll(start, tmdbIds[..j], fetch) == SyncState(store.movies, None)
    {
      assert tmdbIds[..j + 1][..j] == tmdbIds[..j];
      var data := fetch(tmdbIds[j]);
      if data.id.None? {
        continue;
      }
      var movie := Normalize(data);
      if movie.Err? {
        StoreAllStopsAtFault(start, tmdbIds, fetch, j + 1);
        assert tmdbIds[..|tmdbIds|] == tmdbIds;
        return Err(movie.fault);
      }
      store.StoreMovie(movie.value);
    }
    assert tmdbIds[..|tmdbIds|] == tmdbIds;
    r := Ok(|tmdbIds|);
  }

  /** Once an exception has ended the run, the rest of the ids change nothing. */
  lemma {:induction false} StoreAllStopsAtFault(t: map<int, Row>, ids: seq<int>, fetch: int -> Details, n: nat)
    requires n <= |ids|
    requires StoreAll(t, ids[..n], fetch).fault.Some?
    ensures StoreAll(t, ids, fetch) == StoreAll(t, ids[..n], fetch)
    decreases |ids|
  {
    if n < |ids| {
      var init := ids[..|ids| - 1];
      assert init[..n] == ids[..n];
      StoreAllStopsAtFault(t, init, fetch, n);
    } else {
      assert ids[..n] == ids;
    }
  }

  /** Collecting is order-preserving and keeps duplicates: collecting a concatenation
      is collecting each part, one after the other. */
  lemma {:induction false} CollectIdsAppend(a: seq<string>, b: seq<string>, lookup: string -> FindResponse)
    ensures CollectIds(a + b, lookup) == CollectIds(a, lookup) + CollectIds(b, lookup)
    decreases |b|
  {
    if b == [] {
      assert a + b == a;
    } else {
      var b' := b[..|b| - 1];
      assert (a + b)[..|a + b| - 1] == a + b';
      assert (a + b)[|a + b| - 1] == b[|b| - 1];
      CollectIdsAppend(a, b', lookup);
    }
  }

  /** An id is collected exactly when some external id resolves to it truthily. */
  lemma {:induction false} CollectIdsMembers(ids: seq<string>, lookup: string -> FindResponse, t: int)
    ensures t in CollectIds(ids, lookup) <==>
      exists i :: 0 <= i < |ids| && Resolved(ImdbToTmdb(lookup(ids[i]))) && ImdbToTmdb(lookup(ids[i])).value == t
    ensures 0 !in CollectIds(ids, lookup)
    decreases |ids|
  {
    if ids != [] {
      var init := ids[..|ids| - 1];
      CollectIdsMembers(init, lookup, t);
      assert forall i :: 0 <= i < |init| ==> init[i] == ids[i];
    }
  }

  /** At most one id per external id; exactly the resolutions, in order, when all resolve. */
  lemma {:induction false} CollectIdsLength(ids: seq<string>, lookup: string -> FindResponse)
    ensures |CollectIds(ids, lookup)| <= |ids|
    ensures (forall i :: 0 <= i < |ids| ==> Resolved(ImdbToTmdb(lookup(ids[i])))) ==>
      |CollectIds(ids, lookup)| == |ids| &&
      forall i :: 0 <= i < |ids| ==> CollectIds(ids, lookup)[i] == ImdbToTmdb(lookup(ids[i])).value
    decreases |ids|
  {
    if ids != [] {
      var init := ids[..|ids| - 1];
      CollectIdsLength(init, lookup);
      assert forall i :: 0 <= i < |init| ==> init[i] == ids[i];
    }
  }

  /** The run ends early exactly when some reached response has an "id" but cannot be
      normalized; whether it does depends on the responses only, not on the table. */
  lemma {:induction false} StoreAllFault(t: map<int, Row>, u: map<int, Row>, ids: seq<int>, fetch: int -> Details)
    ensures StoreAll(t, ids, fetch).fault.None? <==>
      forall i :: 0 <= i < |ids| ==> fetch(ids[i]).id.None? || WellShaped(fetch(ids[i]))
    ensures StoreAll(t, ids, fetch).fault == StoreAll(u, ids, fetch).fault
    decreases |ids|
  {
    if ids != [] {
      var init := ids[..|ids| - 1];
      StoreAllFault(t, u, init, fetch);
      assert forall i :: 0 <= i < |init| ==> init[i] == ids[i];
    }
  }

  /** Responses without an "id" write nothing: if every fetched response lacks one,
      the table is unchanged and the run completes (while `synced` still counts them). */
  lemma {:induction false} StoreAllWithoutIds(t: map<int, Row>, ids: seq<int>, fetch: int -> Details)
    requires forall i :: 0 <= i < |ids| ==> fetch(ids[i]).id.None?
    ensures StoreAll(t, ids, fetch) == SyncState(t, None)
    decreases |ids|
  {
    if ids != [] {
      StoreAllWithoutIds(t, ids[..|ids| - 1], fetch);
    }
  }

  /** One iteration leaves every key it does not write as it was. */
  lemma StepFrame(t: map<int, Row>, data: Details, k: int)
    requires !WritesKey(data, k)
    ensures k in Step(t, data).table <==> k in t
    ensures k in t ==> Step(t, data).table[k] == t[k]
  {
  }

  /** One iteration that completes writes its row. */
  lemma StepWrites(t: map<int, Row>, data: Details)
    requires Written(data).Some?
    ensures Step(t, data).fault.None?
    ensures Written(data).value.tmdbId in Step(t, data).table
    ensures Step(t, data).table[Written(data).value.tmdbId] == Written(data).value
  {
  }

  /** Rows under keys that no reached response writes are untouched, present or absent. */
  lemma {:induction false} StoreAllFrame(t: map<int, Row>, ids: seq<int>, fetch: int -> Details, k: int)
    requires forall i :: 0 <= i < |ids| ==> !WritesKey(fetch(ids[i]), k)
    ensures k in StoreAll(t, ids, fetch).table <==> k in t
    ensures k in t ==> StoreAll(t, ids, fetch).table[k] == t[k]
    decreases |ids|
  {
    if ids != [] {
      var init := ids[..|ids| - 1];
      StoreAllFrame(t, init, fetch, k);
      StepFrame(StoreAll(t, init, fetch).table, fetch(ids[|ids| - 1]), k);
    }
  }

  /** Last write wins: in a run without exceptions, the row under a written key is the
      row of the last response that writes that key. */
  lemma {:induction false} StoreAllLastWrite(t: map<int, Row>, ids: seq<int>, fetch: int -> Details, j: nat)
    requires StoreAll(t, ids, fetch).fault.None?
    requires j < |ids| && Written(fetch(ids[j])).Some?
    requires forall i :: j < i < |ids| ==> !WritesKey(fetch(ids[i]), Written(fetch(ids[j])).value.tmdbId)
    ensures var row := Written(fetch(ids[j])).value;
      row.tmdbId in StoreAll(t, ids, fetch).table && StoreAll(t, ids, fetch).table[row.tmdbId] == row
    decreases |ids|
  {
    var init, last := ids[..|ids| - 1], fetch(ids[|ids| - 1]);
    var row := Written(fetch(ids[j])).value;
    var prev := StoreAll(t, init, fetch);
    assert prev.fault.None?;
    assert StoreAll(t, ids, fetch) == Step(prev.table, last);
    if j < |ids| - 1 {
      assert init[j] == ids[j];
      assert forall i :: j < i < |init| ==> init[i] == ids[i];
      StoreAllLastWrite(t, init, fetch, j);
      StepFrame(prev.table, last, row.tmdbId);
    } else {
      StepWrites(prev.table, last);
    }
  }

  /** Running the second pass again over the same ids and responses leaves the table as
      the first run left it: the sync is idempotent in effect. */
  lemma SyncTwice(t: map<int, Row>, ids: seq<int>, fetch: int -> Details)
    requires StoreAll(t, ids, fetch).fault.None?
    ensures StoreAll(StoreAll(t, ids, fetch).table, ids, fetch) == StoreAll(t, ids, fetch)
  {
    var once := StoreAll(t, ids, fetch).table;
    var twice := StoreAll(once, ids, fetch);
    StoreAllFault(once, t, ids, fetch);
    forall k
      ensures (k in twice.table <==> k in once) && (k in once ==> twice.table[k] == once[k])
    {
      if j :| 0 <= j < |ids| && WritesKey(fetch(ids[j]), k) {
        var last := LastWriter(ids, fetch, k, j);
        StoreAllLastWrite(t, ids, fetch, last);
        StoreAllLastWrite(once, ids, fetch, last);
      } else {
        StoreAllFrame(once, ids, fetch, k);
      }
    }
    assert twice.table == once;
  }

  /** The index of the last response that writes `k`, at or after `j`. */
  ghost function LastWriter(ids: seq<int>, fetch: int -> Details, k: int, j: nat): (last: nat)
    requires j < |ids| && WritesKey(fetch(ids[j]), k)
    ensures j <= last < |ids| && WritesKey(fetch(ids[last]), k)
    ensures forall i :: last < i < |ids| ==> !WritesKey(fetch(ids[i]), k)
    decreases |ids| - j
  {
    if exists i :: j < i < |ids| && WritesKey(fetch(ids[i]), k) then
      var i :| j < i < |ids| && WritesKey(fetch(ids[i]), k);
      LastWriter(ids, fetch, k, i)
    else j
  }

  /** With zero external ids nothing is collected, `synced` is 0 and the table is unchanged. */
  lemma NoExternalIds(t: map<int, Row>, lookup: string -> FindResponse, fetch: int -> Details)
    ensures CollectIds([], lookup) == []
    ensures StoreAll(t, CollectIds([], lookup), fetch) == SyncState(t, None)
  {
  }
}
