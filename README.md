# Movie recommendation backend: a verified model

This project models the core of `rec_backend_main.py`, a small recommendation backend.
The backend syncs a user's IMDb watchlist into a local SQLite cache of TMDB movie records.
It then serves four recommendation buckets built from that cache.

The model covers five pieces, one module each (plus two modules of shared types):

- `Resolver`: `imdb_to_tmdb`'s choice of a catalog id from a "find" response.
  The first movie result wins. The first TV result is the fallback. Otherwise there is no match.
- `Normalizer`: the `movie_data` dictionary built from a detail response. It covers:
  - the title/name fallback;
  - genre, cast, director and keyword names;
  - the cast cut to five entries;
  - the defaults supplied for missing keys.

  On the response shapes `TmdbJson` models, every exception the dictionary can raise
  becomes an `Err` value:
  - `KeyError`: an entry without "name";
  - `TypeError`: iterating a JSON null;
  - `AttributeError`: calling `.get` on a JSON null.
- `CatalogStore`: the `movies` table as a class holding a `map` from `tmdb_id` to row.
  - `InitDb` is `CREATE TABLE IF NOT EXISTS`.
  - `StoreMovie` is `INSERT OR REPLACE`, with list fields comma-joined.
  - `ScanAll` is the full-table `SELECT`, in ascending `tmdb_id` (rowid) order.
- `Sync`: the two loops of `sync_watchlist`.
  - The first loop collects the ids that resolve to a truthy id.
  - The second fetches, normalizes and upserts each collected id.

  The two network calls are function parameters: `lookup` and `fetch`.
  The result is `synced = len(tmdb_ids)`, or the exception that ended the run.
- `Recommend`: the buckets of `recommendations`.
  - Three buckets are samples of `min(10, n)` rows drawn without replacement.
  - The fourth is a stable sort by popularity, descending, cut to ten rows.

`TmdbJson` holds the decoded JSON shapes. A key is `Absent`, `Null` or `Present(v)`, so that `.get(k)` and `.get(k, default)` are exact. `Common` holds `Option`, `Result` and `Fault`.

The model follows the code in these details:
- The order of equal-popularity picks is not a documented promise. The code uses Python's stable `sorted` over the scan. The model fixes the scan order as ascending `tmdb_id`, so ties keep ascending `tmdb_id` (`Recommend.SortTiesById`).
- A missing `overview` key defaults to `""`, but an explicit JSON null stays null. The same holds for `popularity`, which defaults to 0 (`Normalizer.NormalizeDefaults`).
- `synced` counts the collected ids, including those whose detail response lacked `"id"` and wrote nothing (`Sync.SyncWatchlist`, `Sync.StoreAllWithoutIds`).

## Model

| member | source | states |
|---|---|---|
| TmdbJson.Get | rec_backend_main.py:133 | `obj.get(key)` is a value exactly when the key is present and not null, and then it is that value |
| TmdbJson.GetOr | rec_backend_main.py:121 | `obj.get(key, default)` gives the default only for a missing key; a null stays None; a present value is kept |
| Common.Take | rec_backend_main.py:122 | the slice `s[:n]` has length `min(n, len(s))` and is a prefix of `s` |
| Resolver.ImdbToTmdb | rec_backend_main.py:61-64 | the first movie hit's id when the movie list is present and non-empty, otherwise the first TV hit's id; no match exactly when neither list has a hit |
| Normalizer.OrText | rec_backend_main.py:119 | Python's `a or b` on optional strings: `a` when it is a non-empty string, otherwise `b`; the result is truthy exactly when one of the two is; `Normalizer.Normalize` states the title rule with it |
| Normalizer.Names | rec_backend_main.py:120 | `[e["name"] for e in es]` succeeds exactly when every entry has a name, with the names in order, one per entry; otherwise it raises KeyError("name") |
| Normalizer.DirectorNames | rec_backend_main.py:123-127 | the director comprehension succeeds exactly when every crew member whose job is "Director" has a name; it raises KeyError otherwise; it yields at most one name per crew member |
| Normalizer.DirectorNamesMembers | rec_backend_main.py:123-127 | a name is among the directors if and only if some crew entry with job "Director" carries it |
| Normalizer.DirectorNamesAppend | rec_backend_main.py:123-127 | directors keep crew order: the directors of a concatenation are the directors of each part, in sequence |
| Normalizer.ListOrEmpty | rec_backend_main.py:120 | `.get(key, [])` iterated: a missing key is the empty list, a present list is itself, a null raises TypeError(key) |
| Normalizer.CreditsOf | rec_backend_main.py:122 | `data.get("credits", {}).get(...)` raises AttributeError exactly when "credits" is null; a missing "credits" is the empty object, a present one is itself |
| Normalizer.KeywordBlockOf | rec_backend_main.py:130 | `data.get("keywords", {}).get(...)` raises AttributeError exactly when "keywords" is null; a missing "keywords" is the empty object, a present one is itself |
| Normalizer.CastEntries | rec_backend_main.py:122 | the cast entries are `data["credits"]["cast"]`: empty when either key is missing, AttributeError on a null "credits", TypeError on a null "cast" |
| Normalizer.CrewEntries | rec_backend_main.py:125 | the crew entries are `data["credits"]["crew"]`: empty when either key is missing, AttributeError on a null "credits", TypeError on a null "crew" |
| Normalizer.KeywordEntries | rec_backend_main.py:130 | the keyword entries are `data["keywords"]["keywords"]`: empty when either key is missing, AttributeError on a null outer "keywords", TypeError on a null inner one |
| Normalizer.Normalize | rec_backend_main.py:117-134 | it raises exactly when the response is not well shaped. On success: `tmdb_id` is the response id; the title is `title` when it is a non-empty string, otherwise `name`; at most 5 cast names; a name is a director exactly when some director entry carries it |
| Normalizer.NormalizeCast | rec_backend_main.py:122 | the cast is the names of the first `min(5, len)` cast entries, in order, and a prefix of the full cast-name list whenever that list exists |
| Normalizer.NormalizeDirectors | rec_backend_main.py:123-127 | the stored directors are exactly the director comprehension over the crew, in crew order |
| Normalizer.NormalizeGenresAndKeywords | rec_backend_main.py:120-131 | genres and keywords are the entries' names, one per entry, in order |
| Normalizer.NormalizeDefaults | rec_backend_main.py:120-133 | missing genres, credits or keywords give empty lists. A missing overview gives "" and a missing popularity gives 0; a null stays null, and a present value is kept. The poster is the `poster_path` value or None |
| CatalogStore.Join | rec_backend_main.py:87-91 | `",".join(xs)`: the empty list joins to "" and the text starts with the first element; `CatalogStore.ReadBackJoin` shows splitting undoes it for non-empty, comma-free elements and `CatalogStore.JoinIsLossy` that it is lossy otherwise |
| CatalogStore.ToRow | rec_backend_main.py:84-94 | the VALUES tuple: the row is keyed by the record's own id; `CatalogStore.RowRoundTrip` shows it holds the whole record |
| CatalogStore.ReadBackJoin | rec_backend_main.py:87 | a comma-joined list whose elements are non-empty and comma-free splits back into the same list |
| CatalogStore.RowRoundTrip | rec_backend_main.py:84-94 | the row written for a record holds all of the record: reading it back gives the record, when list elements are non-empty and comma-free |
| CatalogStore.JoinIsLossy | rec_backend_main.py:87-91 | outside that condition joining loses information: "Drama, Crime" stores like two genres, and `[]` stores like `[""]` |
| CatalogStore.Upsert | rec_backend_main.py:80-94 | INSERT OR REPLACE: the keys become the old keys plus the record's id, and the row under that id is the record's row. Every other row is unchanged, and each row stays under its own id |
| CatalogStore.UpsertSameIdTwice | rec_backend_main.py:80 | two upserts of the same id leave the second row only: a replacement, not a merge |
| CatalogStore.SortedKeys | rec_backend_main.py:147-150 | the scan visits each key once, in ascending order |
| CatalogStore.MovieStore.constructor | rec_backend_main.py:9 | a database file with no table and no rows |
| CatalogStore.MovieStore.InitDb | rec_backend_main.py:24-41 | after the call the table exists. A newly created table is empty, and an existing table keeps its rows |
| CatalogStore.MovieStore.StoreMovie | rec_backend_main.py:75-97 | the table becomes `Upsert` of the old table with the record |
| CatalogStore.MovieStore.ScanAll | rec_backend_main.py:147-150 | the SELECT returns every row of the table once, each under its own id, in ascending `tmdb_id` order |
| Sync.CollectIds | rec_backend_main.py:105-110 | the collected ids: at most one per external id and never 0; `Sync.CollectIdsMembers`, `Sync.CollectIdsAppend` and `Sync.CollectIdsLength` state which ids, in which order, with duplicates kept |
| Sync.Step | rec_backend_main.py:113-136 | one iteration of the second loop keeps every existing key and the primary-key invariant; when it raises, the table is unchanged and the response had an "id" but was not well shaped; `Sync.StepFrame` and `Sync.StepWrites` state what it writes |
| Sync.StoreAll | rec_backend_main.py:112-136 | the second loop over the ids, stopping at the first exception: it keeps every existing key and the primary-key invariant; `Sync.StoreAllFault`, `Sync.StoreAllFrame` and `Sync.StoreAllLastWrite` state when it raises and which row each key ends with |
| Sync.ResolveAll | rec_backend_main.py:105-110 | the first loop's list equals the collected ids |
| Sync.CollectIdsAppend | rec_backend_main.py:107-110 | collecting is order-preserving and keeps duplicates: it distributes over concatenation |
| Sync.CollectIdsMembers | rec_backend_main.py:107-110 | an id is collected exactly when some external id resolves to it truthily; 0 is never collected |
| Sync.CollectIdsLength | rec_backend_main.py:107-110 | at most one id per external id; when all resolve, exactly their resolutions in order |
| Sync.SyncWatchlist | rec_backend_main.py:103-138 | the table becomes the outcome of the second pass over the collected ids. The result is `synced = len(tmdb_ids)` when the run completes, or else the exception that stopped it |
| Sync.StoreAllStopsAtFault | rec_backend_main.py:112-136 | after an exception the remaining ids change nothing |
| Sync.StoreAllFault | rec_backend_main.py:113-136 | the run raises exactly when some fetched response has an "id" but is not well shaped; whether it raises does not depend on the table |
| Sync.StoreAllWithoutIds | rec_backend_main.py:114-115 | responses lacking "id" write nothing: the table is unchanged and the run completes |
| Sync.StepFrame | rec_backend_main.py:113-136 | one iteration leaves every key it does not write as it was |
| Sync.StepWrites | rec_backend_main.py:117-136 | one iteration on a well-shaped response with an id writes that response's row |
| Sync.StoreAllFrame | rec_backend_main.py:112-136 | rows under keys that no reached response writes are untouched, present or absent |
| Sync.StoreAllLastWrite | rec_backend_main.py:112-136 | last write wins: a written key holds the row of the last response writing it |
| Sync.SyncTwice | rec_backend_main.py:112-136 | repeating the second pass with the same responses leaves the table as the first pass left it |
| Sync.NoExternalIds | rec_backend_main.py:104-138 | with no external ids nothing is collected, `synced` is 0 and the table is unchanged |
| Recommend.Insert | rec_backend_main.py:159 | inserting into a descending list gives a descending list one longer, headed by the new row or the old head |
| Recommend.InsertPermutes | rec_backend_main.py:159 | insertion adds exactly the new row (multiset and membership) |
| Recommend.SortByPopularity | rec_backend_main.py:159 | `sorted(rows, key=lambda x: -x[7])` is descending in popularity and as long as its input |
| Recommend.SortPermutes | rec_backend_main.py:159 | the sort is a permutation: same multiset, same members |
| Recommend.InsertStable | rec_backend_main.py:159 | insertion keeps, for each popularity, the relative order of the rows having it |
| Recommend.SortStable | rec_backend_main.py:159 | the sort is stable: the rows of each popularity keep their input order |
| Recommend.InsertTies | rec_backend_main.py:159 | inserting a row whose id is below every other keeps equal-popularity rows in ascending id |
| Recommend.SortTiesById | rec_backend_main.py:159 | sorting rows given in ascending id (the scan) keeps ties in ascending id |
| Recommend.PrefixOfDescending | rec_backend_main.py:159 | a prefix of a descending list is a sub-multiset, and every row left out is at most as popular as each row kept |
| Recommend.HighPopularityPicks | rec_backend_main.py:159 | raises TypeError exactly when some row has a null popularity. Otherwise: `min(10, n)` rows, descending, a sub-multiset of the table, and no row left out is more popular than a pick |
| Recommend.PicksTiesById | rec_backend_main.py:147-159 | over a scan, equal-popularity picks are in ascending `tmdb_id` |
| Recommend.PicksKeepEarliest | rec_backend_main.py:159 | for every popularity, the picks of that popularity are a prefix of the table's rows of that popularity in scan order: the ten-row cut keeps the earliest of equally popular rows |
| Recommend.PicksExample | rec_backend_main.py:159 | popularities 5, 80, 3, 80, 1 under ids 1 to 5 give picks with ids 2, 4, 1, 3, 5 |
| Recommend.DistinctCountedOnce | rec_backend_main.py:156 | a list of rows with distinct ids holds each row at most once |
| Recommend.SampleDistinct | rec_backend_main.py:156-158 | drawing without replacement from rows with distinct ids yields distinct ids |
| Recommend.Sample | rec_backend_main.py:156-158 | `random.sample(rows, k)`: exactly `k` rows, a sub-multiset of the input |
| Recommend.Recommendations | rec_backend_main.py:143-161 | raises exactly when some scanned row has a null popularity. Otherwise the three sampled buckets each hold `min(10, n)` distinct table rows, so an empty table gives empty buckets; the fourth is `HighPopularityPicks` of the scan |

## Left out

- The FastAPI application, the CORS middleware, the route decorators and `/health` (rec_backend_main.py:11-19, 102, 143, 163-165) are HTTP plumbing. An exception in a handler is modelled as an `Err` result, not as an HTTP 500 response.
- The HTTP requests to IMDb and TMDB (rec_backend_main.py:51, 59-60, 68-72) are network I/O. `Sync.SyncWatchlist` takes the decoded responses as the function parameters `lookup` and `fetch`. `fetch_tmdb_movie` is therefore just `fetch`.
- `fetch_imdb_watchlist` (rec_backend_main.py:48-55) is not modelled; the watchlist ids are an input sequence. Its raw pattern `r"tt\\d+"` matches `tt`, a backslash and `d`s, not `tt` followed by digits. Its `list(set(...))` order is arbitrary, and the model accepts any order.
- SQLite connections, commits and closes are not modelled. The table is a map held by `CatalogStore.MovieStore`. The scan order of the full-table SELECT is taken to be ascending `tmdb_id` (rowid order).
- The values in a JSON `id` key are taken to be integers. A present-but-null `"id"` would make SQLite assign a fresh rowid; the model has no null id, and `Details.id` is either missing or an integer.
- Ids are taken to fit SQLite's signed 64-bit INTEGER. A detail response whose "id" lies outside that range makes sqlite3 raise OverflowError in `store_movie` (rec_backend_main.py:78-95), which would end the second loop; `Sync.Step` and `CatalogStore.Upsert` write such a row instead.
- Entry names are taken to be strings or missing. A null or non-string "name" is not modelled.
- The entries of the genres, cast, crew, keywords and lookup-result lists, and the "credits" and "keywords" values, are taken to be JSON objects or null/missing. A null list entry (`None["name"]` raises TypeError at rec_backend_main.py:120, `c.get("job")` raises AttributeError at rec_backend_main.py:126) and a non-object "credits" such as `[]` (AttributeError at rec_backend_main.py:122) are not modelled.
- Every lookup hit is taken to carry an integer `"id"`. A hit without one makes `results[0]["id"]` (rec_backend_main.py:64) raise KeyError and end the first loop; `Resolver.ImdbToTmdb` and `Sync.ResolveAll` have no such failure.
- Environment configuration (rec_backend_main.py:7-9) and concurrent sync requests are not modelled.
- Recommend.Sample: specifies only the size and the sub-multiset property of `random.sample`, not its distribution; the rows drawn are chosen nondeterministically.
- Recommend.HighPopularityPicks: popularity is a REAL column holding a float; the model uses integers, so float rounding and NaN ordering are not captured.
- Normalizer.Normalize: popularity values are integers here, for the same reason.
