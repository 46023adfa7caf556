/** `imdb_to_tmdb`: choosing a catalog id from a cross-reference lookup response. */
module Resolver {
  import opened Common
  import opened TmdbJson

  /** Python truthiness of an optional list: present and non-empty. */
  predicate Truthy<T>(o: Option<seq<T>>)
  {
    o.Some? && |o.value| > 0
  }

  /** Python's `a or b` on optional lists. */
  function Or<T>(a: Option<seq<T>>, b: Option<seq<T>>): Option<seq<T>>
  {
    if Truthy(a) then a else b
  }

  /** The id of the first entry of a result list, when the list is present and non-empty. */
  function FirstHit(f: Field<seq<Hit>>): Option<int>
  {
    if f.Present? && f.value != [] then Some(f.value[0].id) else None
  }

  /** `r.get("movie_results") or r.get("tv_results") or []`, then `None` for an empty
      list and `results[0]["id"]` otherwise: the first movie hit wins, the first TV hit
      is the fallback, and no hit at all is "no match". */
  function ImdbToTmdb(r: FindResponse): (id: Option<int>)
    ensures FirstHit(r.movieResults).Some? ==> id == FirstHit(r.movieResults)
    ensures FirstHit(r.movieResults).None? ==> id == FirstHit(r.tvResults)
    ensures id.None? <==> FirstHit(r.movieResults).None? && FirstHit(r.tvResults).None?
  {
    var results := Or(Or(Get(r.movieResults), Get(r.tvResults)), Some([]));
    if !Truthy(results) then None else Some(results.value[0].id)
  }
}
