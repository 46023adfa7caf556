/** The decoded JSON of the two catalog API responses the backend reads,
    restricted to the keys it looks at. */
module TmdbJson {
  import opened Common

  /** One key of a decoded JSON object: missing, mapped to null, or mapped to a value. */
  datatype Field<+T> = Absent | Null | Present(value: T)

  /** `obj.get(key)`: a missing key and a null both give None. */
  function Get<T>(f: Field<T>): (r: Option<T>)
    ensures r.Some? <==> f.Present?
    ensures r.Some? ==> r.value == f.value
  {
    match f
    case Present(v) => Some(v)
    case _ => None
  }

  /** `obj.get(key, default)`: only a missing key gives the default; a null stays None. */
  function GetOr<T>(f: Field<T>, default: T): (r: Option<T>)
    ensures f.Absent? ==> r == Some(default)
    ensures f.Null? ==> r == None
    ensures f.Present? ==> r == Some(f.value)
  {
    match f
    case Absent => Some(default)
    case Null => None
    case Present(v) => Some(v)
  }

  /** A list entry whose "name" is read with `e["name"]`; None when the key is missing. */
  datatype Named = Named(name: Option<string>)

  /** A crew entry: `c["name"]` and `c.get("job")`. */
  datatype CrewMember = CrewMember(name: Option<string>, job: Option<string>)

  /** The embedded "credits" object. */
  datatype Credits = Credits(cast: Field<seq<Named>>, crew: Field<seq<CrewMember>>)

  /** The embedded "keywords" object, which holds its own "keywords" list. */
  datatype KeywordBlock = KeywordBlock(keywords: Field<seq<Named>>)

  /** A movie detail response (detail endpoint with credits and keywords appended).
      `id` is None when the response has no "id" key. */
  datatype Details = Details(
    id: Option<int>,
    title: Field<string>,
    name: Field<string>,
    genres: Field<seq<Named>>,
    overview: Field<string>,
    credits: Field<Credits>,
    keywords: Field<KeywordBlock>,
    popularity: Field<int>,
    posterPath: Field<string>)

  /** One entry of a cross-reference lookup result list. */
  datatype Hit = Hit(id: int)

  /** A cross-reference lookup response ("find" by IMDb id). */
  datatype FindResponse = FindResponse(movieResults: Field<seq<Hit>>, tvResults: Field<seq<Hit>>)
}
