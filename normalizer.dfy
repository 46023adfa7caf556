/** The record built from a detail response before it is stored
    (the `movie_data` dictionary of `sync_watchlist`). */
module Normalizer {
  import opened Common
  import opened TmdbJson

  /** The crew job whose members are kept as directors. */
  const DirectorJob := "Director"

  /** The normalized record; list fields are still lists here. */
  datatype MovieData = MovieData(
    tmdbId: int,
    title: Option<string>,
    genres: seq<string>,
    overview: Option<string>,
    cast: seq<string>,
    directors: seq<string>,
    keywords: seq<string>,
    popularity: Option<int>,
    poster: Option<string>)

  /** Every entry a comprehension reads "name" from carries one. */
  predicate AllNamed(es: seq<Named>)
  {
    forall i :: 0 <= i < |es| ==> es[i].name.Some?
  }

  /** `c.get("job") == "Director"` */
  predicate IsDirector(c: CrewMember)
  {
    c.job == Some(DirectorJob)
  }

  /** Every director entry carries a name (the others are never asked for one). */
  predicate DirectorsNamed(crew: seq<CrewMember>)
  {
    forall i :: 0 <= i < |crew| && IsDirector(crew[i]) ==> crew[i].name.Some?
  }

  /** `[e["name"] for e in es]` */
  function Names(es: seq<Named>): (r: Result<seq<string>>)
    ensures r.Ok? <==> AllNamed(es)
    ensures r.Err? ==> r.fault == KeyError("name")
    ensures r.Ok? ==> |r.value| == |es| && forall i :: 0 <= i < |es| ==> r.value[i] == es[i].name.value
  {
    if es == [] then Ok([])
    else if es[0].name.None? then Err(KeyError("name"))
    else
      var rest :- Names(es[1..]);
      Ok([es[0].name.value] + rest)
  }

  /** `[c["name"] for c in crew if c.get("job") == "Director"]` */
  function DirectorNames(crew: seq<CrewMember>): (r: Result<seq<string>>)
    ensures r.Ok? <==> DirectorsNamed(crew)
    ensures r.Err? ==> r.fault == KeyError("name")
    ensures r.Ok? ==> |r.value| <= |crew|
  {
    if crew == [] then Ok([])
    else
      assert forall i :: 1 <= i < |crew| ==> crew[i] == crew[1..][i - 1];
      if !IsDirector(crew[0]) then DirectorNames(crew[1..])
      else if crew[0].name.None? then Err(KeyError("name"))
      else
        var rest :- DirectorNames(crew[1..]);
        Ok([crew[0].name.value] + rest)
  }

  /** No crew member but a named director appears among the directors, and every one does. */
  lemma {:induction false} DirectorNamesMembers(crew: seq<CrewMember>)
    requires DirectorNames(crew).Ok?
    ensures forall x :: x in DirectorNames(crew).value <==>
      exists i :: 0 <= i < |crew| && IsDirector(crew[i]) && crew[i].name == Some(x)
  {
    if crew != [] {
      var tail := crew[1..];
      DirectorNamesMembers(tail);
      assert forall i :: 1 <= i < |crew| ==> crew[i] == tail[i - 1];
      forall x
        ensures x in DirectorNames(crew).value <==>
          exists i :: 0 <= i < |crew| && IsDirector(crew[i]) && crew[i].name == Some(x)
      {
        if exists i :: 0 <= i < |tail| && IsDirector(tail[i]) && tail[i].name == Some(x) {
          var i :| 0 <= i < |tail| && IsDirector(tail[i]) && tail[i].name == Some(x);
          assert crew[i + 1] == tail[i];
        }
      }
    }
  }

  /** Iterating over a list read with `.get(key, [])`: a missing key is the empty
      list, a null is a TypeError (None is not iterable, nor sliceable). */
  function ListOrEmpty<T>(f: Field<seq<T>>, key: string): (r: Result<seq<T>>)
    ensures r.Ok? <==> !f.Null?
    ensures f.Null? ==> r == Err(TypeError(key))
    ensures f.Absent? ==> r == Ok([])
    ensures f.Present? ==> r == Ok(f.value)
  {
    match f
    case Absent => Ok([])
    case Null => Err(TypeError(key))
    case Present(v) => Ok(v)
  }

  /** `data.get("credits", {})` followed by `.get(...)`: a null raises AttributeError. */
  function CreditsOf(d: Details): (r: Result<Credits>)
    ensures r.Ok? <==> !d.credits.Null?
    ensures d.credits.Null? ==> r == Err(AttributeError("credits"))
    ensures d.credits.Absent? ==> r == Ok(Credits(Absent, Absent))
    ensures d.credits.Present? ==> r == Ok(d.credits.value)
  {
    match d.credits
    case Absent => Ok(Credits(Absent, Absent))
    case Null => Err(AttributeError("credits"))
    case Present(c) => Ok(c)
  }

  /** `data.get("keywords", {})` followed by `.get("keywords", [])`. */
  function KeywordBlockOf(d: Details): (r: Result<KeywordBlock>)
    ensures r.Ok? <==> !d.keywords.Null?
    ensures d.keywords.Null? ==> r == Err(AttributeError("keywords"))
    ensures d.keywords.Absent? ==> r == Ok(KeywordBlock(Absent))
    ensures d.keywords.Present? ==> r == Ok(d.keywords.value)
  {
    match d.keywords
    case Absent => Ok(KeywordBlock(Absent))
    case Null => Err(AttributeError("keywords"))
    case Present(k) => Ok(k)
  }

  /** The detail fields as the normalizer sees them (after the `{}` / `[]` defaults):
      `data["credits"]["cast"]`, `data["credits"]["crew"]` and `data["keywords"]["keywords"]`,
      each the empty list when a key on the way is missing. */
  function CastEntries(d: Details): (r: Result<seq<Named>>)
    ensures d.credits.Absent? ==> r == Ok([])
    ensures d.credits.Present? ==> r == ListOrEmpty(d.credits.value.cast, "cast")
    ensures d.credits.Null? ==> r == Err(AttributeError("credits"))
  {
    var credits :- CreditsOf(d);
    ListOrEmpty(credits.cast, "cast")
  }

  function CrewEntries(d: Details): (r: Result<seq<CrewMember>>)
    ensures d.credits.Absent? ==> r == Ok([])
    ensures d.credits.Present? ==> r == ListOrEmpty(d.credits.value.crew, "crew")
    ensures d.credits.Null? ==> r == Err(AttributeError("credits"))
  {
    var credits :- CreditsOf(d);
    ListOrEmpty(credits.crew, "crew")
  }

  function KeywordEntries(d: Details): (r: Result<seq<Named>>)
    ensures d.keywords.Absent? ==> r == Ok([])
    ensures d.keywords.Present? ==> r == ListOrEmpty(d.keywords.value.keywords, "keywords")
    ensures d.keywords.Null? ==> r == Err(AttributeError("keywords"))
  {
    var block :- KeywordBlockOf(d);
    ListOrEmpty(block.keywords, "keywords")
  }

  /** Python's `a or b` on optional strings: the empty string is falsy. */
  function OrText(a: Option<string>, b: Option<string>): (r: Option<string>)
    ensures a.Some? && a.value != "" ==> r == a
    ensures !(a.Some? && a.value != "") ==> r == b
    ensures (r.Some? && r.value != "") <==> (a.Some? && a.value != "") || (b.Some? && b.value != "")
  {
    if a.Some? && a.value != "" then a else b
  }

  /** The input shapes for which building the record raises nothing. */
  predicate WellShaped(d: Details)
  {
    && d.id.Some?
    && !d.genres.Null? && (d.genres.Present? ==> AllNamed(d.genres.value))
    && !d.credits.Null?
    && (d.credits.Present? ==>
          && !d.credits.value.cast.Null?
          && (d.credits.value.cast.Present? ==> AllNamed(Take(d.credits.value.cast.value, 5)))
          && !d.credits.value.crew.Null?
          && (d.credits.value.crew.Present? ==> DirectorsNamed(d.credits.value.crew.value)))
    && !d.keywords.Null?
    && (d.keywords.Present? ==>
          && !d.keywords.value.keywords.Null?
          && (d.keywords.value.keywords.Present? ==> AllNamed(d.keywords.value.keywords.value)))
  }

  /** The `movie_data` dictionary, its values evaluated in the order the literal lists them. */
  function Normalize(d: Details): (r: Result<MovieData>)
    ensures r.Ok? <==> WellShaped(d)
    ensures r.Ok? ==> r.value.tmdbId == d.id.value
    ensures r.Ok? && d.title.Present? && d.title.value != "" ==> r.value.title == Some(d.title.value)
    ensures r.Ok? && !(d.title.Present? && d.title.value != "") ==> r.value.title == Get(d.name)
    ensures r.Ok? ==> |r.value.cast| <= 5
    ensures r.Ok? ==> forall x :: x in r.value.directors <==>
      exists i :: 0 <= i < |CrewEntries(d).value| && IsDirector(CrewEntries(d).value[i])
        && CrewEntries(d).value[i].name == Some(x)
  {
    if d.id.None? then Err(KeyError("id"))
    else
      var title := OrText(Get(d.title), Get(d.name));
      var genreEntries :- ListOrEmpty(d.genres, "genres");
      var genres :- Names(genreEntries);
      var overview := GetOr(d.overview, "");
      var castEntries :- CastEntries(d);
      var cast :- Names(Take(castEntries, 5));
      var crewEntries :- CrewEntries(d);
      var directors :- DirectorNames(crewEntries);
      DirectorNamesMembers(crewEntries);
      var keywordEntries :- KeywordEntries(d);
      var keywords :- Names(keywordEntries);
      var popularity := GetOr(d.popularity, 0);
      var poster := Get(d.posterPath);
      Ok(MovieData(d.id.value, title, genres, overview, cast, directors, keywords, popularity, poster))
  }

  /** The stored cast is the names of the first (at most) five cast entries, in order:
      a prefix of the full name list whenever that list exists. */
  lemma NormalizeCast(d: Details)
    requires Normalize(d).Ok?
    ensures CastEntries(d).Ok?
    ensures var cast, entries := Normalize(d).value.cast, CastEntries(d).value;
      && |cast| == Min(5, |entries|)
      && (forall i :: 0 <= i < |cast| ==> cast[i] == entries[i].name.value)
      && (AllNamed(entries) ==> cast == Names(entries).value[..|cast|])
  {
  }

  /** Directors keep the crew's order: the director names of a concatenation are
      the director names of each part, one after the other. */
  lemma {:induction false} DirectorNamesAppend(a: seq<CrewMember>, b: seq<CrewMember>)
    requires DirectorNames(a).Ok? && DirectorNames(b).Ok?
    ensures DirectorNames(a + b) == Ok(DirectorNames(a).value + DirectorNames(b).value)
  {
    if a != [] {
      assert (a + b)[0] == a[0];
      assert (a + b)[1..] == a[1..] + b;
      DirectorNamesAppend(a[1..], b);
      if IsDirector(a[0]) {
        var n, x, y := a[0].name.value, DirectorNames(a[1..]).value, DirectorNames(b).value;
        assert DirectorNames(a).value == [n] + x;
        assert DirectorNames(a + b) == Ok([n] + (x + y));
        assert [n] + (x + y) == ([n] + x) + y;
      }
    } else {
      assert a + b == b;
      assert DirectorNames(a).value == [];
      assert DirectorNames(a).value + DirectorNames(b).value == DirectorNames(b).value;
    }
  }

  /** The directors are exactly the director entries' names, in crew order. */
  lemma NormalizeDirectors(d: Details)
    requires Normalize(d).Ok?
    ensures CrewEntries(d).Ok? && DirectorNames(CrewEntries(d).value) == Ok(Normalize(d).value.directors)
  {
  }

  /** Genres and keywords are the entries' names, in order. */
  lemma NormalizeGenresAndKeywords(d: Details)
    requires Normalize(d).Ok?
    ensures var m := Normalize(d).value;
      && (d.genres.Present? ==>
            |m.genres| == |d.genres.value| &&
            forall i :: 0 <= i < |m.genres| ==> m.genres[i] == d.genres.value[i].name.value)
      && KeywordEntries(d).Ok?
      && |m.keywords| == |KeywordEntries(d).value|
      && (forall i :: 0 <= i < |m.keywords| ==> m.keywords[i] == KeywordEntries(d).value[i].name.value)
  {
  }

  /** The defaults supplied for missing keys, and the values kept for present ones. */
  lemma NormalizeDefaults(d: Details)
    requires Normalize(d).Ok?
    ensures var m := Normalize(d).value;
      && (d.genres.Absent? ==> m.genres == [])
      && (d.credits.Absent? ==> m.cast == [] && m.directors == [])
      && (d.keywords.Absent? ==> m.keywords == [])
      && (d.overview.Absent? ==> m.overview == Some(""))
      && (d.overview.Null? ==> m.overview == None)
      && (d.overview.Present? ==> m.overview == Some(d.overview.value))
      && (d.popularity.Absent? ==> m.popularity == Some(0))
      && (d.popularity.Null? ==> m.popularity == None)
      && (d.popularity.Present? ==> m.popularity == Some(d.popularity.value))
      && (d.posterPath.Present? ==> m.poster == Some(d.posterPath.value))
      && (!d.posterPath.Present? ==> m.poster == None)
  {
  }
}
