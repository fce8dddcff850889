/**
 * The `/api/poster` route (`src/app/api/poster/route.ts`): the poster of one title, looked
 * up through the cached OMDb client.
 *
 * The lookup is a parameter standing for `fetchOmdbOnce`, whose caching is modelled in
 * `OmdbCache`.
 */
module PosterRoute {
  import opened Wrappers
  import opened Text
  import opened OmdbApi
  import opened OmdbCache

  /** The route's JSON reply. */
  datatype Reply =
    | MissingTitle
    | Found(title: string, year: YearArg, poster: Option<string>)

  const MissingTitleError: string := "Missing title"

  function Status(r: Reply): int {
    if r.MissingTitle? then 400 else 200
  }

  /** `year` as the route reads it: absent for a missing or empty parameter, else `Number(year)`. */
  function YearParam(year: Option<string>): (r: YearArg)
    ensures r.NoYear? <==> !Truthy(year)
    ensures r.Year? ==> JsNumber(year.value) == Some(r.n)
    ensures r.NaN? <==> Truthy(year) && JsNumber(year.value).None?
  {
    if !Truthy(year) then NoYear
    else match JsNumber(year.value)
      case Some(n) => Year(n)
      case None => NaN
  }

  /** A year written as a decimal numeral reaches the lookup as that number. */
  lemma YearParamNumeral(n: int)
    ensures YearParam(Some(IntToString(n))) == Year(n)
  {
    JsNumberIntToString(n);
  }

  /** `data?.Poster && data.Poster !== "N/A" ? data.Poster : null`. */
  function PosterOf(data: Option<Record>): (r: Option<string>)
    ensures r.Some? <==> data.Some? && UsablePoster(data.value.poster)
    ensures r.Some? ==> r == data.value.poster && r.value != "" && r.value != NotAvailable
  {
    if data.Some? && UsablePoster(data.value.poster) then data.value.poster else None
  }

  /** The lookup `GET` makes: title and year, or none when the title is missing or empty. */
  function LookupArgs(title: Option<string>, year: Option<string>): (r: Option<(string, YearArg)>)
    ensures r.None? <==> !Truthy(title)
    ensures r.Some? ==> r.value.0 == title.value && r.value.1 == YearParam(year)
  {
    if Truthy(title) then Some((title.value, YearParam(year))) else None
  }

  /** `GET /api/poster?title=…&year=…`, given what the lookup returns. */
  function Get(title: Option<string>, year: Option<string>, fetch: (string, YearArg) -> Option<Record>): Reply {
    match LookupArgs(title, year)
    case None => MissingTitle
    case Some((t, y)) => Found(t, y, PosterOf(fetch(t, y)))
  }

  /**
   * A missing or empty title is a 400 with no lookup; otherwise the reply echoes the title
   * and the year passed to the lookup, and its poster is the lookup's usable poster.
   */
  lemma GetCases(title: Option<string>, year: Option<string>, fetch: (string, YearArg) -> Option<Record>)
    ensures Status(Get(title, year, fetch)) == 400 <==> !Truthy(title)
    ensures !Truthy(title) ==> Get(title, year, fetch) == MissingTitle
    ensures Truthy(title) ==>
      Get(title, year, fetch) == Found(title.value, YearParam(year), PosterOf(fetch(title.value, YearParam(year))))
  {
  }

  /** The poster sent back is never the empty string or OMDb's "N/A". */
  lemma GetPosterUsable(title: Option<string>, year: Option<string>, fetch: (string, YearArg) -> Option<Record>)
    ensures Get(title, year, fetch).Found? && Get(title, year, fetch).poster.Some? ==>
      UsablePoster(Get(title, year, fetch).poster)
  {
  }
}
