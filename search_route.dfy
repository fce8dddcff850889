/**
 * The `/api/search` route (`src/app/api/search/route.ts`): a title search forwarded to
 * OMDb's search endpoint, and the OMDb hits reshaped into the items the search page shows.
 *
 * The environment and the network are parameters: whether an API key is configured, and
 * the reply OMDb gives for a search term.
 */
module SearchRoute {
  import opened Wrappers
  import opened Text
  import opened OmdbApi

  /** One entry of OMDb's `Search` array (`None`: field absent). */
  datatype Hit = Hit(imdbId: string, title: string, year: Option<string>, poster: Option<string>)

  /** The body of an OMDb search reply: `Response` and `Search`. */
  datatype Body = Body(response: Option<string>, search: Option<seq<Hit>>)

  /** The HTTP outcome of the OMDb request. */
  datatype Upstream = Upstream(ok: bool, status: int, body: Body)

  /** One search result as the route returns it. */
  datatype Item = Item(id: string, title: string, year: Option<int>, meta: Option<string>, poster: Option<string>)

  /** The route's JSON reply: status, `items`, and `error` when there is one. */
  datatype Reply = Reply(status: int, items: seq<Item>, error: Option<string>)

  const MissingKeyError: string := "Missing OMDB_API_KEY env var"

  /** `(url.searchParams.get("q") || "").trim()`. */
  function SearchTerm(q: Option<string>): string {
    Trim(q.GetOr(""))
  }

  /** The term sent to OMDb, `None` when the route answers without asking. */
  function Request(q: Option<string>, hasKey: bool): (r: Option<string>)
    ensures r.Some? <==> SearchTerm(q) != "" && hasKey
    ensures r.Some? ==> r.value == SearchTerm(q) && IsTrimmed(r.value)
  {
    TrimIsTrimmed(q.GetOr(""));
    if SearchTerm(q) == "" || !hasKey then None else Some(SearchTerm(q))
  }

  /** `Number(m.Year) || undefined`: a numeric year other than 0. */
  function YearOf(year: Option<string>): (r: Option<int>)
    ensures r.Some? <==> year.Some? && JsNumber(year.value).Some? && JsNumber(year.value).value != 0
    ensures r.Some? ==> r == JsNumber(year.value)
  {
    match year
    case None => None
    case Some(s) =>
      match JsNumber(s)
      case Some(n) => if n == 0 then None else Some(n)
      case None => None
  }

  /** The item for one OMDb hit. */
  function ItemOf(h: Hit): Item {
    var y := YearOf(h.year);
    Item(h.imdbId, h.title, y,
         if y.Some? then Some(IntToString(y.value)) else None,
         if UsablePoster(h.poster) then h.poster else None)
  }

  /**
   * An item carries the hit's id and title; `meta` is the decimal text of the year exactly
   * when there is a year, and reads back as that year; the poster is the hit's unless it
   * is missing, empty or "N/A".
   */
  lemma ItemFields(h: Hit)
    ensures ItemOf(h).id == h.imdbId && ItemOf(h).title == h.title
    ensures ItemOf(h).meta.Some? <==> ItemOf(h).year.Some?
    ensures ItemOf(h).meta.Some? ==> JsNumber(ItemOf(h).meta.value) == ItemOf(h).year
    ensures ItemOf(h).year.Some? ==> ItemOf(h).year.value != 0
    ensures ItemOf(h).poster.Some? <==> UsablePoster(h.poster)
    ensures ItemOf(h).poster.Some? ==> ItemOf(h).poster == h.poster && ItemOf(h).poster.value != NotAvailable
  {
    if ItemOf(h).year.Some? {
      JsNumberIntToString(ItemOf(h).year.value);
    }
  }

  /** A year written as a decimal numeral comes back as that year, unless it is 0. */
  lemma YearOfNumeral(n: int)
    ensures YearOf(Some(IntToString(n))) == if n == 0 then None else Some(n)
  {
    JsNumberIntToString(n);
  }

  /** `data.Search.map(...)`: one item per hit, in order. */
  function Items(hits: seq<Hit>): (r: seq<Item>)
    ensures |r| == |hits|
    ensures forall i :: 0 <= i < |hits| ==> r[i] == ItemOf(hits[i])
  {
    if hits == [] then [] else [ItemOf(hits[0])] + Items(hits[1..])
  }

  /**
   * `GET /api/search?q=…`: no term gives no items; no key gives 500; an OMDb failure gives
   * 502; a reply without `Response: "True"` or without `Search` gives no items.
   */
  function Search(q: Option<string>, hasKey: bool, omdb: string -> Upstream): Reply {
    var term := SearchTerm(q);
    if term == "" then Reply(200, [], None)
    else if !hasKey then Reply(500, [], Some(MissingKeyError))
    else
      var res := omdb(term);
      if !res.ok then Reply(502, [], Some("OMDb HTTP " + IntToString(res.status)))
      else if res.body.response != Some("True") || res.body.search.None? then Reply(200, [], None)
      else Reply(200, Items(res.body.search.value), None)
  }

  /** Every path of the route, with the request it makes. */
  lemma SearchCases(q: Option<string>, hasKey: bool, omdb: string -> Upstream)
    ensures Request(q, hasKey).None? ==> Search(q, hasKey, omdb).items == []
    ensures SearchTerm(q) == "" ==> Search(q, hasKey, omdb) == Reply(200, [], None)
    ensures SearchTerm(q) != "" && !hasKey ==> Search(q, hasKey, omdb) == Reply(500, [], Some(MissingKeyError))
    ensures Request(q, hasKey).Some? ==>
      var res := omdb(Request(q, hasKey).value);
      && (!res.ok ==> Search(q, hasKey, omdb).status == 502 && Search(q, hasKey, omdb).items == [])
      && (res.ok && (res.body.response != Some("True") || res.body.search.None?) ==>
            Search(q, hasKey, omdb) == Reply(200, [], None))
      && (res.ok && res.body.response == Some("True") && res.body.search.Some? ==>
            Search(q, hasKey, omdb).status == 200 && |Search(q, hasKey, omdb).items| == |res.body.search.value|)
  {
  }

  /** The status is one of 200, 500 and 502, and only a 200 reply carries items and no error. */
  lemma SearchStatus(q: Option<string>, hasKey: bool, omdb: string -> Upstream)
    ensures Search(q, hasKey, omdb).status in {200, 500, 502}
    ensures Search(q, hasKey, omdb).status == 200 <==> Search(q, hasKey, omdb).error.None?
    ensures Search(q, hasKey, omdb).status != 200 ==> Search(q, hasKey, omdb).items == []
  {
  }

  /** Each item of a successful search comes from the hit at the same position. */
  lemma SearchItems(q: Option<string>, hasKey: bool, omdb: string -> Upstream, i: int)
    requires Request(q, hasKey).Some?
    requires omdb(SearchTerm(q)).ok && omdb(SearchTerm(q)).body.response == Some("True")
    requires omdb(SearchTerm(q)).body.search.Some?
    requires 0 <= i < |omdb(SearchTerm(q)).body.search.value|
    ensures i < |Search(q, hasKey, omdb).items|
    ensures Search(q, hasKey, omdb).items[i].id == omdb(SearchTerm(q)).body.search.value[i].imdbId
    ensures Search(q, hasKey, omdb).items[i].title == omdb(SearchTerm(q)).body.search.value[i].title
  {
    ItemFields(omdb(SearchTerm(q)).body.search.value[i]);
  }
}
