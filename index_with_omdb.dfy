/**
 * `scripts/build-index-with-omdb.ts`: builds the index from the raw records and fills in
 * missing posters from OMDb.  Answers are kept in a cache keyed by the normalised title
 * and year, so that every key is looked up at most once per run.  The raw file's lines,
 * `JSON.parse` (`parse`), the loaded cache and the network (`provider`) are parameters.
 */
module BuildIndexWithOmdb {
  import opened Wrappers
  import opened Text
  import opened OmdbApi

  /** A raw record as `iterateRaw` yields it; `id` is `String(raw.id)`. */
  datatype RawMovie = RawMovie(
    id: string,
    title: Option<string>,
    releaseDate: Option<string>,
    genres: Option<seq<string>>,
    poster: Option<string>,
    imdbId: Option<string>)

  /** An output record. */
  datatype IndexMovie = IndexMovie(
    id: string,
    title: string,
    year: Option<nat>,
    genres: seq<string>,
    poster: Option<string>,
    imdbId: Option<string>)

  // ---------------------------------------------------------------------------
  // toYear, normTitle and the cache key

  /** `toYear`: the leading four digits of a non-empty release date, else no year. */
  function ToYear(m: RawMovie): (y: Option<nat>)
    ensures y.Some? ==> Truthy(m.releaseDate) && y.value < 10000
  {
    if Truthy(m.releaseDate) then LeadingYear(m.releaseDate.value) else None
  }

  /** A release date written "YYYY..." gives the year YYYY; no release date gives none. */
  lemma ToYearOfDate(m: RawMovie, y: nat, rest: string)
    requires 1000 <= y < 10000
    ensures m.releaseDate == Some(NatToString(y) + rest) ==> ToYear(m) == Some(y)
    ensures !Truthy(m.releaseDate) ==> ToYear(m) == None
  {
    LeadingYearOfWritten(y, rest);
  }

  /**
   * `normTitle`: lower-cased, every whitespace run replaced by one space, trimmed.  The
   * Unicode decomposition and the removal of combining marks are not modelled.
   */
  function NormTitle(s: string): string {
    Trim(ReplaceRuns(ToLower(s), IsJsSpace, ' '))
  }

  /**
   * A normalised title has no capital letter, no whitespace other than single spaces,
   * and no whitespace at either end.
   */
  lemma NormTitleShape(s: string)
    ensures var r := NormTitle(s);
      && All(r, NotUpper)
      && OnlyKeptOr(r, IsJsSpace, ' ')
      && NoDoubled(r, ' ')
      && IsTrimmed(r)
  {
    var c := ReplaceRuns(ToLower(s), IsJsSpace, ' ');
    assert All(ToLower(s), NotUpper);
    ReplaceRunsAll(ToLower(s), IsJsSpace, ' ', NotUpper);
    StripAll(c, IsJsSpace, NotUpper);
    ReplaceRunsChars(ToLower(s), IsJsSpace, ' ');
    ReplaceRunsNoDoubled(ToLower(s), IsJsSpace, ' ');
    StripShape(c, IsJsSpace, IsJsSpace, ' ');
    TrimIsTrimmed(c);
  }

  /** Normalising a normalised title changes nothing. */
  lemma NormTitleIdempotent(s: string)
    ensures NormTitle(NormTitle(s)) == NormTitle(s)
  {
    var r := NormTitle(s);
    NormTitleShape(s);
    assert forall i :: 0 <= i < |r| ==> !IsUpper(r[i]) by {
      forall i | 0 <= i < |r| ensures !IsUpper(r[i]) {
        assert NotUpper(r[i]);
      }
    }
    ToLowerFixed(r);
    ReplaceRunsFixed(r, IsJsSpace, ' ');
    StripUnchanged(r, IsJsSpace);
  }

  /** Titles that differ only in the case of their letters normalise alike. */
  lemma NormTitleIgnoresCase(s: string)
    ensures NormTitle(ToLower(s)) == NormTitle(s)
  {
    ToLowerIdempotent(s);
  }

  /** The cache key: the normalised title, then "|" and the year when the year is non-zero. */
  function CacheKey(title: string, year: Option<nat>): string {
    if year.Some? && year.value != 0 then NormTitle(title) + "|" + NatToString(year.value)
    else NormTitle(title)
  }

  /** One title with two different non-zero years gives two different keys. */
  lemma CacheKeySeparatesYears(title: string, a: nat, b: nat)
    requires a != 0 && b != 0
    requires CacheKey(title, Some(a)) == CacheKey(title, Some(b))
    ensures a == b
  {
    var n := |NormTitle(title)| + 1;
    assert NatToString(a) == CacheKey(title, Some(a))[n..];
    assert NatToString(b) == CacheKey(title, Some(b))[n..];
    NatToStringRoundTrip(a);
    NatToStringRoundTrip(b);
  }

  /** Titles that normalise alike share the key, so one lookup serves both. */
  lemma CacheKeySharedAcrossCase(title: string, year: Option<nat>)
    ensures CacheKey(ToLower(title), year) == CacheKey(title, year)
  {
    NormTitleIgnoresCase(title);
  }

  // ---------------------------------------------------------------------------
  // fetchOmdbByTitle

  /** The requests in the order they are tried: title and year first when the year is non-zero. */
  function Queries(title: string, year: Option<nat>): (qs: seq<Query>)
    ensures year.Some? && year.value != 0 ==>
      qs == [Query(title, Some(NatToString(year.value))), Query(title, None)]
    ensures !(year.Some? && year.value != 0) ==> qs == [Query(title, None)]
  {
    if year.Some? && year.value != 0 then [Query(title, Some(NatToString(year.value))), Query(title, None)]
    else [Query(title, None)]
  }

  /** The end of a search: a thrown request (which ends the whole run), a record, or nothing. */
  datatype Fetched = Aborted | Found(rec: Record) | NotFound

  /** A reply that `fetchOmdbByTitle` passes over: a non-ok status, or a body that is not "True". */
  predicate PassesOver(r: Reply) {
    r.Http? && !(r.ok && IsTrue(r.body))
  }

  /** Request `i` is answered ok with body `rec`, and every earlier request was passed over. */
  predicate AnsweredBy(qs: seq<Query>, i: nat, provider: Query -> Reply, rec: Record)
    requires i < |qs|
  {
    && (forall j :: 0 <= j < i ==> PassesOver(provider(qs[j])))
    && provider(qs[i]).Http? && provider(qs[i]).ok && provider(qs[i]).body == Some(rec)
  }

  /** The first request in `qs` whose reply is ok and "True", unless a request throws first. */
  function FirstTrue(qs: seq<Query>, provider: Query -> Reply): (r: Fetched)
    ensures r.Found? ==> r.rec.response == Some("True")
    ensures r.Aborted? ==> qs != []
  {
    if qs == [] then NotFound
    else
      match provider(qs[0])
      case Threw => Aborted
      case Http(ok, status, body) =>
        if ok && IsTrue(body) then Found(body.value) else FirstTrue(qs[1..], provider)
  }

  /** A found record is the body of the first request that neither throws nor is passed over. */
  lemma {:induction false} FirstTrueFound(qs: seq<Query>, provider: Query -> Reply)
    requires FirstTrue(qs, provider).Found?
    ensures FirstTrue(qs, provider).rec.response == Some("True")
    ensures exists i :: 0 <= i < |qs| && AnsweredBy(qs, i, provider, FirstTrue(qs, provider).rec)
  {
    var rec := FirstTrue(qs, provider).rec;
    var r := provider(qs[0]);
    if r.Http? && r.ok && IsTrue(r.body) {
      assert AnsweredBy(qs, 0, provider, rec);
    } else {
      var t := qs[1..];
      FirstTrueFound(t, provider);
      var i :| 0 <= i < |t| && AnsweredBy(t, i, provider, rec);
      assert qs[i + 1] == t[i];
      forall j | 0 <= j < i + 1 ensures PassesOver(provider(qs[j])) {
        if j > 0 {
          assert qs[j] == t[j - 1];
        }
      }
      assert AnsweredBy(qs, i + 1, provider, rec);
    }
  }

  /** Nothing is found exactly when every request is answered and passed over. */
  lemma {:induction false} FirstTrueNotFound(qs: seq<Query>, provider: Query -> Reply)
    ensures FirstTrue(qs, provider) == NotFound <==> forall j :: 0 <= j < |qs| ==> PassesOver(provider(qs[j]))
  {
    if qs != [] {
      var t := qs[1..];
      FirstTrueNotFound(t, provider);
      if PassesOver(provider(qs[0])) {
        assert (forall j :: 0 <= j < |qs| ==> PassesOver(provider(qs[j])))
          <==> (forall j :: 0 <= j < |t| ==> PassesOver(provider(t[j]))) by {
          forall j | 0 <= j < |t| ensures qs[j + 1] == t[j] {
          }
        }
      }
    }
  }

  /** `fetchOmdbByTitle`: try the requests in order and return the first "True" answer. */
  method FetchByTitle(title: string, year: Option<nat>, provider: Query -> Reply) returns (r: Fetched)
    ensures r == FirstTrue(Queries(title, year), provider)
  {
    var qs := Queries(title, year);
    var i := 0;
    while i < |qs|
      invariant 0 <= i <= |qs|
      invariant FirstTrue(qs[i..], provider) == FirstTrue(qs, provider)
    {
      assert qs[i..][1..] == qs[i + 1..];
      var res := provider(qs[i]);
      match res {
        case Threw =>
          return Aborted;
        case Http(ok, status, body) =>
          if ok && IsTrue(body) {
            return Found(body.value);
          }
      }
      i := i + 1;
    }
    return NotFound;
  }

  // ---------------------------------------------------------------------------
  // iterateRaw

  /** What one line yields: nothing for a blank line, bad JSON or a record without a title. */
  function RawOfLine(line: string, parse: string -> Option<RawMovie>): Option<RawMovie> {
    if Trim(line) == "" then None
    else match parse(line)
      case None => None
      case Some(obj) => if Truthy(obj.title) then Some(obj) else None
  }

  /** `iterateRaw`: the records of the lines, in order. */
  function IterateRaw(lines: seq<string>, parse: string -> Option<RawMovie>): (r: seq<RawMovie>)
    ensures forall m :: m in r ==> exists i :: 0 <= i < |lines| && RawOfLine(lines[i], parse) == Some(m)
  {
    if lines == [] then []
    else
      var m := RawOfLine(lines[0], parse);
      (if m.Some? then [m.value] else []) + IterateRaw(lines[1..], parse)
  }

  /** Every yielded record has a title, and at most one record comes from each line. */
  lemma {:induction false} IterateRawFacts(lines: seq<string>, parse: string -> Option<RawMovie>)
    ensures |IterateRaw(lines, parse)| <= |lines|
    ensures forall i :: 0 <= i < |IterateRaw(lines, parse)| ==> Truthy(IterateRaw(lines, parse)[i].title)
  {
    if lines != [] {
      IterateRawFacts(lines[1..], parse);
      var m := RawOfLine(lines[0], parse);
      var rest := IterateRaw(lines[1..], parse);
      var r := IterateRaw(lines, parse);
      forall i | 0 <= i < |r| ensures Truthy(r[i].title) {
        if m.Some? && i == 0 {
        } else if m.Some? {
          assert r[i] == rest[i - 1];
        } else {
          assert r[i] == rest[i];
        }
      }
    }
  }

  // ---------------------------------------------------------------------------
  // the enrichment loop of `main`

  /** A cache value: `{miss: true}` or `{Poster, imdbID}`. */
  datatype Entry = Miss | Hit(poster: Option<string>, imdbId: Option<string>)

  /** `entry && !entry.miss && entry.Poster && entry.Poster !== "N/A"`. */
  predicate Adopts(e: Entry) {
    e.Hit? && UsablePoster(e.poster)
  }

  /** The run's state: the records written so far, the cache, the counters, and the number of lookups. */
  datatype Progress = Progress(
    out: seq<IndexMovie>,
    cache: map<string, Entry>,
    hits: nat,
    misses: nat,
    lookups: nat)

  /** The output record: with OMDb's poster (and its imdbID, when set) when the entry has a usable one. */
  function Output(raw: RawMovie, entry: Option<Entry>): (o: IndexMovie)
    ensures o.id == raw.id && o.year == ToYear(raw)
    ensures o.poster != raw.poster ==> entry.Some? && Adopts(entry.value) && UsablePoster(o.poster)
    ensures o.imdbId != raw.imdbId ==> entry.Some? && Adopts(entry.value) && Truthy(o.imdbId)
  {
    var adopt := entry.Some? && Adopts(entry.value);
    IndexMovie(
      raw.id,
      raw.title.GetOr(""),
      ToYear(raw),
      raw.genres.GetOr([]),
      if adopt then entry.value.poster else raw.poster,
      if adopt && Truthy(entry.value.imdbId) then entry.value.imdbId else raw.imdbId)
  }

  /** Writes the record for `raw` and counts a hit or a miss. */
  function Settle(p: Progress, raw: RawMovie, e: Entry): Progress {
    var counted := if Adopts(e) then p.(hits := p.hits + 1) else p.(misses := p.misses + 1);
    counted.(out := p.out + [Output(raw, Some(e))])
  }

  /** The key a record without a poster is looked up under. */
  function KeyOf(raw: RawMovie): string {
    CacheKey(raw.title.GetOr(""), ToYear(raw))
  }

  /** The OMDb search for a record: its title, and its year when that is non-zero. */
  function Lookup(raw: RawMovie, provider: Query -> Reply): Fetched {
    FirstTrue(Queries(raw.title.GetOr(""), ToYear(raw)), provider)
  }

  /** What is cached after a search that did not throw. */
  function EntryOf(f: Fetched): Entry
    requires !f.Aborted?
  {
    if f.Found? then Hit(f.rec.poster, f.rec.imdbId) else Miss
  }

  /**
   * One record: a record with a poster is written as it is; otherwise the cached entry is
   * used, and when the key is absent OMDb is asked and the answer (or a miss) is cached.
   * A key the cache object inherits (`"constructor"`, `"__proto__"`) reads as a truthy value
   * with no `Poster`: nothing is asked or cached, and a miss is counted.
   * `None` when a request throws.
   */
  function Step(p: Progress, raw: RawMovie, provider: Query -> Reply): (r: Option<Progress>)
    ensures r.None? <==> !Truthy(raw.poster) && KeyOf(raw) !in p.cache && KeyOf(raw) !in ProtoKeys
                         && Lookup(raw, provider).Aborted?
  {
    if Truthy(raw.poster) then Some(p.(out := p.out + [Output(raw, None)]))
    else if KeyOf(raw) in p.cache then Some(Settle(p, raw, p.cache[KeyOf(raw)]))
    else if Inherited(p.cache, KeyOf(raw)) then Some(Settle(p, raw, Miss))
    else
      var f := Lookup(raw, provider);
      if f.Aborted? then None
      else
        var e := EntryOf(f);
        Some(Settle(p.(cache := p.cache[KeyOf(raw) := e], lookups := p.lookups + 1), raw, e))
  }

  /** The whole loop from state `p`; `None` when some request throws. */
  function Run(raws: seq<RawMovie>, p: Progress, provider: Query -> Reply): (r: Option<Progress>)
    ensures (forall i :: 0 <= i < |raws| ==> Truthy(raws[i].poster)) ==> r.Some?
  {
    if raws == [] then Some(p)
    else
      match Step(p, raws[0], provider)
      case None => None
      case Some(q) => Run(raws[1..], q, provider)
  }

  /**
   * `o` is the record written for `raw` against `cache`: same id, title, year and genres;
   * OMDb's poster only when `raw` had none and its cached entry has a usable one, and then
   * the entry's imdbID as well when that is set; otherwise its own poster and imdb_id.
   */
  predicate Written(o: IndexMovie, raw: RawMovie, cache: map<string, Entry>) {
    var adopt := !Truthy(raw.poster) && KeyOf(raw) in cache && Adopts(cache[KeyOf(raw)]);
    && o.id == raw.id && o.title == raw.title.GetOr("") && o.year == ToYear(raw)
    && o.genres == raw.genres.GetOr([])
    && o.poster == (if adopt then cache[KeyOf(raw)].poster else raw.poster)
    && o.imdbId == (if adopt && Truthy(cache[KeyOf(raw)].imdbId) then cache[KeyOf(raw)].imdbId else raw.imdbId)
  }

  /** A written record keeps its own poster, or had none and got a usable one. */
  lemma WrittenPoster(o: IndexMovie, raw: RawMovie, cache: map<string, Entry>)
    requires Written(o, raw, cache)
    ensures o.poster == raw.poster || (!Truthy(raw.poster) && UsablePoster(o.poster))
    ensures o.imdbId != raw.imdbId ==> o.poster != raw.poster && Truthy(o.imdbId)
  {
  }

  /**
   * What was written against a cache stays written against any cache that only adds keys,
   * as long as the record's key is cached or stays absent.
   */
  lemma WrittenGrows(o: IndexMovie, raw: RawMovie, c: map<string, Entry>, c': map<string, Entry>)
    requires Written(o, raw, c) && (!Truthy(raw.poster) ==> KeyOf(raw) in c || KeyOf(raw) !in c')
    requires c.Keys <= c'.Keys && forall k :: k in c ==> c'[k] == c[k]
    ensures Written(o, raw, c')
  {
    if !Truthy(raw.poster) && KeyOf(raw) in c {
      assert c'[KeyOf(raw)] == c[KeyOf(raw)];
    }
  }

  /** The number of records without a poster of their own. */
  function Posterless(raws: seq<RawMovie>): nat {
    if raws == [] then 0 else (if Truthy(raws[0].poster) then 0 else 1) + Posterless(raws[1..])
  }

  lemma PosterlessBound(raws: seq<RawMovie>)
    ensures Posterless(raws) <= |raws|
  {
    if raws != [] {
      PosterlessBound(raws[1..]);
    }
  }

  /** `Settle` writes one record and leaves the cache and the lookups alone. */
  lemma SettleFacts(p: Progress, raw: RawMovie, e: Entry)
    ensures var q := Settle(p, raw, e);
      && q.out == p.out + [Output(raw, Some(e))]
      && q.cache == p.cache && q.lookups == p.lookups
      && q.hits + q.misses == p.hits + p.misses + 1
  {
  }

  /**
   * One step writes exactly one record for `raw`, as `Written` says against the cache after
   * the step (which then holds the key of a record without a poster, unless that key is
   * inherited), and counts a hit or a miss exactly when `raw` has no poster.
   */
  lemma StepOutput(p: Progress, raw: RawMovie, provider: Query -> Reply)
    requires Step(p, raw, provider).Some?
    ensures var q := Step(p, raw, provider).value;
      && q.out == p.out + [q.out[|p.out|]] && Written(q.out[|p.out|], raw, q.cache)
      && (!Truthy(raw.poster) ==> (KeyOf(raw) in q.cache <==> !Inherited(p.cache, KeyOf(raw))))
      && q.hits + q.misses == p.hits + p.misses + (if Truthy(raw.poster) then 0 else 1)
  {
    var q := Step(p, raw, provider).value;
    if Truthy(raw.poster) {
      assert q.out == p.out + [Output(raw, None)];
    } else {
      var e: Entry;
      var p': Progress;
      if KeyOf(raw) in p.cache {
        e, p' := p.cache[KeyOf(raw)], p;
      } else if Inherited(p.cache, KeyOf(raw)) {
        e, p' := Miss, p;
      } else {
        e := EntryOf(Lookup(raw, provider));
        p' := p.(cache := p.cache[KeyOf(raw) := e], lookups := p.lookups + 1);
      }
      assert q == Settle(p', raw, e);
      SettleFacts(p', raw, e);
      if !Inherited(p.cache, KeyOf(raw)) {
        assert q.cache[KeyOf(raw)] == e;
      }
    }
  }

  /**
   * One step asks OMDb at most once, only when the key is neither cached nor inherited, and
   * then adds exactly that key; cached entries are never changed, no inherited name is ever
   * added, and afterwards the record's key is cached unless it is inherited.
   */
  lemma StepCache(p: Progress, raw: RawMovie, provider: Query -> Reply)
    requires Step(p, raw, provider).Some?
    ensures var q := Step(p, raw, provider).value;
      && p.cache.Keys <= q.cache.Keys
      && (forall k :: k in p.cache ==> q.cache[k] == p.cache[k])
      && (forall k :: k in q.cache && k !in p.cache ==> k !in ProtoKeys)
      && q.lookups - p.lookups == |q.cache.Keys| - |p.cache.Keys|
      && q.lookups <= p.lookups + 1
      && (q.lookups == p.lookups + 1 ==> !Truthy(raw.poster) && KeyOf(raw) !in p.cache && KeyOf(raw) !in ProtoKeys)
      && (!Truthy(raw.poster) ==> (KeyOf(raw) in q.cache <==> !Inherited(p.cache, KeyOf(raw))))
  {
    var q := Step(p, raw, provider).value;
    var key := KeyOf(raw);
    if Truthy(raw.poster) {
      assert q.cache == p.cache && q.lookups == p.lookups;
    } else if key in p.cache {
      SettleFacts(p, raw, p.cache[key]);
    } else if Inherited(p.cache, key) {
      SettleFacts(p, raw, Miss);
    } else {
      var e := EntryOf(Lookup(raw, provider));
      SettleFacts(p.(cache := p.cache[key := e], lookups := p.lookups + 1), raw, e);
      assert q.cache.Keys == p.cache.Keys + {key};
    }
  }

  /**
   * A posterless record whose key the cache only inherits asks nothing and caches nothing:
   * it is written with its own poster and imdb_id, and counted as a miss.
   */
  lemma InheritedKeyIsMiss(p: Progress, raw: RawMovie, provider: Query -> Reply)
    requires !Truthy(raw.poster) && Inherited(p.cache, KeyOf(raw))
    ensures Step(p, raw, provider).Some?
    ensures var q := Step(p, raw, provider).value;
      && q.cache == p.cache && q.lookups == p.lookups
      && q.hits == p.hits && q.misses == p.misses + 1
      && q.out == p.out + [q.out[|p.out|]]
      && q.out[|p.out|].poster == raw.poster && q.out[|p.out|].imdbId == raw.imdbId
  {
  }

  /**
   * Every record yields exactly one output record, in order, with its id, title, year and
   * genres; a record without a poster takes the poster (and a set imdbID) of the entry its
   * key has in the final cache exactly when that poster is usable, and keeps its own otherwise.
   */
  lemma {:induction false} RunOutput(raws: seq<RawMovie>, p: Progress, provider: Query -> Reply)
    requires Run(raws, p, provider).Some?
    ensures var q := Run(raws, p, provider).value;
      && |q.out| == |p.out| + |raws| && q.out[..|p.out|] == p.out
      && forall i :: 0 <= i < |raws| ==> Written(q.out[|p.out| + i], raws[i], q.cache)
  {
    RunKeepsPrefix(raws, p, provider);
    var q := Run(raws, p, provider).value;
    forall i | 0 <= i < |raws| ensures Written(q.out[|p.out| + i], raws[i], q.cache) {
      RunWrites(raws, p, provider, i, raws[i], |p.out| + i);
    }
  }

  lemma {:induction false} RunKeepsPrefix(raws: seq<RawMovie>, p: Progress, provider: Query -> Reply)
    requires Run(raws, p, provider).Some?
    ensures var q := Run(raws, p, provider).value;
      |q.out| == |p.out| + |raws| && q.out[..|p.out|] == p.out
  {
    if raws != [] {
      var s := Step(p, raws[0], provider).value;
      StepOutput(p, raws[0], provider);
      RunKeepsPrefix(raws[1..], s, provider);
      var q := Run(raws[1..], s, provider).value;
      assert q.out[..|p.out|] == q.out[..|s.out|][..|p.out|];
    }
  }

  /** Record `raw`, the `i`-th one read, is written at position `k` of the final output. */
  lemma {:induction false} RunWrites(raws: seq<RawMovie>, p: Progress, provider: Query -> Reply, i: nat,
                                     raw: RawMovie, k: nat)
    requires Run(raws, p, provider).Some? && i < |raws| && raw == raws[i] && k == |p.out| + i
    ensures k < |Run(raws, p, provider).value.out|
    ensures var q := Run(raws, p, provider).value;
      Written(q.out[k], raw, q.cache)
  {
    if i == 0 {
      RunWritesFirst(raws, p, provider);
    } else {
      var s := RunFirst(raws, p, provider);
      assert raws[1..][i - 1] == raw;
      RunWrites(raws[1..], s, provider, i - 1, raw, k);
    }
  }

  /** A run from `p` is the run of the rest from the state after the first step, which wrote one record. */
  lemma RunFirst(raws: seq<RawMovie>, p: Progress, provider: Query -> Reply) returns (s: Progress)
    requires raws != [] && Run(raws, p, provider).Some?
    ensures Run(raws[1..], s, provider) == Run(raws, p, provider) && |s.out| == |p.out| + 1
  {
    s := Step(p, raws[0], provider).value;
    StepOutput(p, raws[0], provider);
  }


  /** The record written for the first raw record is `Written` against the final cache. */
  lemma RunWritesFirst(raws: seq<RawMovie>, p: Progress, provider: Query -> Reply)
    requires Run(raws, p, provider).Some? && raws != []
    ensures |p.out| < |Run(raws, p, provider).value.out|
    ensures var q := Run(raws, p, provider).value;
      Written(q.out[|p.out|], raws[0], q.cache)
  {
    var s := Step(p, raws[0], provider).value;
    StepOutput(p, raws[0], provider);
    assert Run(raws, p, provider) == Run(raws[1..], s, provider);
    var q := Run(raws[1..], s, provider).value;
    RunKeepsPrefix(raws[1..], s, provider);
    RunCache(raws[1..], s, provider);
    assert q.out[|p.out|] == q.out[..|s.out|][|p.out|];
    WrittenGrows(s.out[|p.out|], raws[0], s.cache, q.cache);
  }

  /** `hits + misses` counts exactly the records without a poster of their own. */
  lemma {:induction false} RunCounts(raws: seq<RawMovie>, p: Progress, provider: Query -> Reply)
    requires Run(raws, p, provider).Some?
    ensures var q := Run(raws, p, provider).value;
      q.hits + q.misses == p.hits + p.misses + Posterless(raws)
  {
    if raws != [] {
      var s := Step(p, raws[0], provider).value;
      StepOutput(p, raws[0], provider);
      RunCounts(raws[1..], s, provider);
    }
  }

  /**
   * Each lookup adds a new key and no cached entry ever changes, so every key is looked up
   * at most once in a run; no inherited name is ever added, and every record without a
   * poster ends with its key cached unless that key is an inherited name the cache did not hold.
   */
  lemma {:induction false} RunCache(raws: seq<RawMovie>, p: Progress, provider: Query -> Reply)
    requires Run(raws, p, provider).Some?
    ensures var q := Run(raws, p, provider).value;
      && p.cache.Keys <= q.cache.Keys
      && (forall k :: k in p.cache ==> q.cache[k] == p.cache[k])
      && (forall k :: k in q.cache && k !in p.cache ==> k !in ProtoKeys)
      && q.lookups - p.lookups == |q.cache.Keys| - |p.cache.Keys|
      && forall i :: 0 <= i < |raws| && !Truthy(raws[i].poster) ==>
           (KeyOf(raws[i]) in q.cache <==> !Inherited(p.cache, KeyOf(raws[i])))
  {
    if raws != [] {
      var s := Step(p, raws[0], provider).value;
      StepCache(p, raws[0], provider);
      RunCache(raws[1..], s, provider);
      var q := Run(raws, p, provider).value;
      forall i | 0 <= i < |raws| && !Truthy(raws[i].poster)
        ensures KeyOf(raws[i]) in q.cache <==> !Inherited(p.cache, KeyOf(raws[i]))
      {
        if i > 0 {
          assert raws[i] == raws[1..][i - 1];
        }
      }
    }
  }

  /** One record of the loop, from `total++` to `out.push`, on the loop's own variables. */
  method Enrich(raw: RawMovie, out: seq<IndexMovie>, cache: map<string, Entry>, hits: nat, misses: nat,
                ghost lookups: nat, provider: Query -> Reply)
    returns (aborted: bool, out': seq<IndexMovie>, cache': map<string, Entry>, hits': nat, misses': nat,
             ghost lookups': nat)
    ensures var p := Progress(out, cache, hits, misses, lookups);
      aborted <==> Step(p, raw, provider).None?
    ensures !aborted ==>
      Step(Progress(out, cache, hits, misses, lookups), raw, provider)
        == Some(Progress(out', cache', hits', misses', lookups'))
  {
    aborted, out', cache', hits', misses', lookups' := false, out, cache, hits, misses, lookups;
    var year := ToYear(raw);
    var title := raw.title.GetOr("");
    if Truthy(raw.poster) {
      out' := out + [Output(raw, None)];
      return;
    }
    var key := CacheKey(title, year);
    var entry: Entry;
    if key in cache {
      entry := cache[key];
    } else if key in ProtoKeys {
      entry := Miss;
    } else {
      var fetched := FetchByTitle(title, year, provider);
      match fetched {
        case Aborted =>
          aborted := true;
          return;
        case Found(rec) =>
          entry := Hit(rec.poster, rec.imdbId);
        case NotFound =>
          entry := Miss;
      }
      cache' := cache[key := entry];
      lookups' := lookups + 1;
    }
    if Adopts(entry) {
      hits' := hits + 1;
    } else {
      misses' := misses + 1;
    }
    out' := out + [Output(raw, Some(entry))];
  }

  /**
   * `main`: every record of `iterateRaw` is counted in `total` and written once; the loop
   * stops (and the script fails) when a request throws.
   */
  method Build(lines: seq<string>, parse: string -> Option<RawMovie>, loaded: map<string, Entry>,
               provider: Query -> Reply)
    returns (aborted: bool, out: seq<IndexMovie>, cache: map<string, Entry>,
             total: nat, hits: nat, misses: nat)
    ensures var raws := IterateRaw(lines, parse);
      var run := Run(raws, Progress([], loaded, 0, 0, 0), provider);
      && (aborted <==> run.None?)
      && (!aborted ==> && out == run.value.out && cache == run.value.cache
                       && hits == run.value.hits && misses == run.value.misses
                       && total == |raws| && hits + misses <= total)
  {
    var raws := IterateRaw(lines, parse);
    ghost var p0 := Progress([], loaded, 0, 0, 0);
    out, cache, total, hits, misses := [], loaded, 0, 0, 0;
    ghost var lookups := 0;
    aborted := false;
    while total < |raws|
      invariant total <= |raws|
      invariant Run(raws[total..], Progress(out, cache, hits, misses, lookups), provider) == Run(raws, p0, provider)
    {
      var raw := raws[total];
      assert raws[total..][1..] == raws[total + 1..];
      total := total + 1;
      aborted, out, cache, hits, misses, lookups := Enrich(raw, out, cache, hits, misses, lookups, provider);
      if aborted {
        return;
      }
    }
    RunCounts(raws, p0, provider);
    PosterlessBound(raws);
  }
}
