/**
 * `scripts/build-index.ts`: turns the raw movie records (one JSON object per line) into
 * the search index, normalising each record and keeping the first record of every id.
 * JSON parsing is a parameter: `parse` gives the record a line denotes, or `None` when
 * `JSON.parse` throws on it.
 */
module BuildIndex {
  import opened Wrappers
  import opened Text

  /** A JSON value that the code converts with `Number(...)` (`year`, `runtime`). */
  datatype Scalar = Missing | Null | Num(n: int) | Str(s: string)

  /** `v !== undefined && v !== null && v !== ""`. */
  predicate Given(v: Scalar) {
    !v.Missing? && !v.Null? && v != Str("")
  }

  /** `Number(v)`, with `None` for NaN. */
  function NumberOf(v: Scalar): (r: Option<int>)
    ensures v.Num? ==> r == Some(v.n)
    ensures v.Str? ==> r == JsNumber(v.s)
  {
    match v
    case Missing => None
    case Null => Some(0)
    case Num(n) => Some(n)
    case Str(s) => JsNumber(s)
  }

  /** The `genres` field: absent or of another type, an array (`None` for a `null` element), or a string. */
  datatype GenresVal = NoGenres | GenreArray(items: seq<Option<string>>) | GenreText(text: string)

  /** A raw record, with the fields `normalize` reads. */
  datatype Raw = Raw(
    id: Option<string>,
    imdbId: Option<string>,
    title: Option<string>,
    year: Scalar,
    releaseDate: Option<string>,
    runtime: Scalar,
    genres: GenresVal,
    meta: Option<string>,
    poster: Option<string>)

  /** An index entry. */
  datatype Movie = Movie(
    id: string,
    title: string,
    year: Option<int>,
    meta: Option<string>,
    poster: Option<string>,
    genres: Option<seq<string>>)

  // ---------------------------------------------------------------------------
  // year

  /** `String(d).slice(0, 4)`. */
  function FirstFour(d: string): (r: string)
    ensures |r| <= 4 && StartsWith(d, r)
  {
    if |d| <= 4 then d else d[..4]
  }

  /**
   * The year: `Number(r.year)` when `r.year` is given (no year when that is NaN, and no
   * fall back to the release date); otherwise the number in the release date's first
   * four characters, when there is a release date.
   */
  function YearOf(r: Raw): (y: Option<int>)
    ensures Given(r.year) ==> y == NumberOf(r.year)
    ensures !Given(r.year) && Truthy(r.releaseDate) ==> y == JsNumber(FirstFour(r.releaseDate.value))
    ensures !Given(r.year) && !Truthy(r.releaseDate) ==> y == None
  {
    if Given(r.year) then NumberOf(r.year)
    else if Truthy(r.releaseDate) then JsNumber(FirstFour(r.releaseDate.value))
    else None
  }

  /** A non-numeric `year` gives no year even when a release date is there. */
  lemma NonNumericYearDoesNotFallBack(r: Raw)
    requires r.year.Str? && r.year.s != "" && JsNumber(r.year.s) == None
    ensures YearOf(r) == None
  {
  }

  // ---------------------------------------------------------------------------
  // slug

  /** `[a-z0-9]`. */
  predicate IsSlugChar(c: char) {
    'a' <= c <= 'z' || '0' <= c <= '9'
  }

  predicate IsDash(c: char) {
    c == '-'
  }

  predicate NotSlugChar(c: char) {
    !IsSlugChar(c)
  }

  /**
   * The slug of a title: lower-cased, every run of characters other than a-z and 0-9
   * replaced by one '-', and '-' stripped from both ends.
   */
  function Slug(title: string): string {
    StripBy(ReplaceRuns(ToLower(title), NotSlugChar, '-'), IsDash)
  }

  /** A slug holds only a-z, 0-9 and '-', never two '-' in a row, and no '-' at either end. */
  lemma SlugShape(title: string)
    ensures var s := Slug(title);
      && (forall i :: 0 <= i < |s| ==> IsSlugChar(s[i]) || s[i] == '-')
      && NoDoubled(s, '-')
      && (s == [] || (s[0] != '-' && s[|s| - 1] != '-'))
  {
    var c := ReplaceRuns(ToLower(title), NotSlugChar, '-');
    ReplaceRunsChars(ToLower(title), NotSlugChar, '-');
    ReplaceRunsNoDoubled(ToLower(title), NotSlugChar, '-');
    StripShape(c, IsDash, NotSlugChar, '-');
    StripByFacts(c, IsDash);
    var s := Slug(title);
    assert OnlyKeptOr(s, NotSlugChar, '-');
    forall i | 0 <= i < |s| ensures IsSlugChar(s[i]) || s[i] == '-' {
      assert s[i] == '-' || !NotSlugChar(s[i]);
    }
  }

  /** Making the slug drops no letter or digit of the lower-cased title. */
  lemma SlugKeepsLettersAndDigits(title: string)
    ensures Kept(Slug(title), NotSlugChar) == Kept(ToLower(title), NotSlugChar)
  {
    var c := ReplaceRuns(ToLower(title), NotSlugChar, '-');
    ReplaceRunsKeeps(ToLower(title), NotSlugChar, '-', NotSlugChar);
    StripKeeps(c, IsDash, NotSlugChar);
  }

  /** The id: `r.id`, else `imdb_id`, else the title's slug and "-year" when the year is non-zero. */
  function IdOf(r: Raw, title: string, year: Option<int>): (id: string)
    ensures Truthy(r.id) ==> id == r.id.value
    ensures !Truthy(r.id) && Truthy(r.imdbId) ==> id == r.imdbId.value
    ensures !Truthy(r.id) && !Truthy(r.imdbId) ==>
      StartsWith(id, Slug(title)) && (year.None? || year.value == 0 <==> id == Slug(title))
    ensures !Truthy(r.id) && !Truthy(r.imdbId) && year.Some? && year.value != 0 ==>
      id[|Slug(title)|..] == "-" + IntToString(year.value)
  {
    if Truthy(r.id) then r.id.value
    else if Truthy(r.imdbId) then r.imdbId.value
    else Slug(title) + (if year.Some? && year.value != 0 then "-" + IntToString(year.value) else "")
  }

  /** A slug id with a year ends in "-" and text that reads back, as `Number`, as that year. */
  lemma IdYearReadsBack(r: Raw, title: string, year: Option<int>)
    requires !Truthy(r.id) && !Truthy(r.imdbId) && year.Some? && year.value != 0
    ensures var id := IdOf(r, title, year);
      |id| > |Slug(title)| && id[|Slug(title)|] == '-' && JsNumber(id[|Slug(title)| + 1..]) == Some(year.value)
  {
    var id := IdOf(r, title, year);
    var n := |Slug(title)|;
    assert id[n..][1..] == id[n + 1..];
    JsNumberIntToString(year.value);
  }

  // ---------------------------------------------------------------------------
  // genres

  /** The characters `[•,/|;-]` that separate genres in a genre string. */
  predicate IsGenreSep(c: char) {
    c == '\U{2022}' || c == ',' || c == '/' || c == '|' || c == ';' || c == '-'
  }

  /** An array keeps its non-empty strings, trimmed (a blank one becomes ""). */
  function ArrayGenres(items: seq<Option<string>>): (r: seq<string>)
    ensures |r| <= |items|
  {
    if items == [] then []
    else
      (if Truthy(items[0]) then [Trim(items[0].value)] else []) + ArrayGenres(items[1..])
  }

  /** The genres: from an array, from a separated string, or none. */
  function GenresOf(g: GenresVal): (r: Option<seq<string>>)
    ensures g.NoGenres? <==> r.None?
    ensures g.GenreText? ==> r == Some(SplitTrimmed(g.text, IsGenreSep))
    ensures g.GenreArray? ==> r == Some(ArrayGenres(g.items))
  {
    match g
    case NoGenres => None
    case GenreArray(items) => Some(ArrayGenres(items))
    case GenreText(text) => Some(SplitTrimmed(text, IsGenreSep))
  }

  lemma {:induction false} ArrayGenresTrimmed(items: seq<Option<string>>)
    ensures forall i :: 0 <= i < |ArrayGenres(items)| ==> IsTrimmed(ArrayGenres(items)[i])
  {
    if items != [] {
      ArrayGenresTrimmed(items[1..]);
      if Truthy(items[0]) {
        TrimIsTrimmed(items[0].value);
      }
    }
  }

  /** The pieces of a genre string are non-empty, trimmed, and contain no separator. */
  lemma GenreTextPieces(text: string)
    ensures forall i :: 0 <= i < |SplitTrimmed(text, IsGenreSep)| ==>
      var p := SplitTrimmed(text, IsGenreSep)[i];
      p != [] && IsTrimmed(p) && forall j :: 0 <= j < |p| ==> !IsGenreSep(p[j])
  {
    SplitPiecesHaveNoSeparator(text, IsGenreSep);
    TrimmedPiecesShape(Split(text, IsGenreSep), IsGenreSep);
  }

  /** "Sci-Fi" is two genres. */
  /**
   * A hyphenated genre name such as "Sci-Fi" becomes two genres, because `-` is one of
   * the separators.
   */
  lemma HyphenatedGenreSplits(a: string, b: string)
    requires a != [] && IsTrimmed(a) && forall i :: 0 <= i < |a| ==> !IsGenreSep(a[i])
    requires b != [] && IsTrimmed(b) && forall i :: 0 <= i < |b| ==> !IsGenreSep(b[i])
    ensures SplitTrimmed(a + "-" + b, IsGenreSep) == [a, b]
  {
    SplitAfterPiece(a, '-', b, IsGenreSep);
    SplitNoSeparator(b, IsGenreSep);
    assert Split(a + "-" + b, IsGenreSep) == [a, b];
    TrimmedPiecesKeeps([a, b]);
  }

  lemma SciFiIsTwoGenres()
    ensures SplitTrimmed("Sci-Fi", IsGenreSep) == ["Sci", "Fi"]
  {
    HyphenatedGenreSplits("Sci", "Fi");
    assert "Sci" + "-" + "Fi" == "Sci-Fi";
  }



  // ---------------------------------------------------------------------------
  // meta

  /** A running time in minutes as "Xh Ym", the hour part left out when it is zero. */
  function RuntimeLabel(n: int): string
    requires n > 0
  {
    var h := n / 60;
    var m := n % 60;
    (if h > 0 then NatToString(h) + "h " else "") + NatToString(m) + "m"
  }

  /** The shown denotes the running time it was made from. */
  lemma RuntimeLabelRoundTrip(n: int)
    requires n > 0
    ensures ReadRuntime(RuntimeLabel(n)) == Some(n)
  {
    var h := n / 60;
    var m := n % 60;
    NatToStringRoundTrip(m);
    if h > 0 {
      NatToStringRoundTrip(h);
      ReadRuntimeHours(NatToString(h), NatToString(m));
      assert RuntimeLabel(n) == NatToString(h) + "h " + NatToString(m) + "m";
    } else {
      ReadRuntimeMinutes(NatToString(m));
      assert RuntimeLabel(n) == NatToString(m) + "m";
    }
    assert n == 60 * h + m;
  }

  lemma RuntimeLabelExamples()
    ensures RuntimeLabel(45) == "45m"
    ensures RuntimeLabel(90) == "1h 30m"
  {
    assert NatToString(45) == NatToString(4) + [DigitChar(5)];
    assert NatToString(30) == NatToString(3) + [DigitChar(0)];
  }

  /** The parts of a composed meta line: the genres joined by " • ", then the running time. */
  function MetaParts(genres: Option<seq<string>>, runtime: Option<int>): (parts: seq<string>)
    ensures |parts| <= 2
    ensures genres.Some? && |genres.value| > 0 ==> |parts| >= 1 && parts[0] == Join(genres.value, " \U{2022} ")
    ensures genres.None? || genres.value == [] ==> |parts| <= 1
    ensures runtime.Some? && runtime.value > 0 ==> |parts| >= 1 && ReadRuntime(parts[|parts| - 1]) == runtime
    ensures (runtime.None? || runtime.value <= 0) && (genres.None? || genres.value == []) ==> parts == []
  {
    var g := if genres.Some? && |genres.value| > 0 then [Join(genres.value, " \U{2022} ")] else [];
    var t := if runtime.Some? && runtime.value > 0 then [RuntimeLabel(runtime.value)] else [];
    if runtime.Some? && runtime.value > 0 then
      RuntimeLabelRoundTrip(runtime.value);
      g + t
    else g + t
  }

  /** `meta`: the given one when non-empty, else the composed parts joined by " • ", else the given value. */
  function MetaOf(given: Option<string>, genres: Option<seq<string>>, runtime: Option<int>): (meta: Option<string>)
    ensures Truthy(given) ==> meta == given
    ensures !Truthy(given) && MetaParts(genres, runtime) != [] ==> meta == Some(Join(MetaParts(genres, runtime), " \U{2022} "))
    ensures !Truthy(given) && MetaParts(genres, runtime) == [] ==> meta == given
  {
    if Truthy(given) then given
    else
      var parts := MetaParts(genres, runtime);
      if parts != [] then Some(Join(parts, " \U{2022} ")) else given
  }

  // ---------------------------------------------------------------------------
  // normalize

  /** `runtimeMin`: `Number(r.runtime)` when a runtime is given and is a number. */
  function RuntimeOf(r: Raw): Option<int> {
    if Given(r.runtime) then NumberOf(r.runtime) else None
  }

  /**
   * `normalize(r)`: `None` exactly when the trimmed title is empty; otherwise the record
   * `{id: baseId, title, year, meta, poster, genres}` with the trimmed title, the year,
   * id, genres and meta as `YearOf`, `IdOf`, `GenresOf` and `MetaOf` give them, and the
   * poster when it is non-empty.
   */
  function Normalize(r: Raw): (m: Option<Movie>)
    ensures m.None? <==> Trim(r.title.GetOr("")) == ""
    ensures m.Some? ==> m.value.title == Trim(r.title.GetOr("")) && IsTrimmed(m.value.title)
    ensures m.Some? ==> m.value.poster == (if Truthy(r.poster) then r.poster else None)
    ensures m.Some? ==> m.value.year == YearOf(r) && m.value.id == IdOf(r, m.value.title, YearOf(r))
    ensures m.Some? ==> m.value.genres == GenresOf(r.genres)
    ensures m.Some? ==> m.value.meta == MetaOf(r.meta, GenresOf(r.genres), RuntimeOf(r))
  {
    var title := Trim(r.title.GetOr(""));
    TrimIsTrimmed(r.title.GetOr(""));
    if title == "" then None
    else
      var year := YearOf(r);
      var genres := GenresOf(r.genres);
      var runtime := RuntimeOf(r);
      Some(Movie(
        IdOf(r, title, year),
        title,
        year,
        MetaOf(r.meta, genres, runtime),
        if Truthy(r.poster) then r.poster else None,
        genres))
  }

  // ---------------------------------------------------------------------------
  // main

  /** What one line contributes before de-duplication. */
  function MappedLine(line: string, parse: string -> Option<Raw>): Option<Movie> {
    var trimmed := Trim(line);
    if trimmed == "" then None
    else match parse(trimmed)
      case None => None
      case Some(obj) => Normalize(obj)
  }

  /** The normalised records of the lines, in order. */
  function Normalized(lines: seq<string>, parse: string -> Option<Raw>): (r: seq<Movie>)
    ensures |r| <= |lines|
  {
    if lines == [] then []
    else
      var n := |lines| - 1;
      var m := MappedLine(lines[n], parse);
      Normalized(lines[..n], parse) + (if m.Some? then [m.value] else [])
  }

  /** The ids of a sequence of records. */
  function Ids(xs: seq<Movie>): set<string> {
    if xs == [] then {} else Ids(xs[..|xs| - 1]) + {xs[|xs| - 1].id}
  }

  lemma {:induction false} IdsMembers(xs: seq<Movie>)
    ensures forall i :: 0 <= i < |xs| ==> xs[i].id in Ids(xs)
    ensures forall id :: id in Ids(xs) ==> exists i :: 0 <= i < |xs| && xs[i].id == id
  {
    if xs != [] {
      var n := |xs| - 1;
      IdsMembers(xs[..n]);
      forall i | 0 <= i < n ensures xs[i].id in Ids(xs) {
        assert xs[..n][i] == xs[i];
      }
      forall id | id in Ids(xs) ensures exists i :: 0 <= i < |xs| && xs[i].id == id {
        if id in Ids(xs[..n]) {
          var i :| 0 <= i < n && xs[..n][i].id == id;
          assert xs[i].id == id;
        } else {
          assert xs[n].id == id;
        }
      }
    }
  }

  /** Keeps the first record of every id, in order. */
  function Dedup(xs: seq<Movie>): seq<Movie> {
    if xs == [] then []
    else
      var n := |xs| - 1;
      var d := Dedup(xs[..n]);
      if xs[n].id in Ids(d) then d else d + [xs[n]]
  }

  /** Index of the first record with a given id. */
  function FirstIndex(xs: seq<Movie>, id: string): (i: nat)
    requires id in Ids(xs)
    ensures i < |xs| && xs[i].id == id
  {
    var n := |xs| - 1;
    if id in Ids(xs[..n]) then FirstIndex(xs[..n], id) else n
  }

  /** No record before the first index has that id. */
  lemma {:induction false} FirstIndexIsFirst(xs: seq<Movie>, id: string)
    requires id in Ids(xs)
    ensures forall j :: 0 <= j < FirstIndex(xs, id) ==> xs[j].id != id
  {
    var n := |xs| - 1;
    if id in Ids(xs[..n]) {
      FirstIndexIsFirst(xs[..n], id);
      forall j | 0 <= j < FirstIndex(xs, id) ensures xs[j].id != id {
        assert xs[..n][j] == xs[j];
      }
    } else {
      IdsMembers(xs[..n]);
      forall j | 0 <= j < n ensures xs[j].id != id {
        assert xs[..n][j] == xs[j];
      }
    }
  }

  /** De-duplication keeps exactly the input's ids. */
  lemma {:induction false} DedupIds(xs: seq<Movie>)
    ensures Ids(Dedup(xs)) == Ids(xs)
  {
    if xs != [] {
      var n := |xs| - 1;
      DedupIds(xs[..n]);
      var d := Dedup(xs[..n]);
      if xs[n].id !in Ids(d) {
        assert (d + [xs[n]])[..|d|] == d;
      }
    }
  }

  /** The kept records have pairwise distinct ids. */
  lemma {:induction false} DedupDistinct(xs: seq<Movie>)
    ensures forall i, j :: 0 <= i < j < |Dedup(xs)| ==> Dedup(xs)[i].id != Dedup(xs)[j].id
  {
    if xs != [] {
      var n := |xs| - 1;
      DedupDistinct(xs[..n]);
      var d := Dedup(xs[..n]);
      if xs[n].id !in Ids(d) {
        IdsMembers(d);
        var e := d + [xs[n]];
        forall i, j | 0 <= i < j < |e| ensures e[i].id != e[j].id {
          assert e[i] == d[i];
          if j < |d| {
            assert e[j] == d[j];
          }
        }
      }
    }
  }

  /** Each kept record is the first record of the input with its id. */
  lemma {:induction false} DedupKeepsFirst(xs: seq<Movie>)
    ensures forall i :: 0 <= i < |Dedup(xs)| ==>
      Dedup(xs)[i].id in Ids(xs) && Dedup(xs)[i] == xs[FirstIndex(xs, Dedup(xs)[i].id)]
  {
    if xs != [] {
      var n := |xs| - 1;
      var p := xs[..n];
      DedupKeepsFirst(p);
      DedupIds(p);
      var d := Dedup(p);
      var e := Dedup(xs);
      IdsMembers(d);
      forall i | 0 <= i < |e| ensures e[i].id in Ids(xs) && e[i] == xs[FirstIndex(xs, e[i].id)] {
        if i < |d| {
          assert e[i] == d[i];
          assert d[i].id in Ids(p);
          assert FirstIndex(xs, d[i].id) == FirstIndex(p, d[i].id);
          assert p[FirstIndex(p, d[i].id)] == xs[FirstIndex(p, d[i].id)];
        } else {
          assert e[i] == xs[n] && xs[n].id !in Ids(p);
        }
      }
    }
  }

  /** The kept records appear in the order of their first occurrence. */
  lemma {:induction false} DedupInOrder(xs: seq<Movie>)
    ensures forall i :: 0 <= i < |Dedup(xs)| ==> Dedup(xs)[i].id in Ids(xs)
    ensures forall i, j :: 0 <= i < j < |Dedup(xs)| ==>
      FirstIndex(xs, Dedup(xs)[i].id) < FirstIndex(xs, Dedup(xs)[j].id)
  {
    if xs != [] {
      var n := |xs| - 1;
      var p := xs[..n];
      DedupInOrder(p);
      DedupIds(p);
      var d := Dedup(p);
      var e := Dedup(xs);
      IdsMembers(d);
      forall i | 0 <= i < |e| ensures e[i].id in Ids(xs) {
        if i < |d| {
          assert e[i] == d[i];
        }
      }
      forall i, j | 0 <= i < j < |e| ensures FirstIndex(xs, e[i].id) < FirstIndex(xs, e[j].id) {
        assert e[i] == d[i] && d[i].id in Ids(p);
        assert FirstIndex(xs, e[i].id) == FirstIndex(p, e[i].id) < n;
        if j < |d| {
          assert e[j] == d[j] && d[j].id in Ids(p);
        } else {
          assert e[j] == xs[n] && xs[n].id !in Ids(p);
        }
      }
    }
  }

  /** One more line adds its normalised record, if any. */
  lemma NormalizedStep(lines: seq<string>, k: nat, parse: string -> Option<Raw>)
    requires k < |lines|
    ensures Normalized(lines[..k + 1], parse) ==
      Normalized(lines[..k], parse) + (if MappedLine(lines[k], parse).Some? then [MappedLine(lines[k], parse).value] else [])
  {
    assert lines[..k + 1][..k] == lines[..k];
  }

  /** One more record is kept exactly when its id is new. */
  lemma DedupStep(xs: seq<Movie>, x: Movie)
    ensures Dedup(xs + [x]) == if x.id in Ids(Dedup(xs)) then Dedup(xs) else Dedup(xs) + [x]
  {
    assert (xs + [x])[..|xs|] == xs;
  }

  lemma IdsStep(xs: seq<Movie>, x: Movie)
    ensures Ids(xs + [x]) == Ids(xs) + {x.id}
  {
    assert (xs + [x])[..|xs|] == xs;
  }

  /** The body of `main`'s loop up to the duplicate test: trim, skip blanks, parse, normalise. */
  method ReadLine(line: string, parse: string -> Option<Raw>) returns (m: Option<Movie>)
    ensures m == MappedLine(line, parse)
  {
    m := None;
    var trimmed := Trim(line);
    if trimmed != "" {
      match parse(trimmed) {
        case None =>
        case Some(obj) =>
          m := Normalize(obj);
      }
    }
  }

  /**
   * `main`: skips blank lines, lines that do not parse and records without a title,
   * and adds each normalised record whose id has not been seen yet.
   */
  method BuildItems(lines: seq<string>, parse: string -> Option<Raw>) returns (items: seq<Movie>)
    ensures items == Dedup(Normalized(lines, parse))
    ensures Ids(items) == Ids(Normalized(lines, parse))
    ensures forall i, j :: 0 <= i < j < |items| ==> items[i].id != items[j].id
  {
    var seen: set<string> := {};
    items := [];
    var k := 0;
    while k < |lines|
      invariant 0 <= k <= |lines|
      invariant items == Dedup(Normalized(lines[..k], parse))
      invariant seen == Ids(items)
    {
      NormalizedStep(lines, k, parse);
      ghost var before := Normalized(lines[..k], parse);
      var mapped := ReadLine(lines[k], parse);
      if mapped.Some? {
        DedupStep(before, mapped.value);
        if mapped.value.id !in seen {
          IdsStep(items, mapped.value);
          seen := seen + {mapped.value.id};
          items := items + [mapped.value];
        }
      } else {
        assert before + [] == before;
      }
      k := k + 1;
    }
    assert lines[..k] == lines;
    DedupIds(Normalized(lines, parse));
    DedupDistinct(Normalized(lines, parse));
  }
}
