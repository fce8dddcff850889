/**
 * `scripts/build-movies-jsonl.ts`: turns the rows of a movie-metadata CSV into raw movie
 * records. `JSON.parse` of a genres cell is a parameter: `parseJson` gives the `name` of
 * every element when the cell is a JSON array (`None` for an element without a string
 * name), and `None` when parsing throws.
 */
module MoviesJsonl {
  import opened Wrappers
  import opened Text
  import opened CsvRows

  /** `r[k1] || r[k2] || … || ""`: the first non-empty cell among the keys. */
  function FirstFilled(r: Row, keys: seq<string>): (v: string)
    ensures v != "" ==> exists i :: 0 <= i < |keys| && Cell(r, keys[i]) == Some(v)
  {
    if keys == [] then ""
    else if Truthy(Cell(r, keys[0])) then r[keys[0]]
    else
      var v := FirstFilled(r, keys[1..]);
      assert v != "" ==> exists i :: 1 <= i < |keys| && Cell(r, keys[i]) == Some(v) by {
        if v != "" {
          var i :| 0 <= i < |keys[1..]| && Cell(r, keys[1..][i]) == Some(v);
          assert keys[1..][i] == keys[i + 1];
        }
      }
      v
  }

  /** The chain stops at the first non-empty cell. */
  lemma {:induction false} FirstFilledIs(r: Row, keys: seq<string>, i: nat)
    requires i < |keys| && Truthy(Cell(r, keys[i]))
    requires forall j :: 0 <= j < i ==> !Truthy(Cell(r, keys[j]))
    ensures FirstFilled(r, keys) == r[keys[i]]
  {
    if i > 0 {
      assert !Truthy(Cell(r, keys[0]));
      forall j | 0 <= j < i - 1 ensures !Truthy(Cell(r, keys[1..][j])) {
        assert keys[1..][j] == keys[j + 1];
      }
      FirstFilledIs(r, keys[1..], i - 1);
    }
  }

  /** The chain is "" exactly when every cell is absent or empty. */
  lemma {:induction false} FirstFilledEmpty(r: Row, keys: seq<string>)
    ensures FirstFilled(r, keys) == "" <==> forall j :: 0 <= j < |keys| ==> !Truthy(Cell(r, keys[j]))
  {
    if keys != [] {
      FirstFilledEmpty(r, keys[1..]);
      if !Truthy(Cell(r, keys[0])) {
        assert forall j :: 1 <= j < |keys| ==> keys[j] == keys[1..][j - 1];
      }
    }
  }

  // ---------------------------------------------------------------------------
  // safeParseGenres

  /** The separators `[|;,]` of a plain genre list. */
  predicate IsListSep(c: char) {
    c == '|' || c == ';' || c == ','
  }

  /** `arr.map(g => g?.name).filter(Boolean)`. */
  function Names(items: seq<Option<string>>): (r: seq<string>)
    ensures |r| <= |items|
  {
    if items == [] then []
    else (if Truthy(items[0]) then [items[0].value] else []) + Names(items[1..])
  }

  lemma {:induction false} NamesNonEmpty(items: seq<Option<string>>)
    ensures forall i :: 0 <= i < |Names(items)| ==> Names(items)[i] != ""
  {
    if items != [] {
      NamesNonEmpty(items[1..]);
    }
  }

  /** `safeParseGenres(input)`. */
  function SafeParseGenres(input: Option<string>, parseJson: string -> Option<seq<Option<string>>>): (r: seq<string>)
    ensures !Truthy(input) ==> r == []
  {
    if !Truthy(input) then []
    else match parseJson(input.value)
      case Some(items) => Names(items)
      case None => SplitTrimmed(input.value, IsListSep)
  }

  /** Every genre is non-empty; one read from a plain list is trimmed and holds no separator. */
  lemma GenresShape(input: Option<string>, parseJson: string -> Option<seq<Option<string>>>)
    ensures forall i :: 0 <= i < |SafeParseGenres(input, parseJson)| ==> SafeParseGenres(input, parseJson)[i] != ""
    ensures Truthy(input) && parseJson(input.value).None? ==>
      forall i :: 0 <= i < |SafeParseGenres(input, parseJson)| ==>
        IsTrimmed(SafeParseGenres(input, parseJson)[i]) && !HasListSep(SafeParseGenres(input, parseJson)[i])
  {
    if Truthy(input) {
      match parseJson(input.value)
      case Some(items) => NamesNonEmpty(items);
      case None =>
        SplitPiecesHaveNoSeparator(input.value, IsListSep);
        TrimmedPiecesShape(Split(input.value, IsListSep), IsListSep);
    }
  }

  predicate HasListSep(g: string) {
    exists j :: 0 <= j < |g| && IsListSep(g[j])
  }

  /**
   * A plain list written with `|` reads back as the genres it was written from, when the
   * cell is not JSON.
   */
  lemma PlainListRoundTrip(genres: seq<string>, parseJson: string -> Option<seq<Option<string>>>)
    requires |genres| >= 1
    requires forall i :: 0 <= i < |genres| ==> genres[i] != "" && IsTrimmed(genres[i]) && !HasListSep(genres[i])
    requires parseJson(Join(genres, "|")).None?
    ensures SafeParseGenres(Some(Join(genres, "|")), parseJson) == genres
  {
    var text := Join(genres, "|");
    assert text != "" by {
      JoinStartsWithFirst(genres, "|");
    }
    SplitJoin(genres, '|', IsListSep);
    TrimmedPiecesKeeps(genres);
  }

  lemma {:induction false} JoinStartsWithFirst(parts: seq<string>, sep: string)
    requires |parts| >= 1
    ensures StartsWith(Join(parts, sep), parts[0])
  {
    if |parts| > 1 {
      var j := Join(parts, sep);
      assert j == parts[0] + (sep + Join(parts[1..], sep));
      assert j[..|parts[0]|] == parts[0];
    }
  }

  // ---------------------------------------------------------------------------
  // year

  /** `yearFromDate(d)`: the number written by four leading digits, none for a missing or empty date. */
  function YearFromDate(d: Option<string>): (y: Option<nat>)
    ensures y.Some? ==> Truthy(d) && y == LeadingYear(d.value)
  {
    if !Truthy(d) then None else LeadingYear(d.value)
  }

  /** `Number(v)` of a cell, with `None` for NaN (`Number(undefined)` is NaN). */
  function NumberOfCell(v: Option<string>): Option<int> {
    if v.None? then None else JsNumber(v.value)
  }

  /** `(yearFromDate(release_date) ?? Number(release_year)) || undefined`. */
  function YearOf(r: Row): (y: Option<int>)
    ensures y != Some(0)
  {
    var fromDate := YearFromDate(Cell(r, "release_date"));
    var v: Option<int> := if fromDate.Some? then Some(fromDate.value) else NumberOfCell(Cell(r, "release_year"));
    if v.Some? && v.value != 0 then v else None
  }

  /** A date that starts with a year gives that year, whatever `release_year` says. */
  lemma DateYearWins(r: Row, y: nat, rest: string)
    requires 1000 <= y < 10000
    requires Cell(r, "release_date") == Some(NatToString(y) + rest)
    ensures YearOf(r) == Some(y)
  {
    LeadingYearOfWritten(y, rest);
  }

  /**
   * A date that starts with "0000" gives year 0, which `??` does not replace, so the year
   * is missing even when `release_year` holds one.
   */
  lemma ZeroDateHidesReleaseYear(r: Row)
    requires Cell(r, "release_date").Some? && StartsWith(r["release_date"], "0000")
    ensures YearOf(r) == None
  {
    var d := r["release_date"];
    assert d[..4] == "0000";
    DigitsValueZeros(d[..4]);
  }

  /** Without a leading year in the date, the year is `Number(release_year)` unless that is 0 or NaN. */
  lemma ReleaseYearFallback(r: Row)
    requires YearFromDate(Cell(r, "release_date")).None?
    ensures "release_year" in r && JsNumber(r["release_year"]).Some? && JsNumber(r["release_year"]).value != 0
      ==> YearOf(r) == JsNumber(r["release_year"])
    ensures "release_year" !in r ==> YearOf(r) == None
  {
  }

  // ---------------------------------------------------------------------------
  // meta

  /** `${Math.floor(runtime / 60)}h ${runtime % 60}m`: the hour part is always written. */
  function ClockLabel(n: nat): (shown: string)
    ensures |shown| >= 5
  {
    NatToString(n / 60) + "h " + NatToString(n % 60) + "m"
  }

  /** The label reads back as the running time it was made from. */
  lemma ClockLabelRoundTrip(n: nat)
    ensures ReadRuntime(ClockLabel(n)) == Some(n)
  {
    var hs := NatToString(n / 60);
    var ms := NatToString(n % 60);
    NatToStringRoundTrip(n / 60);
    NatToStringRoundTrip(n % 60);
    var shown := ClockLabel(n);
    assert shown[..|shown| - 1] == (hs + "h") + [' '] + ms;
    SplitNoSeparator(ms, Is(' '));
    SplitAfterPiece(hs + "h", ' ', ms, Is(' '));
    assert (hs + "h")[..|hs|] == hs;
  }

  /** `Number(r["runtime"]) || undefined`. */
  function RuntimeOf(r: Row): (t: Option<int>)
    ensures t != Some(0)
  {
    var v := NumberOfCell(Cell(r, "runtime"));
    if v.Some? && v.value != 0 then v else None
  }

  /** The pieces before `.filter(Boolean)`: the genres joined by ", ", then the running time when positive. */
  function MetaPieces(genres: seq<string>, runtime: Option<int>): seq<Option<string>> {
    [ if |genres| > 0 then Some(Join(genres, ", ")) else None,
      if runtime.Some? && runtime.value > 0 then Some(ClockLabel(runtime.value)) else None ]
  }

  /** `.filter(Boolean)` on optional strings. */
  function Present(xs: seq<Option<string>>): (r: seq<string>)
    ensures forall i :: 0 <= i < |r| ==> r[i] != ""
  {
    if xs == [] then []
    else (if Truthy(xs[0]) then [xs[0].value] else []) + Present(xs[1..])
  }

  /** `metaPieces.join(" • ") || undefined`. */
  function MetaOf(genres: seq<string>, runtime: Option<int>): (meta: Option<string>)
    ensures meta.Some? ==> meta.value != ""
  {
    var joined := Join(Present(MetaPieces(genres, runtime)), " \U{2022} ");
    if joined == "" then None else Some(joined)
  }

  lemma PresentPair(a: Option<string>, b: Option<string>)
    ensures Present([a, b]) == (if Truthy(a) then [a.value] else []) + (if Truthy(b) then [b.value] else [])
  {
    assert [a, b][1..] == [b];
    assert [b][1..] == [];
    assert Present([b]) == (if Truthy(b) then [b.value] else []) + Present([]);
    assert Present([a, b]) == (if Truthy(a) then [a.value] else []) + Present([b]);
  }

  /** The pieces that survive `.filter(Boolean)` when every genre is non-empty. */
  lemma MetaPiecesPresent(genres: seq<string>, runtime: Option<int>)
    requires forall i :: 0 <= i < |genres| ==> genres[i] != ""
    ensures Present(MetaPieces(genres, runtime)) ==
      (if |genres| > 0 then [Join(genres, ", ")] else [])
      + (if runtime.Some? && runtime.value > 0 then [ClockLabel(runtime.value)] else [])
  {
    if |genres| > 0 {
      JoinStartsWithFirst(genres, ", ");
    }
    var pieces := MetaPieces(genres, runtime);
    PresentPair(pieces[0], pieces[1]);
  }

  /** Two pieces joined: the first starts the result, the second ends it. */
  lemma JoinPair(a: string, b: string, sep: string)
    ensures Join([a, b], sep) == a + sep + b
    ensures StartsWith(a + sep + b, a) && EndsWith(a + sep + b, b)
  {
    assert [a, b][1..] == [b];
    var j := a + sep + b;
    assert j[..|a|] == a;
    assert j[|j| - |b|..] == b;
  }

  /** The joined meta line, case by case. */
  lemma MetaJoined(genres: seq<string>, runtime: Option<int>)
    requires forall i :: 0 <= i < |genres| ==> genres[i] != ""
    ensures var g := Join(genres, ", ");
      var timed := runtime.Some? && runtime.value > 0;
      Join(Present(MetaPieces(genres, runtime)), " \U{2022} ") ==
        if |genres| > 0 && timed then g + " \U{2022} " + ClockLabel(runtime.value)
        else if |genres| > 0 then g
        else if timed then ClockLabel(runtime.value)
        else ""
  {
    MetaPiecesPresent(genres, runtime);
    var g := Join(genres, ", ");
    if runtime.Some? && runtime.value > 0 {
      var c := ClockLabel(runtime.value);
      if |genres| > 0 {
        JoinPair(g, c, " \U{2022} ");
      } else {
        assert Join([c], " \U{2022} ") == c;
      }
    } else if |genres| > 0 {
      assert Join([g], " \U{2022} ") == g;
    }
  }

  /** With genres, the meta line starts with them joined by ", ". */
  lemma MetaStarts(genres: seq<string>, runtime: Option<int>)
    requires forall i :: 0 <= i < |genres| ==> genres[i] != ""
    requires genres != []
    ensures MetaOf(genres, runtime).Some? && StartsWith(MetaOf(genres, runtime).value, Join(genres, ", "))
  {
    MetaJoined(genres, runtime);
    var g := Join(genres, ", ");
    JoinStartsWithFirst(genres, ", ");
    if runtime.Some? && runtime.value > 0 {
      JoinPair(g, ClockLabel(runtime.value), " \U{2022} ");
      assert MetaOf(genres, runtime) == Some(g + " \U{2022} " + ClockLabel(runtime.value));
    } else {
      assert MetaOf(genres, runtime) == Some(g);
    }
  }

  /** With a positive running time, the meta line ends with its label. */
  lemma MetaEnds(genres: seq<string>, runtime: Option<int>)
    requires forall i :: 0 <= i < |genres| ==> genres[i] != ""
    requires runtime.Some? && runtime.value > 0
    ensures MetaOf(genres, runtime).Some? && EndsWith(MetaOf(genres, runtime).value, ClockLabel(runtime.value))
  {
    MetaJoined(genres, runtime);
    var c := ClockLabel(runtime.value);
    if |genres| > 0 {
      var g := Join(genres, ", ");
      JoinPair(g, c, " \U{2022} ");
      assert MetaOf(genres, runtime) == Some(g + " \U{2022} " + c);
    } else {
      assert MetaOf(genres, runtime) == Some(c);
    }
  }

  /**
   * With non-empty genres the meta line starts with them joined by ", "; a positive running
   * time ends it, as a label that reads back as that time; with neither it is missing.
   */
  lemma MetaFacts(genres: seq<string>, runtime: Option<int>)
    requires forall i :: 0 <= i < |genres| ==> genres[i] != ""
    ensures MetaOf(genres, runtime).None? <==> genres == [] && (runtime.None? || runtime.value <= 0)
    ensures genres != [] ==> StartsWith(MetaOf(genres, runtime).value, Join(genres, ", "))
    ensures runtime.Some? && runtime.value > 0 ==>
      EndsWith(MetaOf(genres, runtime).value, ClockLabel(runtime.value))
      && ReadRuntime(ClockLabel(runtime.value)) == runtime
  {
    if genres != [] {
      MetaStarts(genres, runtime);
    }
    if runtime.Some? && runtime.value > 0 {
      MetaEnds(genres, runtime);
      ClockLabelRoundTrip(runtime.value);
    }
    if genres == [] && (runtime.None? || runtime.value <= 0) {
      MetaJoined(genres, runtime);
    }
  }

  // ---------------------------------------------------------------------------
  // row mapping

  /** A written record (`JSON.stringify` drops the fields that are `undefined`). */
  datatype Obj = Obj(id: string, title: string, year: Option<int>, meta: Option<string>, poster: Option<string>)

  const IdKeys: seq<string> := ["id", "movie_id", "imdb_id", "tconst"]
  const TitleKeys: seq<string> := ["title", "original_title", "name"]

  function TitleOf(r: Row): string {
    Trim(FirstFilled(r, TitleKeys))
  }

  /** `title.toLowerCase().replace(/\s+/g, "-")`. */
  function TitleId(title: string): string {
    ReplaceRuns(ToLower(title), IsJsSpace, '-')
  }

  predicate NotSpace(c: char) {
    !IsJsSpace(c)
  }

  predicate IsSpaceOrDash(c: char) {
    IsJsSpace(c) || c == '-'
  }

  /**
   * The derived id holds no whitespace, and apart from whitespace and dashes it has the
   * characters of the lower-cased title, in order.
   */
  lemma TitleIdShape(title: string)
    ensures title != "" <==> TitleId(title) != ""
    ensures All(TitleId(title), NotSpace)
    ensures Kept(TitleId(title), IsSpaceOrDash) == Kept(ToLower(title), IsSpaceOrDash)
  {
    ReplaceRunsChars(ToLower(title), IsJsSpace, '-');
    assert All(TitleId(title), NotSpace) by {
      var t := TitleId(title);
      forall i | 0 <= i < |t| ensures NotSpace(t[i]) {
        assert t[i] == '-' || !IsJsSpace(t[i]);
      }
    }
    ReplaceRunsKeeps(ToLower(title), IsJsSpace, '-', IsSpaceOrDash);
  }

  /** The id: the first non-empty id cell, trimmed, else the id derived from the title. */
  function IdOf(r: Row, title: string): string {
    var id := Trim(FirstFilled(r, IdKeys));
    if id != "" then id else TitleId(title)
  }

  /** `r["poster_path"]` when it starts with "/". */
  function PosterOf(r: Row): (p: Option<string>)
    ensures p.Some? <==> "poster_path" in r && StartsWith(r["poster_path"], "/")
    ensures p.Some? ==> p.value == r["poster_path"]
  {
    if "poster_path" in r && r["poster_path"] != "" && StartsWith(r["poster_path"], "/") then Some(r["poster_path"])
    else None
  }

  /** The record a row becomes, `None` when its title is blank. */
  function MapRow(r: Row, parseJson: string -> Option<seq<Option<string>>>): (o: Option<Obj>)
    ensures o.None? <==> TitleOf(r) == ""
  {
    var title := TitleOf(r);
    if title == "" then None
    else
      var genres := SafeParseGenres(Cell(r, "genres"), parseJson);
      Some(Obj(IdOf(r, title), title, YearOf(r), MetaOf(genres, RuntimeOf(r)), PosterOf(r)))
  }

  /** For a non-blank title, the id is non-empty and has no surrounding whitespace. */
  lemma IdShape(r: Row, title: string)
    requires title != ""
    ensures IdOf(r, title) != "" && IsTrimmed(IdOf(r, title))
  {
    TrimIsTrimmed(FirstFilled(r, IdKeys));
    TitleIdShape(title);
    var t := TitleId(title);
    assert NotSpace(t[0]) && NotSpace(t[|t| - 1]);
  }

  /** A written record has a non-empty trimmed title and a non-empty id without surrounding whitespace. */
  lemma MapRowShape(r: Row, parseJson: string -> Option<seq<Option<string>>>)
    requires MapRow(r, parseJson).Some?
    ensures var o := MapRow(r, parseJson).value;
      o.title != "" && IsTrimmed(o.title) && o.id != "" && IsTrimmed(o.id) && o.year != Some(0)
  {
    var title := TitleOf(r);
    TrimIsTrimmed(FirstFilled(r, TitleKeys));
    IdShape(r, title);
  }

  /**
   * A filled but blank `id` cell stops the `||` chain before `movie_id`, and trimming then
   * leaves nothing, so the id comes from the title even when `movie_id` is filled.
   */
  lemma BlankIdCellIgnoresMovieId(r: Row, parseJson: string -> Option<seq<Option<string>>>)
    requires Truthy(Cell(r, "id")) && Trim(r["id"]) == ""
    requires TitleOf(r) != ""
    ensures MapRow(r, parseJson).value.id == TitleId(TitleOf(r))
  {
    FirstFilledIs(r, IdKeys, 0);
  }

  /** Genres and running time reach the meta line as `MetaFacts` describes. */
  lemma MapRowMeta(r: Row, parseJson: string -> Option<seq<Option<string>>>)
    requires MapRow(r, parseJson).Some?
    ensures var genres := SafeParseGenres(Cell(r, "genres"), parseJson);
      MapRow(r, parseJson).value.meta.None? <==> genres == [] && (RuntimeOf(r).None? || RuntimeOf(r).value < 0)
  {
    var genres := SafeParseGenres(Cell(r, "genres"), parseJson);
    GenresShape(Cell(r, "genres"), parseJson);
    MetaFacts(genres, RuntimeOf(r));
  }

  // ---------------------------------------------------------------------------
  // main

  /** The records written for the rows, in order. */
  function Converted(rows: seq<Row>, parseJson: string -> Option<seq<Option<string>>>): seq<Obj> {
    if rows == [] then []
    else
      var o := MapRow(rows[|rows| - 1], parseJson);
      Converted(rows[..|rows| - 1], parseJson) + (if o.Some? then [o.value] else [])
  }

  /** Number of rows with a non-blank title. */
  function CountTitled(rows: seq<Row>): nat {
    if rows == [] then 0
    else CountTitled(rows[..|rows| - 1]) + (if TitleOf(rows[|rows| - 1]) != "" then 1 else 0)
  }

  /** One line per row with a non-blank title. */
  lemma {:induction false} ConvertedCount(rows: seq<Row>, parseJson: string -> Option<seq<Option<string>>>)
    ensures |Converted(rows, parseJson)| == CountTitled(rows)
  {
    if rows != [] {
      ConvertedCount(rows[..|rows| - 1], parseJson);
    }
  }

  /** Every written record has a title; lines are never merged or dropped for any other reason. */
  lemma {:induction false} ConvertedTitled(rows: seq<Row>, parseJson: string -> Option<seq<Option<string>>>)
    ensures forall i :: 0 <= i < |Converted(rows, parseJson)| ==> Converted(rows, parseJson)[i].title != ""
  {
    if rows != [] {
      ConvertedTitled(rows[..|rows| - 1], parseJson);
      var o := MapRow(rows[|rows| - 1], parseJson);
      if o.Some? {
        MapRowShape(rows[|rows| - 1], parseJson);
      }
    }
  }

  lemma ConvertedStep(rows: seq<Row>, k: nat, parseJson: string -> Option<seq<Option<string>>>)
    requires k < |rows|
    ensures Converted(rows[..k + 1], parseJson) ==
      Converted(rows[..k], parseJson) + (if MapRow(rows[k], parseJson).Some? then [MapRow(rows[k], parseJson).value] else [])
  {
    assert rows[..k + 1][..k] == rows[..k];
  }

  /** The loop of `main`: `out.push` for every row with a title. */
  method Convert(rows: seq<Row>, parseJson: string -> Option<seq<Option<string>>>) returns (out: seq<Obj>)
    ensures out == Converted(rows, parseJson)
    ensures |out| == CountTitled(rows)
  {
    out := [];
    var k := 0;
    while k < |rows|
      invariant k <= |rows|
      invariant out == Converted(rows[..k], parseJson)
    {
      ConvertedStep(rows, k, parseJson);
      var o := MapRow(rows[k], parseJson);
      if o.Some? {
        out := out + [o.value];
      } else {
        assert out + [] == out;
      }
      k := k + 1;
    }
    assert rows[..k] == rows;
    ConvertedCount(rows, parseJson);
  }
}
