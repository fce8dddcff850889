/**
 * `scripts/normalize-credits.ts`: every row of a credits CSV (columns `movie_id`, `id`,
 * `title`, `cast`, `crew`; the last two hold JSON arrays) becomes a raw record with the
 * trimmed title, the first eight cast names and the first crew member whose job is
 * "director"; rows without a title are read but not written.
 *
 * JSON parsing is a parameter: `parse(s)` is `Some(v)` when `JSON.parse(s)` succeeds and
 * yields the array `v`, `None` when it throws.
 */
module NormalizeCredits {
  import opened Wrappers
  import opened Text
  import opened CsvRows
  import opened RawMovie

  /** A parsed cast entry: only its `name` is read. */
  datatype CastEntry = CastEntry(name: Option<string>)

  /** A parsed crew entry: only its `job` and `name` are read. */
  datatype CrewEntry = CrewEntry(job: Option<string>, name: Option<string>)

  /**
   * `safeJson(s, fallback)`: an absent or empty cell, or one that does not parse, gives the
   * fallback; otherwise the parsed value.
   */
  function SafeJson<T>(s: Option<string>, parse: string -> Option<T>, fallback: T): (v: T)
    ensures v == fallback || (s.Some? && s.value != "" && parse(s.value) == Some(v))
  {
    match s
    case None => fallback
    case Some(text) =>
      if text == "" then fallback
      else match parse(text)
        case Some(parsed) => parsed
        case None => fallback
  }

  /** A cell that parses gives its parsed value; only empty and unparsable cells fall back. */
  lemma SafeJsonParsed<T>(text: string, parse: string -> Option<T>, fallback: T)
    requires text != ""
    ensures SafeJson(Some(text), parse, fallback) == parse(text).GetOr(fallback)
  {
  }

  // ---------------------------------------------------------------------------
  // cast

  /** `(c.name ?? "").trim()`. */
  function CastName(c: CastEntry): string {
    Trim(c.name.GetOr(""))
  }

  /** `castArr.map(c => (c.name ?? "").trim()).filter(Boolean)`. */
  function CastNames(arr: seq<CastEntry>): (names: seq<string>)
    ensures |names| <= |arr|
  {
    if arr == [] then []
    else
      var name := CastName(arr[|arr| - 1]);
      CastNames(arr[..|arr| - 1]) + (if name != "" then [name] else [])
  }

  /** Number of entries whose trimmed name is non-empty. */
  function CountNamed(arr: seq<CastEntry>): nat {
    if arr == [] then 0
    else CountNamed(arr[..|arr| - 1]) + (if CastName(arr[|arr| - 1]) != "" then 1 else 0)
  }

  /** Every kept name is non-empty, trimmed and the trimmed name of some entry. */
  lemma {:induction false} CastNamesShape(arr: seq<CastEntry>)
    ensures |CastNames(arr)| == CountNamed(arr)
    ensures forall i :: 0 <= i < |CastNames(arr)| ==>
      CastNames(arr)[i] != "" && IsTrimmed(CastNames(arr)[i]) &&
      exists j :: 0 <= j < |arr| && CastName(arr[j]) == CastNames(arr)[i]
  {
    if arr != [] {
      var n := |arr| - 1;
      var before := CastNames(arr[..n]);
      var name := CastName(arr[n]);
      CastNamesShape(arr[..n]);
      TrimIsTrimmed(arr[n].name.GetOr(""));
      assert CastNames(arr) == before + (if name != "" then [name] else []);
      forall i | 0 <= i < |CastNames(arr)|
        ensures CastNames(arr)[i] != "" && IsTrimmed(CastNames(arr)[i])
        ensures exists j :: 0 <= j < |arr| && CastName(arr[j]) == CastNames(arr)[i]
      {
        if i < |before| {
          var j :| 0 <= j < n && CastName(arr[..n][j]) == before[i];
          assert arr[..n][j] == arr[j];
        } else {
          assert CastNames(arr)[i] == name;
          assert CastName(arr[n]) == name;
        }
      }
    }
  }

  /** Entries that all have a non-blank name keep their names, trimmed, in order. */
  lemma {:induction false} CastNamesAllNamed(arr: seq<CastEntry>)
    requires forall j :: 0 <= j < |arr| ==> CastName(arr[j]) != ""
    ensures |CastNames(arr)| == |arr|
    ensures forall j :: 0 <= j < |arr| ==> CastNames(arr)[j] == CastName(arr[j])
  {
    if arr != [] {
      var n := |arr| - 1;
      CastNamesAllNamed(arr[..n]);
      assert CastNames(arr) == CastNames(arr[..n]) + [CastName(arr[n])];
      forall j | 0 <= j < |arr| ensures CastNames(arr)[j] == CastName(arr[j]) {
        if j < n {
          assert arr[..n][j] == arr[j];
        }
      }
    }
  }

  /** The names of two lists one after the other are the names of the first, then of the second. */
  lemma {:induction false} CastNamesAppend(a: seq<CastEntry>, b: seq<CastEntry>)
    ensures CastNames(a + b) == CastNames(a) + CastNames(b)
  {
    if b == [] {
      assert a + b == a;
    } else {
      var n := |b| - 1;
      var ab := a + b;
      assert ab[..|ab| - 1] == a + b[..n] && ab[|ab| - 1] == b[n];
      var x := if CastName(b[n]) != "" then [CastName(b[n])] else [];
      assert CastNames(ab) == CastNames(a + b[..n]) + x;
      assert CastNames(b) == CastNames(b[..n]) + x;
      CastNamesAppend(a, b[..n]);
      assert CastNames(ab) == CastNames(a) + (CastNames(b[..n]) + x);
    }
  }

  /** An entry without a name, or with a blank one, is dropped without trace. */
  lemma CastNamesSkipsBlank(arr: seq<CastEntry>, c: CastEntry)
    requires CastName(c) == ""
    ensures CastNames(arr + [c]) == CastNames(arr)
  {
    assert (arr + [c])[..|arr|] == arr;
  }

  /** `.slice(0, 8)` of the kept names. */
  function CastOf(arr: seq<CastEntry>): seq<string> {
    Take(CastNames(arr), 8)
  }

  /** The cast is the first (at most) eight kept names, and eight whenever there are that many. */
  lemma CastOfShape(arr: seq<CastEntry>)
    ensures |CastOf(arr)| <= 8
    ensures CastOf(arr) == CastNames(arr)[..|CastOf(arr)|]
    ensures |CastOf(arr)| == if CountNamed(arr) < 8 then CountNamed(arr) else 8
  {
    CastNamesShape(arr);
  }

  // ---------------------------------------------------------------------------
  // director

  /** `(c.job ?? "").toLowerCase() === "director"`. */
  predicate IsDirector(c: CrewEntry) {
    ToLower(c.job.GetOr("")) == "director"
  }

  /** `crewArr.find(IsDirector)`. */
  function FindDirector(crew: seq<CrewEntry>): (found: Option<nat>)
    ensures found.Some? ==> found.value < |crew| && IsDirector(crew[found.value])
    ensures found.Some? ==> forall k :: 0 <= k < found.value ==> !IsDirector(crew[k])
  {
    if crew == [] then None
    else if IsDirector(crew[0]) then Some(0)
    else match FindDirector(crew[1..])
      case Some(i) => Some(i + 1)
      case None => None
  }

  /** `find` misses only when no entry is a director. */
  lemma {:induction false} FindDirectorNone(crew: seq<CrewEntry>)
    ensures FindDirector(crew).None? <==> forall k :: 0 <= k < |crew| ==> !IsDirector(crew[k])
  {
    if crew != [] && !IsDirector(crew[0]) {
      FindDirectorNone(crew[1..]);
      if FindDirector(crew[1..]).None? {
        forall k | 0 <= k < |crew| ensures !IsDirector(crew[k]) {
          if k > 0 {
            assert crew[k] == crew[1..][k - 1];
          }
        }
      } else {
        var i := FindDirector(crew[1..]).value;
        assert IsDirector(crew[i + 1]);
      }
    }
  }

  /** `?.name ?? ""`: the name of the first director, empty when there is none or it has no name. */
  function DirectorOf(crew: seq<CrewEntry>): (director: string)
    ensures director != "" ==> exists k :: 0 <= k < |crew| && IsDirector(crew[k]) && crew[k].name == Some(director)
  {
    match FindDirector(crew)
    case Some(i) => crew[i].name.GetOr("")
    case None => ""
  }

  /** Only the first director counts: a nameless first director hides every later one. */
  lemma DirectorIsFirst(crew: seq<CrewEntry>, i: nat)
    requires i < |crew| && IsDirector(crew[i])
    requires forall k :: 0 <= k < i ==> !IsDirector(crew[k])
    ensures DirectorOf(crew) == crew[i].name.GetOr("")
  {
    FindDirectorNone(crew);
    var j := FindDirector(crew).value;
    assert !(j < i) && !(i < j);
  }

  /** The job comparison ignores case. */
  lemma DirectorJobIgnoresCase(name: Option<string>)
    ensures IsDirector(CrewEntry(Some("Director"), name))
    ensures IsDirector(CrewEntry(Some("DIRECTOR"), name))
    ensures !IsDirector(CrewEntry(Some("Co-Director"), name))
    ensures !IsDirector(CrewEntry(None, name))
  {
    assert ToLower("Director") == "director";
    assert ToLower("DIRECTOR") == "director";
    assert |ToLower("Co-Director")| == 11;
  }

  // ---------------------------------------------------------------------------
  // the record

  /** `String(row.movie_id ?? row.id ?? "m-" + idx)`: a present cell wins even when empty. */
  function IdOf(r: Row, idx: nat): string {
    match Cell(r, "movie_id")
    case Some(v) => v
    case None => Cell(r, "id").GetOr(RowId(idx))
  }

  /** `??` keeps an empty `movie_id`, so such a row is written with an empty id. */
  lemma IdChoice(r: Row, idx: nat)
    ensures "movie_id" in r ==> IdOf(r, idx) == r["movie_id"]
    ensures "movie_id" !in r && "id" in r ==> IdOf(r, idx) == r["id"]
    ensures "movie_id" !in r && "id" !in r ==> IdOf(r, idx) == RowId(idx)
    ensures IdOf(r, idx) == "" <==>
      (("movie_id" in r && r["movie_id"] == "") || ("movie_id" !in r && "id" in r && r["id"] == ""))
  {
  }

  /** `String(row.title ?? "").trim()`. */
  function TitleOf(r: Row): string {
    Trim(Cell(r, "title").GetOr(""))
  }

  /** The record of row number `idx`. */
  function Normalized(r: Row, idx: nat, parseCast: string -> Option<seq<CastEntry>>,
                      parseCrew: string -> Option<seq<CrewEntry>>): Movie {
    var castArr := SafeJson(Cell(r, "cast"), parseCast, []);
    var crewArr := SafeJson(Cell(r, "crew"), parseCrew, []);
    Movie(IdOf(r, idx), TitleOf(r), None, [], CastOf(castArr), DirectorOf(crewArr), [], "")
  }

  /** What every written record satisfies: a title, at most eight trimmed names and nothing else. */
  predicate WellFormed(m: Movie) {
    m.title != "" && IsTrimmed(m.title) && m.year == None && m.genres == [] &&
    m.keywords == [] && m.overview == "" && |m.cast| <= 8 &&
    forall i :: 0 <= i < |m.cast| ==> m.cast[i] != "" && IsTrimmed(m.cast[i])
  }

  lemma NormalizedWellFormed(r: Row, idx: nat, parseCast: string -> Option<seq<CastEntry>>,
                             parseCrew: string -> Option<seq<CrewEntry>>)
    requires TitleOf(r) != ""
    ensures WellFormed(Normalized(r, idx, parseCast, parseCrew))
  {
    TrimIsTrimmed(Cell(r, "title").GetOr(""));
    var castArr := SafeJson(Cell(r, "cast"), parseCast, []);
    var names := CastNames(castArr);
    var cast := CastOf(castArr);
    CastNamesShape(castArr);
    forall i | 0 <= i < |cast| ensures cast[i] != "" && IsTrimmed(cast[i]) {
      assert cast[i] == names[i];
    }
  }

  /** A missing or unparsable `cast` or `crew` cell leaves the cast or director empty. */
  lemma UnparsableCells(r: Row, idx: nat, parseCast: string -> Option<seq<CastEntry>>,
                        parseCrew: string -> Option<seq<CrewEntry>>)
    requires "cast" !in r || parseCast(r["cast"]).None?
    requires "crew" !in r || parseCrew(r["crew"]).None?
    ensures Normalized(r, idx, parseCast, parseCrew).cast == []
    ensures Normalized(r, idx, parseCast, parseCrew).director == ""
  {
  }

  // ---------------------------------------------------------------------------
  // the row handler

  /** The records written for the rows, in order: row `i` is normalised with number `i`. */
  function Written(rows: seq<Row>, parseCast: string -> Option<seq<CastEntry>>,
                   parseCrew: string -> Option<seq<CrewEntry>>): seq<Movie> {
    if rows == [] then []
    else
      var m := Normalized(rows[|rows| - 1], |rows| - 1, parseCast, parseCrew);
      Written(rows[..|rows| - 1], parseCast, parseCrew) + (if m.title != "" then [m] else [])
  }

  /** Number of rows whose trimmed title is non-empty. */
  function CountTitled(rows: seq<Row>): nat {
    if rows == [] then 0
    else CountTitled(rows[..|rows| - 1]) + (if TitleOf(rows[|rows| - 1]) != "" then 1 else 0)
  }

  /** One record per row with a title, each well formed. */
  lemma {:induction false} WrittenShape(rows: seq<Row>, parseCast: string -> Option<seq<CastEntry>>,
                                        parseCrew: string -> Option<seq<CrewEntry>>)
    ensures |Written(rows, parseCast, parseCrew)| == CountTitled(rows) <= |rows|
    ensures forall i :: 0 <= i < |Written(rows, parseCast, parseCrew)| ==>
      WellFormed(Written(rows, parseCast, parseCrew)[i])
  {
    if rows != [] {
      var n := |rows| - 1;
      var m := Normalized(rows[n], n, parseCast, parseCrew);
      var before := Written(rows[..n], parseCast, parseCrew);
      var extra := if m.title != "" then [m] else [];
      WrittenShape(rows[..n], parseCast, parseCrew);
      if m.title != "" {
        NormalizedWellFormed(rows[n], n, parseCast, parseCrew);
      }
      var all := Written(rows, parseCast, parseCrew);
      assert all == before + extra;
      forall i | 0 <= i < |all| ensures WellFormed(all[i]) {
        if i < |before| {
          assert all[i] == before[i];
        } else {
          assert all[i] == extra[i - |before|];
        }
      }
    }
  }

  lemma WrittenStep(rows: seq<Row>, k: nat, parseCast: string -> Option<seq<CastEntry>>,
                    parseCrew: string -> Option<seq<CrewEntry>>)
    requires k < |rows|
    ensures Written(rows[..k + 1], parseCast, parseCrew) ==
      Written(rows[..k], parseCast, parseCrew) +
      (if Normalized(rows[k], k, parseCast, parseCrew).title != ""
       then [Normalized(rows[k], k, parseCast, parseCrew)] else [])
  {
    assert rows[..k + 1][..k] == rows[..k];
  }

  /** The stream handler over all rows: `idx` ends at the number of rows read. */
  method Normalize(rows: seq<Row>, parseCast: string -> Option<seq<CastEntry>>,
                   parseCrew: string -> Option<seq<CrewEntry>>) returns (out: seq<Movie>, idx: nat)
    ensures out == Written(rows, parseCast, parseCrew)
    ensures idx == |rows| && |out| == CountTitled(rows)
  {
    out := [];
    idx := 0;
    while idx < |rows|
      invariant idx <= |rows|
      invariant out == Written(rows[..idx], parseCast, parseCrew)
    {
      WrittenStep(rows, idx, parseCast, parseCrew);
      var obj := Normalized(rows[idx], idx, parseCast, parseCrew);
      out := out + (if obj.title != "" then [obj] else []);
      idx := idx + 1;
    }
    assert rows[..idx] == rows;
    WrittenShape(rows, parseCast, parseCrew);
  }
}
