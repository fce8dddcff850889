/**
 * `scripts/normalize-kaggle.ts`: turns the rows of a Kaggle movie CSV into raw movie
 * records, numbering the rows as it reads them.
 */
module NormalizeKaggle {
  import opened Wrappers
  import opened Text
  import opened CsvRows
  import opened RawMovie

  // ---------------------------------------------------------------------------
  // field

  /**
   * `field(obj, ...candidates)`: the cell of the first candidate column the row has (an
   * empty cell counts and stops the search), "" when it has none of them.
   */
  function Field(r: Row, candidates: seq<string>): string {
    if candidates == [] then ""
    else if candidates[0] in r then r[candidates[0]]
    else Field(r, candidates[1..])
  }

  /** The first column the row has decides, even when its cell is empty. */
  lemma {:induction false} FieldIsFirstPresent(r: Row, candidates: seq<string>, i: nat)
    requires i < |candidates| && candidates[i] in r
    requires forall j :: 0 <= j < i ==> candidates[j] !in r
    ensures Field(r, candidates) == r[candidates[i]]
  {
    if i > 0 {
      assert candidates[0] !in r;
      forall j | 0 <= j < i - 1 ensures candidates[1..][j] !in r {
        assert candidates[1..][j] == candidates[j + 1];
      }
      FieldIsFirstPresent(r, candidates[1..], i - 1);
    }
  }

  /** A row with none of the columns gives "". */
  lemma {:induction false} FieldAbsent(r: Row, candidates: seq<string>)
    requires forall j :: 0 <= j < |candidates| ==> candidates[j] !in r
    ensures Field(r, candidates) == ""
  {
    if candidates != [] {
      assert candidates[0] !in r;
      forall j | 0 <= j < |candidates| - 1 ensures candidates[1..][j] !in r {
        assert candidates[1..][j] == candidates[j + 1];
      }
      FieldAbsent(r, candidates[1..]);
    }
  }

  /** The loop of `field`, returning at the first column the row has. */
  method FieldOf(r: Row, candidates: seq<string>) returns (v: string)
    ensures v == Field(r, candidates)
  {
    for i := 0 to |candidates|
      invariant Field(r, candidates[i..]) == Field(r, candidates)
    {
      if candidates[i] in r {
        return r[candidates[i]];
      }
      assert candidates[i..][1..] == candidates[i + 1..];
    }
    return "";
  }

  // ---------------------------------------------------------------------------
  // year

  /** Four digits start at position `i` of `s`. */
  predicate DigitRunAt(s: string, i: nat) {
    i + 4 <= |s| && AllDigits(s[i..i + 4])
  }

  /** `s.match(/\d{4}/)?.[0]`: the first four consecutive digits anywhere in `s`. */
  function FirstDigitRun(s: string): (m: Option<string>)
    ensures m.Some? ==> |m.value| == 4 && AllDigits(m.value)
    decreases |s|
  {
    if |s| < 4 then None
    else if AllDigits(s[..4]) then Some(s[..4])
    else FirstDigitRun(s[1..])
  }

  /** The match is the leftmost run of four digits. */
  lemma {:induction false} FirstDigitRunIsLeftmost(s: string, i: nat)
    requires DigitRunAt(s, i)
    requires forall j :: 0 <= j < i ==> !DigitRunAt(s, j)
    ensures FirstDigitRun(s) == Some(s[i..i + 4])
  {
    if i == 0 {
      assert s[..4] == s[0..4];
    } else {
      assert !DigitRunAt(s, 0);
      assert s[..4] == s[0..4];
      var t := s[1..];
      assert t[i - 1..i + 3] == s[i..i + 4];
      forall j | 0 <= j < i - 1 ensures !DigitRunAt(t, j) {
        assert t[j..j + 4] == s[j + 1..j + 5];
        assert !DigitRunAt(s, j + 1);
      }
      FirstDigitRunIsLeftmost(t, i - 1);
    }
  }

  /** There is no match exactly when no four digits stand together. */
  lemma {:induction false} FirstDigitRunNone(s: string)
    ensures FirstDigitRun(s).None? <==> forall i :: 0 <= i ==> !DigitRunAt(s, i)
    decreases |s|
  {
    if |s| >= 4 {
      assert s[..4] == s[0..4];
      if !AllDigits(s[..4]) {
        var t := s[1..];
        FirstDigitRunNone(t);
        if FirstDigitRun(t).None? {
          forall i | 0 <= i ensures !DigitRunAt(s, i) {
            if i > 0 && i + 4 <= |s| {
              assert !DigitRunAt(t, i - 1);
              assert t[i - 1..i + 3] == s[i..i + 4];
            }
          }
        } else {
          var i :| 0 <= i && DigitRunAt(t, i);
          assert t[i..i + 4] == s[i + 1..i + 5];
          assert DigitRunAt(s, i + 1);
        }
      } else {
        assert DigitRunAt(s, 0);
      }
    }
  }

  /** Text without digits before a four-digit year does not hide it: the match is not anchored. */
  lemma YearAfterText(prefix: string, y: nat, rest: string)
    requires 1000 <= y < 10000
    requires forall i :: 0 <= i < |prefix| ==> !IsDigit(prefix[i])
    ensures FirstDigitRun(prefix + NatToString(y) + rest) == Some(NatToString(y))
    ensures DigitsValue(NatToString(y)) == y
  {
    var s := prefix + NatToString(y) + rest;
    assert Pow10(3) == 1000 && Pow10(4) == 10000;
    NatToStringLength(y, 3);
    NatToStringRoundTrip(y);
    var k := |prefix|;
    assert s[k..k + 4] == NatToString(y);
    forall j | 0 <= j < k ensures !DigitRunAt(s, j) {
      if j + 4 <= |s| {
        assert s[j..j + 4][0] == prefix[j];
      }
    }
    FirstDigitRunIsLeftmost(s, k);
  }

  // ---------------------------------------------------------------------------
  // clean

  /** The separators `[|,]` of the list columns. */
  predicate IsBarOrComma(c: char) {
    c == '|' || c == ','
  }

  const TitleKeys: seq<string> := ["title", "Title", "name"]
  const YearKeys: seq<string> := ["year", "Year", "release_year", "release_date"]
  const GenreKeys: seq<string> := ["genres", "Genres"]
  const CastKeys: seq<string> := ["cast", "actors", "Actors", "Cast"]
  const DirectorKeys: seq<string> := ["director", "Director", "directors"]
  const OverviewKeys: seq<string> := ["overview", "plot", "Plot", "description", "Synopsis"]
  const IdKeys: seq<string> := ["id", "imdb_id", "movie_id"]

  /** The year: the number written by the first four consecutive digits of the year column. */
  function YearOf(r: Row): (y: Option<nat>)
    ensures y.Some? ==> y.value < 10000
  {
    match FirstDigitRun(Field(r, YearKeys))
    case Some(m) =>
      DigitsValueBound(m);
      assert Pow10(4) == 10000;
      Some(DigitsValue(m))
    case None => None
  }

  /** `field(r, "director", …).split(/[|,]/)[0]?.trim() ?? ""`: the first name, trimmed. */
  function DirectorOf(r: Row): string {
    Trim(Split(Field(r, DirectorKeys), IsBarOrComma)[0])
  }

  function TitleOf(r: Row): string {
    Trim(Field(r, TitleKeys))
  }

  /** The id column, else the fallback from the row number. */
  function IdOf(r: Row, idx: nat): string {
    var idField := Field(r, IdKeys);
    if idField != "" then idField else RowId(idx)
  }

  function GenresOf(r: Row): seq<string> {
    SplitTrimmed(Field(r, GenreKeys), IsBarOrComma)
  }

  function CastOf(r: Row): seq<string> {
    Take(SplitTrimmed(Field(r, CastKeys), IsBarOrComma), 8)
  }

  /** `clean(r, idx)`. */
  function Clean(r: Row, idx: nat): Movie {
    Movie(IdOf(r, idx), TitleOf(r), YearOf(r), GenresOf(r), CastOf(r), DirectorOf(r), [], Trim(Field(r, OverviewKeys)))
  }

  /** The genres are the pieces of the genre column: non-empty, trimmed, free of `|` and `,`. */
  lemma CleanGenres(r: Row, idx: nat)
    ensures forall i :: 0 <= i < |Clean(r, idx).genres| ==> Piece(Clean(r, idx).genres[i])
  {
    PiecesShape(Field(r, GenreKeys));
  }

  /** The cast is at most the first eight pieces of the cast column, in order. */
  lemma CleanCast(r: Row, idx: nat)
    ensures |Clean(r, idx).cast| <= 8
    ensures Clean(r, idx).cast == SplitTrimmed(Field(r, CastKeys), IsBarOrComma)[..|Clean(r, idx).cast|]
    ensures |SplitTrimmed(Field(r, CastKeys), IsBarOrComma)| >= 8 ==> |Clean(r, idx).cast| == 8
  {
  }

  /** Every cast name is non-empty, trimmed and free of `|` and `,`. */
  lemma CleanCastPieces(r: Row, idx: nat)
    ensures forall i :: 0 <= i < |Clean(r, idx).cast| ==> Piece(Clean(r, idx).cast[i])
  {
    var names := SplitTrimmed(Field(r, CastKeys), IsBarOrComma);
    PiecesShape(Field(r, CastKeys));
    var cast := Clean(r, idx).cast;
    assert cast == Take(names, 8);
    forall i | 0 <= i < |cast| ensures Piece(cast[i]) {
      assert cast[i] == names[i];
    }
  }

  /** A list element: non-empty, trimmed, without separator. */
  predicate Piece(p: string) {
    p != [] && IsTrimmed(p) && forall j :: 0 <= j < |p| ==> !IsBarOrComma(p[j])
  }

  lemma PiecesShape(text: string)
    ensures forall i :: 0 <= i < |SplitTrimmed(text, IsBarOrComma)| ==> Piece(SplitTrimmed(text, IsBarOrComma)[i])
  {
    SplitPiecesHaveNoSeparator(text, IsBarOrComma);
    TrimmedPiecesShape(Split(text, IsBarOrComma), IsBarOrComma);
  }

  /** The director is the first name of the column, trimmed; the rest of the column is ignored. */
  lemma DirectorIsFirstName(r: Row, first: string, c: char, others: string)
    requires IsBarOrComma(c) && forall j :: 0 <= j < |first| ==> !IsBarOrComma(first[j])
    requires Field(r, DirectorKeys) == first + [c] + others
    ensures DirectorOf(r) == Trim(first)
  {
    SplitAfterPiece(first, c, others, IsBarOrComma);
  }

  /** A director column without separator is the director, trimmed. */
  lemma DirectorSingleName(r: Row)
    requires forall j :: 0 <= j < |Field(r, DirectorKeys)| ==> !IsBarOrComma(Field(r, DirectorKeys)[j])
    ensures DirectorOf(r) == Trim(Field(r, DirectorKeys))
  {
    SplitNoSeparator(Field(r, DirectorKeys), IsBarOrComma);
  }

  /**
   * The id is never empty. An empty `id` cell stops `field` before `imdb_id`, so such a row
   * gets the fallback id even when it has an `imdb_id`.
   */
  lemma CleanId(r: Row, idx: nat)
    ensures IdOf(r, idx) != ""
    ensures "id" in r && r["id"] == "" ==> IdOf(r, idx) == RowId(idx)
  {
    if "id" in r {
      FieldIsFirstPresent(r, IdKeys, 0);
    }
  }

  // ---------------------------------------------------------------------------
  // the row handler

  /** The records written for the rows, in order: row `i` is cleaned with number `i`. */
  function Written(rows: seq<Row>): seq<Movie> {
    if rows == [] then []
    else
      var m := Clean(rows[|rows| - 1], |rows| - 1);
      Written(rows[..|rows| - 1]) + (if m.title != "" then [m] else [])
  }

  /** What every written record satisfies. */
  predicate WellFormed(m: Movie) {
    m.title != "" && IsTrimmed(m.title) && m.id != "" && m.keywords == []
  }

  lemma CleanWellFormed(r: Row, idx: nat)
    requires TitleOf(r) != ""
    ensures WellFormed(Clean(r, idx))
  {
    TrimIsTrimmed(Field(r, TitleKeys));
    CleanId(r, idx);
  }

  /** Every written record has a non-empty trimmed title, a non-empty id and no keywords. */
  lemma {:induction false} WrittenShape(rows: seq<Row>)
    ensures forall i :: 0 <= i < |Written(rows)| ==> WellFormed(Written(rows)[i])
  {
    if rows != [] {
      var n := |rows| - 1;
      var m := Clean(rows[n], n);
      var before := Written(rows[..n]);
      var extra := if m.title != "" then [m] else [];
      WrittenShape(rows[..n]);
      if m.title != "" {
        CleanWellFormed(rows[n], n);
      }
      assert Written(rows) == before + extra;
      forall i | 0 <= i < |Written(rows)| ensures WellFormed(Written(rows)[i]) {
        if i < |before| {
          assert Written(rows)[i] == before[i];
        } else {
          assert Written(rows)[i] == extra[i - |before|];
        }
      }
    }
  }

  /** Number of rows whose trimmed title is non-empty. */
  function CountTitled(rows: seq<Row>): nat {
    if rows == [] then 0
    else CountTitled(rows[..|rows| - 1]) + (if TitleOf(rows[|rows| - 1]) != "" then 1 else 0)
  }

  /** One line per row with a title; `idx` counts the other rows too. */
  lemma {:induction false} WrittenCount(rows: seq<Row>)
    ensures |Written(rows)| == CountTitled(rows) <= |rows|
  {
    if rows != [] {
      WrittenCount(rows[..|rows| - 1]);
    }
  }

  lemma WrittenStep(rows: seq<Row>, k: nat)
    requires k < |rows|
    ensures Written(rows[..k + 1]) ==
      Written(rows[..k]) + (if Clean(rows[k], k).title != "" then [Clean(rows[k], k)] else [])
  {
    assert rows[..k + 1][..k] == rows[..k];
  }

  /** The stream handler over all rows: `idx` ends at the number of rows read. */
  method Normalize(rows: seq<Row>) returns (out: seq<Movie>, idx: nat)
    ensures out == Written(rows)
    ensures idx == |rows| && |out| == CountTitled(rows)
  {
    out := [];
    idx := 0;
    while idx < |rows|
      invariant idx <= |rows|
      invariant out == Written(rows[..idx])
    {
      WrittenStep(rows, idx);
      var obj := Clean(rows[idx], idx);
      out := out + (if obj.title != "" then [obj] else []);
      idx := idx + 1;
    }
    assert rows[..idx] == rows;
    WrittenCount(rows);
  }
}
