/**
 * `scripts/build-raw-from-credits.ts`: reads a credits CSV line by line, splits each line
 * with a minimal quote-aware splitter, takes the first line as the header, and emits
 * one raw movie record per data row that has the header's width, an id and a title.
 * Reading and writing files is not modelled: the input is the file's sequence of lines
 * and the output is the sequence of records written, one JSON line each.
 */
module BuildRawFromCredits {
  import opened Wrappers
  import opened Text

  // ---------------------------------------------------------------------------
  // splitCSV

  /** `[prefix + r[0]] + r[1..]`: text in front of the first field. */
  function Prepend(prefix: string, r: seq<string>): (p: seq<string>)
    requires |r| >= 1
    ensures |p| == |r|
  {
    [prefix + r[0]] + r[1..]
  }

  lemma PrependEmpty(r: seq<string>)
    requires |r| >= 1
    ensures Prepend("", r) == r
  {
    assert "" + r[0] == r[0];
    assert [r[0]] + r[1..] == r;
  }

  lemma PrependTwice(a: string, b: string, r: seq<string>)
    requires |r| >= 1
    ensures Prepend(a, Prepend(b, r)) == Prepend(a + b, r)
  {
    var p := Prepend(b, r);
    assert p[1..] == r[1..];
    assert a + (b + r[0]) == (a + b) + r[0];
  }

  /**
   * The fields read from the rest `s` of a line in quoting state `inQuotes`; the first
   * one continues the field being read.  A quote inside quotes followed by another
   * quote stands for one quote; any other quote only switches the quoting state; a
   * comma outside quotes ends a field.
   */
  function FieldsFrom(s: string, inQuotes: bool): (r: seq<string>)
    ensures |r| >= 1
  {
    if s == [] then [""]
    else if s[0] == '"' then
      if inQuotes && |s| > 1 && s[1] == '"' then Prepend("\"", FieldsFrom(s[2..], true))
      else FieldsFrom(s[1..], !inQuotes)
    else if s[0] == ',' && !inQuotes then [""] + FieldsFrom(s[1..], false)
    else Prepend([s[0]], FieldsFrom(s[1..], inQuotes))
  }

  /** The fields of a whole line. */
  function Fields(line: string): seq<string> {
    FieldsFrom(line, false)
  }

  /** `splitCSV(line)`: walks the line once, collecting the fields it yields. */
  method SplitCsv(line: string) returns (fields: seq<string>)
    ensures fields == Fields(line)
  {
    var cur := "";
    var inQuotes := false;
    fields := [];
    var i := 0;
    ghost var whole := Fields(line);
    PrependEmpty(whole);
    assert line[0..] == line;
    while i < |line|
      invariant 0 <= i <= |line|
      invariant fields + Prepend(cur, FieldsFrom(line[i..], inQuotes)) == whole
    {
      ghost var rest := line[i..];
      var ch := line[i];
      if ch == '"' {
        if inQuotes && i + 1 < |line| && line[i + 1] == '"' {
          assert rest[2..] == line[i + 2..];
          ghost var after := FieldsFrom(line[i + 2..], true);
          assert FieldsFrom(rest, inQuotes) == Prepend("\"", after);
          PrependTwice(cur, "\"", after);
          cur := cur + "\"";
          i := i + 1;
        } else {
          assert rest[1..] == line[i + 1..];
          assert FieldsFrom(rest, inQuotes) == FieldsFrom(line[i + 1..], !inQuotes);
          inQuotes := !inQuotes;
        }
      } else if ch == ',' && !inQuotes {
        assert rest[1..] == line[i + 1..];
        ghost var after := FieldsFrom(line[i + 1..], false);
        assert FieldsFrom(rest, inQuotes) == [""] + after;
        PrependEmpty(after);
        assert ([""] + after)[1..] == after && cur + "" == cur;
        assert Prepend(cur, [""] + after) == [cur] + after;
        fields := fields + [cur];
        cur := "";
      } else {
        assert rest[1..] == line[i + 1..];
        ghost var after := FieldsFrom(line[i + 1..], inQuotes);
        assert FieldsFrom(rest, inQuotes) == Prepend([ch], after);
        PrependTwice(cur, [ch], after);
        cur := cur + [ch];
      }
      i := i + 1;
    }
    assert line[i..] == [] && cur + "" == cur;
    assert Prepend(cur, FieldsFrom(line[i..], inQuotes)) == [cur];
    fields := fields + [cur];
  }

  /** Commas read while outside quotes, with the same reading of quotes as `FieldsFrom`. */
  function CommasOutsideQuotes(s: string, inQuotes: bool): nat {
    if s == [] then 0
    else if s[0] == '"' then
      if inQuotes && |s| > 1 && s[1] == '"' then CommasOutsideQuotes(s[2..], true)
      else CommasOutsideQuotes(s[1..], !inQuotes)
    else if s[0] == ',' && !inQuotes then 1 + CommasOutsideQuotes(s[1..], false)
    else CommasOutsideQuotes(s[1..], inQuotes)
  }

  /** A line yields one field more than the commas it reads outside quotes, so at least one. */
  lemma {:induction false} FieldCount(s: string, inQuotes: bool)
    ensures |FieldsFrom(s, inQuotes)| == 1 + CommasOutsideQuotes(s, inQuotes)
  {
    if s != [] {
      if s[0] == '"' {
        if inQuotes && |s| > 1 && s[1] == '"' {
          FieldCount(s[2..], true);
        } else {
          FieldCount(s[1..], !inQuotes);
        }
      } else {
        FieldCount(s[1..], if s[0] == ',' && !inQuotes then false else inQuotes);
      }
    }
  }

  /** On a line without quotes the fields are exactly `line.split(",")`. */
  lemma {:induction false} NoQuotesIsPlainSplit(s: string)
    requires forall i :: 0 <= i < |s| ==> s[i] != '"'
    ensures FieldsFrom(s, false) == Split(s, Is(','))
  {
    if s != [] {
      NoQuotesIsPlainSplit(s[1..]);
    }
  }

  /** ... and joining them with "," gives back the line. */
  lemma NoQuotesJoin(s: string)
    requires forall i :: 0 <= i < |s| ==> s[i] != '"'
    ensures Join(Fields(s), ",") == s
  {
    NoQuotesIsPlainSplit(s);
    JoinSplit(s, ',');
  }

  /** A field written the CSV way: every quote doubled. */
  function Escape(x: string): string {
    if x == [] then [] else (if x[0] == '"' then "\"\"" else [x[0]]) + Escape(x[1..])
  }

  /** A field quoted the CSV way (section 2 of RFC 4180, rules 6 and 7). */
  function Quote(x: string): string {
    "\"" + Escape(x) + "\""
  }

  /** A row written the CSV way: every field quoted, fields separated by commas. */
  function EncodeRow(fields: seq<string>): string {
    if |fields| == 0 then ""
    else if |fields| == 1 then Quote(fields[0])
    else Quote(fields[0]) + "," + EncodeRow(fields[1..])
  }

  /**
   * Inside quotes, the escaped text of `x` followed by the closing quote is read as `x`
   * (commas included), after which reading goes on outside quotes.
   */
  lemma {:induction false} ReadEscaped(x: string, rest: string)
    requires rest == [] || rest[0] != '"'
    ensures FieldsFrom(Escape(x) + "\"" + rest, true) == Prepend(x, FieldsFrom(rest, false))
  {
    var s := Escape(x) + "\"" + rest;
    var after := FieldsFrom(rest, false);
    if x == [] {
      assert s == "\"" + rest;
      assert s[1..] == rest;
      assert FieldsFrom(s, true) == after;
      PrependEmpty(after);
    } else {
      var t := Escape(x[1..]) + "\"" + rest;
      ReadEscaped(x[1..], rest);
      assert FieldsFrom(t, true) == Prepend(x[1..], after);
      var first := if x[0] == '"' then "\"" else [x[0]];
      assert Escape(x) == (if x[0] == '"' then "\"\"" else [x[0]]) + Escape(x[1..]);
      if x[0] == '"' {
        assert s == "\"\"" + t;
        assert s[2..] == t;
        assert FieldsFrom(s, true) == Prepend(first, FieldsFrom(t, true));
      } else {
        assert s == [x[0]] + t;
        assert s[1..] == t;
        assert FieldsFrom(s, true) == Prepend(first, FieldsFrom(t, true));
      }
      assert first == [x[0]];
      PrependTwice([x[0]], x[1..], after);
      assert x == [x[0]] + x[1..];
    }
  }


  /** Outside quotes, a quote only opens a quoted section. */
  lemma OpenQuote(x: string)
    ensures FieldsFrom("\"" + x, false) == FieldsFrom(x, true)
  {
    assert ("\"" + x)[1..] == x;
  }

  /** Reading back a row written the CSV way gives its fields: the splitter inverts `EncodeRow`. */
  lemma {:induction false} SplitEncodedRow(fields: seq<string>)
    requires |fields| >= 1
    ensures Fields(EncodeRow(fields)) == fields
  {
    var x := fields[0];
    var q := Escape(x);
    if |fields| == 1 {
      assert EncodeRow(fields) == "\"" + (q + "\"" + "");
      OpenQuote(q + "\"" + "");
      ReadEscaped(x, "");
      assert FieldsFrom("", false) == [""];
      assert x + "" == x;
      assert Prepend(x, [""]) == [x];
    } else {
      var tail := EncodeRow(fields[1..]);
      var rest := "," + tail;
      assert EncodeRow(fields) == "\"" + (q + "\"" + rest);
      OpenQuote(q + "\"" + rest);
      ReadEscaped(x, rest);
      assert rest[1..] == tail;
      assert FieldsFrom(rest, false) == [""] + Fields(tail);
      SplitEncodedRow(fields[1..]);
      assert Prepend(x, [""] + fields[1..]) == [x + ""] + fields[1..];
      assert x + "" == x;
      assert fields == [x] + fields[1..];
    }
  }

  // ---------------------------------------------------------------------------
  // main

  /** The byte-order mark the script strips from the start of every line. */
  const Bom: char := '\U{FEFF}'

  /** `rawLine.replace(/^﻿/, "")`. */
  function StripBom(line: string): (r: string)
    ensures line != [] && line[0] == Bom ==> r == line[1..]
    ensures line == [] || line[0] != Bom ==> r == line
  {
    if line != [] && line[0] == Bom then line[1..] else line
  }

  /** The header: the first line's fields, trimmed. */
  function HeaderOf(line: string): (h: seq<string>)
    ensures |h| == |Fields(StripBom(line))|
  {
    var f := Fields(StripBom(line));
    seq(|f|, i requires 0 <= i < |f| => Trim(f[i]))
  }

  /** The id column: "id" only when the header lacks "movie_id" and has "id". */
  function IdColumn(header: seq<string>): (c: string)
    ensures c == "id" <==> "movie_id" !in header && "id" in header
    ensures c != "id" ==> c == "movie_id"
  {
    if "movie_id" !in header && "id" in header then "id" else "movie_id"
  }

  /** The `row` object filled column by column: a later column of the same name overwrites. */
  function RowMap(header: seq<string>, cols: seq<string>): map<string, string>
    requires |header| == |cols|
  {
    if header == [] then map[]
    else
      var n := |header| - 1;
      RowMap(header[..n], cols[..n])[header[n] := cols[n]]
  }

  /** The row has exactly the header's names, each bound to the value of its last column. */
  lemma {:induction false} RowMapValues(header: seq<string>, cols: seq<string>)
    requires |header| == |cols|
    ensures forall k :: k in RowMap(header, cols) <==> k in header
    ensures forall i :: 0 <= i < |header| && header[i] !in header[i + 1..] ==> RowMap(header, cols)[header[i]] == cols[i]
  {
    if header != [] {
      var n := |header| - 1;
      RowMapValues(header[..n], cols[..n]);
      assert header == header[..n] + [header[n]];
      forall i | 0 <= i < n && header[i] !in header[i + 1..]
        ensures RowMap(header, cols)[header[i]] == cols[i]
      {
        assert header[n] in header[i + 1..];
        assert header[..n][i + 1..] == header[i + 1..n];
        assert header[i] !in header[..n][i + 1..];
      }
    }
  }

  /** `for (let i = 0; i < header.length; i++) row[header[i]] = cols[i]`. */
  method FillRow(header: seq<string>, cols: seq<string>) returns (row: map<string, string>)
    requires |header| == |cols|
    ensures row == RowMap(header, cols)
  {
    row := map[];
    var i := 0;
    while i < |header|
      invariant 0 <= i <= |header|
      invariant row == RowMap(header[..i], cols[..i])
    {
      assert header[..i + 1][..i] == header[..i] && cols[..i + 1][..i] == cols[..i];
      row := row[header[i] := cols[i]];
      i := i + 1;
    }
    assert header[..i] == header && cols[..i] == cols;
  }

  /** A raw movie record as written to `movies.raw.jsonl`. */
  datatype RawRecord = RawRecord(
    id: string,
    title: string,
    releaseDate: Option<string>,
    genres: seq<string>,
    cast: string,
    crew: string,
    poster: Option<string>,
    imdbId: Option<string>)

  /** What every written record satisfies: trimmed non-empty id and title, the fixed empty fields. */
  predicate WellFormed(r: RawRecord) {
    && r.id != "" && IsTrimmed(r.id) && r.title != "" && IsTrimmed(r.title)
    && r.releaseDate == None && r.genres == [] && r.poster == None && r.imdbId == None
  }

  /** What happens to one data row. */
  datatype RowOutcome = WrongWidth | NoId | NoTitle | Emit(rec: RawRecord)

  /** `row[name]?.trim()`, with "" for a missing column (both are falsy). */
  function TrimmedValue(row: map<string, string>, name: string): string {
    if name in row then Trim(row[name]) else ""
  }

  /** The outcome of one data row, given the header and the id column. */
  function ConvertRow(header: seq<string>, idCol: string, cols: seq<string>): (r: RowOutcome)
    ensures r.WrongWidth? <==> |cols| != |header|
    ensures r.NoId? <==> |cols| == |header| && TrimmedValue(RowMap(header, cols), idCol) == ""
    ensures r.NoTitle? <==> |cols| == |header| && TrimmedValue(RowMap(header, cols), idCol) != ""
                                                  && TrimmedValue(RowMap(header, cols), "title") == ""
    ensures r.Emit? ==>
      && r.rec.id == TrimmedValue(RowMap(header, cols), idCol) && r.rec.id != ""
      && r.rec.title == TrimmedValue(RowMap(header, cols), "title") && r.rec.title != ""
      && r.rec.releaseDate == None && r.rec.genres == [] && r.rec.poster == None && r.rec.imdbId == None
    ensures r.Emit? ==>
      && r.rec.cast == (if "cast" in RowMap(header, cols) then Trim(RowMap(header, cols)["cast"]) else "[]")
      && r.rec.crew == (if "crew" in RowMap(header, cols) then Trim(RowMap(header, cols)["crew"]) else "[]")
  {
    if |cols| != |header| then WrongWidth
    else
      var row := RowMap(header, cols);
      var id := TrimmedValue(row, idCol);
      var title := TrimmedValue(row, "title");
      if id == "" then NoId
      else if title == "" then NoTitle
      else
        var cast := Trim(if "cast" in row then row["cast"] else "[]");
        var crew := Trim(if "crew" in row then row["crew"] else "[]");
        Emit(RawRecord(id, title, None, [], cast, crew, None, None))
  }

  /** Outcomes of the data lines, in order. */
  function Outcomes(header: seq<string>, idCol: string, rows: seq<string>): (r: seq<RowOutcome>)
    ensures |r| == |rows|
  {
    if rows == [] then []
    else
      var n := |rows| - 1;
      Outcomes(header, idCol, rows[..n]) + [ConvertRow(header, idCol, Fields(StripBom(rows[n])))]
  }

  /** The records of the emitted rows, in order. */
  function Emitted(outcomes: seq<RowOutcome>): (r: seq<RawRecord>)
    ensures |r| <= |outcomes|
  {
    if outcomes == [] then []
    else
      var n := |outcomes| - 1;
      Emitted(outcomes[..n]) + (if outcomes[n].Emit? then [outcomes[n].rec] else [])
  }

  function CountNoId(outcomes: seq<RowOutcome>): nat {
    if outcomes == [] then 0
    else CountNoId(outcomes[..|outcomes| - 1]) + (if outcomes[|outcomes| - 1].NoId? then 1 else 0)
  }

  function CountNoTitle(outcomes: seq<RowOutcome>): nat {
    if outcomes == [] then 0
    else CountNoTitle(outcomes[..|outcomes| - 1]) + (if outcomes[|outcomes| - 1].NoTitle? then 1 else 0)
  }

  function CountWrongWidth(outcomes: seq<RowOutcome>): nat {
    if outcomes == [] then 0
    else CountWrongWidth(outcomes[..|outcomes| - 1]) + (if outcomes[|outcomes| - 1].WrongWidth? then 1 else 0)
  }

  /** Every data row is either written or counted under exactly one reason for skipping it. */
  lemma {:induction false} OutcomesPartition(outcomes: seq<RowOutcome>)
    ensures |Emitted(outcomes)| + CountNoId(outcomes) + CountNoTitle(outcomes) + CountWrongWidth(outcomes) == |outcomes|
  {
    if outcomes != [] {
      OutcomesPartition(outcomes[..|outcomes| - 1]);
    }
  }

  /** A row that is written yields a well-formed record. */
  lemma ConvertRowWellFormed(header: seq<string>, idCol: string, cols: seq<string>)
    ensures ConvertRow(header, idCol, cols).Emit? ==> WellFormed(ConvertRow(header, idCol, cols).rec)
  {
    if |cols| == |header| {
      var row := RowMap(header, cols);
      TrimIsTrimmed(if idCol in row then row[idCol] else "");
      TrimIsTrimmed(if "title" in row then row["title"] else "");
    }
  }

  /** Every emitted record has a non-empty trimmed id and title and the fixed empty fields. */
  lemma {:induction false} EmittedRecords(header: seq<string>, idCol: string, rows: seq<string>)
    ensures forall r :: r in Emitted(Outcomes(header, idCol, rows)) ==> WellFormed(r)
  {
    if rows != [] {
      var n := |rows| - 1;
      var outcomes := Outcomes(header, idCol, rows);
      var cols := Fields(StripBom(rows[n]));
      EmittedRecords(header, idCol, rows[..n]);
      ConvertRowWellFormed(header, idCol, cols);
      assert outcomes == Outcomes(header, idCol, rows[..n]) + [ConvertRow(header, idCol, cols)];
      assert outcomes[..n] == Outcomes(header, idCol, rows[..n]);
      assert outcomes[n] == ConvertRow(header, idCol, cols);
    }
  }

  /** The body of `main`'s loop for one data line: split it, check its width, fill the row, decide. */
  method ConvertLine(header: seq<string>, idCol: string, line: string) returns (outcome: RowOutcome)
    ensures outcome == ConvertRow(header, idCol, Fields(StripBom(line)))
  {
    var cols := SplitCsv(StripBom(line));
    if |cols| != |header| {
      return WrongWidth;
    }
    var row := FillRow(header, cols);
    var id := if idCol in row then Trim(row[idCol]) else "";
    var title := if "title" in row then Trim(row["title"]) else "";
    if id == "" {
      return NoId;
    }
    if title == "" {
      return NoTitle;
    }
    var castStr := Trim(if "cast" in row then row["cast"] else "[]");
    var crewStr := Trim(if "crew" in row then row["crew"] else "[]");
    outcome := Emit(RawRecord(id, title, None, [], castStr, crewStr, None, None));
  }

  /**
   * `main`: the first line is the header; every later line is split and either written
   * or counted as skipped.  The counters are the script's `wrote`, `skippedNoId` and
   * `skippedNoTitle`.
   */
  method Convert(lines: seq<string>)
    returns (out: seq<RawRecord>, wrote: nat, skippedNoId: nat, skippedNoTitle: nat)
    ensures lines == [] ==> out == [] && wrote == 0 && skippedNoId == 0 && skippedNoTitle == 0
    ensures lines != [] ==>
      var header := HeaderOf(lines[0]);
      var outcomes := Outcomes(header, IdColumn(header), lines[1..]);
      && out == Emitted(outcomes)
      && skippedNoId == CountNoId(outcomes) && skippedNoTitle == CountNoTitle(outcomes)
    ensures wrote == |out|
    ensures wrote + skippedNoId + skippedNoTitle <= if lines == [] then 0 else |lines| - 1
    ensures forall r :: r in out ==> WellFormed(r)
  {
    out, wrote, skippedNoId, skippedNoTitle := [], 0, 0, 0;
    if lines == [] {
      return;
    }
    var headerFields := SplitCsv(StripBom(lines[0]));
    var header := seq(|headerFields|, i requires 0 <= i < |headerFields| => Trim(headerFields[i]));
    var idCol := IdColumn(header);
    var rows := lines[1..];
    out, skippedNoId, skippedNoTitle := ConvertRows(header, idCol, rows);
    wrote := |out|;
    OutcomesPartition(Outcomes(header, idCol, rows));
    EmittedRecords(header, idCol, rows);
  }

  /** `main`'s loop over the data lines, with its counters. */
  method ConvertRows(header: seq<string>, idCol: string, rows: seq<string>)
    returns (out: seq<RawRecord>, skippedNoId: nat, skippedNoTitle: nat)
    ensures out == Emitted(Outcomes(header, idCol, rows))
    ensures skippedNoId == CountNoId(Outcomes(header, idCol, rows))
    ensures skippedNoTitle == CountNoTitle(Outcomes(header, idCol, rows))
  {
    out, skippedNoId, skippedNoTitle := [], 0, 0;
    var k := 0;
    ghost var done: seq<RowOutcome> := [];
    while k < |rows|
      invariant 0 <= k <= |rows|
      invariant done == Outcomes(header, idCol, rows[..k])
      invariant out == Emitted(done)
      invariant skippedNoId == CountNoId(done) && skippedNoTitle == CountNoTitle(done)
    {
      assert rows[..k + 1][..k] == rows[..k];
      var outcome := ConvertLine(header, idCol, rows[k]);
      assert (done + [outcome])[..|done|] == done;
      match outcome {
        case WrongWidth =>
        case NoId =>
          skippedNoId := skippedNoId + 1;
        case NoTitle =>
          skippedNoTitle := skippedNoTitle + 1;
        case Emit(rec) =>
          out := out + [rec];
      }
      done := done + [outcome];
      k := k + 1;
    }
    assert rows[..k] == rows;
  }
}
