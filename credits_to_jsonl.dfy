/**
 * `scripts/credits_csv_to_jsonl.py`: every row of `data/credits.csv` becomes one JSON line
 * holding the movie id (an integer when it reads as one), the parsed cast and crew lists, the
 * names of the cast, the first ten of them, and the crew names grouped by job.
 *
 * `ast.literal_eval` is a parameter: `eval(s)` is `Some(v)` when it returns `v` and `None`
 * when it raises.
 */
module CreditsToJsonl {
  import opened Wrappers
  import opened Text
  import opened RawMovie

  /** A value `ast.literal_eval` can return (floats, sets, bytes and non-string keys left out). */
  datatype PyVal =
    | PyNone
    | PyBool(b: bool)
    | PyNum(i: int)
    | PyStr(s: string)
    | PyList(items: seq<PyVal>)
    | PyTuple(elems: seq<PyVal>)
    | PyDict(fields: map<string, PyVal>)

  /** Python truth value. */
  predicate PyTruthy(v: PyVal) {
    match v
    case PyNone => false
    case PyBool(b) => b
    case PyNum(i) => i != 0
    case PyStr(s) => s != ""
    case PyList(items) => items != []
    case PyTuple(elems) => elems != []
    case PyDict(fields) => |fields| != 0
  }

  /** `d.get(key)`. */
  function Get(fields: map<string, PyVal>, key: string): PyVal {
    if key in fields then fields[key] else PyNone
  }

  /** What `for c in v` visits for a list or a tuple. */
  function Items(v: PyVal): seq<PyVal> {
    match v
    case PyList(items) => items
    case PyTuple(elems) => elems
    case _ => []
  }

  // ---------------------------------------------------------------------------
  // parse_pylist

  predicate IsQuote(c: char) {
    c == '"'
  }

  /** `s.replace('""', '"')`: each pair of quotes, read left to right, becomes one. */
  function CollapseQuotes(s: string): (r: string)
    ensures |r| <= |s|
    decreases |s|
  {
    if |s| >= 2 && s[0] == '"' && s[1] == '"' then "\"" + CollapseQuotes(s[2..])
    else if s == [] then []
    else [s[0]] + CollapseQuotes(s[1..])
  }

  /** Only quotes are removed: every other character survives, in order. */
  lemma {:induction false} CollapseQuotesKeeps(s: string)
    ensures Kept(CollapseQuotes(s), IsQuote) == Kept(s, IsQuote)
    decreases |s|
  {
    if |s| >= 2 && s[0] == '"' && s[1] == '"' {
      CollapseQuotesKeeps(s[2..]);
      KeptAppend("\"", CollapseQuotes(s[2..]), IsQuote);
      assert s == "\"\"" + s[2..];
      KeptAppend("\"\"", s[2..], IsQuote);
    } else if s != [] {
      CollapseQuotesKeeps(s[1..]);
      KeptAppend([s[0]], CollapseQuotes(s[1..]), IsQuote);
    }
  }

  /** Text without two adjacent quotes is left as it is. */
  lemma {:induction false} CollapseQuotesUnchanged(s: string)
    requires forall i :: 0 <= i < |s| - 1 ==> !(s[i] == '"' && s[i + 1] == '"')
    ensures CollapseQuotes(s) == s
    decreases |s|
  {
    if s != [] {
      assert forall i :: 0 <= i < |s| - 1 ==> s[1..][i] == s[i + 1];
      CollapseQuotesUnchanged(s[1..]);
    }
  }

  /** A leading pair of quotes becomes one quote. */
  lemma CollapseQuotesPair(rest: string)
    ensures CollapseQuotes("\"\"" + rest) == "\"" + CollapseQuotes(rest)
  {
    var s := "\"\"" + rest;
    assert s[2..] == rest;
  }

  /** A doubled-quoted name loses one quote on each side. */
  lemma CollapseQuotedName(name: string)
    requires forall i :: 0 <= i < |name| ==> name[i] != '"'
    ensures CollapseQuotes("\"\"" + name + "\"\"") == "\"" + name + "\""
  {
    var t := name + "\"\"";
    assert "\"\"" + name + "\"\"" == "\"\"" + t;
    CollapseQuotesPair(t);
    CollapseQuotesTail(name);
    assert "\"" + (name + "\"") == "\"" + name + "\"";
  }

  lemma {:induction false} CollapseQuotesTail(name: string)
    requires forall i :: 0 <= i < |name| ==> name[i] != '"'
    ensures CollapseQuotes(name + "\"\"") == name + "\""
    decreases |name|
  {
    if name == [] {
      assert CollapseQuotes("\"\"") == "\"" + CollapseQuotes([]);
    } else {
      assert (name + "\"\"")[1..] == name[1..] + "\"\"";
      CollapseQuotesTail(name[1..]);
    }
  }

  /** The outer `literal_eval` of a non-blank cell. */
  function Outer(text: string, eval: string -> Option<PyVal>): Option<PyVal> {
    eval(CollapseQuotes(PyStrip(text)))
  }

  /** The second `literal_eval`, of a string literal whose stripped text starts with `[`. */
  function Nested(text: string, eval: string -> Option<PyVal>): Option<PyVal> {
    match Outer(text, eval)
    case Some(PyStr(inner)) => if StartsWith(PyStrip(inner), "[") then eval(inner) else None
    case _ => None
  }

  /** `parse_pylist(cell)`. */
  function ParsePylist(cell: Option<string>, eval: string -> Option<PyVal>): (v: PyVal)
    ensures cell.None? || PyStrip(cell.value) == "" ==> v == PyList([])
    ensures !v.PyList? ==> cell.Some? && Nested(cell.value, eval) == Some(v)
  {
    match cell
    case None => PyList([])
    case Some(text) =>
      if PyStrip(text) == "" then PyList([])
      else match Outer(text, eval)
        case Some(outer) =>
          if outer.PyList? then outer
          else if outer.PyStr? && StartsWith(PyStrip(outer.s), "[") then eval(outer.s).GetOr(PyList([]))
          else PyList([])
        case None => PyList([])
  }

  /** A cell holding a list literal gives that list. */
  lemma ParsePylistList(text: string, eval: string -> Option<PyVal>, items: seq<PyVal>)
    requires PyStrip(text) != "" && Outer(text, eval) == Some(PyList(items))
    ensures ParsePylist(Some(text), eval) == PyList(items)
  {
  }

  /** Anything but a list, or a string literal starting with `[`, gives the empty list. */
  lemma ParsePylistFallback(text: string, eval: string -> Option<PyVal>)
    requires Outer(text, eval).None? ||
      (!Outer(text, eval).value.PyList? && !Outer(text, eval).value.PyStr?)
    ensures ParsePylist(Some(text), eval) == PyList([])
  {
  }

  // ---------------------------------------------------------------------------
  // first_non_empty and the id

  /** `v is not None and str(v).strip() != ""`. */
  predicate Filled(v: Option<string>) {
    v.Some? && PyStrip(v.value) != ""
  }

  /** `first_non_empty(*vals)`. */
  function FirstNonEmpty(vals: seq<Option<string>>): (v: Option<string>)
    ensures v.Some? ==> exists i :: (0 <= i < |vals| && vals[i] == v && Filled(v) &&
      forall k :: 0 <= k < i ==> !Filled(vals[k]))
  {
    if vals == [] then None
    else if Filled(vals[0]) then vals[0]
    else
      var v := FirstNonEmpty(vals[1..]);
      assert v.Some? ==> exists i :: (0 <= i < |vals| && vals[i] == v && Filled(v) &&
        forall k :: 0 <= k < i ==> !Filled(vals[k])) by {
        if v.Some? {
          var i :| 0 <= i < |vals[1..]| && vals[1..][i] == v && Filled(v) &&
            forall k :: 0 <= k < i ==> !Filled(vals[1..][k]);
          assert forall k :: 1 <= k < i + 1 ==> vals[k] == vals[1..][k - 1];
        }
      }
      v
  }

  /** `first_non_empty` is `None` exactly when every value is `None` or blank. */
  lemma {:induction false} FirstNonEmptyNone(vals: seq<Option<string>>)
    ensures FirstNonEmpty(vals).None? <==> forall k :: 0 <= k < |vals| ==> !Filled(vals[k])
  {
    if vals != [] && !Filled(vals[0]) {
      FirstNonEmptyNone(vals[1..]);
      assert forall k :: 1 <= k < |vals| ==> vals[k] == vals[1..][k - 1];
    }
  }

  /** The id written: an integer, a stripped string, or `null`. */
  datatype IdVal = NoId | IntId(n: int) | StrId(s: string)

  /** `int(str(movie_id).strip())`, falling back to the stripped string, `None` staying `None`. */
  function CoerceId(raw: Option<string>): (id: IdVal)
    ensures id.NoId? <==> raw.None?
    ensures id.IntId? ==> PyInt(raw.value) == Some(id.n)
    ensures id.StrId? ==> PyInt(raw.value).None? && id.s == PyStrip(raw.value)
  {
    match raw
    case None => NoId
    case Some(s) =>
      match PyInt(s)
      case Some(n) => IntId(n)
      case None => StrId(PyStrip(s))
  }

  /** A decimal id cell is written as the integer it denotes. */
  lemma CoerceIdOfNumber(n: int)
    ensures CoerceId(Some(IntToString(n))) == IntId(n)
  {
    PyIntIntToString(n);
  }

  // ---------------------------------------------------------------------------
  // header sniffing

  predicate IsCastHeader(h: string) {
    ToLower(h) == "cast"
  }

  predicate IsCrewHeader(h: string) {
    ToLower(h) == "crew"
  }

  predicate IsIdHeader(h: string) {
    ToLower(h) in ["id", "movie_id", "tmdb_id"]
  }

  /** `next((h for h in fieldnames if wanted(h)), None)`. */
  function FirstHeader(fields: seq<string>, wanted: string -> bool): (h: Option<string>)
    ensures h.Some? ==> exists i :: (0 <= i < |fields| && fields[i] == h.value && wanted(h.value) &&
      forall k :: 0 <= k < i ==> !wanted(fields[k]))
    ensures h.None? <==> forall k :: 0 <= k < |fields| ==> !wanted(fields[k])
  {
    if fields == [] then None
    else if wanted(fields[0]) then Some(fields[0])
    else
      var h := FirstHeader(fields[1..], wanted);
      assert forall k :: 1 <= k < |fields| ==> fields[k] == fields[1..][k - 1];
      assert h.Some? ==> exists i :: (0 <= i < |fields| && fields[i] == h.value && wanted(h.value) &&
        forall k :: 0 <= k < i ==> !wanted(fields[k])) by {
        if h.Some? {
          var i :| 0 <= i < |fields[1..]| && fields[1..][i] == h.value && wanted(h.value) &&
            forall k :: 0 <= k < i ==> !wanted(fields[1..][k]);
          assert fields[i + 1] == h.value;
        }
      }
      h
  }

  /** The columns read for cast, crew and id. */
  datatype Keys = Keys(cast: Option<string>, crew: Option<string>, id: Option<string>)

  /** Header sniffing, with the first two columns standing in for a missing cast or crew column. */
  function KeysOf(fields: seq<string>): Keys {
    var cast := FirstHeader(fields, IsCastHeader);
    var crew := FirstHeader(fields, IsCrewHeader);
    var id := FirstHeader(fields, IsIdHeader);
    if (cast.None? || crew.None?) && |fields| >= 2 then
      Keys(if cast.Some? then cast else Some(fields[0]), if crew.Some? then crew else Some(fields[1]), id)
    else Keys(cast, crew, id)
  }

  /** Columns named cast and crew (in any case) are used; otherwise the first two columns. */
  lemma KeysOfShape(fields: seq<string>)
    ensures KeysOf(fields).cast.Some? ==> KeysOf(fields).cast.value in fields
    ensures KeysOf(fields).crew.Some? ==> KeysOf(fields).crew.value in fields
    ensures (exists k :: 0 <= k < |fields| && IsCastHeader(fields[k])) ==>
      KeysOf(fields).cast.Some? && IsCastHeader(KeysOf(fields).cast.value)
    ensures (forall k :: 0 <= k < |fields| ==> !IsCastHeader(fields[k])) && |fields| >= 2 ==>
      KeysOf(fields).cast == Some(fields[0])
    ensures (forall k :: 0 <= k < |fields| ==> !IsCrewHeader(fields[k])) && |fields| >= 2 ==>
      KeysOf(fields).crew == Some(fields[1])
  {
  }

  // ---------------------------------------------------------------------------
  // cast_names and crew_by_job

  /** `[c.get("name") for c in cast if isinstance(c, dict) and c.get("name")]`. */
  function CastNames(cast: seq<PyVal>): (names: seq<PyVal>)
    ensures |names| <= |cast|
  {
    if cast == [] then []
    else
      var c := cast[|cast| - 1];
      CastNames(cast[..|cast| - 1]) +
        (if c.PyDict? && PyTruthy(Get(c.fields, "name")) then [Get(c.fields, "name")] else [])
  }

  /** Every cast name is truthy and is the name of a dict entry, in the order of the entries. */
  lemma {:induction false} CastNamesShape(cast: seq<PyVal>)
    ensures forall i :: 0 <= i < |CastNames(cast)| ==> (PyTruthy(CastNames(cast)[i]) &&
      exists j :: 0 <= j < |cast| && cast[j].PyDict? && Get(cast[j].fields, "name") == CastNames(cast)[i])
  {
    if cast != [] {
      var n := |cast| - 1;
      var before := CastNames(cast[..n]);
      CastNamesShape(cast[..n]);
      forall i | 0 <= i < |CastNames(cast)|
        ensures PyTruthy(CastNames(cast)[i])
        ensures exists j :: 0 <= j < |cast| && cast[j].PyDict? && Get(cast[j].fields, "name") == CastNames(cast)[i]
      {
        if i < |before| {
          assert CastNames(cast)[i] == before[i];
          var j :| 0 <= j < n && cast[..n][j].PyDict? && Get(cast[..n][j].fields, "name") == before[i];
          assert cast[..n][j] == cast[j];
        } else {
          assert CastNames(cast)[i] == Get(cast[n].fields, "name");
        }
      }
    }
  }

  /** Entries that are all dicts with a truthy name give exactly their names. */
  lemma {:induction false} CastNamesAllNamed(cast: seq<PyVal>)
    requires forall j :: 0 <= j < |cast| ==> cast[j].PyDict? && PyTruthy(Get(cast[j].fields, "name"))
    ensures |CastNames(cast)| == |cast|
    ensures forall j :: 0 <= j < |cast| ==> CastNames(cast)[j] == Get(cast[j].fields, "name")
  {
    if cast != [] {
      var n := |cast| - 1;
      CastNamesAllNamed(cast[..n]);
      assert CastNames(cast) == CastNames(cast[..n]) + [Get(cast[n].fields, "name")];
      forall j | 0 <= j < |cast| ensures CastNames(cast)[j] == Get(cast[j].fields, "name") {
        if j < n {
          assert cast[..n][j] == cast[j];
        }
      }
    }
  }

  /** A single entry contributes its name exactly when it is a dict with a truthy name. */
  lemma CastNamesOne(c: PyVal)
    ensures CastNames([c]) == if c.PyDict? && PyTruthy(Get(c.fields, "name")) then [Get(c.fields, "name")] else []
  {
    assert [c][..0] == [];
  }

  /**
   * The comprehension works entry by entry: the names of two lists one after the other are
   * the names of the first followed by the names of the second.
   */
  lemma {:induction false} CastNamesAppend(a: seq<PyVal>, b: seq<PyVal>)
    ensures CastNames(a + b) == CastNames(a) + CastNames(b)
  {
    if b == [] {
      assert a + b == a;
    } else {
      var n := |b| - 1;
      var ab := a + b;
      assert ab[..|ab| - 1] == a + b[..n] && ab[|ab| - 1] == b[n];
      var c := b[n];
      var x := if c.PyDict? && PyTruthy(Get(c.fields, "name")) then [Get(c.fields, "name")] else [];
      assert CastNames(ab) == CastNames(a + b[..n]) + x;
      assert CastNames(b) == CastNames(b[..n]) + x;
      CastNamesAppend(a, b[..n]);
      assert CastNames(ab) == CastNames(a) + (CastNames(b[..n]) + x);
    }
  }

  /** `(job, name)` of each dict crew entry with a truthy job and name, in crew order. */
  function Credited(crew: seq<PyVal>): (pairs: seq<(PyVal, PyVal)>)
    ensures |pairs| <= |crew|
  {
    if crew == [] then []
    else
      var c := crew[|crew| - 1];
      Credited(crew[..|crew| - 1]) +
        (if c.PyDict? && PyTruthy(Get(c.fields, "job")) && PyTruthy(Get(c.fields, "name"))
         then [(Get(c.fields, "job"), Get(c.fields, "name"))] else [])
  }

  /** A Python dict from job to names: its keys in insertion order, and its entries. */
  datatype JobMap = JobMap(order: seq<PyVal>, names: map<PyVal, seq<PyVal>>)

  /** `crew_by_job.setdefault(job, []).append(name)` over the pairs in order. */
  function Group(pairs: seq<(PyVal, PyVal)>): JobMap {
    if pairs == [] then JobMap([], map[])
    else
      var g := Group(pairs[..|pairs| - 1]);
      var (job, name) := pairs[|pairs| - 1];
      if job in g.names then JobMap(g.order, g.names[job := g.names[job] + [name]])
      else JobMap(g.order + [job], g.names[job := [name]])
  }

  /** The names credited with `job`, in order. */
  function NamesFor(pairs: seq<(PyVal, PyVal)>, job: PyVal): seq<PyVal> {
    if pairs == [] then []
    else NamesFor(pairs[..|pairs| - 1], job) + (if pairs[|pairs| - 1].0 == job then [pairs[|pairs| - 1].1] else [])
  }

  /** The keys are the jobs credited, each once; each job maps to its names in crew order. */
  lemma {:induction false} GroupShape(pairs: seq<(PyVal, PyVal)>)
    ensures Distinct(Group(pairs).order)
    ensures forall job :: job in Group(pairs).names <==> job in Group(pairs).order
    ensures forall job :: job in Group(pairs).names <==> exists k :: 0 <= k < |pairs| && pairs[k].0 == job
    ensures forall job :: job in Group(pairs).names ==> Group(pairs).names[job] == NamesFor(pairs, job)
  {
    if pairs != [] {
      var n := |pairs| - 1;
      var before := pairs[..n];
      GroupShape(before);
      var g := Group(before);
      var (job, name) := pairs[n];
      forall other ensures other in Group(pairs).names <==> exists k :: 0 <= k < |pairs| && pairs[k].0 == other {
        if other in g.names {
          var k :| 0 <= k < n && before[k].0 == other;
          assert pairs[k] == before[k];
        }
        if exists k :: 0 <= k < |pairs| && pairs[k].0 == other {
          var k :| 0 <= k < |pairs| && pairs[k].0 == other;
          if k < n {
            assert before[k] == pairs[k];
          }
        }
      }
      forall other | other in Group(pairs).names
        ensures Group(pairs).names[other] == NamesFor(pairs, other)
      {
        assert NamesFor(pairs, other) == NamesFor(before, other) + (if job == other then [name] else []);
        if other != job {
          assert Group(pairs).names[other] == g.names[other];
        } else if job !in g.names {
          NamesForAbsent(before, job);
        }
      }
    }
  }

  /** A job that is never credited has no names. */
  lemma {:induction false} NamesForAbsent(pairs: seq<(PyVal, PyVal)>, job: PyVal)
    requires job !in Group(pairs).names
    requires forall j :: j in Group(pairs).names <==> exists k :: 0 <= k < |pairs| && pairs[k].0 == j
    ensures NamesFor(pairs, job) == []
  {
    if pairs != [] {
      var n := |pairs| - 1;
      assert pairs[n].0 != job;
      NamesForNone(pairs[..n], job);
    }
  }

  lemma {:induction false} NamesForNone(pairs: seq<(PyVal, PyVal)>, job: PyVal)
    requires forall k :: 0 <= k < |pairs| ==> pairs[k].0 != job
    ensures NamesFor(pairs, job) == []
  {
    if pairs != [] {
      NamesForNone(pairs[..|pairs| - 1], job);
    }
  }

  /** Number of names listed under the keys `order`. */
  function Total(order: seq<PyVal>, names: map<PyVal, seq<PyVal>>): nat
    requires forall job :: job in order ==> job in names
  {
    if order == [] then 0 else Total(order[..|order| - 1], names) + |names[order[|order| - 1]]|
  }

  /** Changing the entry of a key outside `order` leaves the total alone. */
  lemma {:induction false} TotalOther(order: seq<PyVal>, names: map<PyVal, seq<PyVal>>, job: PyVal, v: seq<PyVal>)
    requires forall j :: j in order ==> j in names
    requires job !in order
    ensures Total(order, names[job := v]) == Total(order, names)
  {
    if order != [] {
      TotalOther(order[..|order| - 1], names, job, v);
    }
  }

  /** Appending one name under a key listed once adds one to the total. */
  lemma {:induction false} TotalAppend(order: seq<PyVal>, names: map<PyVal, seq<PyVal>>, job: PyVal, name: PyVal)
    requires forall j :: j in order ==> j in names
    requires Distinct(order) && job in order
    ensures Total(order, names[job := names[job] + [name]]) == Total(order, names) + 1
  {
    var n := |order| - 1;
    var front := order[..n];
    assert forall j :: j in front ==> j in order;
    if order[n] == job {
      assert job !in front;
      TotalOther(front, names, job, names[job] + [name]);
    } else {
      assert job in front by {
        var i :| 0 <= i < |order| && order[i] == job;
        assert i < n && front[i] == job;
      }
      TotalAppend(front, names, job, name);
    }
  }

  /** Every credited pair lands under exactly one job: the dict holds as many names as there are pairs. */
  lemma {:induction false} GroupTotal(pairs: seq<(PyVal, PyVal)>)
    ensures forall job :: job in Group(pairs).order ==> job in Group(pairs).names
    ensures Total(Group(pairs).order, Group(pairs).names) == |pairs|
  {
    GroupShape(pairs);
    if pairs != [] {
      var n := |pairs| - 1;
      var g := Group(pairs[..n]);
      GroupTotal(pairs[..n]);
      GroupShape(pairs[..n]);
      var (job, name) := pairs[n];
      if job in g.names {
        TotalAppend(g.order, g.names, job, name);
      } else {
        TotalOther(g.order, g.names, job, [name]);
        assert (g.order + [job])[..|g.order|] == g.order;
      }
    }
  }

  // ---------------------------------------------------------------------------
  // main

  /** The crew pairs of one row; only a crew that is a list is grouped. */
  function CrewPairs(crew: PyVal): seq<(PyVal, PyVal)> {
    if crew.PyList? then Credited(crew.items) else []
  }

  lemma CreditedStep(crew: seq<PyVal>, i: nat)
    requires i < |crew|
    ensures Credited(crew[..i + 1]) == Credited(crew[..i]) +
      (if crew[i].PyDict? && PyTruthy(Get(crew[i].fields, "job")) && PyTruthy(Get(crew[i].fields, "name"))
       then [(Get(crew[i].fields, "job"), Get(crew[i].fields, "name"))] else [])
  {
    assert crew[..i + 1][..i] == crew[..i];
  }

  lemma GroupStep(pairs: seq<(PyVal, PyVal)>, job: PyVal, name: PyVal)
    ensures Group(pairs + [(job, name)]) ==
      if job in Group(pairs).names
      then JobMap(Group(pairs).order, Group(pairs).names[job := Group(pairs).names[job] + [name]])
      else JobMap(Group(pairs).order + [job], Group(pairs).names[job := [name]])
  {
    assert (pairs + [(job, name)])[..|pairs|] == pairs;
  }

  /** The `crew_by_job` loop, updating the dict in place. */
  method CrewByJob(crew: PyVal) returns (byJob: JobMap)
    ensures byJob == Group(CrewPairs(crew))
  {
    byJob := JobMap([], map[]);
    if crew.PyList? {
      var items := crew.items;
      var i := 0;
      while i < |items|
        invariant i <= |items|
        invariant byJob == Group(Credited(items[..i]))
      {
        CreditedStep(items, i);
        var c := items[i];
        if c.PyDict? && PyTruthy(Get(c.fields, "job")) && PyTruthy(Get(c.fields, "name")) {
          var job := Get(c.fields, "job");
          var name := Get(c.fields, "name");
          GroupStep(Credited(items[..i]), job, name);
          if job in byJob.names {
            byJob := byJob.(names := byJob.names[job := byJob.names[job] + [name]]);
          } else {
            byJob := JobMap(byJob.order + [job], byJob.names[job := [name]]);
          }
        } else {
          assert Credited(items[..i + 1]) == Credited(items[..i]) + [];
          assert Credited(items[..i]) + [] == Credited(items[..i]);
        }
        i := i + 1;
      }
      assert items[..i] == items;
    }
  }

  /** A CSV data row: column name to cell, `None` for a cell missing from a short line. */
  type DictRow = map<string, Option<string>>

  /** `row.get(k)`. */
  function Cell(row: DictRow, k: string): Option<string> {
    if k in row then row[k] else None
  }

  /** `row.get(key, "") if key else ""`. */
  function RawColumn(row: DictRow, key: Option<string>): Option<string> {
    if key.Some? && key.value != "" then (if key.value in row then row[key.value] else Some("")) else Some("")
  }

  /** The cells of the columns other than cast and crew, in column order. */
  function OtherCells(fields: seq<string>, row: DictRow, keys: Keys): (cells: seq<Option<string>>)
    ensures |cells| <= |fields|
  {
    if fields == [] then []
    else
      var k := fields[|fields| - 1];
      OtherCells(fields[..|fields| - 1], row, keys) +
        (if Some(k) != keys.cast && Some(k) != keys.crew then [Cell(row, k)] else [])
  }

  /** The id cell, or the first non-blank other cell when there is no id column or cell. */
  function RawId(fields: seq<string>, row: DictRow, keys: Keys): Option<string> {
    var direct := if keys.id.Some? then Cell(row, keys.id.value) else None;
    if direct.Some? then direct else FirstNonEmpty(OtherCells(fields, row, keys))
  }

  /** One output line. */
  datatype Line = Line(
    id: IdVal,
    cast: PyVal,
    crew: PyVal,
    castNames: seq<PyVal>,
    topCast: seq<PyVal>,
    crewByJob: JobMap)

  /** The line written for a row. */
  function LineOf(fields: seq<string>, row: DictRow, eval: string -> Option<PyVal>): Line {
    var keys := KeysOf(fields);
    var cast := ParsePylist(RawColumn(row, keys.cast), eval);
    var crew := ParsePylist(RawColumn(row, keys.crew), eval);
    var names := CastNames(Items(cast));
    Line(CoerceId(RawId(fields, row, keys)), cast, crew, names, Take(names, 10), Group(CrewPairs(crew)))
  }

  /** An id column with a cell decides the id, whatever the other columns hold. */
  lemma LineIdFromIdColumn(fields: seq<string>, row: DictRow, eval: string -> Option<PyVal>, k: nat)
    requires k < |fields| && IsIdHeader(fields[k]) && forall i :: 0 <= i < k ==> !IsIdHeader(fields[i])
    requires fields[k] in row && row[fields[k]].Some?
    ensures LineOf(fields, row, eval).id == CoerceId(row[fields[k]])
  {
    var id := FirstHeader(fields, IsIdHeader);
    var i :| 0 <= i < |fields| && fields[i] == id.value && IsIdHeader(id.value) &&
      forall j :: 0 <= j < i ==> !IsIdHeader(fields[j]);
    assert i == k;
  }

  /** `top_cast` is the first ten cast names, all of them when there are fewer. */
  lemma TopCastShape(fields: seq<string>, row: DictRow, eval: string -> Option<PyVal>)
    ensures |LineOf(fields, row, eval).topCast| <= 10
    ensures LineOf(fields, row, eval).topCast ==
      LineOf(fields, row, eval).castNames[..|LineOf(fields, row, eval).topCast|]
    ensures |LineOf(fields, row, eval).castNames| <= 10 ==>
      LineOf(fields, row, eval).topCast == LineOf(fields, row, eval).castNames
  {
  }

  /** `f` applied to each of `xs`, built up from the front as the row loop writes. */
  function SnocMap<A, B>(f: A -> B, xs: seq<A>): (ys: seq<B>)
    ensures |ys| == |xs|
  {
    if xs == [] then [] else SnocMap(f, xs[..|xs| - 1]) + [f(xs[|xs| - 1])]
  }

  lemma {:induction false} SnocMapAt<A, B>(f: A -> B, xs: seq<A>, k: nat)
    requires k < |xs|
    ensures SnocMap(f, xs)[k] == f(xs[k])
  {
    var n := |xs| - 1;
    if k < n {
      SnocMapAt(f, xs[..n], k);
    }
  }

  lemma SnocMapStep<A, B>(f: A -> B, xs: seq<A>, i: nat)
    requires i < |xs|
    ensures SnocMap(f, xs[..i + 1]) == SnocMap(f, xs[..i]) + [f(xs[i])]
  {
    assert xs[..i + 1][..i] == xs[..i];
  }

  /** The lines written for `rows`, in order. */
  function Lines(fields: seq<string>, rows: seq<DictRow>, eval: string -> Option<PyVal>): (lines: seq<Line>)
    ensures |lines| == |rows|
  {
    SnocMap(row => LineOf(fields, row, eval), rows)
  }

  /** Line `k` is the line of row `k`: nothing is skipped, reordered or merged. */
  lemma LinesAt(fields: seq<string>, rows: seq<DictRow>, eval: string -> Option<PyVal>, k: nat)
    requires k < |rows|
    ensures Lines(fields, rows, eval)[k] == LineOf(fields, rows[k], eval)
  {
    SnocMapAt(row => LineOf(fields, row, eval), rows, k);
  }

  lemma LinesStep(fields: seq<string>, rows: seq<DictRow>, eval: string -> Option<PyVal>, i: nat)
    requires i < |rows|
    ensures Lines(fields, rows[..i + 1], eval) == Lines(fields, rows[..i], eval) + [LineOf(fields, rows[i], eval)]
  {
    SnocMapStep(row => LineOf(fields, row, eval), rows, i);
  }

  /** `main`'s row loop: one line per row, `written` counting them. */
  method ConvertRows(fields: seq<string>, rows: seq<DictRow>, eval: string -> Option<PyVal>)
    returns (lines: seq<Line>, written: nat)
    ensures lines == Lines(fields, rows, eval)
    ensures written == |rows| == |lines|
  {
    var keys := KeysOf(fields);
    lines := [];
    written := 0;
    while written < |rows|
      invariant written <= |rows|
      invariant lines == Lines(fields, rows[..written], eval)
    {
      LinesStep(fields, rows, eval, written);
      var line := RowLine(fields, keys, rows[written], eval);
      lines := lines + [line];
      written := written + 1;
    }
    assert rows[..written] == rows;
  }

  /** The body of the row loop. */
  method RowLine(fields: seq<string>, keys: Keys, row: DictRow, eval: string -> Option<PyVal>)
    returns (line: Line)
    requires keys == KeysOf(fields)
    ensures line == LineOf(fields, row, eval)
  {
    var cast := ParsePylist(RawColumn(row, keys.cast), eval);
    var crew := ParsePylist(RawColumn(row, keys.crew), eval);
    var names := CastNames(Items(cast));
    var byJob := CrewByJob(crew);
    line := Line(CoerceId(RawId(fields, row, keys)), cast, crew, names, Take(names, 10), byJob);
  }
}
