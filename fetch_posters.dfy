/**
 * `scripts/fetch-posters.mjs`: merges OMDb posters into the existing index.  Every raw
 * record whose existing entry has no usable poster is looked up (title and year, then
 * title alone); a "True" answer replaces the entry for its id.  The merged entries are
 * sorted by title.  Reading and writing the files, `JSON.parse`, and the network
 * (`provider`) are outside the model.
 */
module FetchPosters {
  import opened Wrappers
  import opened Text
  import opened OmdbApi

  /** An index entry; raw records have the same fields.  `cast` is the field's JSON text. */
  datatype Movie = Movie(
    id: string,
    title: Option<string>,
    year: Option<int>,
    genres: Option<seq<string>>,
    cast: Option<string>,
    meta: Option<string>,
    poster: Option<string>)

  // ---------------------------------------------------------------------------
  // omdbByTitleYear

  /** What `omdbByTitleYear` ends with: a thrown error, or the parsed body it returns. */
  datatype Answer = Thrown | Data(body: Option<Record>)

  /**
   * `encodeURIComponent(title)` sees the text "undefined" for an absent title. Only an absent
   * title is modelled: a `null` title, which the source turns into "null", is not distinguished.
   */
  function TitleText(t: Option<string>): string {
    t.GetOr("undefined")
  }

  /** The first request: title and `y=` with the year, or with nothing when there is no year. */
  function FirstQuery(m: Movie): (q: Query)
    ensures q.title == TitleText(m.title) && q.year.Some?
    ensures m.year.Some? ==> JsNumber(q.year.value) == m.year
    ensures m.year.None? ==> q.year.value == ""
  {
    if m.year.Some? then
      JsNumberIntToString(m.year.value);
      Query(TitleText(m.title), Some(IntToString(m.year.value)))
    else Query(TitleText(m.title), Some(""))
  }

  /** The fallback request: the title alone. */
  function SecondQuery(m: Movie): (q: Query)
    ensures q.title == FirstQuery(m).title && q.year.None?
  {
    Query(TitleText(m.title), None)
  }

  /** A non-ok status throws; otherwise the body. */
  function Checked(r: Reply): (a: Answer)
    ensures a.Data? <==> r.Http? && r.ok
    ensures a.Data? ==> a.body == r.body
  {
    if r.Http? && r.ok then Data(r.body) else Thrown
  }

  /** `omdbByTitleYear`: the first answer when it is "True", else the answer to the title alone. */
  function ByTitleYear(m: Movie, provider: Query -> Reply): (a: Answer)
    ensures var first := Checked(provider(FirstQuery(m)));
      && (first.Thrown? || IsTrue(first.body) ==> a == first)
      && (first.Data? && !IsTrue(first.body) ==> a == Checked(provider(SecondQuery(m))))
  {
    var first := Checked(provider(FirstQuery(m)));
    if first.Thrown? || IsTrue(first.body) then first
    else Checked(provider(SecondQuery(m)))
  }

  /**
   * The fallback request matters only when the first request was answered ok without
   * "True": two providers that agree on the first request, and on the second when that
   * happens, give the same answer.
   */
  lemma RetryOnlyAfterMiss(m: Movie, p1: Query -> Reply, p2: Query -> Reply)
    requires p1(FirstQuery(m)) == p2(FirstQuery(m))
    requires Checked(p1(FirstQuery(m))).Data? && !IsTrue(p1(FirstQuery(m)).body)
      ==> p1(SecondQuery(m)) == p2(SecondQuery(m))
    ensures ByTitleYear(m, p1) == ByTitleYear(m, p2)
  {
  }

  /** A first request that fails or is "True" is the answer; the title alone is never asked. */
  lemma NoRetryAfterTrueOrError(m: Movie, provider: Query -> Reply)
    requires !(Checked(provider(FirstQuery(m))).Data? && !IsTrue(provider(FirstQuery(m)).body))
    ensures ByTitleYear(m, provider) == Checked(provider(FirstQuery(m)))
    ensures forall p2: Query -> Reply :: p2(FirstQuery(m)) == provider(FirstQuery(m)) ==>
      ByTitleYear(m, p2) == ByTitleYear(m, provider)
  {
  }

  // ---------------------------------------------------------------------------
  // one raw record

  /** `prev?.poster && prev.poster !== "N/A"`. */
  predicate HasPoster(prev: Option<Movie>) {
    prev.Some? && UsablePoster(prev.value.poster)
  }

  /**
   * `(m.year ?? data.Year) ? Number(data.Year) : undefined`: OMDb's year whenever either
   * year is set, whichever it was (`None` also for NaN).
   */
  function UpdatedYear(m: Movie, data: Record): (y: Option<int>)
    ensures m.year.Some? && m.year.value != 0 && data.year.Some? ==> y == JsNumber(data.year.value)
    ensures m.year.Some? && m.year.value == 0 ==> y == None
    ensures m.year.None? ==> y == (if Truthy(data.year) then JsNumber(data.year.value) else None)
  {
    var given := if m.year.Some? then m.year.value != 0 else Truthy(data.year);
    if given && data.year.Some? then JsNumber(data.year.value) else None
  }

  /** Whenever the record has a non-zero year of its own, OMDb's year replaces it. */
  lemma OmdbYearWins(m: Movie, data: Record, y: int)
    requires m.year.Some? && m.year.value != 0 && data.year == Some(IntToString(y))
    ensures UpdatedYear(m, data) == Some(y)
  {
    JsNumberIntToString(y);
  }

  /** The entry written after a "True" answer. */
  function Updated(m: Movie, data: Record): (u: Movie)
    ensures u.id == m.id && u.title == m.title
    ensures u.poster.Some? <==> UsablePoster(data.poster)
    ensures u.poster.Some? ==> u.poster == data.poster
  {
    Movie(
      m.id,
      m.title,
      UpdatedYear(m, data),
      Some(m.genres.GetOr([])),
      // `m.cast || []`: the default is an empty array, held here as its JSON text
      if Truthy(m.cast) then m.cast else Some("[]"),
      if Truthy(m.meta) then m.meta else None,
      if UsablePoster(data.poster) then data.poster else None)
  }

  /** What happens to one raw record. */
  datatype Outcome = Skipped | Failed | Replaced(entry: Movie)

  function Decide(prev: Option<Movie>, m: Movie, provider: Query -> Reply): (o: Outcome)
    ensures HasPoster(prev) <==> o.Skipped?
    ensures o.Replaced? <==> !HasPoster(prev) && ByTitleYear(m, provider).Data? && IsTrue(ByTitleYear(m, provider).body)
    ensures o.Replaced? ==> o.entry == Updated(m, ByTitleYear(m, provider).body.value)
  {
    if HasPoster(prev) then Skipped
    else match ByTitleYear(m, provider)
      case Thrown => Failed
      case Data(body) => if IsTrue(body) then Replaced(Updated(m, body.value)) else Failed
  }

  // ---------------------------------------------------------------------------
  // byId: a Map keeps its keys in first-insertion order

  datatype ById = ById(order: seq<string>, entries: map<string, Movie>)

  /** The keys are the distinct ids in `order`, and every entry is stored under its own id. */
  ghost predicate Valid(b: ById) {
    && Distinct(b.order)
    && (forall k :: k in b.entries <==> k in b.order)
    && (forall k :: k in b.entries ==> b.entries[k].id == k)
  }

  /** `byId.set(m.id, m)`: a new id goes last, a known id keeps its place. */
  function Put(b: ById, m: Movie): (r: ById)
    ensures m.id in r.entries && r.entries[m.id] == m
    ensures forall k :: k in b.entries && k != m.id ==> k in r.entries && r.entries[k] == b.entries[k]
    ensures |b.order| <= |r.order| <= |b.order| + 1 && r.order[..|b.order|] == b.order
    ensures |r.order| > |b.order| ==> m.id !in b.entries && r.order[|b.order|] == m.id
  {
    ById(if m.id in b.entries then b.order else b.order + [m.id], b.entries[m.id := m])
  }

  lemma PutValid(b: ById, m: Movie)
    requires Valid(b)
    ensures Valid(Put(b, m))
    ensures Put(b, m).entries[m.id] == m
    ensures forall k :: k in b.entries && k != m.id ==> Put(b, m).entries[k] == b.entries[k]
  {
    var r := Put(b, m);
    if m.id !in b.entries {
      forall i, j | 0 <= i < j < |r.order| ensures r.order[i] != r.order[j] {
        if j == |b.order| {
          assert r.order[i] == b.order[i];
        } else {
          assert r.order[i] == b.order[i] && r.order[j] == b.order[j];
        }
      }
    }
  }

  /** `new Map(existing.map(m => [m.id, m]))`. */
  function FromList(existing: seq<Movie>): (r: ById)
    ensures forall i :: 0 <= i < |existing| ==> existing[i].id in r.entries
    ensures existing != [] ==> r.entries[existing[|existing| - 1].id] == existing[|existing| - 1]
  {
    if existing == [] then ById([], map[])
    else Put(FromList(existing[..|existing| - 1]), existing[|existing| - 1])
  }

  lemma {:induction false} FromListValid(existing: seq<Movie>)
    ensures Valid(FromList(existing))
  {
    if existing != [] {
      FromListValid(existing[..|existing| - 1]);
      PutValid(FromList(existing[..|existing| - 1]), existing[|existing| - 1]);
    }
  }

  /** `Array.from(byId.values())`. */
  function Values(b: ById): (vs: seq<Movie>)
    requires Valid(b)
    ensures |vs| == |b.order|
    ensures forall i :: 0 <= i < |vs| ==> vs[i] == b.entries[b.order[i]]
  {
    seq(|b.order|, i requires 0 <= i < |b.order| => b.entries[b.order[i]])
  }

  /** Entries of a map have pairwise distinct ids. */
  predicate DistinctIds(s: seq<Movie>) {
    forall i, j :: 0 <= i < j < |s| ==> s[i].id != s[j].id
  }

  lemma ValuesDistinctIds(b: ById)
    requires Valid(b)
    ensures DistinctIds(Values(b))
  {
    var vs := Values(b);
    forall i, j | 0 <= i < j < |vs| ensures vs[i].id != vs[j].id {
      assert vs[i].id == b.order[i] && vs[j].id == b.order[j];
    }
  }

  // ---------------------------------------------------------------------------
  // the loop of `buildIndex`

  datatype Tally = Tally(byId: ById, fetched: nat, skipped: nat, failures: nat)

  function Prev(b: ById, id: string): Option<Movie> {
    if id in b.entries then Some(b.entries[id]) else None
  }

  /** One raw record: skipped, failed, or fetched with its entry replaced. */
  function Step(t: Tally, m: Movie, provider: Query -> Reply): (r: Tally)
    ensures t.byId.entries.Keys <= r.byId.entries.Keys <= t.byId.entries.Keys + {m.id}
    ensures r.fetched >= t.fetched && r.skipped >= t.skipped && r.failures >= t.failures
  {
    match Decide(Prev(t.byId, m.id), m, provider)
    case Skipped => t.(skipped := t.skipped + 1)
    case Failed => t.(failures := t.failures + 1)
    case Replaced(u) => t.(byId := Put(t.byId, u), fetched := t.fetched + 1)
  }

  function Run(raws: seq<Movie>, t: Tally, provider: Query -> Reply): (r: Tally)
    ensures t.byId.entries.Keys <= r.byId.entries.Keys
    ensures forall k :: k in r.byId.entries && k !in t.byId.entries ==> exists i :: 0 <= i < |raws| && raws[i].id == k
    ensures r.fetched >= t.fetched && r.skipped >= t.skipped && r.failures >= t.failures
  {
    if raws == [] then t else Run(raws[1..], Step(t, raws[0], provider), provider)
  }

  /** A skipped or failed record leaves `byId` as it was; a fetched one changes only its own id. */
  lemma StepEffect(t: Tally, m: Movie, provider: Query -> Reply)
    requires Valid(t.byId)
    ensures var o := Decide(Prev(t.byId, m.id), m, provider);
      var t' := Step(t, m, provider);
      && Valid(t'.byId)
      && (!o.Replaced? ==> t'.byId == t.byId)
      && (o.Replaced? ==> t'.byId.entries == t.byId.entries[m.id := o.entry])
      && t'.fetched + t'.skipped + t'.failures == t.fetched + t.skipped + t.failures + 1
  {
    var o := Decide(Prev(t.byId, m.id), m, provider);
    if o.Replaced? {
      PutValid(t.byId, o.entry);
    }
  }

  /** Every raw record is counted once: as fetched, skipped or failed. */
  lemma {:induction false} RunCounts(raws: seq<Movie>, t: Tally, provider: Query -> Reply)
    requires Valid(t.byId)
    ensures Valid(Run(raws, t, provider).byId)
    ensures var r := Run(raws, t, provider);
      r.fetched + r.skipped + r.failures == t.fetched + t.skipped + t.failures + |raws|
  {
    if raws != [] {
      StepEffect(t, raws[0], provider);
      RunCounts(raws[1..], Step(t, raws[0], provider), provider);
    }
  }

  /** An entry that has a usable poster is never replaced. */
  lemma {:induction false} RunKeepsPosters(raws: seq<Movie>, t: Tally, provider: Query -> Reply, k: string)
    requires Valid(t.byId)
    requires k in t.byId.entries && UsablePoster(t.byId.entries[k].poster)
    ensures k in Run(raws, t, provider).byId.entries
    ensures Run(raws, t, provider).byId.entries[k] == t.byId.entries[k]
  {
    if raws != [] {
      var m := raws[0];
      StepEffect(t, m, provider);
      var o := Decide(Prev(t.byId, m.id), m, provider);
      if o.Replaced? {
        assert m.id != k;
      }
      RunKeepsPosters(raws[1..], Step(t, m, provider), provider, k);
    }
  }

  // ---------------------------------------------------------------------------
  // out.sort((a, b) => (a.title || "").localeCompare(b.title || ""))

  /** The sort key: the title, or "" when it is missing or empty. */
  function TitleKey(m: Movie): string {
    if Truthy(m.title) then m.title.value else ""
  }

  /** Code-unit lexicographic order, standing in for `localeCompare`. */
  predicate LexLe(a: string, b: string) {
    a == [] || (b != [] && (a[0] < b[0] || (a[0] == b[0] && LexLe(a[1..], b[1..]))))
  }

  lemma {:induction false} LexLeTotal(a: string, b: string)
    ensures LexLe(a, b) || LexLe(b, a)
  {
    if a != [] && b != [] && a[0] == b[0] {
      LexLeTotal(a[1..], b[1..]);
    }
  }

  /** `b` sorts strictly before `a`. */
  predicate After(a: Movie, b: Movie) {
    !LexLe(TitleKey(a), TitleKey(b))
  }

  predicate SortedByTitle(s: seq<Movie>) {
    forall i :: 0 <= i < |s| - 1 ==> LexLe(TitleKey(s[i]), TitleKey(s[i + 1]))
  }

  /** Insertion of `x` after every entry that does not sort after it (so the sort is stable). */
  function Insert(s: seq<Movie>, x: Movie): (r: seq<Movie>)
    ensures |r| == |s| + 1
    ensures r[|r| - 1] == x || (s != [] && r[|r| - 1] == s[|s| - 1])
  {
    if s == [] || !After(s[|s| - 1], x) then s + [x]
    else Insert(s[..|s| - 1], x) + [s[|s| - 1]]
  }

  /** The sorted order of `s`: insertion of each element in turn. */
  function Sort(s: seq<Movie>): (r: seq<Movie>)
    ensures |r| == |s|
  {
    if s == [] then [] else Insert(Sort(s[..|s| - 1]), s[|s| - 1])
  }

  lemma {:induction false} InsertSorted(s: seq<Movie>, x: Movie)
    requires SortedByTitle(s)
    ensures SortedByTitle(Insert(s, x))
  {
    var r := Insert(s, x);
    if s == [] || !After(s[|s| - 1], x) {
      assert r == s + [x];
      forall i | 0 <= i < |r| - 1 ensures LexLe(TitleKey(r[i]), TitleKey(r[i + 1])) {
        if i < |s| - 1 {
          assert r[i] == s[i] && r[i + 1] == s[i + 1];
        }
      }
    } else {
      var s' := s[..|s| - 1];
      var last := s[|s| - 1];
      var r' := Insert(s', x);
      assert SortedByTitle(s') by {
        forall i | 0 <= i < |s'| - 1 ensures LexLe(TitleKey(s'[i]), TitleKey(s'[i + 1])) {
          assert s'[i] == s[i] && s'[i + 1] == s[i + 1];
        }
      }
      InsertSorted(s', x);
      LexLeTotal(TitleKey(last), TitleKey(x));
      assert LexLe(TitleKey(r'[|r'| - 1]), TitleKey(last));
      assert r == r' + [last];
      forall i | 0 <= i < |r| - 1 ensures LexLe(TitleKey(r[i]), TitleKey(r[i + 1])) {
        if i < |r'| - 1 {
          assert r[i] == r'[i] && r[i + 1] == r'[i + 1];
        }
      }
    }
  }

  lemma {:induction false} InsertPermutes(s: seq<Movie>, x: Movie)
    ensures multiset(Insert(s, x)) == multiset(s) + multiset{x}
  {
    if !(s == [] || !After(s[|s| - 1], x)) {
      var s' := s[..|s| - 1];
      InsertPermutes(s', x);
      assert s == s' + [s[|s| - 1]];
    }
  }

  /** The sorted entries are in title order and are a permutation of the input. */
  lemma {:induction false} SortFacts(s: seq<Movie>)
    ensures SortedByTitle(Sort(s))
    ensures multiset(Sort(s)) == multiset(s)
  {
    if s != [] {
      var p := s[..|s| - 1];
      SortFacts(p);
      InsertSorted(Sort(p), s[|s| - 1]);
      InsertPermutes(Sort(p), s[|s| - 1]);
      assert s == p + [s[|s| - 1]];
    }
  }

  lemma {:induction false} InsertDistinctIds(s: seq<Movie>, x: Movie)
    requires DistinctIds(s) && forall i :: 0 <= i < |s| ==> s[i].id != x.id
    ensures DistinctIds(Insert(s, x))
  {
    var r := Insert(s, x);
    if s == [] || !After(s[|s| - 1], x) {
      assert r == s + [x];
      forall i, j | 0 <= i < j < |r| ensures r[i].id != r[j].id {
        assert r[i] == s[i];
      }
    } else {
      var s' := s[..|s| - 1];
      var last := s[|s| - 1];
      InsertDistinctIds(s', x);
      var r' := Insert(s', x);
      InsertPermutes(s', x);
      assert r == r' + [last];
      forall i | 0 <= i < |r'| ensures r'[i].id != last.id {
        assert r'[i] in multiset(s') + multiset{x};
        if r'[i] != x {
          var k :| 0 <= k < |s'| && s'[k] == r'[i];
          assert s[k] == s'[k];
        }
      }
      forall i, j | 0 <= i < j < |r| ensures r[i].id != r[j].id {
        if j < |r'| {
          assert r[i] == r'[i] && r[j] == r'[j];
        } else {
          assert r[i] == r'[i];
        }
      }
    }
  }

  /** Sorting keeps ids pairwise distinct. */
  lemma {:induction false} SortDistinctIds(s: seq<Movie>)
    requires DistinctIds(s)
    ensures DistinctIds(Sort(s))
  {
    if s != [] {
      var p := s[..|s| - 1];
      var x := s[|s| - 1];
      assert DistinctIds(p) by {
        forall i, j | 0 <= i < j < |p| ensures p[i].id != p[j].id {
          assert p[i] == s[i] && p[j] == s[j];
        }
      }
      SortDistinctIds(p);
      SortFacts(p);
      forall i | 0 <= i < |Sort(p)| ensures Sort(p)[i].id != x.id {
        assert Sort(p)[i] in multiset(p);
        var k :| 0 <= k < |p| && p[k] == Sort(p)[i];
        assert s[k] == p[k];
      }
      InsertDistinctIds(Sort(p), x);
    }
  }

  /** The tail from `j` of a sequence is the tail of its front, then its last element. */
  lemma DropSnoc<T>(q: seq<T>, j: nat)
    requires j < |q|
    ensures q[j..] == q[..|q| - 1][j..] + [q[|q| - 1]]
  {
  }

  lemma SnocAssoc<T>(a: seq<T>, b: seq<T>, d: T)
    ensures a + b + [d] == a + (b + [d])
  {
  }

  /**
   * `x` is inserted at `j` when every entry from `j` on sorts after it and the entry
   * before `j`, if any, does not.
   */
  lemma {:induction false} InsertAt(prefix: seq<Movie>, j: nat, x: Movie)
    requires j <= |prefix|
    requires forall k :: j <= k < |prefix| ==> After(prefix[k], x)
    requires j == 0 || !After(prefix[j - 1], x)
    ensures Insert(prefix, x) == prefix[..j] + [x] + prefix[j..]
  {
    if j < |prefix| {
      var n := |prefix| - 1;
      var p := prefix[..n];
      var last := prefix[n];
      assert After(last, x);
      assert Insert(prefix, x) == Insert(p, x) + [last];
      assert forall k :: j <= k < |p| ==> p[k] == prefix[k];
      assert j == 0 || p[j - 1] == prefix[j - 1];
      InsertAt(p, j, x);
      assert p[..j] == prefix[..j];
      DropSnoc(prefix, j);
      SnocAssoc(p[..j] + [x], p[j..], last);
    } else {
      assert prefix[..j] == prefix && prefix[j..] == [];
    }
  }

  /** The inner loop of the insertion sort: entries that sort after `x` move one place right. */
  method ShiftAfter(a: array<Movie>, i: nat, x: Movie) returns (j: nat)
    requires i < a.Length
    modifies a
    ensures j <= i
    ensures forall k {:trigger a[k]} :: 0 <= k < j ==> a[k] == old(a[k])
    ensures forall k {:trigger a[k]} :: j < k <= i ==> a[k] == old(a[k - 1])
    ensures forall k {:trigger a[k]} :: i < k < a.Length ==> a[k] == old(a[k])
    ensures forall k :: j <= k < i ==> After(old(a[k]), x)
    ensures j == 0 || !After(old(a[j - 1]), x)
  {
    j := i;
    while j > 0 && After(a[j - 1], x)
      invariant 0 <= j <= i
      invariant forall k {:trigger a[k]} :: 0 <= k < j ==> a[k] == old(a[k])
      invariant forall k {:trigger a[k]} :: j < k <= i ==> a[k] == old(a[k - 1])
      invariant forall k {:trigger a[k]} :: i < k < a.Length ==> a[k] == old(a[k])
      invariant forall k :: j <= k < i ==> After(old(a[k]), x)
    {
      a[j] := a[j - 1];
      j := j - 1;
    }
  }

  /** The elements of `q` with `x` placed at `j`, read at position `k`. */
  lemma InsertedIndex<T>(q: seq<T>, j: nat, x: T, k: nat)
    requires j <= |q| && k <= |q|
    ensures (q[..j] + [x] + q[j..])[k] == if k < j then q[k] else if k == j then x else q[k - 1]
  {
  }

  /** One pass of the insertion sort: `a[i]` moves left past every entry that sorts after it. */
  method InsertLast(a: array<Movie>, i: nat)
    requires i < a.Length
    modifies a
    ensures a[..i + 1] == Insert(old(a[..i]), old(a[i]))
    ensures a[i + 1..] == old(a[i + 1..])
  {
    var x := a[i];
    ghost var prefix := a[..i];
    var j := ShiftAfter(a, i, x);
    a[j] := x;
    InsertAt(prefix, j, x);
    ghost var r := prefix[..j] + [x] + prefix[j..];
    assert a[..i + 1] == r by {
      forall k | 0 <= k < i + 1 ensures a[..i + 1][k] == r[k] {
        InsertedIndex(prefix, j, x, k);
      }
    }
    ghost var tail, oldTail := a[i + 1..], old(a[i + 1..]);
    assert tail == oldTail by {
      forall k | 0 <= k < |tail| ensures tail[k] == oldTail[k] {
        assert tail[k] == a[i + 1 + k];
      }
    }
  }

  /** `out.sort(...)` on the array of merged entries: a stable insertion sort by title. */
  method SortInPlace(a: array<Movie>)
    modifies a
    ensures a[..] == Sort(old(a[..]))
  {
    ghost var s := a[..];
    var i := 0;
    while i < a.Length
      invariant 0 <= i <= a.Length
      invariant a[..i] == Sort(s[..i])
      invariant a[i..] == s[i..]
    {
      assert s[..i + 1][..i] == s[..i];
      assert a[i] == s[i];
      InsertLast(a, i);
      i := i + 1;
    }
    assert a[..] == a[..a.Length] && s == s[..a.Length];
  }

  /** The body of the `buildIndex` loop for one raw record: one `Step` of the tally. */
  method Visit(order: seq<string>, byId: map<string, Movie>, fetched: nat, skipped: nat, failures: nat,
               m: Movie, provider: Query -> Reply)
    returns (order': seq<string>, byId': map<string, Movie>, fetched': nat, skipped': nat, failures': nat)
    requires Valid(ById(order, byId))
    ensures Tally(ById(order', byId'), fetched', skipped', failures') ==
      Step(Tally(ById(order, byId), fetched, skipped, failures), m, provider)
    ensures Valid(ById(order', byId'))
  {
    StepEffect(Tally(ById(order, byId), fetched, skipped, failures), m, provider);
    order', byId', fetched', skipped', failures' := order, byId, fetched, skipped, failures;
    var prev := if m.id in byId then Some(byId[m.id]) else None;
    if HasPoster(prev) {
      skipped' := skipped + 1;
    } else {
      var data := ByTitleYear(m, provider);
      if data.Data? && IsTrue(data.body) {
        var updated := Updated(m, data.body.value);
        if m.id !in byId {
          order' := order + [m.id];
        }
        byId' := byId[m.id := updated];
        fetched' := fetched + 1;
      } else {
        failures' := failures + 1;
      }
    }
  }

  /** The loop of `buildIndex`: every raw record is skipped, fetched, or counted as a failure. */
  method Merge(raws: seq<Movie>, existing: seq<Movie>, provider: Query -> Reply)
    returns (final: ById, fetched: nat, skipped: nat, failures: nat)
    ensures Tally(final, fetched, skipped, failures) == Run(raws, Tally(FromList(existing), 0, 0, 0), provider)
    ensures Valid(final)
  {
    var b := FromList(existing);
    FromListValid(existing);
    ghost var t0 := Tally(b, 0, 0, 0);
    var order, byId := b.order, b.entries;
    fetched, skipped, failures := 0, 0, 0;
    var k := 0;
    while k < |raws|
      invariant 0 <= k <= |raws|
      invariant Valid(ById(order, byId))
      invariant Run(raws[k..], Tally(ById(order, byId), fetched, skipped, failures), provider) == Run(raws, t0, provider)
    {
      assert raws[k..][1..] == raws[k + 1..];
      order, byId, fetched, skipped, failures := Visit(order, byId, fetched, skipped, failures, raws[k], provider);
      k := k + 1;
    }
    final := ById(order, byId);
  }

  /**
   * `buildIndex`: the merged entries sorted by title, with the three counters.  The
   * output has pairwise distinct ids and is a permutation of the merged map's values.
   */
  method BuildIndex(raws: seq<Movie>, existing: seq<Movie>, provider: Query -> Reply)
    returns (out: seq<Movie>, fetched: nat, skipped: nat, failures: nat)
    ensures var t := Run(raws, Tally(FromList(existing), 0, 0, 0), provider);
      && Valid(t.byId)
      && out == Sort(Values(t.byId))
      && fetched == t.fetched && skipped == t.skipped && failures == t.failures
    ensures fetched + skipped + failures == |raws|
    ensures SortedByTitle(out) && DistinctIds(out)
  {
    var final;
    final, fetched, skipped, failures := Merge(raws, existing, provider);
    FromListValid(existing);
    RunCounts(raws, Tally(FromList(existing), 0, 0, 0), provider);
    var vals := Values(final);
    var a := new Movie[|vals|](i requires 0 <= i < |vals| => vals[i]);
    assert a[..] == vals;
    SortInPlace(a);
    out := a[..];
    SortFacts(vals);
    ValuesDistinctIds(final);
    SortDistinctIds(vals);
  }

}
