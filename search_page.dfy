/**
 * The state logic of the search page (`src/app/search/page.tsx`): saved lists, the query
 * string of the API request, the query string kept in the address bar, and the merge of
 * result pages into the page state.
 *
 * The network is a parameter: each search is given the outcome of its request. Rendering,
 * timers, keyboard handling and local storage are not modelled.
 */
module SearchPage {
  import opened Wrappers
  import opened Text

  /** A search result as the page holds it. */
  datatype Movie = Movie(id: string, title: string, year: Option<int>, meta: Option<string>, poster: Option<string>)

  /** Results per request. */
  const PageSize: int := 30

  // ---------------------------------------------------------------------------
  // saved lists

  /** List name to movies, newest first. */
  type ListsStore = map<string, seq<Movie>>

  predicate HasId(list: seq<Movie>, id: string) {
    exists i :: 0 <= i < |list| && list[i].id == id
  }

  /**
   * The store after `addToList(listName, movie)`; `None` when the updater throws. For a name
   * that is not a list but an inherited property of the store object (`"constructor"`,
   * `"toString"`, ...), `prev[key] ?? []` is that inherited value, which has no `some`.
   */
  function AddedToList(prev: ListsStore, listName: string, movie: Movie): Option<ListsStore> {
    var key := Trim(listName);
    if key == "" then Some(prev)
    else if Inherited(prev, key) then None
    else
      var existing := if key in prev then prev[key] else [];
      Some(prev[key := if HasId(existing, movie.id) then existing else [movie] + existing])
  }

  /** A blank list name changes nothing. */
  lemma AddToListBlank(prev: ListsStore, listName: string, movie: Movie)
    requires Trim(listName) == ""
    ensures AddedToList(prev, listName, movie) == Some(prev)
  {
  }

  /**
   * Adding throws exactly when the trimmed name is an inherited property name and not a list.
   * Otherwise the movie is filed under the trimmed name: prepended when its id is new to that
   * list, the list left as it was otherwise; every other list is untouched.
   */
  lemma AddToListShape(prev: ListsStore, listName: string, movie: Movie)
    requires Trim(listName) != ""
    ensures AddedToList(prev, listName, movie).None? <==> Trim(listName) !in prev && Trim(listName) in ProtoKeys
    ensures AddedToList(prev, listName, movie).Some? ==>
      var next := AddedToList(prev, listName, movie).value;
      var existing := if Trim(listName) in prev then prev[Trim(listName)] else [];
      && next.Keys == prev.Keys + {Trim(listName)}
      && (forall name :: name in prev && name != Trim(listName) ==> next[name] == prev[name])
      && next[Trim(listName)] == (if HasId(existing, movie.id) then existing else [movie] + existing)
      && HasId(next[Trim(listName)], movie.id)
  {
    var existing := if Trim(listName) in prev then prev[Trim(listName)] else [];
    if !HasId(existing, movie.id) {
      assert ([movie] + existing)[0].id == movie.id;
    }
  }

  /** Adding the same movie to the same list twice is adding it once. */
  lemma AddToListIdempotent(prev: ListsStore, listName: string, movie: Movie)
    ensures AddedToList(prev, listName, movie).Some? ==>
      AddedToList(AddedToList(prev, listName, movie).value, listName, movie) == AddedToList(prev, listName, movie)
  {
    if Trim(listName) != "" && AddedToList(prev, listName, movie).Some? {
      AddToListShape(prev, listName, movie);
      var next := AddedToList(prev, listName, movie).value;
      assert Trim(listName) in next && HasId(next[Trim(listName)], movie.id);
      assert next[Trim(listName) := next[Trim(listName)]] == next;
    }
  }

  /** No list holds two movies with the same id. */
  predicate UniqueIds(lists: ListsStore) {
    forall name :: name in lists ==>
      forall i, j :: 0 <= i < j < |lists[name]| ==> lists[name][i].id != lists[name][j].id
  }

  /** `addToList` keeps every list free of repeated ids. */
  lemma AddToListKeepsUniqueIds(prev: ListsStore, listName: string, movie: Movie)
    requires UniqueIds(prev)
    ensures AddedToList(prev, listName, movie).Some? ==> UniqueIds(AddedToList(prev, listName, movie).value)
  {
    var key := Trim(listName);
    if key != "" {
      var existing := if key in prev then prev[key] else [];
      if !HasId(existing, movie.id) {
        var list := [movie] + existing;
        forall i, j | 0 <= i < j < |list| ensures list[i].id != list[j].id {
          if i == 0 {
            assert list[j] == existing[j - 1];
          } else {
            assert list[i] == existing[i - 1] && list[j] == existing[j - 1];
          }
        }
      }
    }
  }

  // ---------------------------------------------------------------------------
  // URLSearchParams

  /** A query string: name/value pairs in order. */
  type Pairs = seq<(string, string)>

  /** `params.get(k)`: the value of the first pair named `k`. */
  function Lookup(p: Pairs, k: string): Option<string> {
    if p == [] then None
    else if p[0].0 == k then Some(p[0].1)
    else Lookup(p[1..], k)
  }

  /** `get` finds a value exactly when some pair has the name, and it is the first such pair's. */
  lemma {:induction false} LookupFinds(p: Pairs, k: string)
    ensures Lookup(p, k).None? <==> forall i :: 0 <= i < |p| ==> p[i].0 != k
    ensures Lookup(p, k).Some? ==> exists i :: (0 <= i < |p| && p[i] == (k, Lookup(p, k).value) &&
      forall j :: 0 <= j < i ==> p[j].0 != k)
  {
    if p != [] && p[0].0 != k {
      LookupFinds(p[1..], k);
      assert forall i :: 1 <= i < |p| ==> p[i] == p[1..][i - 1];
      if Lookup(p, k).Some? {
        var i :| 0 <= i < |p[1..]| && p[1..][i] == (k, Lookup(p, k).value) &&
          forall j :: 0 <= j < i ==> p[1..][j].0 != k;
        assert p[i + 1] == p[1..][i];
      }
    }
  }

  lemma LookupCons(x: (string, string), rest: Pairs, k: string)
    ensures Lookup([x] + rest, k) == if x.0 == k then Some(x.1) else Lookup(rest, k)
  {
    assert ([x] + rest)[1..] == rest;
  }

  /** `get` on joined pairs looks in the first part, then the second. */
  lemma {:induction false} LookupAppend(a: Pairs, b: Pairs, k: string)
    ensures Lookup(a + b, k) == if Lookup(a, k).Some? then Lookup(a, k) else Lookup(b, k)
  {
    if a != [] {
      assert a + b == [a[0]] + (a[1..] + b);
      LookupCons(a[0], a[1..] + b, k);
      LookupAppend(a[1..], b, k);
    } else {
      assert a + b == b;
    }
  }

  /** `params.delete(k)`: every pair named `k` removed. */
  function Without(p: Pairs, k: string): (r: Pairs)
    ensures |r| <= |p|
  {
    if p == [] then []
    else if p[0].0 == k then Without(p[1..], k)
    else [p[0]] + Without(p[1..], k)
  }

  /** `params.set(k, v)`: the first pair named `k` takes the value, later ones go; else appended. */
  function SetParam(p: Pairs, k: string, v: string): Pairs {
    if p == [] then [(k, v)]
    else if p[0].0 == k then [(k, v)] + Without(p[1..], k)
    else [p[0]] + SetParam(p[1..], k, v)
  }

  lemma {:induction false} WithoutLookup(p: Pairs, k: string, other: string)
    ensures Lookup(Without(p, k), k) == None
    ensures other != k ==> Lookup(Without(p, k), other) == Lookup(p, other)
  {
    if p != [] {
      WithoutLookup(p[1..], k, other);
      if p[0].0 != k {
        LookupCons(p[0], Without(p[1..], k), k);
        LookupCons(p[0], Without(p[1..], k), other);
      }
    }
  }

  /** After `set`, `get` gives the value set and every other name reads as before. */
  lemma {:induction false} SetParamLookup(p: Pairs, k: string, v: string, other: string)
    ensures Lookup(SetParam(p, k, v), k) == Some(v)
    ensures other != k ==> Lookup(SetParam(p, k, v), other) == Lookup(p, other)
  {
    if p != [] {
      if p[0].0 == k {
        WithoutLookup(p[1..], k, other);
        LookupCons((k, v), Without(p[1..], k), k);
        LookupCons((k, v), Without(p[1..], k), other);
      } else {
        SetParamLookup(p[1..], k, v, other);
        LookupCons(p[0], SetParam(p[1..], k, v), k);
        LookupCons(p[0], SetParam(p[1..], k, v), other);
      }
    }
  }

  /** `set` touches no pair of another name: removing `k` before or after gives the same pairs. */
  lemma {:induction false} SetParamOthers(p: Pairs, k: string, v: string)
    ensures Without(SetParam(p, k, v), k) == Without(p, k)
  {
    if p == [] {
    } else if p[0].0 == k {
      WithoutIdempotent(p[1..], k);
      WithoutCons((k, v), Without(p[1..], k), k);
    } else {
      SetParamOthers(p[1..], k, v);
      WithoutCons(p[0], SetParam(p[1..], k, v), k);
    }
  }

  lemma WithoutCons(x: (string, string), rest: Pairs, k: string)
    ensures Without([x] + rest, k) == if x.0 == k then Without(rest, k) else [x] + Without(rest, k)
  {
    assert ([x] + rest)[1..] == rest;
  }

  lemma {:induction false} WithoutIdempotent(p: Pairs, k: string)
    ensures Without(Without(p, k), k) == Without(p, k)
  {
    if p != [] {
      WithoutIdempotent(p[1..], k);
      if p[0].0 != k {
        WithoutCons(p[0], Without(p[1..], k), k);
      }
    }
  }

  /** Setting a name that is not there appends it. */
  lemma {:induction false} SetParamFresh(p: Pairs, k: string, v: string)
    requires Lookup(p, k).None?
    ensures SetParam(p, k, v) == p + [(k, v)]
  {
    if p != [] {
      SetParamFresh(p[1..], k, v);
      assert [p[0]] + (p[1..] + [(k, v)]) == p + [(k, v)];
    }
  }

  /** A mutable `URL.searchParams`. */
  class SearchParams {
    var pairs: Pairs

    constructor (init: Pairs)
      ensures pairs == init
    {
      pairs := init;
    }

    method Set(k: string, v: string)
      modifies this
      ensures pairs == SetParam(old(pairs), k, v)
    {
      pairs := SetParam(pairs, k, v);
    }

    method Delete(k: string)
      modifies this
      ensures pairs == Without(old(pairs), k)
    {
      pairs := Without(pairs, k);
    }

    /** `setOrDelete(k, v)`: set for a non-blank value (kept untrimmed), delete otherwise. */
    method SetOrDelete(k: string, v: Option<string>)
      modifies this
      ensures pairs == SetOrDeleteParam(old(pairs), k, v)
      ensures Lookup(pairs, k) == if Filled(v) then v else None
      ensures forall other :: other != k ==> Lookup(pairs, other) == Lookup(old(pairs), other)
    {
      if v.Some? && Trim(v.value) != "" {
        Set(k, v.value);
      } else {
        Delete(k);
      }
      forall other ensures other != k ==> Lookup(pairs, other) == Lookup(old(pairs), other) {
        SetParamLookup(old(pairs), k, v.GetOr(""), other);
        WithoutLookup(old(pairs), k, other);
      }
      SetParamLookup(old(pairs), k, v.GetOr(""), k);
      WithoutLookup(old(pairs), k, k);
    }
  }

  /** `v && v.trim()`. */
  predicate Filled(v: Option<string>) {
    v.Some? && Trim(v.value) != ""
  }

  function SetOrDeleteParam(p: Pairs, k: string, v: Option<string>): Pairs {
    if Filled(v) then SetParam(p, k, v.value) else Without(p, k)
  }

  // ---------------------------------------------------------------------------
  // buildApiUrl

  /** The arguments of `buildApiUrl`; `None` is an omitted argument. */
  datatype ApiArgs = ApiArgs(
    q: Option<string>,
    genre: Option<string>,
    sort: Option<string>,
    order: Option<string>,
    limit: Option<int>,
    offset: Option<int>)

  /** The query names `buildApiUrl` can set. */
  const ApiNames: set<string> := {"q", "genre", "sort", "order", "limit", "offset"}

  /** `args.sort && args.sort !== "relevance"`. */
  predicate SortSent(sort: Option<string>) {
    Truthy(sort) && sort.value != "relevance"
  }

  /** `buildApiUrl(args)`, as the query string of `/api/search`. */
  method BuildApiUrl(args: ApiArgs) returns (query: Pairs)
    ensures query == ApiQuery(args)
  {
    assert "genre"[0] != "order"[0] && "genre"[0] != "limit"[0] && "order"[0] != "limit"[0];
    var url := new SearchParams([]);
    SetIf(url, Truthy(args.q), "q", args.q.GetOr(""), {});
    ghost var sent := Param(Truthy(args.q), "q", args.q.GetOr(""));
    assert url.pairs == sent;
    SetIf(url, Truthy(args.genre), "genre", args.genre.GetOr(""), {"q"});
    sent := sent + Param(Truthy(args.genre), "genre", args.genre.GetOr(""));
    assert url.pairs == sent;
    SetIf(url, SortSent(args.sort), "sort", args.sort.GetOr(""), {"q", "genre"});
    sent := sent + Param(SortSent(args.sort), "sort", args.sort.GetOr(""));
    assert url.pairs == sent;
    SetIf(url, Truthy(args.order), "order", args.order.GetOr(""), {"q", "genre", "sort"});
    sent := sent + Param(Truthy(args.order), "order", args.order.GetOr(""));
    assert url.pairs == sent;
    SetIf(url, true, "limit", IntToString(args.limit.GetOr(PageSize)), {"q", "genre", "sort", "order"});
    sent := sent + [("limit", IntToString(args.limit.GetOr(PageSize)))];
    assert url.pairs == sent;
    SetIf(url, true, "offset", IntToString(args.offset.GetOr(0)), {"q", "genre", "sort", "order", "limit"});
    sent := sent + [("offset", IntToString(args.offset.GetOr(0)))];
    assert url.pairs == sent;
    query := url.pairs;
  }

  /** `if (cond) url.searchParams.set(k, v)` for a name not set yet: the pair is appended. */
  method SetIf(url: SearchParams, cond: bool, k: string, v: string, ghost used: set<string>)
    requires forall i :: 0 <= i < |url.pairs| ==> url.pairs[i].0 in used
    requires k !in used
    modifies url
    ensures url.pairs == old(url.pairs) + Param(cond, k, v)
    ensures forall i :: 0 <= i < |url.pairs| ==> url.pairs[i].0 in used + {k}
  {
    if cond {
      AppendFresh(url.pairs, used, k, v);
      url.Set(k, v);
    } else {
      assert url.pairs + [] == url.pairs;
    }
  }

  /** Setting a name not yet present appends it. */
  lemma AppendFresh(p: Pairs, used: set<string>, k: string, v: string)
    requires forall i :: 0 <= i < |p| ==> p[i].0 in used
    requires k !in used
    ensures SetParam(p, k, v) == p + [(k, v)]
  {
    LookupFinds(p, k);
    SetParamFresh(p, k, v);
  }

  /** Every name sent is one of the six, and none is sent twice. */
  lemma QueryNames(args: ApiArgs)
    ensures forall i :: 0 <= i < |ApiQuery(args)| ==> ApiQuery(args)[i].0 in ApiNames
    ensures forall i, j :: 0 <= i < j < |ApiQuery(args)| ==> ApiQuery(args)[i].0 != ApiQuery(args)[j].0
  {
    assert "genre"[0] != "order"[0] && "genre"[0] != "limit"[0] && "order"[0] != "limit"[0];
    var q := Param(Truthy(args.q), "q", args.q.GetOr(""));
    var g := Param(Truthy(args.genre), "genre", args.genre.GetOr(""));
    var s := Param(SortSent(args.sort), "sort", args.sort.GetOr(""));
    var o := Param(Truthy(args.order), "order", args.order.GetOr(""));
    var limit := IntToString(args.limit.GetOr(PageSize));
    var offset := IntToString(args.offset.GetOr(0));
    ParamExtends([], {}, Truthy(args.q), "q", args.q.GetOr(""));
    assert [] + q == q;
    ParamExtends(q, {"q"}, Truthy(args.genre), "genre", args.genre.GetOr(""));
    ParamExtends(q + g, {"q", "genre"}, SortSent(args.sort), "sort", args.sort.GetOr(""));
    ParamExtends(q + g + s, {"q", "genre", "sort"}, Truthy(args.order), "order", args.order.GetOr(""));
    ParamExtends(q + g + s + o, {"q", "genre", "sort", "order"}, true, "limit", limit);
    ParamExtends(q + g + s + o + [("limit", limit)], {"q", "genre", "sort", "order", "limit"}, true, "offset", offset);
    assert ApiNames == {"q", "genre", "sort", "order", "limit", "offset"};
  }

  /** Every name of `p` is in `used`. */
  predicate NamesIn(p: Pairs, used: set<string>) {
    forall i :: 0 <= i < |p| ==> p[i].0 in used
  }

  /** No name occurs twice in `p`. */
  predicate DistinctNames(p: Pairs) {
    forall i, j :: 0 <= i < j < |p| ==> p[i].0 != p[j].0
  }

  /** Appending a name not used before keeps the names distinct. */
  lemma ParamExtends(p: Pairs, used: set<string>, cond: bool, k: string, v: string)
    requires NamesIn(p, used) && DistinctNames(p) && k !in used
    ensures NamesIn(p + Param(cond, k, v), used + {k})
    ensures DistinctNames(p + Param(cond, k, v))
  {
  }

  /** The pair `(k, v)` when it is sent, nothing otherwise. */
  function Param(cond: bool, k: string, v: string): Pairs {
    if cond then [(k, v)] else []
  }

  /** The query is the pairs sent, in the order they were set. */
  function ApiQuery(args: ApiArgs): Pairs {
    Param(Truthy(args.q), "q", args.q.GetOr("")) +
    Param(Truthy(args.genre), "genre", args.genre.GetOr("")) +
    Param(SortSent(args.sort), "sort", args.sort.GetOr("")) +
    Param(Truthy(args.order), "order", args.order.GetOr("")) +
    [("limit", IntToString(args.limit.GetOr(PageSize)))] + [("offset", IntToString(args.offset.GetOr(0)))]
  }

  /** `get` on the query finds the first of the parts that holds the name. */
  lemma QueryLookup(args: ApiArgs, k: string)
    ensures Lookup(ApiQuery(args), k) ==
      (if Truthy(args.q) && k == "q" then args.q
       else if Truthy(args.genre) && k == "genre" then args.genre
       else if SortSent(args.sort) && k == "sort" then args.sort
       else if Truthy(args.order) && k == "order" then args.order
       else if k == "limit" then Some(IntToString(args.limit.GetOr(PageSize)))
       else if k == "offset" then Some(IntToString(args.offset.GetOr(0)))
       else None)
  {
    var q := Param(Truthy(args.q), "q", args.q.GetOr(""));
    var g := Param(Truthy(args.genre), "genre", args.genre.GetOr(""));
    var s := Param(SortSent(args.sort), "sort", args.sort.GetOr(""));
    var o := Param(Truthy(args.order), "order", args.order.GetOr(""));
    var limit := ("limit", IntToString(args.limit.GetOr(PageSize)));
    var offset := ("offset", IntToString(args.offset.GetOr(0)));
    LookupAppend(q + g + s + o + [limit], [offset], k);
    LookupAppend(q + g + s + o, [limit], k);
    LookupAppend(q + g + s, o, k);
    LookupAppend(q + g, s, k);
    LookupAppend(q, g, k);
    LookupCons(limit, [], k);
    LookupCons(offset, [], k);
    if Truthy(args.q) { LookupCons(q[0], [], k); }
    if Truthy(args.genre) { LookupCons(g[0], [], k); }
    if SortSent(args.sort) { LookupCons(s[0], [], k); }
    if Truthy(args.order) { LookupCons(o[0], [], k); }
  }

  /**
   * `q`, `genre` and `order` are sent when non-empty, `sort` when set and not "relevance";
   * `limit` (default 30) and `offset` (default 0) always.
   */
  lemma QueryLookups(args: ApiArgs)
    ensures Lookup(ApiQuery(args), "q") == (if Truthy(args.q) then args.q else None)
    ensures Lookup(ApiQuery(args), "genre") == (if Truthy(args.genre) then args.genre else None)
    ensures Lookup(ApiQuery(args), "sort") == (if SortSent(args.sort) then args.sort else None)
    ensures Lookup(ApiQuery(args), "order") == (if Truthy(args.order) then args.order else None)
    ensures Lookup(ApiQuery(args), "limit") == Some(IntToString(args.limit.GetOr(PageSize)))
    ensures Lookup(ApiQuery(args), "offset") == Some(IntToString(args.offset.GetOr(0)))
  {
    assert "genre"[0] != "order"[0] && "genre"[0] != "limit"[0] && "order"[0] != "limit"[0];
    QueryLookup(args, "q");
    QueryLookup(args, "genre");
    QueryLookup(args, "sort");
    QueryLookup(args, "order");
    QueryLookup(args, "limit");
    QueryLookup(args, "offset");
  }

  // ---------------------------------------------------------------------------
  // syncUrl

  /** `setOrDelete` applied to each name and value in turn. */
  function SetOrDeleteAll(p: Pairs, updates: seq<(string, Option<string>)>): Pairs
    decreases |updates|
  {
    if updates == [] then p
    else SetOrDeleteAll(SetOrDeleteParam(p, updates[0].0, updates[0].1), updates[1..])
  }

  /** Applying the updates from `i` on is applying update `i`, then the rest. */
  lemma SetOrDeleteAllStep(p: Pairs, updates: seq<(string, Option<string>)>, i: nat)
    requires i < |updates|
    ensures SetOrDeleteAll(p, updates[i..]) ==
      SetOrDeleteAll(SetOrDeleteParam(p, updates[i].0, updates[i].1), updates[i + 1..])
  {
    assert updates[i..][1..] == updates[i + 1..];
  }

  /** The address-bar query after `syncUrl`, given the value chosen for each filter. */
  function SyncedUrl(p: Pairs, q: Option<string>, genre: Option<string>, sort: Option<string>, order: Option<string>): Pairs {
    SetOrDeleteAll(p, [("q", q), ("genre", genre), ("sort", sort), ("order", order)])
  }

  /** `syncUrl` sets or deletes `q`, `genre`, `sort` and `order`, one after the other. */
  lemma SyncedUrlSteps(p: Pairs, q: Option<string>, genre: Option<string>, sort: Option<string>, order: Option<string>)
    ensures SyncedUrl(p, q, genre, sort, order) ==
      SetOrDeleteParam(SetOrDeleteParam(SetOrDeleteParam(SetOrDeleteParam(p, "q", q), "genre", genre), "sort", sort), "order", order)
  {
    var u := [("q", q), ("genre", genre), ("sort", sort), ("order", order)];
    SetOrDeleteAllStep(p, u, 0);
    SetOrDeleteAllStep(SetOrDeleteParam(p, "q", q), u, 1);
    SetOrDeleteAllStep(SetOrDeleteParam(SetOrDeleteParam(p, "q", q), "genre", genre), u, 2);
    assert u[3..][1..] == [];
  }

  /** `setOrDelete` on one name: that name is set or gone, every other name is as before. */
  lemma SetOrDeleteLookup(p: Pairs, k: string, v: Option<string>, other: string)
    ensures Lookup(SetOrDeleteParam(p, k, v), other) ==
      (if other == k then (if Filled(v) then v else None) else Lookup(p, other))
  {
    SetParamLookup(p, k, v.GetOr(""), other);
    WithoutLookup(p, k, other);
  }

  /**
   * After `syncUrl` each filter is in the address bar exactly when its value is non-blank;
   * every other parameter is kept.
   */
  lemma SyncedLookups(p: Pairs, q: Option<string>, genre: Option<string>, sort: Option<string>, order: Option<string>, k: string)
    ensures Lookup(SyncedUrl(p, q, genre, sort, order), k) ==
      (if k == "q" then (if Filled(q) then q else None)
       else if k == "genre" then (if Filled(genre) then genre else None)
       else if k == "sort" then (if Filled(sort) then sort else None)
       else if k == "order" then (if Filled(order) then order else None)
       else Lookup(p, k))
  {
    assert "genre"[0] != "order"[0];
    var u := [("q", q), ("genre", genre), ("sort", sort), ("order", order)];
    var p1 := SetOrDeleteParam(p, "q", q);
    var p2 := SetOrDeleteParam(p1, "genre", genre);
    var p3 := SetOrDeleteParam(p2, "sort", sort);
    var p4 := SetOrDeleteParam(p3, "order", order);
    assert SetOrDeleteAll(p3, u[3..]) == p4 by {
      assert u[3..][1..] == [];
    }
    assert SetOrDeleteAll(p2, u[2..]) == p4 by {
      assert u[2..][1..] == u[3..];
    }
    assert SetOrDeleteAll(p1, u[1..]) == p4 by {
      assert u[1..][1..] == u[2..];
    }
    SetOrDeleteLookup(p, "q", q, k);
    SetOrDeleteLookup(p1, "genre", genre, k);
    SetOrDeleteLookup(p2, "sort", sort, k);
    SetOrDeleteLookup(p3, "order", order, k);
  }

  // ---------------------------------------------------------------------------
  // runSearch

  /** The arguments of `runSearch`; `None` is an omitted filter. */
  datatype SearchArgs = SearchArgs(
    q: Option<string>,
    genre: Option<string>,
    sort: Option<string>,
    order: Option<string>,
    offset: int,
    reset: bool)

  /** The body of a successful response, each field `None` when absent or of the wrong type. */
  datatype ApiData = ApiData(items: Option<seq<Movie>>, total: Option<int>, nextOffset: Option<int>, source: Option<string>)

  /**
   * How the request ended: a response with a body, a response that was not ok, or an
   * exception (`isAbort` for an `AbortError`, `message` when the value thrown is an `Error`).
   */
  datatype Outcome =
    | Answered(data: ApiData)
    | HttpError(status: int)
    | Threw(isAbort: bool, message: Option<string>)

  /** The request `runSearch` makes: the query trimmed, thirty results from `offset`. */
  function RequestArgs(args: SearchArgs): ApiArgs {
    ApiArgs(if args.q.Some? then Some(Trim(args.q.value)) else None,
            args.genre, args.sort, args.order, Some(PageSize), Some(args.offset))
  }

  /** The items of a response, none when `items` is not an array. */
  function Items(data: ApiData): seq<Movie> {
    data.items.GetOr([])
  }

  /** Results after a page arrives: replaced on a reset, extended in order otherwise. */
  function Merged(prev: seq<Movie>, reset: bool, items: seq<Movie>): (r: seq<Movie>)
    ensures reset ==> r == items
    ensures !reset ==> |r| == |prev| + |items| && r[..|prev|] == prev && r[|prev|..] == items
  {
    if reset then items else prev + items
  }

  /** A page and then a load-more page show both pages in order, whatever was shown before. */
  lemma MergedPages(prev: seq<Movie>, first: seq<Movie>, more: seq<Movie>)
    ensures Merged(Merged(prev, true, first), false, more) == first + more
  {
  }

  /** The error shown for a failed request, `None` for an aborted one. */
  function FailureMessage(outcome: Outcome): (r: Option<string>)
    requires !outcome.Answered?
    ensures r.None? <==> outcome.Threw? && outcome.isAbort
    ensures outcome.HttpError? ==> r == Some("HTTP " + IntToString(outcome.status))
    ensures outcome.Threw? && !outcome.isAbort && outcome.message.None? ==> r == Some(GenericError)
  {
    match outcome
    case HttpError(status) => Some("HTTP " + IntToString(status))
    case Threw(isAbort, message) => if isAbort then None else Some(message.GetOr(GenericError))
  }

  const GenericError: string := "Something went wrong."

  /** The state of the search page. */
  class SearchState {
    var q: string
    var genre: string
    var sort: string
    var order: string
    var results: seq<Movie>
    var total: int
    var nextOffset: Option<int>
    var error: Option<string>
    var loading: bool
    var usedFallback: bool
    /** The query string of the address bar. */
    var location: Pairs
    var lists: ListsStore

    /** The page as first rendered for an address bar holding `location`. */
    constructor (location: Pairs)
      ensures q == Trim(Lookup(location, "q").GetOr("")) && genre == Trim(Lookup(location, "genre").GetOr(""))
      ensures sort == (if Truthy(Lookup(location, "sort")) then Lookup(location, "sort").value else "relevance")
      ensures order == (if Truthy(Lookup(location, "order")) then Lookup(location, "order").value else "asc")
      ensures results == [] && total == 0 && nextOffset == None && error == None && !loading && !usedFallback
      ensures this.location == location && lists == map[]
    {
      var s := Lookup(location, "sort");
      var o := Lookup(location, "order");
      q := Trim(Lookup(location, "q").GetOr(""));
      genre := Trim(Lookup(location, "genre").GetOr(""));
      sort := if Truthy(s) then s.value else "relevance";
      order := if Truthy(o) then o.value else "asc";
      results := [];
      total := 0;
      nextOffset := None;
      error := None;
      loading := false;
      usedFallback := false;
      this.location := location;
      lists := map[];
    }

    /**
     * `addToList(listName, movie)`: the lists become `AddedToList` of the old ones; `thrown`
     * reports the updater's TypeError, and then the lists stay as they were.
     */
    method AddToList(listName: string, movie: Movie) returns (thrown: bool)
      modifies this
      ensures thrown <==> AddedToList(old(lists), listName, movie).None?
      ensures lists == (if thrown then old(lists) else AddedToList(old(lists), listName, movie).value)
      ensures q == old(q) && genre == old(genre) && sort == old(sort) && order == old(order)
      ensures results == old(results) && total == old(total) && nextOffset == old(nextOffset)
      ensures error == old(error) && loading == old(loading) && usedFallback == old(usedFallback)
      ensures location == old(location)
    {
      var next := AddedToList(lists, listName, movie);
      thrown := next.None?;
      if !thrown {
        lists := next.value;
      }
    }

    /**
     * `syncUrl(next)`: each filter takes the value passed, or the current one when none is
     * passed, and is written to the address bar when non-blank and removed otherwise.
     */
    method SyncUrl(nq: Option<string>, ng: Option<string>, ns: Option<string>, no: Option<string>)
      modifies this
      ensures location == SyncedUrl(old(location), nq.Or(Some(q)), ng.Or(Some(genre)), ns.Or(Some(sort)), no.Or(Some(order)))
      ensures q == old(q) && genre == old(genre) && sort == old(sort) && order == old(order)
      ensures results == old(results) && total == old(total) && nextOffset == old(nextOffset)
      ensures error == old(error) && loading == old(loading) && usedFallback == old(usedFallback) && lists == old(lists)
    {
      var url := new SearchParams(location);
      url.SetOrDelete("q", nq.Or(Some(q)));
      url.SetOrDelete("genre", ng.Or(Some(genre)));
      url.SetOrDelete("sort", ns.Or(Some(sort)));
      url.SetOrDelete("order", no.Or(Some(order)));
      SyncedUrlSteps(location, nq.Or(Some(q)), ng.Or(Some(genre)), ns.Or(Some(sort)), no.Or(Some(order)));
      location := url.pairs;
    }

    /**
     * `runSearch(args)` given how its request ends; returns the query string requested.
     * The filters and lists are never changed by it.
     */
    method RunSearch(args: SearchArgs, outcome: Outcome) returns (request: Pairs)
      modifies this
      ensures request == ApiQuery(RequestArgs(args))
      ensures !loading
      ensures q == old(q) && genre == old(genre) && sort == old(sort) && order == old(order) && lists == old(lists)
      ensures outcome.Answered? ==>
        && results == Merged(old(results), args.reset, Items(outcome.data))
        && total == outcome.data.total.GetOr(|Items(outcome.data)|)
        && nextOffset == outcome.data.nextOffset
        && usedFallback == (outcome.data.source == Some("fallback"))
        && error == None
        && location == SyncedUrl(old(location), args.q.Or(Some(q)), args.genre.Or(Some(genre)),
                                 args.sort.Or(Some(sort)), args.order.Or(Some(order)))
      ensures !outcome.Answered? ==>
        && error == FailureMessage(outcome)
        && location == old(location) && usedFallback == old(usedFallback)
      ensures !outcome.Answered? && (FailureMessage(outcome).None? || !args.reset) ==>
        results == old(results) && total == old(total) && nextOffset == old(nextOffset)
      ensures !outcome.Answered? && FailureMessage(outcome).Some? && args.reset ==>
        results == [] && total == 0 && nextOffset == None
    {
      error := None;
      loading := true;
      request := BuildApiUrl(RequestArgs(args));
      if outcome.Answered? {
        Succeed(args, outcome.data);
      } else {
        Fail(args.reset, FailureMessage(outcome));
      }
      loading := false;
    }

    /** The `try` block after an ok response. */
    method Succeed(args: SearchArgs, data: ApiData)
      modifies this
      ensures results == Merged(old(results), args.reset, Items(data))
      ensures total == data.total.GetOr(|Items(data)|) && nextOffset == data.nextOffset
      ensures usedFallback == (data.source == Some("fallback"))
      ensures location == SyncedUrl(old(location), args.q.Or(Some(q)), args.genre.Or(Some(genre)),
                                    args.sort.Or(Some(sort)), args.order.Or(Some(order)))
      ensures q == old(q) && genre == old(genre) && sort == old(sort) && order == old(order)
      ensures error == old(error) && loading == old(loading) && lists == old(lists)
    {
      var items := Items(data);
      results := if args.reset then items else results + items;
      total := data.total.GetOr(|items|);
      nextOffset := data.nextOffset;
      usedFallback := data.source == Some("fallback");
      SyncUrl(args.q, args.genre, args.sort, args.order);
    }

    /** The `catch` block: nothing for an abort, otherwise the message, and a cleared page on a reset. */
    method Fail(reset: bool, message: Option<string>)
      modifies this
      ensures error == (if message.Some? then message else old(error))
      ensures message.Some? && reset ==> results == [] && total == 0 && nextOffset == None
      ensures message.None? || !reset ==> results == old(results) && total == old(total) && nextOffset == old(nextOffset)
      ensures q == old(q) && genre == old(genre) && sort == old(sort) && order == old(order)
      ensures location == old(location) && usedFallback == old(usedFallback) && loading == old(loading) && lists == old(lists)
    {
      if message.Some? {
        error := message;
        if reset {
          results := [];
          total := 0;
          nextOffset := None;
        }
      }
    }

    /** `onSubmit` and `applyFilters`: a fresh search for the trimmed query and current filters. */
    method Submit(outcome: Outcome) returns (request: Pairs)
      modifies this
      ensures request == ApiQuery(ApiArgs(Some(Trim(old(q))), Some(old(genre)), Some(old(sort)), Some(old(order)), Some(PageSize), Some(0)))
      ensures q == old(q) && genre == old(genre) && sort == old(sort) && order == old(order)
      ensures !loading && lists == old(lists)
      ensures outcome.Answered? ==>
        && results == Items(outcome.data)
        && total == outcome.data.total.GetOr(|Items(outcome.data)|)
        && nextOffset == outcome.data.nextOffset
        && usedFallback == (outcome.data.source == Some("fallback"))
        && error == None
        && location == SyncedUrl(old(location), Some(Trim(old(q))), Some(old(genre)), Some(old(sort)), Some(old(order)))
      ensures !outcome.Answered? ==>
        error == FailureMessage(outcome) && location == old(location) && usedFallback == old(usedFallback)
      ensures !outcome.Answered? && FailureMessage(outcome).Some? ==>
        results == [] && total == 0 && nextOffset == None
      ensures !outcome.Answered? && FailureMessage(outcome).None? ==>
        results == old(results) && total == old(total) && nextOffset == old(nextOffset)
    {
      StripIdempotent(q, IsJsSpace);
      request := RunSearch(SearchArgs(Some(Trim(q)), Some(genre), Some(sort), Some(order), 0, true), outcome);
    }

    /** `loadMore`: nothing without a next offset, else the next page appended to the results. */
    method LoadMore(outcome: Outcome) returns (request: Option<Pairs>)
      modifies this
      ensures old(nextOffset).None? ==>
        && request == None && results == old(results) && total == old(total) && nextOffset == old(nextOffset)
        && error == old(error) && loading == old(loading) && usedFallback == old(usedFallback)
        && location == old(location)
      ensures old(nextOffset).Some? ==>
        request == Some(ApiQuery(ApiArgs(Some(Trim(old(q))), Some(old(genre)), Some(old(sort)), Some(old(order)), Some(PageSize), Some(old(nextOffset).value))))
      ensures old(nextOffset).Some? ==> !loading
      ensures old(nextOffset).Some? && outcome.Answered? ==>
        && results == old(results) + Items(outcome.data)
        && total == outcome.data.total.GetOr(|Items(outcome.data)|)
        && nextOffset == outcome.data.nextOffset
        && usedFallback == (outcome.data.source == Some("fallback"))
        && error == None
        && location == SyncedUrl(old(location), Some(Trim(old(q))), Some(old(genre)), Some(old(sort)), Some(old(order)))
      ensures old(nextOffset).Some? && !outcome.Answered? ==>
        && results == old(results) && total == old(total) && nextOffset == old(nextOffset)
        && error == FailureMessage(outcome) && location == old(location) && usedFallback == old(usedFallback)
      ensures q == old(q) && genre == old(genre) && sort == old(sort) && order == old(order) && lists == old(lists)
    {
      if nextOffset.None? {
        return None;
      }
      StripIdempotent(q, IsJsSpace);
      var query := RunSearch(SearchArgs(Some(Trim(q)), Some(genre), Some(sort), Some(order), nextOffset.value, false), outcome);
      request := Some(query);
    }

    /** `clearFilters`: filters back to their defaults, no results, filters gone from the address bar. */
    method ClearFilters()
      modifies this
      ensures q == "" && genre == "" && sort == "relevance" && order == "asc"
      ensures results == [] && total == 0 && nextOffset == None
      ensures location == SyncedUrl(old(location), Some(""), Some(""), Some("relevance"), Some("asc"))
      ensures lists == old(lists) && error == old(error)
      ensures loading == old(loading) && usedFallback == old(usedFallback)
    {
      SyncUrl(Some(""), Some(""), Some("relevance"), Some("asc"));
      q, genre, sort, order := "", "", "relevance", "asc";
      results, total, nextOffset := [], 0, None;
    }
  }

  /** After `clearFilters` neither `q` nor `genre` is in the address bar, and `sort` and `order` hold their defaults. */
  lemma ClearedUrl(p: Pairs)
    ensures Lookup(SyncedUrl(p, Some(""), Some(""), Some("relevance"), Some("asc")), "q") == None
    ensures Lookup(SyncedUrl(p, Some(""), Some(""), Some("relevance"), Some("asc")), "genre") == None
    ensures Lookup(SyncedUrl(p, Some(""), Some(""), Some("relevance"), Some("asc")), "sort") == Some("relevance")
    ensures Lookup(SyncedUrl(p, Some(""), Some(""), Some("relevance"), Some("asc")), "order") == Some("asc")
  {
    SyncedLookups(p, Some(""), Some(""), Some("relevance"), Some("asc"), "q");
    SyncedLookups(p, Some(""), Some(""), Some("relevance"), Some("asc"), "genre");
    SyncedLookups(p, Some(""), Some(""), Some("relevance"), Some("asc"), "sort");
    SyncedLookups(p, Some(""), Some(""), Some("relevance"), Some("asc"), "order");
  }
}
