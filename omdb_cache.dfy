/**
 * The server-side OMDb lookup cache of `src/lib/omdb.ts`: a bounded, insertion-ordered
 * map from a normalised (title, year) key to the last answer and the time it was
 * stored.  Entries expire after seven days; when the map grows past 1000 entries the
 * key written longest ago is evicted.  The clock is the `now` parameter and the network
 * is the `provider` function.
 */
module OmdbCache {
  import opened Wrappers
  import opened Text
  import opened OmdbApi

  /** Largest number of entries kept. */
  const MAX: nat := 1000

  /** Time-to-live of an entry, in milliseconds (seven days). */
  const TTL: nat := 1000 * 60 * 60 * 24 * 7

  /** The optional `year` argument as JavaScript holds it: absent, a number, or NaN. */
  datatype YearArg = NoYear | Year(n: int) | NaN

  /** `${year ?? ""}`. */
  function YearText(y: YearArg): (r: string)
    ensures forall i :: 0 <= i < |r| ==> r[i] != ':'
  {
    match y
    case NoYear => ""
    case Year(n) => IntToString(n)
    case NaN => "NaN"
  }

  /** The truthiness of `year`: a number other than 0. */
  predicate YearIsTruthy(y: YearArg) {
    y.Year? && y.n != 0
  }

  /** The cache key `k(title, year)`: trimmed, lower-cased title, "::", then the year or nothing. */
  function Key(title: string, year: YearArg): (k: string)
    ensures k != "" && |ToLower(Trim(title))| < |k|
    ensures k[..|ToLower(Trim(title))|] == ToLower(Trim(title))
  {
    ToLower(Trim(title)) + "::" + YearText(year)
  }

  lemma YearTextInjective(a: YearArg, b: YearArg)
    requires YearText(a) == YearText(b)
    ensures a == b
  {
    YearOfTextInverse(a);
    YearOfTextInverse(b);
  }

  /** Reads a year text back. */
  function YearOfText(s: string): YearArg {
    if s == "" then NoYear
    else if s == "NaN" then NaN
    else match JsNumber(s)
      case Some(n) => Year(n)
      case None => NaN
  }

  lemma YearOfTextInverse(y: YearArg)
    ensures YearOfText(YearText(y)) == y
  {
    if y.Year? {
      JsNumberIntToString(y.n);
      assert IntToString(y.n)[0] != 'N';
    }
  }

  /** Two strings of the form `a + "::" + x` with no ':' in `x` agree only when both parts agree. */
  lemma SplitAtLastSeparator(a: string, x: string, b: string, y: string)
    requires forall i :: 0 <= i < |x| ==> x[i] != ':'
    requires forall i :: 0 <= i < |y| ==> y[i] != ':'
    requires a + "::" + x == b + "::" + y
    ensures a == b && x == y
  {
    var s := a + "::" + x;
    AfterLastColonOf(a, x);
    AfterLastColonOf(b, y);
    assert a == s[..|a|] && b == s[..|b|];
  }

  /** The part of `s` after its last ':' (all of `s` when it has none). */
  function AfterLastColon(s: string): string {
    if s == [] || s[|s| - 1] == ':' then [] else AfterLastColon(s[..|s| - 1]) + [s[|s| - 1]]
  }

  lemma {:induction false} AfterLastColonOf(a: string, x: string)
    requires forall i :: 0 <= i < |x| ==> x[i] != ':'
    ensures AfterLastColon(a + "::" + x) == x
  {
    if x != [] {
      var x' := x[..|x| - 1];
      AfterLastColonOf(a, x');
      assert (a + "::" + x)[..|a + "::" + x| - 1] == a + "::" + x';
      assert x == x' + [x[|x| - 1]];
    } else {
      assert a + "::" + x == a + "::";
    }
  }

  /**
   * Two lookups share a cache entry exactly when their titles agree after trimming and
   * lower-casing and their years agree: case and outer whitespace never split an entry,
   * and different titles or years never collide.
   */
  lemma KeyAgreement(t1: string, y1: YearArg, t2: string, y2: YearArg)
    ensures Key(t1, y1) == Key(t2, y2) <==> ToLower(Trim(t1)) == ToLower(Trim(t2)) && y1 == y2
  {
    if Key(t1, y1) == Key(t2, y2) {
      SplitAtLastSeparator(ToLower(Trim(t1)), YearText(y1), ToLower(Trim(t2)), YearText(y2));
      YearTextInjective(y1, y2);
    }
  }

  /** One stored answer (`None` for a cached `null`) and the time it was written. */
  datatype Entry = Entry(value: Option<Record>, at: int)

  /** The result of `getFresh`: `undefined` (absent or expired) or the stored value. */
  datatype Lookup = Absent | Hit(value: Option<Record>)

  /** `s` without the element `k`. */
  function Without(s: seq<string>, k: string): (r: seq<string>)
    ensures forall x :: x in r <==> x in s && x != k
    ensures k !in s ==> r == s
  {
    if s == [] then []
    else (if s[0] == k then [] else [s[0]]) + Without(s[1..], k)
  }

  lemma {:induction false} WithoutDistinct(s: seq<string>, k: string)
    requires Distinct(s)
    ensures Distinct(Without(s, k))
    ensures k in s ==> |Without(s, k)| == |s| - 1
    ensures k !in s ==> |Without(s, k)| == |s|
  {
    if s != [] {
      WithoutDistinct(s[1..], k);
      assert s[0] !in s[1..];
    }
  }

  /** Writing a key keeps the order free of repeats and in step with the map's keys. */
  lemma InsertValid(order: seq<string>, entries: map<string, Entry>, key: string, e: Entry)
    requires Distinct(order) && forall k :: k in entries <==> k in order
    ensures Distinct(Without(order, key) + [key])
    ensures forall k :: k in entries[key := e] <==> k in Without(order, key) + [key]
    ensures |Without(order, key) + [key]| == if key in order then |order| else |order| + 1
    ensures key !in order && order != [] ==> (Without(order, key) + [key])[0] == order[0]
  {
    WithoutDistinct(order, key);
  }

  /** Evicting the first key keeps the order free of repeats and in step with the map's keys. */
  lemma DropFirstValid(order: seq<string>, entries: map<string, Entry>)
    requires Distinct(order) && order != [] && forall k :: k in entries <==> k in order
    ensures Distinct(order[1..])
    ensures forall k :: k in entries - {order[0]} <==> k in order[1..]
  {
    assert order == [order[0]] + order[1..];
  }

  /** What `fetchOmdbOnce` stores and returns after asking OMDb. */
  function Resolve(hasKey: bool, reply: Reply): (r: Option<Record>)
    ensures r.Some? <==> hasKey && reply.Http? && IsTrue(reply.body)
    ensures r.Some? ==> r == reply.body
  {
    if hasKey && reply.Http? && IsTrue(reply.body) then reply.body else None
  }

  /** The query `fetchOmdbOnce` sends: the title as given, and `&y=` only for a truthy year. */
  function QueryFor(title: string, year: YearArg): (q: Query)
    ensures q.title == title
    ensures q.year.Some? <==> YearIsTruthy(year)
    ensures q.year.Some? ==> YearOfText(q.year.value) == year
  {
    YearOfTextInverse(year);
    Query(title, if YearIsTruthy(year) then Some(YearText(year)) else None)
  }

  /**
   * The map after `setCache(key, e)`, as its order and its entries: the key is deleted and
   * set again, so it becomes the newest; past `MAX` entries the oldest key is evicted,
   * unless that key is "" (which is falsy).
   */
  function SetState(order: seq<string>, entries: map<string, Entry>, key: string, e: Entry)
    : (r: (seq<string>, map<string, Entry>))
    ensures key in r.1 && r.1[key] == e && r.0 != [] && r.0[|r.0| - 1] == key
    ensures forall k :: k in r.1 && k != key ==> k in entries && r.1[k] == entries[k]
  {
    var inserted := Without(order, key) + [key];
    if |inserted| > MAX && inserted[0] != "" then
      (inserted[1..], entries[key := e] - {inserted[0]})
    else
      (inserted, entries[key := e])
  }

  /** `setCache` keeps the order free of repeats and in step with the keys, and within `MAX`. */
  lemma SetStateFacts(order: seq<string>, entries: map<string, Entry>, key: string, e: Entry)
    requires Distinct(order) && forall k :: k in entries <==> k in order
    ensures var r := SetState(order, entries, key, e);
      && Distinct(r.0) && (forall k :: k in r.1 <==> k in r.0)
      && (|order| <= MAX && "" !in entries ==> |r.0| <= MAX)
      && (key in entries && |order| <= MAX ==> |r.0| == |order|)
  {
    InsertValid(order, entries, key, e);
    var inserted := Without(order, key) + [key];
    if |inserted| > MAX && inserted[0] != "" {
      DropFirstValid(inserted, entries[key := e]);
    }
  }

  /** The module-level `cache` Map: `order` is its iteration (insertion) order. */
  class Cache {
    var order: seq<string>
    var entries: map<string, Entry>

    ghost predicate Valid()
      reads this
    {
      Distinct(order) && (forall k :: k in entries <==> k in order)
    }

    /** `cache.size`. */
    function Size(): nat
      reads this
    {
      |order|
    }

    /** An entry is fresh when it is at most `TTL` old. */
    predicate IsFresh(key: string, now: int)
      reads this
    {
      key in entries && now - entries[key].at <= TTL
    }

    constructor ()
      ensures Valid() && order == [] && entries == map[]
    {
      order := [];
      entries := map[];
    }

    /**
     * `getFresh(key)`: the stored value when the entry is at most `TTL` old; an older
     * entry is deleted and reported absent.  A read never moves a key.
     */
    method GetFresh(key: string, now: int) returns (r: Lookup)
      requires Valid()
      modifies this
      ensures Valid()
      ensures key !in old(entries) ==> r == Absent && entries == old(entries) && order == old(order)
      ensures old(IsFresh(key, now)) ==>
        r == Hit(old(entries)[key].value) && entries == old(entries) && order == old(order)
      ensures key in old(entries) && !old(IsFresh(key, now)) ==>
        r == Absent && entries == old(entries) - {key} && order == Without(old(order), key)
    {
      if key !in entries {
        return Absent;
      }
      var hit := entries[key];
      if now - hit.at > TTL {
        WithoutDistinct(order, key);
        entries := entries - {key};
        order := Without(order, key);
        return Absent;
      }
      r := Hit(hit.value);
    }

    /**
     * `setCache(key, val)`: the key is (re)written as the newest entry; then, when the
     * map holds more than `MAX` entries, its first key is evicted unless that key is "".
     */
    method SetCache(key: string, val: Option<Record>, now: int)
      requires Valid()
      modifies this
      ensures Valid()
      ensures (order, entries) == SetState(old(order), old(entries), key, Entry(val, now))
      ensures key in entries && entries[key] == Entry(val, now) && order[|order| - 1] == key
      ensures |old(order)| <= MAX && "" !in old(entries) ==> Size() <= MAX
      ensures key in old(entries) && old(Size()) <= MAX ==> Size() == old(Size())
    {
      ghost var order0, entries0 := order, entries;
      ghost var after := SetState(order0, entries0, key, Entry(val, now));
      SetStateFacts(order0, entries0, key, Entry(val, now));
      if key in entries {
        entries := entries - {key};
        order := Without(order, key);
        UpdateAfterMinus(entries0, key, Entry(val, now));
      }
      entries := entries[key := Entry(val, now)];
      order := order + [key];
      ghost var inserted, written := Without(order0, key) + [key], entries0[key := Entry(val, now)];
      assert order == inserted && entries == written;
      if |order| > MAX {
        var first := order[0];
        if first != "" {
          entries := entries - {first};
          order := order[1..];
          assert after == (inserted[1..], written - {inserted[0]});
          return;
        }
      }
      assert after == (inserted, written);
    }

    /**
     * `fetchOmdbOnce(title, year)`: a fresh cached answer (a cached `null` included) is
     * returned without a request; otherwise OMDb is asked once (unless there is no API
     * key) and the answer, or `null`, is cached and returned.  `asked` is the request
     * sent, if any.  Coalescing of concurrent callers is not modelled.
     */
    method FetchOnce(title: string, year: YearArg, now: int, hasKey: bool, provider: Query -> Reply)
      returns (r: Option<Record>, ghost asked: Option<Query>)
      requires Valid()
      modifies this
      ensures Valid()
      ensures old(IsFresh(Key(title, year), now)) ==>
        && r == old(entries)[Key(title, year)].value && asked == None
        && entries == old(entries) && order == old(order)
      ensures !old(IsFresh(Key(title, year), now)) ==>
        && asked == (if hasKey then Some(QueryFor(title, year)) else None)
        && r == Resolve(hasKey, provider(QueryFor(title, year)))
        && Key(title, year) in entries && entries[Key(title, year)] == Entry(r, now)
        && order[|order| - 1] == Key(title, year)
    ensures !old(IsFresh(Key(title, year), now)) ==>
      var key := Key(title, year);
      (order, entries) == SetState(Without(old(order), key), old(entries) - {key}, key, Entry(r, now))
    ensures old(Size()) <= MAX && "" !in old(entries) ==> Size() <= MAX && "" !in entries
    {
      var key := Key(title, year);
      ghost var order0, entries0 := order, entries;
      var found := GetFresh(key, now);
      if found.Hit? {
        return found.value, None;
      }
      if key !in entries0 {
        MinusAbsent(entries0, key);
      }
      WithoutDistinct(order0, key);
      assert order == Without(order0, key) && entries == entries0 - {key};
      assert |order| <= |order0| && entries.Keys <= entries0.Keys;
      r, asked := None, None;
      if hasKey {
        var q := QueryFor(title, year);
        asked := Some(q);
        var reply := provider(q);
        if reply.Http? && IsTrue(reply.body) {
          r := reply.body;
        }
      }
      SetCache(key, r, now);
    }
  }

  lemma UpdateAfterMinus<K, V>(m: map<K, V>, k: K, v: V)
    ensures (m - {k})[k := v] == m[k := v]
  {
  }

  lemma MinusAbsent<K, V>(m: map<K, V>, k: K)
    requires k !in m
    ensures m - {k} == m
  {
  }

  /**
   * Asking twice for the same title and year, the second time within `TTL` of the first,
   * makes at most one request; when the first call made one, the second is answered
   * from the cache with the same value.
   */
  method RepeatWithinTtl(c: Cache, title: string, year: YearArg, now1: int, now2: int,
                         hasKey: bool, provider: Query -> Reply)
    returns (r1: Option<Record>, r2: Option<Record>, ghost asked1: Option<Query>, ghost asked2: Option<Query>)
    requires c.Valid()
    requires now1 <= now2 <= now1 + TTL
    modifies c
    ensures c.Valid()
    ensures asked1 == None || asked2 == None
    ensures !old(c.IsFresh(Key(title, year), now1)) ==> r2 == r1 && asked2 == None
  {
    r1, asked1 := c.FetchOnce(title, year, now1, hasKey, provider);
    ghost var written := !old(c.IsFresh(Key(title, year), now1));
    assert written ==> c.IsFresh(Key(title, year), now2);
    r2, asked2 := c.FetchOnce(title, year, now2, hasKey, provider);
  }
}
