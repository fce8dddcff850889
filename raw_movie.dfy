/**
 * The record both row normalisers write to `src/data/movies.raw.jsonl`, and the pieces of it
 * they share: the first-`n` slice of a list and the fallback id of a row.
 */
module RawMovie {
  import opened Wrappers
  import opened Text

  /** A written record. */
  datatype Movie = Movie(
    id: string,
    title: string,
    year: Option<nat>,
    genres: seq<string>,
    cast: seq<string>,
    director: string,
    keywords: seq<string>,
    overview: string)

  /** At most the first `n` elements: `.slice(0, n)`. */
  function Take<T>(s: seq<T>, n: nat): (r: seq<T>)
    ensures |r| == if |s| <= n then |s| else n
    ensures r == s[..|r|]
  {
    if |s| <= n then s else s[..n]
  }

  /** The id fallback "m-<idx>". */
  function RowId(idx: nat): string {
    "m-" + NatToString(idx)
  }

  /** Different row numbers give different fallback ids. */
  lemma RowIdInjective(i: nat, j: nat)
    requires RowId(i) == RowId(j)
    ensures i == j
  {
    assert NatToString(i) == RowId(i)[2..];
    assert NatToString(j) == RowId(j)[2..];
    NatToStringRoundTrip(i);
    NatToStringRoundTrip(j);
  }
}
