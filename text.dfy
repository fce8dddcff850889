/**
 * String and number helpers shared by the scripts and the app: JavaScript's `trim`,
 * `toLowerCase`, `split` on a character class, `join`, `String(n)` and `Number(s)`,
 * and Python's `str.strip()` and `int(s)`.  Strings are sequences of characters (`char`);
 * only the ASCII letters A-Z change case, so lower-casing of other letters is not modelled.
 */
module Text {
  import opened Wrappers

  /** Whitespace removed by JavaScript's `trim` and matched by the regular-expression class `\s`. */
  predicate IsJsSpace(c: char) {
    c == ' ' || '\t' <= c <= '\r' || c == '\U{A0}' || c == '\U{1680}'
    || '\U{2000}' <= c <= '\U{200A}' || c == '\U{2028}' || c == '\U{2029}'
    || c == '\U{202F}' || c == '\U{205F}' || c == '\U{3000}' || c == '\U{FEFF}'
  }

  /** Whitespace removed by Python's `str.strip()` (it includes `\x1c`-`\x1f` and `\x85`, but not U+FEFF). */
  predicate IsPySpace(c: char) {
    c == ' ' || '\t' <= c <= '\r' || '\U{1C}' <= c <= '\U{1F}' || c == '\U{85}' || c == '\U{A0}'
    || c == '\U{1680}' || '\U{2000}' <= c <= '\U{200A}' || c == '\U{2028}' || c == '\U{2029}'
    || c == '\U{202F}' || c == '\U{205F}' || c == '\U{3000}'
  }

  /** `s` without its leading characters that satisfy `p`. */
  function DropLeading(s: string, p: char -> bool): (r: string)
    ensures |r| <= |s|
  {
    if s != [] && p(s[0]) then DropLeading(s[1..], p) else s
  }

  /** `s` without its trailing characters that satisfy `p`. */
  function DropTrailing(s: string, p: char -> bool): (r: string)
    ensures |r| <= |s|
  {
    if s != [] && p(s[|s| - 1]) then DropTrailing(s[..|s| - 1], p) else s
  }

  /** What `DropLeading` removes satisfies `p`, and what it keeps does not start with such a character. */
  lemma {:induction false} DropLeadingFacts(s: string, p: char -> bool)
    ensures var r := DropLeading(s, p);
      && r == s[|s| - |r|..]
      && (r == [] || !p(r[0]))
      && forall i :: 0 <= i < |s| - |r| ==> p(s[i])
  {
    if s != [] && p(s[0]) {
      var t := s[1..];
      DropLeadingFacts(t, p);
      var r := DropLeading(t, p);
      assert DropLeading(s, p) == r;
      forall i | 0 <= i < |s| - |r| ensures p(s[i]) {
        if i > 0 {
          assert s[i] == t[i - 1];
        }
      }
    }
  }

  /** What `DropTrailing` removes satisfies `p`, and what it keeps does not end with such a character. */
  lemma {:induction false} DropTrailingFacts(s: string, p: char -> bool)
    ensures var r := DropTrailing(s, p);
      && r == s[..|r|]
      && (r == [] || !p(r[|r| - 1]))
      && forall i :: |r| <= i < |s| ==> p(s[i])
  {
    if s != [] && p(s[|s| - 1]) {
      var t := s[..|s| - 1];
      DropTrailingFacts(t, p);
      var r := DropTrailing(t, p);
      assert DropTrailing(s, p) == r;
      forall i | |r| <= i < |s| ensures p(s[i]) {
        if i < |s| - 1 {
          assert s[i] == t[i];
        }
      }
    }
  }

  function StripBy(s: string, p: char -> bool): (r: string)
    ensures |r| <= |s|
  {
    DropTrailing(DropLeading(s, p), p)
  }

  /** The stripped string is a slice of the original that neither starts nor ends with a `p` character. */
  lemma StripByFacts(s: string, p: char -> bool)
    ensures var r := StripBy(s, p);
      && (r == [] || (!p(r[0]) && !p(r[|r| - 1])))
      && r == s[|s| - |DropLeading(s, p)|..][..|r|]
  {
    DropLeadingFacts(s, p);
    DropTrailingFacts(DropLeading(s, p), p);
  }

  /** JavaScript `s.trim()`. */
  function Trim(s: string): string {
    StripBy(s, IsJsSpace)
  }

  /** Python `s.strip()`. */
  function PyStrip(s: string): string {
    StripBy(s, IsPySpace)
  }

  /** Stripping removes everything exactly when every character is whitespace. */
  lemma StripEmptyIff(s: string, p: char -> bool)
    ensures StripBy(s, p) == [] <==> forall i :: 0 <= i < |s| ==> p(s[i])
  {
    DropLeadingFacts(s, p);
    var d := DropLeading(s, p);
    if d != [] {
      assert d[0] == s[|s| - |d|];
      DropTrailingFacts(d, p);
    }
  }

  /** A string that neither starts nor ends with whitespace is left as it is. */
  lemma StripUnchanged(s: string, p: char -> bool)
    requires s == [] || (!p(s[0]) && !p(s[|s| - 1]))
    ensures StripBy(s, p) == s
  {
  }

  /** Stripping twice is stripping once. */
  lemma StripIdempotent(s: string, p: char -> bool)
    ensures StripBy(StripBy(s, p), p) == StripBy(s, p)
  {
    StripByFacts(s, p);
    StripUnchanged(StripBy(s, p), p);
  }

  /**
   * JavaScript `s.replace(/[…]+/g, c)`, for a character class `p`: every maximal run of
   * characters that satisfy `p` becomes one `c`.
   */
  function ReplaceRuns(s: string, p: char -> bool, c: char): (r: string)
    ensures s == [] <==> r == []
    ensures s != [] ==> r[0] == if p(s[0]) then c else s[0]
    decreases |s|
  {
    if s == [] then []
    else if p(s[0]) then [c] + ReplaceRuns(DropLeading(s[1..], p), p, c)
    else [s[0]] + ReplaceRuns(s[1..], p, c)
  }

  /** Every character of `s` is either `c` or one that `p` rejects. */
  predicate OnlyKeptOr(s: string, p: char -> bool, c: char) {
    forall i :: 0 <= i < |s| ==> s[i] == c || !p(s[i])
  }

  /** `c` never appears twice in a row in `s`. */
  predicate NoDoubled(s: string, c: char) {
    forall i :: 0 <= i < |s| - 1 ==> !(s[i] == c && s[i + 1] == c)
  }

  /** After the replacement only `c` is left of the class `p`. */
  lemma {:induction false} ReplaceRunsChars(s: string, p: char -> bool, c: char)
    ensures OnlyKeptOr(ReplaceRuns(s, p, c), p, c)
    decreases |s|
  {
    if s != [] {
      var r := ReplaceRuns(s, p, c);
      if p(s[0]) {
        var d := DropLeading(s[1..], p);
        ReplaceRunsChars(d, p, c);
        assert r == [c] + ReplaceRuns(d, p, c);
      } else {
        ReplaceRunsChars(s[1..], p, c);
        assert r == [s[0]] + ReplaceRuns(s[1..], p, c);
      }
    }
  }

  /** When `c` itself belongs to the class, the replacement never leaves two `c` in a row. */
  lemma {:induction false} ReplaceRunsNoDoubled(s: string, p: char -> bool, c: char)
    requires p(c)
    ensures NoDoubled(ReplaceRuns(s, p, c), c)
    decreases |s|
  {
    if s != [] {
      var r := ReplaceRuns(s, p, c);
      if p(s[0]) {
        var d := DropLeading(s[1..], p);
        DropLeadingFacts(s[1..], p);
        var t := ReplaceRuns(d, p, c);
        ReplaceRunsNoDoubled(d, p, c);
        assert r == [c] + t;
        assert t == [] || t[0] != c;
        forall i | 0 <= i < |r| - 1 ensures !(r[i] == c && r[i + 1] == c) {
          assert r[i + 1] == t[i];
          if i > 0 { assert r[i] == t[i - 1]; }
        }
      } else {
        var t := ReplaceRuns(s[1..], p, c);
        ReplaceRunsNoDoubled(s[1..], p, c);
        assert r == [s[0]] + t;
        forall i | 0 <= i < |r| - 1 ensures !(r[i] == c && r[i + 1] == c) {
          if i > 0 { assert r[i] == t[i - 1] && r[i + 1] == t[i]; }
        }
      }
    }
  }

  /** A string with no other character of the class and no doubled `c` is its own replacement. */
  lemma {:induction false} ReplaceRunsFixed(s: string, p: char -> bool, c: char)
    requires OnlyKeptOr(s, p, c) && NoDoubled(s, c) && p(c)
    ensures ReplaceRuns(s, p, c) == s
    decreases |s|
  {
    if s != [] {
      var t := s[1..];
      assert OnlyKeptOr(t, p, c) && NoDoubled(t, c) by {
        forall i | 0 <= i < |t| ensures t[i] == c || !p(t[i]) {
          assert t[i] == s[i + 1];
        }
        forall i | 0 <= i < |t| - 1 ensures !(t[i] == c && t[i + 1] == c) {
          assert t[i] == s[i + 1] && t[i + 1] == s[i + 2];
        }
      }
      ReplaceRunsFixed(t, p, c);
      if p(s[0]) {
        assert s[0] == c;
        assert DropLeading(t, p) == t by {
          if t != [] {
            assert t[0] == s[1];
          }
        }
      }
      assert [s[0]] + t == s;
    }
  }

  /** A slice keeps both shapes of the string it is cut from. */
  lemma SliceShape(s: string, k: nat, t: string, p: char -> bool, c: char)
    requires k + |t| <= |s| && t == s[k..k + |t|]
    ensures OnlyKeptOr(s, p, c) ==> OnlyKeptOr(t, p, c)
    ensures NoDoubled(s, c) ==> NoDoubled(t, c)
  {
    forall i | 0 <= i < |t| ensures t[i] == s[k + i] {
    }
  }

  /** Stripping keeps both shapes. */
  lemma StripShape(s: string, q: char -> bool, p: char -> bool, c: char)
    ensures OnlyKeptOr(s, p, c) ==> OnlyKeptOr(StripBy(s, q), p, c)
    ensures NoDoubled(s, c) ==> NoDoubled(StripBy(s, q), c)
  {
    StripByFacts(s, q);
    var r := StripBy(s, q);
    var k := |s| - |DropLeading(s, q)|;
    assert r == s[k..k + |r|];
    SliceShape(s, k, r, p, c);
  }

  /** Every character of `s` satisfies `q`. */
  predicate All(s: string, q: char -> bool) {
    forall i :: 0 <= i < |s| ==> q(s[i])
  }

  /** The replacement keeps a property that `c` and every character of `s` have. */
  lemma {:induction false} ReplaceRunsAll(s: string, p: char -> bool, c: char, q: char -> bool)
    requires All(s, q) && q(c)
    ensures All(ReplaceRuns(s, p, c), q)
    decreases |s|
  {
    if s != [] {
      var t := s[1..];
      assert All(t, q) by {
        forall i | 0 <= i < |t| ensures q(t[i]) {
          assert t[i] == s[i + 1];
        }
      }
      if p(s[0]) {
        var d := DropLeading(t, p);
        DropLeadingFacts(t, p);
        assert All(d, q) by {
          forall i | 0 <= i < |d| ensures q(d[i]) {
            assert d[i] == t[|t| - |d| + i];
          }
        }
        ReplaceRunsAll(d, p, c, q);
        assert ReplaceRuns(s, p, c) == [c] + ReplaceRuns(d, p, c);
      } else {
        ReplaceRunsAll(t, p, c, q);
        assert ReplaceRuns(s, p, c) == [s[0]] + ReplaceRuns(t, p, c);
      }
    }
  }

  /** Stripping keeps a property of every character. */
  lemma StripAll(s: string, p: char -> bool, q: char -> bool)
    requires All(s, q)
    ensures All(StripBy(s, p), q)
  {
    StripByFacts(s, p);
    var r := StripBy(s, p);
    var k := |s| - |DropLeading(s, p)|;
    assert r == s[k..k + |r|];
    forall i | 0 <= i < |r| ensures q(r[i]) {
      assert r[i] == s[k + i];
    }
  }

  /** The characters of `s` that `p` rejects, in order. */
  function Kept(s: string, p: char -> bool): string {
    if s == [] then [] else (if p(s[0]) then [] else [s[0]]) + Kept(s[1..], p)
  }

  lemma {:induction false} KeptAppend(a: string, b: string, p: char -> bool)
    ensures Kept(a + b, p) == Kept(a, p) + Kept(b, p)
  {
    if a != [] {
      KeptAppend(a[1..], b, p);
      assert (a + b)[0] == a[0];
      assert (a + b)[1..] == a[1..] + b;
    } else {
      assert a + b == b;
    }
  }

  lemma {:induction false} KeptNone(s: string, p: char -> bool)
    requires forall i :: 0 <= i < |s| ==> p(s[i])
    ensures Kept(s, p) == []
  {
    if s != [] {
      KeptNone(s[1..], p);
    }
  }

  /** Dropping a prefix made only of class characters keeps the kept characters. */
  lemma {:induction false} KeptDropPrefix(s: string, k: nat, p: char -> bool)
    requires k <= |s|
    requires forall i :: 0 <= i < k ==> p(s[i])
    ensures Kept(s[k..], p) == Kept(s, p)
  {
    if k > 0 {
      KeptDropPrefix(s[1..], k - 1, p);
      assert s[1..][k - 1..] == s[k..];
    } else {
      assert s[0..] == s;
    }
  }

  /** Dropping a suffix made only of class characters keeps the kept characters. */
  lemma KeptDropSuffix(s: string, k: nat, p: char -> bool)
    requires k <= |s|
    requires forall i :: k <= i < |s| ==> p(s[i])
    ensures Kept(s[..k], p) == Kept(s, p)
  {
    assert s == s[..k] + s[k..];
    KeptAppend(s[..k], s[k..], p);
    KeptNone(s[k..], p);
    assert Kept(s[..k], p) + [] == Kept(s[..k], p);
  }

  /**
   * The replacement keeps every character outside a class `q` that contains both the
   * replaced class and the replacement, in order.
   */
  lemma {:induction false} ReplaceRunsKeeps(s: string, p: char -> bool, c: char, q: char -> bool)
    requires q(c) && forall x :: p(x) ==> q(x)
    ensures Kept(ReplaceRuns(s, p, c), q) == Kept(s, q)
    decreases |s|
  {
    if s != [] {
      var t := s[1..];
      if p(s[0]) {
        var d := DropLeading(t, p);
        DropLeadingFacts(t, p);
        var r := ReplaceRuns(d, p, c);
        ReplaceRunsKeeps(d, p, c, q);
        KeptDropPrefix(t, |t| - |d|, q);
        assert ReplaceRuns(s, p, c) == [c] + r;
        assert ([c] + r)[1..] == r;
      } else {
        var r := ReplaceRuns(t, p, c);
        ReplaceRunsKeeps(t, p, c, q);
        assert ReplaceRuns(s, p, c) == [s[0]] + r;
        assert ([s[0]] + r)[1..] == r;
      }
    }
  }

  /** Stripping characters of the class keeps every character outside it. */
  lemma StripKeeps(s: string, q: char -> bool, p: char -> bool)
    requires forall x :: q(x) ==> p(x)
    ensures Kept(StripBy(s, q), p) == Kept(s, p)
  {
    var d := DropLeading(s, q);
    DropLeadingFacts(s, q);
    DropTrailingFacts(d, q);
    var k := |s| - |d|;
    var r := DropTrailing(d, q);
    KeptDropPrefix(s, k, p);
    KeptDropSuffix(d, |r|, p);
  }

  /** No element occurs twice. */
  predicate Distinct<T(==)>(s: seq<T>) {
    forall i, j :: 0 <= i < j < |s| ==> s[i] != s[j]
  }

  /** JavaScript truthiness of an optional string (`None` for `null` or `undefined`). */
  predicate Truthy(s: Option<string>) {
    s.Some? && s.value != ""
  }

  /**
   * The property names every plain JavaScript object inherits from `Object.prototype`.
   * Reading one of them from an object that has no own property of that name gives a
   * function (or, for `__proto__`, the prototype itself): a truthy value that is not an array.
   */
  const ProtoKeys: set<string> := {
    "constructor", "hasOwnProperty", "isPrototypeOf", "propertyIsEnumerable", "toLocaleString",
    "toString", "valueOf", "__defineGetter__", "__defineSetter__", "__lookupGetter__",
    "__lookupSetter__", "__proto__"}

  /** `obj[key]` reads an inherited value: `key` is not an own key of `obj` but a prototype name. */
  predicate Inherited<V>(obj: map<string, V>, key: string) {
    key !in obj && key in ProtoKeys
  }

  /** ASCII `toLowerCase` of one character. */
  function LowerChar(c: char): char {
    if 'A' <= c <= 'Z' then (c as int + 32) as char else c
  }

  predicate IsUpper(c: char) {
    'A' <= c <= 'Z'
  }

  /** `s.toLowerCase()` restricted to ASCII letters. */
  function ToLower(s: string): (r: string)
    ensures |r| == |s|
    ensures forall i :: 0 <= i < |s| ==> r[i] == LowerChar(s[i]) && !IsUpper(r[i])
  {
    seq(|s|, i requires 0 <= i < |s| => LowerChar(s[i]))
  }

  predicate NotUpper(c: char) {
    !IsUpper(c)
  }

  /** Lower-casing leaves a string without capitals as it is. */
  lemma ToLowerFixed(s: string)
    requires forall i :: 0 <= i < |s| ==> !IsUpper(s[i])
    ensures ToLower(s) == s
  {
  }

  /** Lower-casing twice is lower-casing once. */
  lemma ToLowerIdempotent(s: string)
    ensures ToLower(ToLower(s)) == ToLower(s)
  {
    ToLowerFixed(ToLower(s));
  }

  /** The predicate "is the character `c`", so that splitting on one character is `Split(s, Is(c))`. */
  function Is(c: char): char -> bool {
    x => x == c
  }

  /** JavaScript `s.split(re)` where `re` matches one separator character at a time. */
  function Split(s: string, isSep: char -> bool): (r: seq<string>)
    ensures |r| >= 1
  {
    if s == [] then [""]
    else if isSep(s[0]) then [""] + Split(s[1..], isSep)
    else
      var t := Split(s[1..], isSep);
      [[s[0]] + t[0]] + t[1..]
  }

  /** A string without separators is one piece. */
  lemma {:induction false} SplitNoSeparator(s: string, isSep: char -> bool)
    requires forall i :: 0 <= i < |s| ==> !isSep(s[i])
    ensures Split(s, isSep) == [s]
  {
    if s != [] {
      SplitNoSeparator(s[1..], isSep);
      assert [s[0]] + s[1..] == s;
    }
  }

  /** A first piece without separators, then a separator, then the pieces of the rest. */
  lemma {:induction false} SplitAfterPiece(a: string, c: char, b: string, isSep: char -> bool)
    requires forall i :: 0 <= i < |a| ==> !isSep(a[i])
    requires isSep(c)
    ensures Split(a + [c] + b, isSep) == [a] + Split(b, isSep)
  {
    var s := a + [c] + b;
    if a == [] {
      assert s[1..] == b;
    } else {
      SplitAfterPiece(a[1..], c, b, isSep);
      assert s[1..] == a[1..] + [c] + b;
      assert [a[0]] + a[1..] == a;
    }
  }

  /** Number of characters of `s` that satisfy `p`. */
  function CountWhere(s: string, p: char -> bool): nat {
    if s == [] then 0 else (if p(s[0]) then 1 else 0) + CountWhere(s[1..], p)
  }

  /** JavaScript `parts.join(sep)`. */
  function Join(parts: seq<string>, sep: string): string {
    if |parts| == 0 then ""
    else if |parts| == 1 then parts[0]
    else parts[0] + sep + Join(parts[1..], sep)
  }

  /** There is one more piece than there are separators. */
  lemma {:induction false} SplitCount(s: string, isSep: char -> bool)
    ensures |Split(s, isSep)| == 1 + CountWhere(s, isSep)
  {
    if s != [] {
      SplitCount(s[1..], isSep);
    }
  }

  /** No piece contains a separator. */
  lemma {:induction false} SplitPiecesHaveNoSeparator(s: string, isSep: char -> bool)
    ensures forall k, j :: 0 <= k < |Split(s, isSep)| && 0 <= j < |Split(s, isSep)[k]| ==> !isSep(Split(s, isSep)[k][j])
  {
    if s != [] {
      SplitPiecesHaveNoSeparator(s[1..], isSep);
    }
  }

  /** Joining the pieces of a split on one character with that character gives back the string. */
  lemma {:induction false} JoinSplit(s: string, c: char)
    ensures Join(Split(s, Is(c)), [c]) == s
  {
    if s != [] {
      var t := Split(s[1..], Is(c));
      JoinSplit(s[1..], c);
      if s[0] == c {
        assert Split(s, Is(c)) == [""] + t;
        assert Join([""] + t, [c]) == "" + [c] + Join(t, [c]) by {
          assert ([""] + t)[1..] == t;
        }
        assert s == [c] + s[1..];
      } else {
        assert Split(s, Is(c)) == [[s[0]] + t[0]] + t[1..];
        if |t| == 1 {
          assert s == [s[0]] + s[1..];
        } else {
          var u := [[s[0]] + t[0]] + t[1..];
          assert u[1..] == t[1..];
          assert Join(t, [c]) == t[0] + [c] + Join(t[1..], [c]);
          assert s == [s[0]] + s[1..];
        }
      }
    }
  }

  /** The pieces trimmed, with the empty ones dropped: `.map(s => s.trim()).filter(Boolean)`. */
  function TrimmedPieces(parts: seq<string>): (r: seq<string>)
    ensures |r| <= |parts|
  {
    if parts == [] then []
    else
      var t := Trim(parts[0]);
      (if t == "" then [] else [t]) + TrimmedPieces(parts[1..])
  }

  /** Trimming adds no character: a string free of separators stays free of them. */
  lemma TrimKeepsNoSeparator(s: string, isSep: char -> bool)
    requires forall j :: 0 <= j < |s| ==> !isSep(s[j])
    ensures forall j :: 0 <= j < |Trim(s)| ==> !isSep(Trim(s)[j])
  {
    StripByFacts(s, IsJsSpace);
    var k := |s| - |DropLeading(s, IsJsSpace)|;
    var t := Trim(s);
    forall j | 0 <= j < |t| ensures !isSep(t[j]) {
      assert t[j] == s[k + j];
    }
  }

  /** Neither starts nor ends with whitespace, so `Trim` leaves it as it is. */
  predicate IsTrimmed(p: string) {
    p == [] || (!IsJsSpace(p[0]) && !IsJsSpace(p[|p| - 1]))
  }

  /** Trimming leaves nothing exactly when the text is all whitespace; otherwise it is a slice of it. */
  lemma TrimBlankIff(s: string)
    ensures Trim(s) == [] <==> forall i :: 0 <= i < |s| ==> IsJsSpace(s[i])
    ensures Trim(s) == s[|s| - |DropLeading(s, IsJsSpace)|..][..|Trim(s)|]
  {
    StripEmptyIff(s, IsJsSpace);
    StripByFacts(s, IsJsSpace);
  }

  lemma TrimIsTrimmed(s: string)
    ensures IsTrimmed(Trim(s))
  {
    StripByFacts(s, IsJsSpace);
  }

  /** The trimmed pieces are non-empty and trimmed, and hold no separator when the pieces hold none. */
  lemma {:induction false} TrimmedPiecesShape(parts: seq<string>, isSep: char -> bool)
    requires forall k, j :: 0 <= k < |parts| && 0 <= j < |parts[k]| ==> !isSep(parts[k][j])
    ensures forall i :: 0 <= i < |TrimmedPieces(parts)| ==>
      TrimmedPieces(parts)[i] != [] && IsTrimmed(TrimmedPieces(parts)[i])
      && forall j :: 0 <= j < |TrimmedPieces(parts)[i]| ==> !isSep(TrimmedPieces(parts)[i][j])
  {
    if parts != [] {
      var tail := parts[1..];
      forall k, j | 0 <= k < |tail| && 0 <= j < |tail[k]| ensures !isSep(tail[k][j]) {
        assert tail[k] == parts[k + 1];
      }
      TrimmedPiecesShape(tail, isSep);
      var t := Trim(parts[0]);
      TrimIsTrimmed(parts[0]);
      TrimKeepsNoSeparator(parts[0], isSep);
      var rest := TrimmedPieces(tail);
      var r := TrimmedPieces(parts);
      assert r == (if t == "" then [] else [t]) + rest;
      forall i | 0 <= i < |r|
        ensures r[i] != [] && IsTrimmed(r[i]) && forall j :: 0 <= j < |r[i]| ==> !isSep(r[i][j])
      {
        if t != "" && i == 0 {
          assert r[i] == t;
        } else {
          assert r[i] == rest[if t == "" then i else i - 1];
        }
      }
    }
  }

  /** `s.split(re).map(x => x.trim()).filter(Boolean)`. */
  /** Pieces that are already non-empty and trimmed come through unchanged. */
  lemma {:induction false} TrimmedPiecesKeeps(parts: seq<string>)
    requires forall i :: 0 <= i < |parts| ==> parts[i] != [] && IsTrimmed(parts[i])
    ensures TrimmedPieces(parts) == parts
  {
    if parts != [] {
      StripUnchanged(parts[0], IsJsSpace);
      TrimmedPiecesKeeps(parts[1..]);
      assert [parts[0]] + parts[1..] == parts;
    }
  }

  function SplitTrimmed(s: string, isSep: char -> bool): seq<string> {
    TrimmedPieces(Split(s, isSep))
  }

  function StartsWith(s: string, prefix: string): bool {
    |prefix| <= |s| && s[..|prefix|] == prefix
  }

  function EndsWith(s: string, suffix: string): bool {
    |suffix| <= |s| && s[|s| - |suffix|..] == suffix
  }

  /** Splitting pieces joined by a separator that none of them contains gives the pieces back. */
  lemma {:induction false} SplitJoin(parts: seq<string>, c: char, isSep: char -> bool)
    requires |parts| >= 1 && isSep(c)
    requires forall k, j :: 0 <= k < |parts| && 0 <= j < |parts[k]| ==> !isSep(parts[k][j])
    ensures Split(Join(parts, [c]), isSep) == parts
  {
    SplitNoSeparator(parts[0], isSep);
    if |parts| > 1 {
      var rest := parts[1..];
      forall k, j | 0 <= k < |rest| && 0 <= j < |rest[k]| ensures !isSep(rest[k][j]) {
        assert rest[k] == parts[k + 1];
      }
      SplitJoin(rest, c, isSep);
      SplitAfterPiece(parts[0], c, Join(rest, [c]), isSep);
      assert [parts[0]] + rest == parts;
    }
  }

  // ---------------------------------------------------------------------------
  // Numbers

  predicate IsDigit(c: char) {
    '0' <= c <= '9'
  }

  predicate AllDigits(s: string) {
    forall i :: 0 <= i < |s| ==> IsDigit(s[i])
  }

  function DigitChar(d: nat): (c: char)
    requires d < 10
    ensures IsDigit(c)
  {
    ('0' as int + d) as char
  }

  /** Decimal value of a string of digits. */
  function DigitsValue(s: string): nat
    requires AllDigits(s)
  {
    if s == [] then 0 else DigitsValue(s[..|s| - 1]) * 10 + (s[|s| - 1] as int - '0' as int)
  }

  /** A string of zeros denotes 0. */
  lemma {:induction false} DigitsValueZeros(s: string)
    requires forall i :: 0 <= i < |s| ==> s[i] == '0'
    ensures AllDigits(s) && DigitsValue(s) == 0
  {
    if s != [] {
      DigitsValueZeros(s[..|s| - 1]);
    }
  }

  /** Decimal notation of a natural number, as JavaScript's `String(n)` writes it. */
  function NatToString(n: nat): (r: string)
    ensures |r| >= 1 && AllDigits(r)
  {
    if n < 10 then [DigitChar(n)] else NatToString(n / 10) + [DigitChar(n % 10)]
  }

  /** `String(i)` for an integer (a minus sign before negative values). */
  function IntToString(i: int): (r: string)
    ensures |r| >= 1
    ensures forall j :: 0 <= j < |r| ==> IsDigit(r[j]) || r[j] == '-'
  {
    if i < 0 then "-" + NatToString(-i) else NatToString(i)
  }

  /** Reading back the decimal notation of `n` gives `n`. */
  lemma {:induction false} NatToStringRoundTrip(n: nat)
    ensures DigitsValue(NatToString(n)) == n
  {
    if n >= 10 {
      NatToStringRoundTrip(n / 10);
      var s := NatToString(n);
      assert s[..|s| - 1] == NatToString(n / 10);
    }
  }

  function Pow10(k: nat): (r: nat)
    ensures r >= 1
  {
    if k == 0 then 1 else 10 * Pow10(k - 1)
  }

  /** A string of `k` digits denotes a number below 10^k. */
  lemma {:induction false} DigitsValueBound(s: string)
    requires AllDigits(s)
    ensures DigitsValue(s) < Pow10(|s|)
  {
    if s != [] {
      var t := s[..|s| - 1];
      DigitsValueBound(t);
      assert IsDigit(s[|s| - 1]);
      assert DigitsValue(s) <= (Pow10(|t|) - 1) * 10 + 9;
    }
  }

  /** A number with `k + 1` digits is written with `k + 1` characters. */
  lemma {:induction false} NatToStringLength(n: nat, k: nat)
    requires Pow10(k) <= n < Pow10(k + 1)
    ensures |NatToString(n)| == k + 1
  {
    if k > 0 {
      assert Pow10(k) == 10 * Pow10(k - 1);
      assert Pow10(k + 1) == 10 * Pow10(k);
      assert Pow10(k - 1) <= n / 10 < Pow10(k);
      NatToStringLength(n / 10, k - 1);
    }
  }

  /**
   * `/^(\d{4})/` followed by `Number(...)`: the number written by the first four
   * characters when they are all digits.
   */
  function LeadingYear(d: string): (y: Option<nat>)
    ensures y.Some? ==> y.value < 10000
  {
    if |d| >= 4 && AllDigits(d[..4]) then
      DigitsValueBound(d[..4]);
      Some(DigitsValue(d[..4]))
    else None
  }

  /** A date that starts with a four-digit year gives back that year. */
  lemma LeadingYearOfWritten(y: nat, rest: string)
    requires 1000 <= y < 10000
    ensures LeadingYear(NatToString(y) + rest) == Some(y)
  {
    assert Pow10(3) == 1000 && Pow10(4) == 10000;
    NatToStringLength(y, 3);
    NatToStringRoundTrip(y);
    var d := NatToString(y) + rest;
    assert d[..4] == NatToString(y);
  }

  /** A date whose first four characters are not all digits gives no year. */
  lemma LeadingYearNeedsDigits(d: string, i: nat)
    requires i < 4 && i < |d| && !IsDigit(d[i])
    ensures LeadingYear(d) == None
  {
    if |d| >= 4 {
      assert d[..4][i] == d[i];
    }
  }

  /** Reads a running-time label of the form "Ym" or "Xh Ym" back into minutes. */
  function ReadRuntime(s: string): Option<int> {
    if s == [] || s[|s| - 1] != 'm' then None
    else
      var pieces := Split(s[..|s| - 1], Is(' '));
      if |pieces| == 1 && pieces[0] != "" && AllDigits(pieces[0]) then Some(DigitsValue(pieces[0]))
      else if |pieces| == 2 && |pieces[0]| >= 2 && pieces[0][|pieces[0]| - 1] == 'h'
              && AllDigits(pieces[0][..|pieces[0]| - 1]) && pieces[1] != "" && AllDigits(pieces[1]) then
        Some(60 * DigitsValue(pieces[0][..|pieces[0]| - 1]) + DigitsValue(pieces[1]))
      else None
  }

  /** A minutes-only label reads back as its digits. */
  lemma ReadRuntimeMinutes(ms: string)
    requires ms != [] && AllDigits(ms)
    ensures ReadRuntime(ms + "m") == Some(DigitsValue(ms))
  {
    var s := ms + "m";
    assert s[..|s| - 1] == ms;
    assert forall i :: 0 <= i < |ms| ==> !Is(' ')(ms[i]) by {
      forall i | 0 <= i < |ms| ensures !Is(' ')(ms[i]) { assert IsDigit(ms[i]); }
    }
    SplitNoSeparator(ms, Is(' '));
  }

  /** An hours-and-minutes label reads back as sixty times its hours plus its minutes. */
  lemma ReadRuntimeHours(hs: string, ms: string)
    requires hs != [] && AllDigits(hs) && ms != [] && AllDigits(ms)
    ensures ReadRuntime(hs + "h " + ms + "m") == Some(60 * DigitsValue(hs) + DigitsValue(ms))
  {
    var s := hs + "h " + ms + "m";
    assert s == (hs + "h") + [' '] + ms + ['m'];
    assert s[..|s| - 1] == (hs + "h") + [' '] + ms;
    SplitHoursMinutes(hs, ms);
    ReadRuntimeTwoPieces(s, hs, ms);
  }

  lemma ReadRuntimeTwoPieces(s: string, hs: string, ms: string)
    requires s != [] && s[|s| - 1] == 'm' && Split(s[..|s| - 1], Is(' ')) == [hs + "h", ms]
    requires hs != [] && AllDigits(hs) && ms != [] && AllDigits(ms)
    ensures ReadRuntime(s) == Some(60 * DigitsValue(hs) + DigitsValue(ms))
  {
    assert (hs + "h")[..|hs|] == hs;
  }

  lemma SplitHoursMinutes(hs: string, ms: string)
    requires AllDigits(hs) && AllDigits(ms)
    ensures Split((hs + "h") + [' '] + ms, Is(' ')) == [hs + "h", ms]
  {
    var hh := hs + "h";
    assert forall i :: 0 <= i < |ms| ==> !Is(' ')(ms[i]) by {
      forall i | 0 <= i < |ms| ensures !Is(' ')(ms[i]) { assert IsDigit(ms[i]); }
    }
    assert forall i :: 0 <= i < |hh| ==> !Is(' ')(hh[i]) by {
      forall i | 0 <= i < |hh| ensures !Is(' ')(hh[i]) {
        if i < |hs| { assert IsDigit(hs[i]); }
      }
    }
    SplitNoSeparator(ms, Is(' '));
    SplitAfterPiece(hh, ' ', ms, Is(' '));
  }


  /**
   * JavaScript `Number(s)` for the integer notations: surrounding whitespace is ignored,
   * the empty string is 0, an optional sign is followed by decimal digits; anything else
   * is NaN (`None`).
   */
  function JsNumber(s: string): Option<int> {
    var t := Trim(s);
    if t == "" then Some(0) else SignedDigits(t)
  }

  /** An optional sign followed by at least one decimal digit, and nothing else. */
  function SignedDigits(t: string): Option<int> {
    if |t| > 1 && (t[0] == '-' || t[0] == '+') && AllDigits(t[1..]) then
      var v: int := DigitsValue(t[1..]);
      Some(if t[0] == '-' then -v else v)
    else if t != "" && AllDigits(t) then Some(DigitsValue(t))
    else None
  }

  /** The decimal notation of an integer has no surrounding whitespace. */
  lemma IntToStringTrimmed(i: int)
    ensures Trim(IntToString(i)) == IntToString(i)
  {
    var s := IntToString(i);
    assert IsDigit(s[0]) || s[0] == '-';
    assert IsDigit(s[|s| - 1]) by {
      if i < 0 {
        assert s[|s| - 1] == NatToString(-i)[|NatToString(-i)| - 1];
      }
    }
    StripUnchanged(s, IsJsSpace);
  }

  lemma SignedDigitsOfNat(n: nat)
    ensures SignedDigits(NatToString(n)) == Some(n)
  {
    var s := NatToString(n);
    NatToStringRoundTrip(n);
    assert IsDigit(s[0]);
  }

  lemma SignedDigitsOfNegative(n: nat)
    requires n > 0
    ensures SignedDigits("-" + NatToString(n)) == Some(-(n as int))
  {
    var s := "-" + NatToString(n);
    NatToStringRoundTrip(n);
    assert s[1..] == NatToString(n);
  }

  /**
   * A blank text reads as 0, and a negative number only comes from a text whose trimmed
   * form starts with '-'.
   */
  lemma JsNumberBlank(s: string)
    ensures (forall i :: 0 <= i < |s| ==> IsJsSpace(s[i])) ==> JsNumber(s) == Some(0)
    ensures JsNumber(s).Some? && JsNumber(s).value < 0 ==> Trim(s) != "" && Trim(s)[0] == '-'
  {
    StripEmptyIff(s, IsJsSpace);
  }

  /** `Number(String(i)) === i`. */
  lemma JsNumberIntToString(i: int)
    ensures JsNumber(IntToString(i)) == Some(i)
  {
    IntToStringTrimmed(i);
    if i < 0 {
      SignedDigitsOfNegative(-i);
    } else {
      SignedDigitsOfNat(i);
    }
  }

  /** Different integers are written differently. */
  lemma IntToStringInjective(a: int, b: int)
    requires IntToString(a) == IntToString(b)
    ensures a == b
  {
    JsNumberIntToString(a);
    JsNumberIntToString(b);
  }

  /** Python `int(s)` for a string: surrounding whitespace ignored, optional sign, decimal digits. */
  function PyInt(s: string): Option<int> {
    SignedDigits(PyStrip(s))
  }

  /**
   * Unlike `Number`, `int` rejects a blank text; a negative number only comes from a text
   * whose stripped form starts with '-'.
   */
  lemma PyIntBlank(s: string)
    ensures (forall i :: 0 <= i < |s| ==> IsPySpace(s[i])) ==> PyInt(s) == None
    ensures PyInt(s).Some? && PyInt(s).value < 0 ==> PyStrip(s) != "" && PyStrip(s)[0] == '-'
  {
    StripEmptyIff(s, IsPySpace);
  }

  /** `int(str(i))` gives `i` back. */
  lemma PyIntIntToString(i: int)
    ensures PyInt(IntToString(i)) == Some(i)
  {
    var s := IntToString(i);
    assert IsDigit(s[0]) || s[0] == '-';
    assert IsDigit(s[|s| - 1]) by {
      if i < 0 {
        assert s[|s| - 1] == NatToString(-i)[|NatToString(-i)| - 1];
      }
    }
    StripUnchanged(s, IsPySpace);
    if i < 0 {
      SignedDigitsOfNegative(-i);
    } else {
      SignedDigitsOfNat(i);
    }
  }
}
