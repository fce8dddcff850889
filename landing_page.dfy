/**
 * The state logic of the landing page (`src/app/page.tsx`): the banner carousel's slide
 * index, which autoplay, arrow keys, the previous/next buttons and the dots move, and the
 * search bar's submit, which sends the visitor to the search page.
 *
 * Timers, animation and rendering are not modelled: an autoplay tick is a call to `Tick`.
 */
module LandingPage {
  import opened Wrappers
  import opened Text
  import SearchPage

  /** The remainder of `a >= 0` by `b > 0`, by repeated subtraction. */
  function Rem(a: nat, b: int): (r: nat)
    requires b > 0
    ensures r < b
    ensures r <= a
    decreases a
  {
    if a < b then a else Rem(a - b, b)
  }

  /** JavaScript `a % b` for `b > 0`: the remainder takes the sign of `a`. */
  function JsRem(a: int, b: int): (r: int)
    requires b > 0
    ensures a >= 0 ==> 0 <= r < b
    ensures a < 0 ==> -b < r <= 0
  {
    if a >= 0 then Rem(a, b) else -(Rem(-a, b) as int)
  }

  /** Below three times the divisor, the remainder takes at most two subtractions. */
  lemma RemSmall(a: int, b: int)
    requires b > 0 && 0 <= a < 3 * b
    ensures JsRem(a, b) == if a < b then a else if a < 2 * b then a - b else a - 2 * b
  {
    if a >= b {
      assert Rem(a, b) == Rem(a - b, b);
      if a - b >= b {
        assert Rem(a - b, b) == Rem(a - 2 * b, b);
      }
    }
  }

  /** `(i + dir + total) % total`, the index after `go(dir)`. */
  function Step(i: int, dir: int, total: int): (r: int)
    requires total > 0
    ensures 0 <= i < total && -1 <= dir <= 1 ==> 0 <= r < total
  {
    JsRem(i + dir + total, total)
  }

  /** One step forward from a valid index: the next slide, or the first after the last. */
  lemma StepForward(i: int, total: int)
    requires total > 0 && 0 <= i < total
    ensures Step(i, 1, total) == if i + 1 < total then i + 1 else 0
    ensures JsRem(i + 1, total) == Step(i, 1, total)
  {
    RemSmall(i + 1 + total, total);
    RemSmall(i + 1, total);
  }

  /** One step back from a valid index: the previous slide, or the last before the first. */
  lemma StepBack(i: int, total: int)
    requires total > 0 && 0 <= i < total
    ensures Step(i, -1, total) == if i > 0 then i - 1 else total - 1
  {
    RemSmall(i - 1 + total, total);
  }

  /** `go(1)` then `go(-1)`, or the other way round, returns to the starting slide. */
  lemma GoInverse(i: int, total: int)
    requires total > 0 && 0 <= i < total
    ensures Step(Step(i, 1, total), -1, total) == i
    ensures Step(Step(i, -1, total), 1, total) == i
  {
    StepForward(i, total);
    StepBack(i, total);
    StepBack(Step(i, 1, total), total);
    StepForward(Step(i, -1, total), total);
  }

  /** The index after `n` forward steps from `i`. */
  function Forward(i: int, n: nat, total: int): (r: int)
    requires total > 0 && 0 <= i < total
    ensures 0 <= r < total
    decreases n
  {
    if n == 0 then i else Step(Forward(i, n - 1, total), 1, total)
  }

  /** After `n` forward steps, with `i + n` short of a full turn, the carousel shows slide `i + n`. */
  lemma {:induction false} ForwardSteps(i: int, n: nat, total: int)
    requires total > 0 && 0 <= i < total && i + n < total
    ensures Forward(i, n, total) == i + n
    decreases n
  {
    if n > 0 {
      ForwardSteps(i, n - 1, total);
      StepForward(i + n - 1, total);
    }
  }

  /** Autoplay visits every slide and, after `total` ticks, is back on the first one. */
  lemma FullTurn(total: int)
    requires total > 0
    ensures forall n: nat :: n < total ==> Forward(0, n, total) == n
    ensures Forward(0, total as nat, total) == 0
  {
    forall n: nat | n < total ensures Forward(0, n, total) == n {
      ForwardSteps(0, n, total);
    }
    ForwardSteps(0, total - 1, total);
    StepForward(total - 1, total);
  }

  /** `BannerCarousel`: which slide is shown, and whether the mouse is over it. */
  class BannerCarousel {
    /** `items.length`. */
    const total: int
    const reducedMotion: bool
    var index: int
    var hovering: bool

    predicate Valid()
      reads this
    {
      total > 0 && 0 <= index < total
    }

    /** A carousel over `total` banners starts on the first. */
    constructor (total: int, reducedMotion: bool)
      requires total > 0
      ensures Valid()
      ensures this.total == total && this.reducedMotion == reducedMotion
      ensures index == 0 && !hovering
    {
      this.total := total;
      this.reducedMotion := reducedMotion;
      index := 0;
      hovering := false;
    }

    /** The autoplay interval runs only without reduced motion, without hovering, and with more than one slide. */
    predicate AutoplayArmed()
      reads this
    {
      !reducedMotion && !hovering && total > 1
    }

    /** `i === index`: the slide shown, and the dot highlighted. */
    predicate IsActive(i: int)
      reads this
    {
      i == index
    }

    /** The autoplay interval fires. */
    method Tick()
      requires Valid() && AutoplayArmed()
      modifies this
      ensures Valid() && hovering == old(hovering)
      ensures index == JsRem(old(index) + 1, total) && index == Step(old(index), 1, total)
    {
      StepForward(index, total);
      index := JsRem(index + 1, total);
    }

    /** The arrow-right key. */
    method KeyRight()
      requires Valid()
      modifies this
      ensures Valid() && hovering == old(hovering)
      ensures index == JsRem(old(index) + 1, total) && index == Step(old(index), 1, total)
    {
      StepForward(index, total);
      index := JsRem(index + 1, total);
    }

    /** The arrow-left key, `(i - 1 + total) % total`. */
    method KeyLeft()
      requires Valid()
      modifies this
      ensures Valid() && hovering == old(hovering)
      ensures index == Step(old(index), -1, total)
      ensures old(index) > 0 ==> index == old(index) - 1
      ensures old(index) == 0 ==> index == total - 1
    {
      StepBack(index, total);
      index := JsRem(index - 1 + total, total);
    }

    /** `go(dir)`: -1 for the previous button and 1 for the next. */
    method Go(dir: int)
      requires Valid() && -1 <= dir <= 1
      modifies this
      ensures Valid() && hovering == old(hovering)
      ensures index == Step(old(index), dir, total)
    {
      index := JsRem(index + dir + total, total);
    }

    /** The dot of slide `i`. */
    method Dot(i: int)
      requires Valid() && 0 <= i < total
      modifies this
      ensures Valid() && hovering == old(hovering)
      ensures index == i
      ensures forall j :: IsActive(j) <==> j == i
    {
      index := i;
    }

    /** The mouse enters or leaves the carousel. */
    method Hover(over: bool)
      requires Valid()
      modifies this
      ensures Valid() && index == old(index) && hovering == over
      ensures over ==> !AutoplayArmed()
    {
      hovering := over;
    }
  }

  /** Previous then next, or next then previous, shows the slide one started from. */
  method BackAndForth(c: BannerCarousel)
    requires c.Valid()
    modifies c
    ensures c.Valid() && c.index == old(c.index)
  {
    GoInverse(c.index, c.total);
    c.Go(1);
    c.Go(-1);
    c.Go(-1);
    c.Go(1);
  }

  /**
   * `SearchBar.onSubmit`: nothing for a blank query, otherwise `/search` with the trimmed
   * query as `q`.
   */
  function SubmitTarget(q: string): (r: Option<string>)
    ensures r.None? <==> Trim(q) == ""
    ensures r.Some? ==> r.value == Trim(q) && r.value != "" && IsTrimmed(r.value)
  {
    TrimIsTrimmed(q);
    var query := Trim(q);
    if query == "" then None else Some(query)
  }

  /**
   * The search page, opened on `/search?q=<target>`, starts with the query the search bar
   * sent.
   */
  lemma SubmitReachesSearch(q: string)
    requires SubmitTarget(q).Some?
    ensures Trim(SearchPage.Lookup([("q", SubmitTarget(q).value)], "q").GetOr("")) == SubmitTarget(q).value
  {
    StripIdempotent(q, IsJsSpace);
  }
}
