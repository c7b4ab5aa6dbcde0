/**
 A slide element as the presentation sees it: whether it carries the
 `active` class, the five inline style properties the export routine
 overrides, and the height its content measures once it is laid out.
 */
module Slides {

  /** The inline `style` properties display, position, zIndex, overflow and
      height, each the string the element's `style` object holds. */
  datatype InlineStyle = InlineStyle(
    display: string,
    position: string,
    zIndex: string,
    overflow: string,
    height: string)

  datatype Slide = Slide(active: bool, style: InlineStyle, scrollHeight: nat)

  /** Slide `k` (0-based) is the one and only slide with the active class. */
  predicate OnlyActive(slides: seq<Slide>, k: int) {
    && 0 <= k < |slides|
    && forall i :: 0 <= i < |slides| ==> (slides[i].active <==> i == k)
  }

  /** How many slides carry the active class. */
  function ActiveCount(slides: seq<Slide>): nat
    decreases |slides|
  {
    if |slides| == 0 then 0
    else ActiveCount(slides[..|slides| - 1]) + (if slides[|slides| - 1].active then 1 else 0)
  }

  /** Two slide sequences that differ at most in their active classes. */
  predicate SameContent(a: seq<Slide>, b: seq<Slide>) {
    && |a| == |b|
    && forall i :: 0 <= i < |a| ==> a[i].style == b[i].style && a[i].scrollHeight == b[i].scrollHeight
  }

  lemma {:induction false} NoneActive(slides: seq<Slide>)
    requires forall i :: 0 <= i < |slides| ==> !slides[i].active
    ensures ActiveCount(slides) == 0
    decreases |slides|
  {
    if |slides| > 0 {
      NoneActive(slides[..|slides| - 1]);
    }
  }

  /** "Exactly one slide is active" in the two ways it can be said: a
      single index carries the class, and the count of active slides is one. */
  lemma {:induction false} OnlyActiveIsCountOne(slides: seq<Slide>, k: int)
    requires OnlyActive(slides, k)
    ensures ActiveCount(slides) == 1
    decreases |slides|
  {
    var p := slides[..|slides| - 1];
    if k == |slides| - 1 {
      NoneActive(p);
    } else {
      assert OnlyActive(p, k);
      OnlyActiveIsCountOne(p, k);
    }
  }

  lemma {:induction false} CountOneIsOnlyActive(slides: seq<Slide>) returns (k: nat)
    requires ActiveCount(slides) == 1
    ensures OnlyActive(slides, k)
    decreases |slides|
  {
    var p := slides[..|slides| - 1];
    if slides[|slides| - 1].active {
      assert ActiveCount(p) == 0;
      CountZeroIsNoneActive(p);
      k := |slides| - 1;
    } else {
      k := CountOneIsOnlyActive(p);
    }
  }

  lemma {:induction false} CountZeroIsNoneActive(slides: seq<Slide>)
    requires ActiveCount(slides) == 0
    ensures forall i :: 0 <= i < |slides| ==> !slides[i].active
    decreases |slides|
  {
    if |slides| > 0 {
      CountZeroIsNoneActive(slides[..|slides| - 1]);
    }
  }
}
