/**
 The presentation controller: the current slide number, the slides'
 active classes, the counter text, the two navigation buttons, the menu
 dropdown with its highlighted entries, and the fullscreen flag with the
 two fullscreen classes. Every handler is a pure transition on `State`.
 */
module Controller {
  import opened Options
  import opened Slides
  import Decimal

  /** The number of slides the presentation declares. */
  const TotalSlides: int := 18

  /** A menu entry: the slide number its `data-slide` attribute parses to,
      and whether it carries the active class. */
  datatype MenuItem = MenuItem(target: int, highlighted: bool)

  datatype State = State(
    current: int,
    slides: seq<Slide>,
    counter: string,
    prevDisabled: bool,
    nextDisabled: bool,
    items: seq<MenuItem>,
    menuOpen: bool,
    isFullscreen: bool,
    containerFullscreen: bool,  // `fullscreen` class on the presentation container
    bodyFullscreen: bool)       // `fullscreen-active` class on the document body

  // ---------------------------------------------------------------------
  // Counter text "current / total"

  function CounterText(current: nat, total: nat): string {
    Decimal.Show(current) + " / " + Decimal.Show(total)
  }

  /** Index of the first space in `t`, or `|t|` when there is none. */
  function FirstSpace(t: string): (k: nat)
    ensures k <= |t|
    ensures forall j :: 0 <= j < k ==> t[j] != ' '
    ensures k < |t| ==> t[k] == ' '
    decreases |t|
  {
    if |t| == 0 || t[0] == ' ' then 0 else 1 + FirstSpace(t[1..])
  }

  /** Reads a counter text back into its two numbers. */
  function ParseCounter(t: string): Option<(int, int)> {
    var k := FirstSpace(t);
    if k + 3 <= |t| && t[k..k + 3] == " / " then
      match (Decimal.Parse(t[..k]), Decimal.Parse(t[k + 3..]))
      case (Some(a), Some(b)) => Some((a, b))
      case _ => None
    else None
  }

  lemma NumeralHasNoSpace(n: nat)
    ensures forall j :: 0 <= j < |Decimal.Show(n)| ==> Decimal.Show(n)[j] != ' '
  {
  }

  /** The counter text is read back as exactly the pair it was written
      from, and no other text reads as that pair. */
  lemma CounterRoundTrip(t: string, a: nat, b: nat)
    ensures ParseCounter(t) == Some((a, b)) <==> t == CounterText(a, b)
  {
    var sa, sb := Decimal.Show(a), Decimal.Show(b);
    if t == CounterText(a, b) {
      NumeralHasNoSpace(a);
      var k := FirstSpace(t);
      assert t[|sa|] == ' ';
      assert k == |sa|;
      assert t[..k] == sa;
      assert t[k..k + 3] == " / ";
      assert t[k + 3..] == sb;
      Decimal.ParseShow(sa, a);
      Decimal.ParseShow(sb, b);
    }
    if ParseCounter(t) == Some((a, b)) {
      var k := FirstSpace(t);
      Decimal.ParseShow(t[..k], a);
      Decimal.ParseShow(t[k + 3..], b);
      assert t == t[..k] + t[k..k + 3] + t[k + 3..];
    }
  }

  // ---------------------------------------------------------------------
  // What a consistent controller state looks like

  predicate InRange(s: State) {
    && |s.slides| == TotalSlides
    && 1 <= s.current <= TotalSlides
  }

  /** Exactly the entries that target slide `n` are highlighted. */
  predicate Highlights(items: seq<MenuItem>, n: int) {
    forall k :: 0 <= k < |items| ==> (items[k].highlighted <==> items[k].target == n)
  }

  function Targets(items: seq<MenuItem>): seq<int> {
    seq(|items|, k requires 0 <= k < |items| => items[k].target)
  }

  /** Everything `showSlide` maintains agrees with `current`. */
  predicate NavigationConsistent(s: State) {
    && InRange(s)
    && OnlyActive(s.slides, s.current - 1)
    && (s.prevDisabled <==> s.current == 1)
    && (s.nextDisabled <==> s.current == TotalSlides)
    && s.counter == CounterText(s.current, TotalSlides)
    && Highlights(s.items, s.current)
  }

  /** Both fullscreen classes are present exactly when the flag is set. */
  predicate FullscreenConsistent(s: State) {
    s.containerFullscreen == s.isFullscreen && s.bodyFullscreen == s.isFullscreen
  }

  predicate Inv(s: State) {
    NavigationConsistent(s) && FullscreenConsistent(s)
  }

  /** In a consistent state the counter reads back as "current / 18". */
  lemma CounterReadsBack(s: State)
    requires NavigationConsistent(s)
    ensures ParseCounter(s.counter) == Some((s.current, TotalSlides))
  {
    CounterRoundTrip(s.counter, s.current, TotalSlides);
  }

  /** Consistency of the navigation part depends on nothing else. */
  lemma NavigationFramed(a: State, b: State)
    requires NavigationConsistent(a) && SameNavigation(a, b)
    ensures NavigationConsistent(b)
  {
  }

  /** `b` agrees with `a` on everything but the menu and fullscreen parts. */
  predicate SameNavigation(a: State, b: State) {
    && a.current == b.current && a.slides == b.slides && a.counter == b.counter
    && a.prevDisabled == b.prevDisabled && a.nextDisabled == b.nextDisabled
    && a.items == b.items
  }

  /** `b` agrees with `a` on the menu and fullscreen parts. */
  predicate SameChrome(a: State, b: State) {
    && a.menuOpen == b.menuOpen
    && a.isFullscreen == b.isFullscreen
    && a.containerFullscreen == b.containerFullscreen
    && a.bodyFullscreen == b.bodyFullscreen
  }

  // ---------------------------------------------------------------------
  // showSlide and its three refresh steps

  function UpdateCounter(s: State): (r: State)
    requires s.current >= 0
    ensures ParseCounter(r.counter) == Some((s.current, TotalSlides))
    ensures r.counter == CounterText(s.current, TotalSlides)
    ensures r == s.(counter := r.counter)
  {
    var t := CounterText(s.current, TotalSlides);
    CounterRoundTrip(t, s.current, TotalSlides);
    s.(counter := t)
  }

  function UpdateNavigation(s: State): (r: State)
    ensures r.prevDisabled <==> s.current == 1
    ensures r.nextDisabled <==> s.current == TotalSlides
    ensures r == s.(prevDisabled := r.prevDisabled, nextDisabled := r.nextDisabled)
  {
    s.(prevDisabled := s.current == 1, nextDisabled := s.current == TotalSlides)
  }

  function UpdateMenuItems(s: State): (r: State)
    ensures Highlights(r.items, s.current)
    ensures Targets(r.items) == Targets(s.items)
    ensures r == s.(items := r.items)
  {
    var items := seq(|s.items|, k requires 0 <= k < |s.items| =>
      s.items[k].(highlighted := s.items[k].target == s.current));
    s.(items := items)
  }

  /** Clears the active class from every slide and sets it on slide `n`
      (1-based); the slides' styles are not touched. */
  function ActivateOnly(slides: seq<Slide>, n: int): (r: seq<Slide>)
    requires 1 <= n <= |slides|
    ensures OnlyActive(r, n - 1)
    ensures SameContent(slides, r)
  {
    seq(|slides|, i requires 0 <= i < |slides| => slides[i].(active := i + 1 == n))
  }

  function ShowSlide(s: State, n: int): (r: State)
    requires |s.slides| == TotalSlides
    requires 1 <= n <= TotalSlides
    ensures r.current == n
    ensures NavigationConsistent(r)
    ensures SameContent(s.slides, r.slides)
    ensures Targets(r.items) == Targets(s.items)
    ensures SameChrome(s, r)
  {
    var shown := s.(slides := ActivateOnly(s.slides, n), current := n);
    UpdateMenuItems(UpdateNavigation(UpdateCounter(shown)))
  }

  lemma ShowCurrentKeepsSlides(s: State)
    requires NavigationConsistent(s)
    ensures ShowSlide(s, s.current).slides == s.slides
  {
    var r := ShowSlide(s, s.current);
    forall i | 0 <= i < |s.slides|
      ensures r.slides[i] == s.slides[i]
    {
      assert r.slides[i].active == s.slides[i].active;
    }
  }

  lemma ShowCurrentKeepsItems(s: State)
    requires NavigationConsistent(s)
    ensures ShowSlide(s, s.current).items == s.items
  {
    var r := ShowSlide(s, s.current);
    forall k | 0 <= k < |s.items|
      ensures r.items[k] == s.items[k]
    {
      assert r.items[k].target == Targets(r.items)[k] == Targets(s.items)[k] == s.items[k].target;
    }
  }

  /** Showing the slide that is already shown changes nothing. */
  lemma ShowCurrentIsIdentity(s: State)
    requires NavigationConsistent(s)
    ensures ShowSlide(s, s.current) == s
  {
    var r := ShowSlide(s, s.current);
    ShowCurrentKeepsSlides(s);
    ShowCurrentKeepsItems(s);
  }

  // ---------------------------------------------------------------------
  // Previous / next

  function PreviousSlide(s: State): (r: State)
    requires InRange(s)
    ensures s.current == 1 ==> r == s
    ensures s.current > 1 ==> r.current == s.current - 1 && NavigationConsistent(r)
    ensures SameContent(s.slides, r.slides) && Targets(r.items) == Targets(s.items)
    ensures SameChrome(s, r)
  {
    if s.current > 1 then ShowSlide(s, s.current - 1) else s
  }

  function NextSlide(s: State): (r: State)
    requires InRange(s)
    ensures s.current == TotalSlides ==> r == s
    ensures s.current < TotalSlides ==> r.current == s.current + 1 && NavigationConsistent(r)
    ensures SameContent(s.slides, r.slides) && Targets(r.items) == Targets(s.items)
    ensures SameChrome(s, r)
  {
    if s.current < TotalSlides then ShowSlide(s, s.current + 1) else s
  }

  /** A navigation button is disabled exactly when clicking it would do
      nothing. */
  lemma DisabledIffNoOp(s: State)
    requires NavigationConsistent(s)
    ensures s.prevDisabled <==> PreviousSlide(s) == s
    ensures s.nextDisabled <==> NextSlide(s) == s
  {
  }

  // ---------------------------------------------------------------------
  // Menu

  function ToggleMenu(s: State): (r: State)
    ensures r.menuOpen != s.menuOpen
    ensures r == s.(menuOpen := r.menuOpen)
  {
    s.(menuOpen := !s.menuOpen)
  }

  /** The document-level click listener: a click whose target lies neither
      in the dropdown nor on the menu button closes the menu. */
  function CloseMenuOnClickOutside(s: State, inDropdown: bool, onMenuButton: bool): (r: State)
    ensures r.menuOpen <==> s.menuOpen && (inDropdown || onMenuButton)
    ensures r == s.(menuOpen := r.menuOpen)
  {
    if !inDropdown && !onMenuButton then s.(menuOpen := false) else s
  }

  /** A click on menu entry `k`: show its slide, then close the menu. */
  function MenuItemClick(s: State, k: nat): (r: State)
    requires |s.slides| == TotalSlides
    requires k < |s.items| && 1 <= s.items[k].target <= TotalSlides
    ensures SameContent(s.slides, r.slides) && Targets(r.items) == Targets(s.items)
    ensures r.current == s.items[k].target
    ensures NavigationConsistent(r) && |r.items| == |s.items| && r.items[k].highlighted
    ensures !r.menuOpen
    ensures r.isFullscreen == s.isFullscreen
    ensures r.containerFullscreen == s.containerFullscreen && r.bodyFullscreen == s.bodyFullscreen
  {
    ShowSlide(s, s.items[k].target).(menuOpen := false)
  }

  // ---------------------------------------------------------------------
  // Fullscreen

  function ExitFullscreen(s: State): (r: State)
    ensures !r.isFullscreen && !r.containerFullscreen && !r.bodyFullscreen
    ensures SameNavigation(s, r) && r.menuOpen == s.menuOpen
  {
    s.(isFullscreen := false, containerFullscreen := false, bodyFullscreen := false)
  }

  lemma ExitFullscreenIdempotent(s: State)
    ensures ExitFullscreen(ExitFullscreen(s)) == ExitFullscreen(s)
  {
  }

  function ToggleFullscreen(s: State): (r: State)
    ensures r.isFullscreen == !s.isFullscreen
    ensures FullscreenConsistent(r)
    ensures SameNavigation(s, r) && r.menuOpen == s.menuOpen
  {
    var flipped := s.(isFullscreen := !s.isFullscreen);
    if flipped.isFullscreen then
      flipped.(containerFullscreen := true, bodyFullscreen := true)
    else
      ExitFullscreen(flipped)
  }

  /** Toggling twice restores the flag and both classes, provided they
      agreed to begin with. */
  lemma ToggleFullscreenTwice(s: State)
    requires FullscreenConsistent(s)
    ensures ToggleFullscreen(ToggleFullscreen(s)) == s
  {
  }

  /** Reconciles the flag with the browser after a fullscreen-change event:
      the controller stays fullscreen only while the browser is. */
  function HandleFullscreenChange(s: State, browserFullscreen: bool): (r: State)
    ensures r.isFullscreen <==> s.isFullscreen && browserFullscreen
    ensures s.isFullscreen && !browserFullscreen ==> !r.containerFullscreen && !r.bodyFullscreen
    ensures !(s.isFullscreen && !browserFullscreen) ==> r == s
    ensures SameNavigation(s, r) && r.menuOpen == s.menuOpen
  {
    if !browserFullscreen && s.isFullscreen then ExitFullscreen(s) else s
  }

  // ---------------------------------------------------------------------
  // Start-up

  /** `init`: show the first slide and refresh the buttons. `page` is the
      state as the markup and the script's initialisers leave it. */
  function Init(page: State): (r: State)
    requires |page.slides| == TotalSlides
    requires page.current == 1 && !page.isFullscreen
    requires !page.containerFullscreen && !page.bodyFullscreen
    ensures Inv(r) && r.current == 1
    ensures r.counter == "1 / 18"
    ensures r.prevDisabled && !r.nextDisabled
    ensures Targets(r.items) == Targets(page.items)
  {
    UpdateNavigation(ShowSlide(page, page.current))
  }
}
