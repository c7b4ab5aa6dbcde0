/**
 The listeners `attachEventListeners` wires up: button and menu-entry
 clicks (each followed by the document-level outside-click listener, in
 bubbling order), the keydown bindings and the browser's
 fullscreen-change notification.
 */
module Events {
  import opened Slides
  import opened Controller
  import Decimal

  /** Where a click lands. Menu entries and `InsideDropdown` lie inside the
      dropdown; every other control lies outside both the dropdown and the
      menu button. */
  datatype ClickTarget =
    | PrevButton
    | NextButton
    | MenuButton
    | MenuEntry(index: nat)
    | FullscreenButton
    | InsideDropdown
    | Elsewhere

  datatype Event =
    | Click(target: ClickTarget)
    | KeyDown(key: string)
    | BrowserFullscreenChange(browserFullscreen: bool)

  predicate InDropdown(t: ClickTarget) {
    t.MenuEntry? || t.InsideDropdown?
  }

  /** The keydown listener. */
  function HandleKeyDown(s: State, key: string): (r: State)
    requires InRange(s)
    ensures key == "ArrowLeft" ==> r == PreviousSlide(s)
    ensures key == "ArrowRight" ==> r == NextSlide(s)
    ensures key == "Escape" ==> !r.menuOpen && !r.isFullscreen && SameNavigation(s, r)
    ensures key == "Escape" && FullscreenConsistent(s) ==> FullscreenConsistent(r)
    ensures key == "Escape" && !s.isFullscreen ==> r == s.(menuOpen := false)
    ensures key in {"F11", "f", "F"} ==> r == ToggleFullscreen(s)
    ensures key !in {"ArrowLeft", "ArrowRight", "Escape", "F11", "f", "F"} ==> r == s
  {
    if key == "ArrowLeft" then PreviousSlide(s)
    else if key == "ArrowRight" then NextSlide(s)
    else if key == "Escape" then
      var closed := s.(menuOpen := false);
      if closed.isFullscreen then ExitFullscreen(closed) else closed
    else if key == "F11" then ToggleFullscreen(s)
    else if key == "f" || key == "F" then ToggleFullscreen(s)
    else s
  }

  /** The browser dispatches no click on a disabled button: neither its
      own listener nor the document's sees it. */
  predicate Dispatched(s: State, t: ClickTarget) {
    !(t == PrevButton && s.prevDisabled) && !(t == NextButton && s.nextDisabled)
  }

  /** A click: the target's own handler runs, then the document listener. */
  function HandleClick(s: State, t: ClickTarget): (r: State)
    requires InRange(s)
    requires t.MenuEntry? ==> t.index < |s.items| && 1 <= s.items[t.index].target <= TotalSlides
    ensures !Dispatched(s, t) ==> r == s
    ensures t == MenuButton ==> r == ToggleMenu(s)
    ensures t.MenuEntry? ==> r == MenuItemClick(s, t.index)
    ensures t == InsideDropdown ==> r == s
    ensures Dispatched(s, t) && !InDropdown(t) && t != MenuButton ==> !r.menuOpen
    ensures t == PrevButton && !s.prevDisabled ==> r == PreviousSlide(s).(menuOpen := false)
    ensures t == NextButton && !s.nextDisabled ==> r == NextSlide(s).(menuOpen := false)
    ensures t == FullscreenButton ==> r == ToggleFullscreen(s).(menuOpen := false)
    ensures t == Elsewhere ==> r == s.(menuOpen := false)
  {
    if !Dispatched(s, t) then s
    else
    var handled :=
      match t
      case PrevButton => PreviousSlide(s)
      case NextButton => NextSlide(s)
      case MenuButton => ToggleMenu(s)
      case MenuEntry(k) => MenuItemClick(s, k)
      case FullscreenButton => ToggleFullscreen(s)
      case InsideDropdown => s
      case Elsewhere => s;
    CloseMenuOnClickOutside(handled, InDropdown(t), t == MenuButton)
  }

  /** Menu-entry clicks must name an entry whose target is a real slide. */
  predicate Admissible(targets: seq<int>, e: Event) {
    e.Click? && e.target.MenuEntry? ==>
      e.target.index < |targets| && 1 <= targets[e.target.index] <= TotalSlides
  }

  lemma ClickKeepsInv(s: State, t: ClickTarget)
    requires Inv(s) && Admissible(Targets(s.items), Click(t))
    ensures Inv(HandleClick(s, t))
    ensures Targets(HandleClick(s, t).items) == Targets(s.items)
    ensures SameContent(s.slides, HandleClick(s, t).slides)
  {
    var r := HandleClick(s, t);
    match t {
      case PrevButton =>
        if !s.prevDisabled {
          var p := PreviousSlide(s);
          assert NavigationConsistent(p);
          NavigationFramed(p, r);
        }
      case NextButton =>
        if !s.nextDisabled {
          var p := NextSlide(s);
          assert NavigationConsistent(p);
          NavigationFramed(p, r);
        }
      case MenuButton =>
        NavigationFramed(s, r);
      case MenuEntry(k) =>
      case FullscreenButton =>
        NavigationFramed(s, r);
      case InsideDropdown =>
      case Elsewhere =>
        NavigationFramed(s, r);
    }
  }

  lemma KeyDownKeepsInv(s: State, key: string)
    requires Inv(s)
    ensures Inv(HandleKeyDown(s, key))
    ensures Targets(HandleKeyDown(s, key).items) == Targets(s.items)
    ensures SameContent(s.slides, HandleKeyDown(s, key).slides)
  {
    var r := HandleKeyDown(s, key);
    if key == "ArrowLeft" {
      assert NavigationConsistent(PreviousSlide(s));
    } else if key == "ArrowRight" {
      assert NavigationConsistent(NextSlide(s));
    } else {
      assert SameNavigation(s, r);
      NavigationFramed(s, r);
    }
  }

  /** One event, dispatched to its listener. Every listener modelled here
      keeps the controller consistent; the download button's listener, the
      export, is not among them (see `Session`). */
  function Step(s: State, e: Event): (r: State)
    requires Inv(s) && Admissible(Targets(s.items), e)
    ensures Inv(r)
    ensures Targets(r.items) == Targets(s.items)
    ensures SameContent(s.slides, r.slides)
  {
    match e
    case Click(t) =>
      ClickKeepsInv(s, t);
      HandleClick(s, t)
    case KeyDown(key) =>
      KeyDownKeepsInv(s, key);
      HandleKeyDown(s, key)
    case BrowserFullscreenChange(b) =>
      NavigationFramed(s, HandleFullscreenChange(s, b));
      HandleFullscreenChange(s, b)
  }

  /** A sequence of events, in order. Exports are not among them: a failed
      one can break the invariant (`Session.FailedExportBreaksController`). */
  function Run(s: State, es: seq<Event>): (r: State)
    requires Inv(s)
    requires forall i :: 0 <= i < |es| ==> Admissible(Targets(s.items), es[i])
    ensures Inv(r)
    ensures Targets(r.items) == Targets(s.items)
    ensures SameContent(s.slides, r.slides)
    decreases |es|
  {
    if |es| == 0 then s
    else
      Run(Step(s, es[0]), es[1..])
  }

  function Repeat(e: Event, n: nat): (es: seq<Event>)
    ensures |es| == n && forall i :: 0 <= i < n ==> es[i] == e
  {
    seq(n, _ => e)
  }

  function Min(a: int, b: int): int {
    if a <= b then a else b
  }

  function Max(a: int, b: int): int {
    if a >= b then a else b
  }

  /** The first press of a run of arrow presses, peeled off. */
  lemma ArrowRunUnfold(s: State, es: seq<Event>, key: string)
    requires Inv(s) && key in {"ArrowLeft", "ArrowRight"}
    requires |es| > 0 && forall i :: 0 <= i < |es| ==> es[i] == KeyDown(key)
    ensures Run(s, es) == Run(Step(s, es[0]), es[1..])
    ensures key == "ArrowRight" ==> Step(s, es[0]).current == Min(s.current + 1, TotalSlides)
    ensures key == "ArrowLeft" ==> Step(s, es[0]).current == Max(s.current - 1, 1)
  {
  }

  /** A run of ArrowRight presses advances one slide per press, stopping
      at the last one. */
  lemma {:induction false} ArrowRightWalk(s: State, es: seq<Event>)
    requires Inv(s)
    requires forall i :: 0 <= i < |es| ==> es[i] == KeyDown("ArrowRight")
    ensures Run(s, es).current == Min(s.current + |es|, TotalSlides)
    decreases |es|
  {
    if |es| > 0 {
      ArrowRightWalk(Step(s, es[0]), es[1..]);
      ArrowRunUnfold(s, es, "ArrowRight");
    }
  }

  /** A run of ArrowLeft presses goes back one slide per press, stopping
      at the first one. */
  lemma {:induction false} ArrowLeftWalk(s: State, es: seq<Event>)
    requires Inv(s)
    requires forall i :: 0 <= i < |es| ==> es[i] == KeyDown("ArrowLeft")
    ensures Run(s, es).current == Max(s.current - |es|, 1)
    decreases |es|
  {
    if |es| > 0 {
      ArrowLeftWalk(Step(s, es[0]), es[1..]);
      ArrowRunUnfold(s, es, "ArrowLeft");
    }
  }

  lemma LastCounterText()
    ensures CounterText(18, 18) == "18 / 18"
  {
    assert Decimal.Show(18) == Decimal.Show(1) + ['8'];
  }

  /** From any slide, enough presses of ArrowRight reach the last slide:
      its counter reads "18 / 18" and the next button is disabled. */
  lemma WalkToTheEnd(s: State, n: nat)
    requires Inv(s) && s.current + n >= TotalSlides
    ensures var r := Run(s, Repeat(KeyDown("ArrowRight"), n));
      && r.current == 18 && r.nextDisabled && !r.prevDisabled && r.counter == "18 / 18"
      && OnlyActive(r.slides, 17)
  {
    ArrowRightWalk(s, Repeat(KeyDown("ArrowRight"), n));
    var r := Run(s, Repeat(KeyDown("ArrowRight"), n));
    assert r.current == 18;
    LastCounterText();
  }

  /** At load the counter reads "1 / 18"; seventeen presses of ArrowRight
      then reach the last slide. */
  lemma SeventeenStepsReachTheEnd(page: State)
    requires |page.slides| == TotalSlides
    requires page.current == 1 && !page.isFullscreen
    requires !page.containerFullscreen && !page.bodyFullscreen
    ensures var r := Run(Init(page), Repeat(KeyDown("ArrowRight"), 17));
      && r.current == 18 && r.nextDisabled && r.counter == "18 / 18"
      && OnlyActive(r.slides, 17)
  {
    WalkToTheEnd(Init(page), 17);
  }

  /** A click on a navigation button leaves the state unchanged exactly
      when the button is disabled: the browser swallows it, so even an open
      menu stays open. */
  lemma DisabledButtonIgnoresClicks(s: State)
    requires Inv(s)
    ensures HandleClick(s, PrevButton) == s <==> s.prevDisabled
    ensures HandleClick(s, NextButton) == s <==> s.nextDisabled
  {
    if !s.prevDisabled {
      assert HandleClick(s, PrevButton).current == s.current - 1;
    }
    if !s.nextDisabled {
      assert HandleClick(s, NextButton).current == s.current + 1;
    }
  }

  /** Two clicks on the menu button leave the whole state as it was. */
  lemma MenuButtonTwice(s: State)
    requires InRange(s)
    ensures HandleClick(HandleClick(s, MenuButton), MenuButton) == s
  {
  }

  /** Escape always leaves the menu closed and the controller windowed. */
  lemma EscapeClosesEverything(s: State)
    requires Inv(s)
    ensures var r := Step(s, KeyDown("Escape"));
      !r.menuOpen && !r.isFullscreen && !r.containerFullscreen && !r.bodyFullscreen
      && r.current == s.current
  {
  }
}
