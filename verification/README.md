# Slide presentation viewer: controller and PDF export

A Dafny model of the two stateful parts of `script.js`, a browser
slide-deck viewer.

* **The presentation controller.** It tracks the current slide (1..18)
  and the `active` class of each slide. It also keeps the counter text
  `"n / 18"`, the disabled flags of the previous and next buttons, and
  the highlighted menu entries. It holds the open/closed menu dropdown,
  the `isFullscreen` flag, and the two fullscreen classes on the
  container and on the body. Every handler is a pure transition on an
  immutable `Controller.State`. `Events` dispatches clicks, key presses
  and the browser's fullscreen-change notification the way
  `attachEventListeners` wires them. A click first runs its target's own
  handler and then the document-level outside-click listener, which is
  the order of event bubbling.
* **The PDF export.** This is the per-slide loop of `generatePDF`. Each
  slide is snapshotted (its `active` class and five inline style
  properties) and forced visible. It is captured at 1920 × max(1080,
  scrollHeight), and the snapshot is restored after a successful capture.
  The first slide resizes the document's initial page, and every later
  slide appends a page. The foreign calls that can throw are an oracle
  with two parts. `capture(i, slide, width, height)` is the
  rasterisation, which returns an image or fails. `embed(i, img)` says
  whether encoding the image and putting it in the document (`toDataURL`,
  `addPage`, `addImage`) completes. The index `i` stands in for the
  slide's content, which the model does not represent.

Modules: `Options` (optional values), `Decimal` (the numerals a template
literal prints, and a strict parser for them), `Slides` (the slide
record shared by both parts), `Controller`, `Events`, `Export`, and
`Session` (lemmas relating the export to the controller's invariant).

The central invariant is `Controller.Inv`. It says that exactly slide
`current` is active and that the buttons are disabled exactly at the two
ends. It also requires the counter to read `current / 18`, exactly the
menu entries that target `current` to be highlighted, and both fullscreen
classes to be present exactly when the flag is set. `Events.Step` and
`Events.Run` prove that every listener except the export's keeps it. The
export's listener can break it, as the next section shows.

## What a failed export leaves behind

The catch block (script.js:492-506) only removes the temporary style
block, hides the overlay and re-enables the trigger. What else a failure
leaves depends on where the iteration threw:

* If `html2canvas` throws (script.js:415), nothing after it in the
  iteration runs. The off-screen container is removed at script.js:439
  and the snapshot is restored at script.js:441-447, both after the
  `await`, so the failing slide keeps the `active` class and the forced
  inline styles, and the container stays in the body.
  `Export.FailureOnOneSlide` states this, and `Export.GeneratePdf` counts
  the container in `strayContainers`. `Export.ActiveAfterFailure` and
  `Session.FailedExportBreaksController` show the consequence: if the
  failing slide was not the one on screen, two slides are active and
  `Controller.Inv` no longer holds.
* If `toDataURL`, `addPage` or `addImage` throws (script.js:450-467),
  the container is already gone and the slide already restored. Such a
  failure leaves the slides as they were, and `Controller.Inv` still
  holds.

`showSlide` does not check its argument. The range appears as a
precondition (`1 <= n <= 18`, 18 slides, menu targets in range).

## Model

| member | source | states |
|---|---|---|
| Decimal.ParseShow | script.js:62 | the numeral a template literal prints for a counter number parses back to that number, and it is the only string that does |
| Controller.CounterRoundTrip | script.js:61-63 | the counter text "a / b" reads back as exactly the pair (a, b), and no other text reads as that pair |
| Controller.UpdateCounter | script.js:61-63 | after the update the counter reads back as (current, 18); nothing else in the state changes |
| Controller.CounterReadsBack | script.js:61-63 | in any consistent state the counter reads back as the current slide and the total |
| Controller.UpdateNavigation | script.js:66-69 | previous is disabled exactly at slide 1 and next exactly at slide 18; nothing else changes |
| Controller.UpdateMenuItems | script.js:72-79 | exactly the entries whose parsed target equals the current slide are highlighted; targets and everything else are unchanged |
| Controller.ActivateOnly | script.js:29-39 | afterwards slide n is the only active one, and no slide's styles or height change |
| Controller.ShowSlide | script.js:28-45 | for 1 <= n <= 18: current becomes n, slide n-1 (0-based) is the only active one, buttons/counter/highlights agree with n, styles, menu and fullscreen state are untouched |
| Controller.ShowCurrentIsIdentity | script.js:28-45 | showing the slide already shown from a consistent state changes nothing |
| Controller.PreviousSlide | script.js:82-86 | at slide 1 the whole state is unchanged; otherwise current drops by exactly one and the navigation state is consistent |
| Controller.NextSlide | script.js:89-93 | at slide 18 the whole state is unchanged; otherwise current rises by exactly one and the navigation state is consistent |
| Controller.DisabledIffNoOp | script.js:66-93 | a navigation button is disabled exactly when running its handler would leave the state unchanged |
| Controller.ToggleMenu | script.js:96-98 | the menu's open flag flips and nothing else changes |
| Controller.CloseMenuOnClickOutside | script.js:101-105 | afterwards the menu is open only if it was open and the click landed in the dropdown or on the menu button; nothing else changes |
| Controller.MenuItemClick | script.js:164-170 | the entry's target slide is shown, the entry is highlighted, the menu is closed, and fullscreen state is untouched |
| Controller.ExitFullscreen | script.js:131-136 | the flag and both fullscreen classes are off, and navigation and menu state are untouched |
| Controller.ExitFullscreenIdempotent | script.js:131-136 | exiting fullscreen twice is the same as exiting once |
| Controller.ToggleFullscreen | script.js:108-128 | the flag flips, both classes follow the new flag, and navigation and menu state are untouched |
| Controller.ToggleFullscreenTwice | script.js:108-136 | toggling twice returns the flag and both classes (indeed the whole state) to their values, when the classes agreed with the flag |
| Controller.HandleFullscreenChange | script.js:201-211 | afterwards the flag is set exactly when it was set and the browser is fullscreen; it fires (turning classes off) only when the browser left fullscreen while the flag was set, and otherwise changes nothing |
| Controller.Init | script.js:20-25 | the state after start-up is consistent, on slide 1, with counter "1 / 18", previous disabled and next enabled |
| Slides.OnlyActiveIsCountOne | script.js:29-39 | if a single index carries the active class, the number of active slides is one |
| Slides.CountOneIsOnlyActive | script.js:29-39 | if one slide is active, some index is the only active one |
| Events.HandleKeyDown | script.js:173-189 | ArrowLeft/ArrowRight dispatch to previous/next; Escape closes the menu and leaves the controller windowed; F11, f and F toggle fullscreen; any other key changes nothing |
| Events.HandleClick | script.js:149-198 | a click on a disabled navigation button is not dispatched and changes nothing; otherwise the control's handler runs, followed by the outside-click listener: clicks outside the dropdown and menu button close the menu, a menu-button click toggles it, a menu-entry click shows its slide |
| Events.DisabledButtonIgnoresClicks | script.js:66-69 | in a consistent state, a click on the previous or next button leaves the whole state unchanged exactly when that button is disabled |
| Events.ClickKeepsInv | script.js:149-198 | every click keeps the controller invariant and leaves menu targets and slide styles unchanged |
| Events.KeyDownKeepsInv | script.js:173-189 | every key press keeps the controller invariant and leaves menu targets and slide styles unchanged |
| Events.Step | script.js:149-211 | every listener except the export's keeps the controller invariant |
| Events.Run | script.js:149-211 | any sequence of clicks, key presses and fullscreen changes (exports excluded) keeps the controller invariant |
| Events.ArrowRunUnfold | script.js:174-177 | the first press of a run of arrow presses moves one slide in its direction, clamped at the ends |
| Events.ArrowRightWalk | script.js:176-177 | k presses of ArrowRight move to min(current + k, 18) |
| Events.ArrowLeftWalk | script.js:174-175 | k presses of ArrowLeft move to max(current - k, 1) |
| Events.WalkToTheEnd | script.js:89-93 | enough ArrowRight presses reach slide 18 with counter "18 / 18", next disabled and previous enabled |
| Events.SeventeenStepsReachTheEnd | script.js:21-25 | after start-up, seventeen ArrowRight presses reach slide 18 with next disabled and counter "18 / 18" |
| Events.MenuButtonTwice | script.js:155 | two clicks on the menu button leave the whole state as it was |
| Events.EscapeClosesEverything | script.js:178-182 | Escape closes the menu and turns the flag and both classes off without moving the slide |
| Export.PageHeight | script.js:377-380 | the page height is at least 1080 and at least the content height, and equals one of them |
| Export.RestoreUndoesForce | script.js:441-447 | restoring the snapshot after forcing a slide gives the slide back exactly, whether or not it was active |
| Export.ExportFrom | script.js:334-468 | the loop finishes exactly when every remaining iteration succeeds, and then the slides are unchanged and the document holds one page per slide in order. It aborts at the first failing iteration. If the rasterisation threw, only that slide differs, left forced visible, and the container is left; if a later step threw, the slides are unchanged and no container is left |
| Export.GeneratePdf | script.js:214-507 | it saves exactly when every iteration succeeds. On both paths the temporary style block is removed and the overlay and trigger are reset. On success the slides are unchanged and the pages follow the slides. A failed rasterisation leaves only the failing slide forced and one off-screen container behind; a failure after it leaves the slides and the body as they were |
| Export.SavedPagesFollowSlides | script.js:453-467 | a saved export has one page per slide in document order, each 1920 wide and max(1080, scrollHeight) high, carrying that slide's capture |
| Export.EmptyDeckSavesBlankPage | script.js:323-334 | with no slides the saved document is the constructor's single blank 1920 × 1080 page |
| Export.ExportIgnoresActiveSlide | script.js:355-362 | two documents whose slides differ only in their active classes export the same pages, or fail at the same slide |
| Export.FailureOnOneSlide | script.js:415-506 | an export failing only on slide k aborts there with the overlay hidden, the trigger enabled and the style block gone, and every other slide unchanged. If the rasterisation threw, slide k is left active with the forced styles and one container is left behind; otherwise slide k is restored and no container is left |
| Export.ActiveAfterFailure | script.js:415-506 | after a failed export the active slides are the one shown before and, when its rasterisation threw, the failing one |
| Session.SavedExportKeepsController | script.js:441-447 | a saved export leaves a consistent controller consistent |
| Session.FailedExportBreaksController | script.js:415-506 | a failure on any slide other than the shown one breaks "exactly one active slide" (and the controller invariant) exactly when the rasterisation threw |
| Session.ExportAfterNavigation | script.js:330-336 | navigating before exporting does not change the verdict or the pages: page 1 is slide 1 whichever slide is shown |

## Left out

- The cover-slide animation replay (script.js:48-58) is left out: it is a reflow trick with no state.
- The vendor-prefixed native fullscreen requests and exits (script.js:117-124, 138-145) are left out. They are best-effort browser calls, so only the flag and the class effects are modelled.
- The fullscreen button's text and title (script.js:114-115, 135-136) are left out: they are display strings, and their initial values come from markup that is not part of this model.
- The F11 `preventDefault` call (script.js:184) is left out: it is a browser call with no effect on the model's state.
- Range validation is not modelled: `showSlide` does not check its argument. A menu entry whose `data-slide` is not a number or is out of range is excluded by precondition (`Admissible`), and menu targets are kept as already-parsed integers.
- Clicks on the download button are treated like any other click outside the menu (`Elsewhere`) by the controller. The export itself is `Export.GeneratePdf`, which runs as one atomic step. The re-entry guard (the disabled trigger) therefore has nothing to exclude.
- All `setTimeout` pauses and the `await` points (script.js:344, 368, 412, 479) are left out. The 800 ms deferred reset (script.js:485-490) is modelled as having happened.
- The injected CSS text (script.js:224-316), the clone's style forcing (script.js:393-406, 427-434), the html2canvas options, the PNG encoding and `pdf.save` are left out. These are visual effects or foreign library calls: the rasterisation and the steps that place its image are an abstract oracle.
- jsPDF's internal handling of the `'landscape'` argument to `addPage` is not modelled. The model records the size the code requests.
- The progress bar width and status strings (script.js:219, 339-341, 477-478, 488-489, 504-505), the alert and the console output are left out. They are display values (the percentage is floating point). A failure shows up as the `Failed` outcome.
- Only the rasterisation and the steps after the restore (`toDataURL`, `addPage`, `addImage`) can fail. The DOM calls before the capture (cloning, appending the container, the style writes) and `pdf.save` are taken to succeed.
- A slide's `scrollHeight` is measured after the forced styles are applied. The model takes it as a fixed per-slide number.
- `DOMContentLoaded` start-up wiring (script.js:509-514) is left out. `Controller.Init` is the state `init` produces.
