/**
 The per-slide loop of `generatePDF`. The foreign calls of one iteration
 that can throw are an oracle with two parts: `capture(i, slide, width,
 height)` rasterises the forced slide or fails, and `embed(i, img)` says
 whether encoding that image and placing it in the document completes.
 The index stands in for the slide's content, which the model does not
 represent. The PDF is a list of pages, each with its size and the images
 drawn on it; the page being written is the last one.
 */
module Export {
  import opened Options
  import opened Slides

  const PageWidth: nat := 1920
  const MinPageHeight: nat := 1080

  /** The inline styles forced on a slide while it is captured. */
  const Forced := InlineStyle("flex", "relative", "9999", "visible", "auto")

  /** The two steps of an iteration that call into foreign code and can
      throw. `capture` is the rasterisation of the forced slide, which
      happens while the off-screen container is in the body and before the
      snapshot is restored. `embed` covers what happens to the image after
      the container is removed and the slide restored: encoding the canvas
      as PNG, adding the page and drawing the image. */
  datatype Oracle<!Img> = Oracle(capture: (nat, Slide, nat, nat) -> Option<Img>, embed: (nat, Img) -> bool)

  // ---------------------------------------------------------------------
  // The PDF document

  datatype Page<Img> = Page(width: nat, height: nat, images: seq<Img>)

  datatype Pdf<Img> = Pdf(pages: seq<Page<Img>>)

  /** A new landscape document of format 1920 x 1080 holds one blank page. */
  function NewPdf<Img>(): Pdf<Img> {
    Pdf([Page(PageWidth, MinPageHeight, [])])
  }

  function AddPage<Img>(pdf: Pdf<Img>, width: nat, height: nat): (r: Pdf<Img>)
    ensures |r.pages| == |pdf.pages| + 1
  {
    Pdf(pdf.pages + [Page(width, height, [])])
  }

  /** Setting the size of the current page. */
  function ResizePage<Img>(pdf: Pdf<Img>, width: nat, height: nat): (r: Pdf<Img>)
    requires |pdf.pages| > 0
    ensures |r.pages| == |pdf.pages|
  {
    var last := |pdf.pages| - 1;
    Pdf(pdf.pages[last := pdf.pages[last].(width := width, height := height)])
  }

  /** Drawing an image on the current page. */
  function AddImage<Img>(pdf: Pdf<Img>, img: Img): (r: Pdf<Img>)
    requires |pdf.pages| > 0
    ensures |r.pages| == |pdf.pages|
  {
    var last := |pdf.pages| - 1;
    Pdf(pdf.pages[last := pdf.pages[last].(images := pdf.pages[last].images + [img])])
  }

  // ---------------------------------------------------------------------
  // Isolating one slide and putting it back

  /** The page height for a slide: its content height, but at least the
      16:9 baseline. */
  function PageHeight(slide: Slide): (h: nat)
    ensures h >= MinPageHeight && h >= slide.scrollHeight
    ensures h == MinPageHeight || h == slide.scrollHeight
  {
    if slide.scrollHeight > MinPageHeight then slide.scrollHeight else MinPageHeight
  }

  /** The slide made visible for capture: active, with the forced styles. */
  function Force(slide: Slide): (f: Slide)
    ensures f.active && f.style == Forced
    ensures f.scrollHeight == slide.scrollHeight
  {
    slide.(active := true, style := Forced)
  }

  /** Putting back a snapshot: the active class is removed again unless the
      slide had it, and the five style properties get their saved values. */
  function Restore(slide: Slide, saved: InlineStyle, wasActive: bool): Slide {
    slide.(active := if wasActive then slide.active else false, style := saved)
  }

  /** Snapshotting a slide, forcing it and restoring the snapshot gives the
      slide back exactly, whether or not it was the active one. */
  lemma RestoreUndoesForce(slide: Slide)
    ensures Restore(Force(slide), slide.style, slide.active) == slide
  {
  }

  /** The capture of slide `j`, as the oracle sees it. */
  function Shot<Img>(slides: seq<Slide>, j: nat, oracle: Oracle<Img>): Option<Img>
    requires j < |slides|
  {
    oracle.capture(j, Force(slides[j]), PageWidth, PageHeight(slides[j]))
  }

  /** The rasterisation of slide `j` returns a canvas. */
  predicate Captures<Img>(slides: seq<Slide>, j: nat, oracle: Oracle<Img>)
    requires j < |slides|
  {
    Shot(slides, j, oracle).Some?
  }

  /** The whole iteration for slide `j` completes: the capture and the
      steps that put its image in the document. */
  predicate Succeeds<Img>(slides: seq<Slide>, j: nat, oracle: Oracle<Img>)
    requires j < |slides|
  {
    Captures(slides, j, oracle) && oracle.embed(j, Shot(slides, j, oracle).value)
  }

  /** The page slide `j` should produce: 1920 wide, as tall as its page
      height, carrying its capture. */
  function ExpectedPage<Img>(slides: seq<Slide>, j: nat, oracle: Oracle<Img>): Page<Img>
    requires j < |slides| && Succeeds(slides, j, oracle)
  {
    Page(PageWidth, PageHeight(slides[j]), [Shot(slides, j, oracle).value])
  }

  /** After the first `n` slides the document holds exactly their pages in
      order; before the first slide it is the fresh document. */
  ghost predicate Assembled<Img>(pdf: Pdf<Img>, isFirst: bool, slides: seq<Slide>,
                                  oracle: Oracle<Img>, n: nat)
    requires n <= |slides|
  {
    if n == 0 then isFirst && pdf == NewPdf()
    else
      && !isFirst
      && |pdf.pages| == n
      && forall j :: 0 <= j < n ==> Succeeds(slides, j, oracle) && pdf.pages[j] == ExpectedPage(slides, j, oracle)
  }

  // ---------------------------------------------------------------------
  // The loop

  datatype Loop<Img> =
    | Finished(slides: seq<Slide>, pdf: Pdf<Img>)
    | Aborted(slides: seq<Slide>, failedAt: nat, containerLeft: bool)

  /** Iterations `i..` of the loop over the live slides. */
  function ExportFrom<Img>(slides: seq<Slide>, i: nat, oracle: Oracle<Img>,
                           pdf: Pdf<Img>, isFirst: bool): (r: Loop<Img>)
    requires i <= |slides|
    requires Assembled(pdf, isFirst, slides, oracle, i)
    ensures r.Finished? <==> forall j :: i <= j < |slides| ==> Succeeds(slides, j, oracle)
    ensures r.Finished? ==> r.slides == slides && Assembled(r.pdf, |slides| == 0, slides, oracle, |slides|)
    ensures r.Aborted? ==>
      && i <= r.failedAt < |slides|
      && !Succeeds(slides, r.failedAt, oracle)
      && (forall j :: i <= j < r.failedAt ==> Succeeds(slides, j, oracle))
      && (r.containerLeft <==> !Captures(slides, r.failedAt, oracle))
      && r.slides == if r.containerLeft then slides[r.failedAt := Force(slides[r.failedAt])] else slides
    decreases |slides| - i
  {
    if i == |slides| then Finished(slides, pdf)
    else
      var slide := slides[i];
      var saved, wasActive := slide.style, slide.active;
      var live := slides[i := Force(slide)];
      var height := PageHeight(live[i]);
      assert Shot(slides, i, oracle) == oracle.capture(i, live[i], PageWidth, height);
      match oracle.capture(i, live[i], PageWidth, height)
      case None =>
        // html2canvas threw: the container stays and nothing is restored.
        assert !Captures(slides, i, oracle) && !Succeeds(slides, i, oracle);
        Aborted(live, i, true)
      case Some(img) =>
        var restored := live[i := Restore(live[i], saved, wasActive)];
        RestoreUndoesForce(slide);
        assert restored == slides;
        if !oracle.embed(i, img) then
          // toDataURL, addPage or addImage threw after the restore.
          assert Captures(slides, i, oracle) && !Succeeds(slides, i, oracle);
          Aborted(restored, i, false)
        else
        var sized := if isFirst then ResizePage(pdf, PageWidth, height) else AddPage(pdf, PageWidth, height);
        var next := AddImage(sized, img);
        assert ExpectedPage(slides, i, oracle) == Page(PageWidth, height, [img]);
        assert i == 0 ==> sized.pages == [] + [Page(PageWidth, height, [])];
        assert i > 0 ==> sized.pages == pdf.pages + [Page(PageWidth, height, [])];
        assert [] + [img] == [img];
        assert next.pages == (if i == 0 then [] else pdf.pages) + [ExpectedPage(slides, i, oracle)];
        ExportFrom(restored, i + 1, oracle, next, false)
  }

  // ---------------------------------------------------------------------
  // generatePDF as a whole

  /** The parts of the live document the export touches. */
  datatype Dom = Dom(
    slides: seq<Slide>,
    tempStyleBlocks: nat,   // `<style id="pdf-temp-styles">` elements in the head
    strayContainers: nat,   // off-screen capture containers left in the body
    overlayActive: bool,
    downloadDisabled: bool)

  /** The saved document, or the slide whose iteration threw. */
  datatype Outcome<Img> =
    | Saved(dom: Dom, pdf: Pdf<Img>)
    | Failed(dom: Dom, failedAt: nat)

  /** One page per slide in document order, or the constructor's blank
      page when there are no slides. */
  ghost predicate Paginated<Img>(pdf: Pdf<Img>, slides: seq<Slide>, oracle: Oracle<Img>) {
    if |slides| == 0 then pdf == NewPdf()
    else
      && |pdf.pages| == |slides|
      && forall j :: 0 <= j < |slides| ==> Succeeds(slides, j, oracle) && pdf.pages[j] == ExpectedPage(slides, j, oracle)
  }

  /** The export, from the click on the download button to the idle state
      after the download (success) or the alert (failure). */
  function GeneratePdf<Img>(dom: Dom, oracle: Oracle<Img>): (r: Outcome<Img>)
    ensures r.Saved? <==> forall j :: 0 <= j < |dom.slides| ==> Succeeds(dom.slides, j, oracle)
    ensures r.dom.tempStyleBlocks == dom.tempStyleBlocks
    ensures !r.dom.overlayActive && !r.dom.downloadDisabled
    ensures r.Saved? ==>
      && r.dom.slides == dom.slides
      && r.dom.strayContainers == dom.strayContainers
      && Paginated(r.pdf, dom.slides, oracle)
    ensures r.Failed? ==>
      && r.failedAt < |dom.slides|
      && !Succeeds(dom.slides, r.failedAt, oracle)
      && (forall j :: 0 <= j < r.failedAt ==> Succeeds(dom.slides, j, oracle))
      && (!Captures(dom.slides, r.failedAt, oracle) ==>
            && r.dom.slides == dom.slides[r.failedAt := Force(dom.slides[r.failedAt])]
            && r.dom.strayContainers == dom.strayContainers + 1)
      && (Captures(dom.slides, r.failedAt, oracle) ==>
            && r.dom.slides == dom.slides
            && r.dom.strayContainers == dom.strayContainers)
  {
    var busy := dom.(downloadDisabled := true, overlayActive := true, tempStyleBlocks := dom.tempStyleBlocks + 1);
    match ExportFrom(busy.slides, 0, oracle, NewPdf(), true)
    case Finished(slides, pdf) =>
      var cleaned := busy.(slides := slides, tempStyleBlocks := busy.tempStyleBlocks - 1);
      Saved(cleaned.(overlayActive := false, downloadDisabled := false), pdf)
    case Aborted(slides, k, containerLeft) =>
      var left := busy.(slides := slides, strayContainers := busy.strayContainers + if containerLeft then 1 else 0);
      var cleaned := left.(tempStyleBlocks := left.tempStyleBlocks - 1);
      Failed(cleaned.(overlayActive := false, downloadDisabled := false), k)
  }

  // ---------------------------------------------------------------------
  // Consequences

  /** A saved export has exactly one page per slide, in document order:
      page `j` is 1920 wide, max(1080, scrollHeight) high, and carries the
      capture of slide `j`. */
  lemma SavedPagesFollowSlides<Img>(dom: Dom, oracle: Oracle<Img>)
    requires |dom.slides| >= 1
    requires GeneratePdf(dom, oracle).Saved?
    ensures var pdf := GeneratePdf(dom, oracle).pdf;
      && |pdf.pages| == |dom.slides|
      && forall j :: 0 <= j < |dom.slides| ==>
           && pdf.pages[j].width == 1920
           && pdf.pages[j].height == (if dom.slides[j].scrollHeight > 1080 then dom.slides[j].scrollHeight else 1080)
           && pdf.pages[j].images == [oracle.capture(j, Force(dom.slides[j]), pdf.pages[j].width, pdf.pages[j].height).value]
  {
    var pdf := GeneratePdf(dom, oracle).pdf;
    forall j | 0 <= j < |dom.slides|
      ensures pdf.pages[j] == ExpectedPage(dom.slides, j, oracle)
    {
    }
  }

  /** With no slides the loop never runs and the saved document is the
      constructor's single blank 1920 x 1080 page. */
  lemma EmptyDeckSavesBlankPage<Img>(dom: Dom, oracle: Oracle<Img>)
    requires |dom.slides| == 0
    ensures GeneratePdf(dom, oracle).Saved? && GeneratePdf(dom, oracle).pdf == NewPdf()
  {
  }

  /** Which slide is active does not influence the export: two documents
      whose slides differ only in their active classes give the same
      verdict, the same pages, and fail (if at all) at the same slide. */
  lemma ExportIgnoresActiveSlide<Img>(a: Dom, b: Dom, oracle: Oracle<Img>)
    requires SameContent(a.slides, b.slides)
    ensures GeneratePdf(a, oracle).Saved? <==> GeneratePdf(b, oracle).Saved?
    ensures GeneratePdf(a, oracle).Saved? ==> GeneratePdf(a, oracle).pdf == GeneratePdf(b, oracle).pdf
    ensures GeneratePdf(a, oracle).Failed? ==> GeneratePdf(a, oracle).failedAt == GeneratePdf(b, oracle).failedAt
    ensures GeneratePdf(a, oracle).Failed? ==>
      GeneratePdf(a, oracle).dom.strayContainers - a.strayContainers == GeneratePdf(b, oracle).dom.strayContainers - b.strayContainers
  {
    var ra, rb := GeneratePdf(a, oracle), GeneratePdf(b, oracle);
    assert forall j :: 0 <= j < |a.slides| ==> Force(a.slides[j]) == Force(b.slides[j]);
    assert forall j :: 0 <= j < |a.slides| ==> Shot(a.slides, j, oracle) == Shot(b.slides, j, oracle);
    assert forall j :: 0 <= j < |a.slides| ==> (Captures(a.slides, j, oracle) <==> Captures(b.slides, j, oracle));
    assert forall j :: 0 <= j < |a.slides| ==> (Succeeds(a.slides, j, oracle) <==> Succeeds(b.slides, j, oracle));
    assert ra.Saved? <==> rb.Saved?;
    if ra.Saved? && |a.slides| > 0 {
      assert |ra.pdf.pages| == |rb.pdf.pages|;
      forall j | 0 <= j < |a.slides|
        ensures ra.pdf.pages[j] == rb.pdf.pages[j]
      {
        assert ExpectedPage(a.slides, j, oracle) == ExpectedPage(b.slides, j, oracle);
      }
    }
  }

  /** An export that fails only on slide `k` (0-based) aborts there: one
      alert, overlay hidden, trigger enabled, the temporary style block
      gone, every other slide exactly as before. When the rasterisation
      threw, slide `k` is left forced visible and one off-screen container
      is left behind; when a later step threw, slide `k` was already
      restored and the container already removed. */
  lemma FailureOnOneSlide<Img>(dom: Dom, oracle: Oracle<Img>, k: nat)
    requires k < |dom.slides|
    requires forall j :: 0 <= j < |dom.slides| ==> (Succeeds(dom.slides, j, oracle) <==> j != k)
    ensures var r := GeneratePdf(dom, oracle);
      && r.Failed? && r.failedAt == k
      && !r.dom.overlayActive && !r.dom.downloadDisabled
      && r.dom.tempStyleBlocks == dom.tempStyleBlocks
      && |r.dom.slides| == |dom.slides|
      && (forall j :: 0 <= j < |dom.slides| && j != k ==> r.dom.slides[j] == dom.slides[j])
      && (!Captures(dom.slides, k, oracle) ==>
            && r.dom.slides[k].active && r.dom.slides[k].style == Forced
            && r.dom.strayContainers == dom.strayContainers + 1)
      && (Captures(dom.slides, k, oracle) ==>
            && r.dom.slides[k] == dom.slides[k]
            && r.dom.strayContainers == dom.strayContainers)
  {
    var r := GeneratePdf(dom, oracle);
    assert !Succeeds(dom.slides, k, oracle);
  }

  /** After a failed export the active slides are the one shown before
      and, when its rasterisation threw, the one that failed. */
  lemma ActiveAfterFailure<Img>(dom: Dom, oracle: Oracle<Img>, shown: nat)
    requires OnlyActive(dom.slides, shown)
    requires GeneratePdf(dom, oracle).Failed?
    ensures var r := GeneratePdf(dom, oracle);
      forall i :: 0 <= i < |r.dom.slides| ==>
        (r.dom.slides[i].active <==> i == shown || (i == r.failedAt && !Captures(dom.slides, r.failedAt, oracle)))
  {
  }
}
