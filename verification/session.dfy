/**
 How the export and the controller meet: both act on the same slide
 elements, the controller through their active classes and the export
 through their inline styles.
 */
module Session {
  import opened Options
  import opened Slides
  import opened Controller
  import opened Events
  import opened Export

  /** A saved export leaves the controller exactly as consistent as it was. */
  lemma SavedExportKeepsController<Img>(s: State, dom: Dom, oracle: Oracle<Img>)
    requires Inv(s) && dom.slides == s.slides
    requires GeneratePdf(dom, oracle).Saved?
    ensures Inv(s.(slides := GeneratePdf(dom, oracle).dom.slides))
  {
  }

  /** A failed export of any slide but the shown one breaks the
      controller's "exactly one active slide" invariant exactly when the
      rasterisation threw; a failure after the restore leaves it intact. */
  lemma FailedExportBreaksController<Img>(s: State, dom: Dom, oracle: Oracle<Img>)
    requires Inv(s) && dom.slides == s.slides
    requires GeneratePdf(dom, oracle).Failed?
    requires GeneratePdf(dom, oracle).failedAt != s.current - 1
    ensures Inv(s.(slides := GeneratePdf(dom, oracle).dom.slides)) <==> Captures(dom.slides, GeneratePdf(dom, oracle).failedAt, oracle)
    ensures ActiveCount(GeneratePdf(dom, oracle).dom.slides) == 1 <==> Captures(dom.slides, GeneratePdf(dom, oracle).failedAt, oracle)
  {
    var r := GeneratePdf(dom, oracle);
    var k := r.failedAt;
    if !Captures(dom.slides, k, oracle) {
      assert r.dom.slides[k].active && r.dom.slides[s.current - 1].active;
      if ActiveCount(r.dom.slides) == 1 {
        var only := CountOneIsOnlyActive(r.dom.slides);
        assert false;
      }
    } else {
      OnlyActiveIsCountOne(r.dom.slides, s.current - 1);
    }
  }

  /** Navigating before an export does not change what it produces: the
      document starts with slide 1 whichever slide is on screen. */
  lemma ExportAfterNavigation<Img>(s: State, es: seq<Event>, dom: Dom, oracle: Oracle<Img>)
    requires Inv(s) && dom.slides == s.slides
    requires forall i :: 0 <= i < |es| ==> Admissible(Targets(s.items), es[i])
    ensures var moved := dom.(slides := Run(s, es).slides);
      && (GeneratePdf(moved, oracle).Saved? <==> GeneratePdf(dom, oracle).Saved?)
      && (GeneratePdf(moved, oracle).Saved? ==> GeneratePdf(moved, oracle).pdf == GeneratePdf(dom, oracle).pdf)
  {
    ExportIgnoresActiveSlide(dom.(slides := Run(s, es).slides), dom, oracle);
  }
}
