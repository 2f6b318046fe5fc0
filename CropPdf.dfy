/** crop_pdf.py: every page is cropped to the selected region, clamped edge by
    edge against that page's media box, and copied onto a new page of the
    crop box's size. The region's pixel coordinates are used as PDF points
    unchanged, as the script does. */
module CropPdf {
  import opened PdfGeometry
  import opened PdfDocument
  import PyStr
  import Sel = RoiSelection

  /** The region as corner coordinates `(x1, y1, x2, y2)`, before clamping. */
  function RoiBox(roi: Sel.Roi): (b: Rect)
    ensures roi.w >= 0 && roi.h >= 0 ==> b.Ordered()
    ensures b.Width() == (if roi.w > 0 then roi.w else 0) as real
    ensures b.Height() == (if roi.h > 0 then roi.h else 0) as real
  {
    Rect(roi.x as real, roi.y as real, (roi.x + roi.w) as real, (roi.y + roi.h) as real)
  }

  function MaxR(a: real, b: real): real
  {
    if a < b then b else a
  }

  function MinR(a: real, b: real): real
  {
    if a > b then b else a
  }

  /** The crop box after the four clamps: each edge is moved onto the page's
      edge if it lies outside, so the box is within the media box and within
      the region, and each edge is either the region's or the page's. */
  function Clamp(b: Rect, media: Rect): (r: Rect)
    ensures media.x0 <= r.x0 && r.x1 <= media.x1 && media.y0 <= r.y0 && r.y1 <= media.y1
    ensures b.x0 <= r.x0 && r.x1 <= b.x1 && b.y0 <= r.y0 && r.y1 <= b.y1
    ensures (r.x0 == b.x0 || r.x0 == media.x0) && (r.x1 == b.x1 || r.x1 == media.x1)
    ensures (r.y0 == b.y0 || r.y0 == media.y0) && (r.y1 == b.y1 || r.y1 == media.y1)
  {
    Rect(MaxR(b.x0, media.x0), MaxR(b.y0, media.y0), MinR(b.x1, media.x1), MinR(b.y1, media.y1))
  }

  /** The successive `if`s of `crop_pdf_to_roi` for one page. */
  method ClampToMedia(roi: Sel.Roi, media: Rect) returns (cropBox: Rect)
    ensures cropBox == Clamp(RoiBox(roi), media)
  {
    var x1 := roi.x as real;
    var y1 := roi.y as real;
    var x2 := (roi.x + roi.w) as real;
    var y2 := (roi.y + roi.h) as real;
    if x1 < media.x0 {
      x1 := media.x0;
    }
    if x2 > media.x1 {
      x2 := media.x1;
    }
    if y1 < media.y0 {
      y1 := media.y0;
    }
    if y2 > media.y1 {
      y2 := media.y1;
    }
    cropBox := Rect(x1, y1, x2, y2);
  }

  /** A region already inside the page is used unchanged. */
  lemma ClampInsideIsIdentity(b: Rect, media: Rect)
    requires Within(b, media)
    ensures Clamp(b, media) == b
  {
  }

  /** Clamping an already clamped box changes nothing. */
  lemma ClampIdempotent(b: Rect, media: Rect)
    ensures Clamp(Clamp(b, media), media) == Clamp(b, media)
  {
    ClampInsideIsIdentity(Clamp(b, media), media);
  }

  /** For an ordered region on an ordered page, the clamped box is ordered on
      an axis exactly when the region meets the page on that axis. */
  lemma ClampOrderedIff(b: Rect, media: Rect)
    requires b.Ordered() && media.Ordered()
    ensures Clamp(b, media).x0 <= Clamp(b, media).x1 <==> b.x0 <= media.x1 && media.x0 <= b.x1
    ensures Clamp(b, media).y0 <= Clamp(b, media).y1 <==> b.y0 <= media.y1 && media.y0 <= b.y1
  {
  }

  /** A region wholly to the right of the page leaves an inverted crop box:
      its left edge is the region's, its right edge the page's, and the new
      page gets width 0. */
  lemma ClampCanInvert()
    ensures var c := Clamp(RoiBox(Sel.Roi(700, 100, 50, 40)), Rect(0.0, 0.0, 612.0, 792.0));
      c == Rect(700.0, 100.0, 612.0, 140.0) && c.x0 > c.x1 && c.Width() == 0.0
  {
  }

  /** The crop box, and so each new page, is never wider or taller than the
      page it comes from. */
  lemma CropFitsPage(roi: Sel.Roi, media: Rect)
    ensures Clamp(RoiBox(roi), media).Width() <= media.Width()
    ensures Clamp(RoiBox(roi), media).Height() <= media.Height()
  {
    WithinIsSmaller(Clamp(RoiBox(roi), media), media);
  }

  /** For a region inside the page, the new page is exactly the region's size. */
  lemma CropOfInnerRegion(roi: Sel.Roi, media: Rect)
    requires roi.w >= 0 && roi.h >= 0 && Within(RoiBox(roi), media)
    ensures Clamp(RoiBox(roi), media).Width() == roi.w as real
    ensures Clamp(RoiBox(roi), media).Height() == roi.h as real
  {
    ClampInsideIsIdentity(RoiBox(roi), media);
  }

  /** The page `crop_pdf_to_roi` adds for source page `pno` with crop box
      `box`: a page of the crop box's size (nothing across an inverted axis)
      showing that box of the source page. */
  function CroppedPage(pno: nat, box: Rect): (p: Page)
    ensures p.width >= 0.0 && p.height >= 0.0
    ensures box.x0 <= box.x1 ==> p.width == box.x1 - box.x0
    ensures box.y0 <= box.y1 ==> p.height == box.y1 - box.y0
    ensures p.content == CroppedCopy(pno, box)
  {
    Page(box.Width(), box.Height(), CroppedCopy(pno, box))
  }

  /** The output file name: every ".pdf" becomes "_cropped.pdf", so the
      name never gets shorter. */
  function CroppedPath(path: string): (out: string)
    ensures |out| >= |path|
  {
    PyStr.ReplaceAll(path, PyStr.PdfExt, "_cropped.pdf")
  }

  /** A path that does not mention ".pdf" is used as it is, and only such a path. */
  lemma CroppedPathUnchangedIff(path: string)
    ensures CroppedPath(path) == path <==> !PyStr.Occurs(path, PyStr.PdfExt)
  {
    PyStr.ReplaceUnchangedIff(path, PyStr.PdfExt, "_cropped.pdf");
  }

  /** A path that ends in its only ".pdf" gets "_cropped" before the extension. */
  lemma CroppedPathOfPdf(stem: string)
    requires !PyStr.Occurs(stem, PyStr.PdfExt)
    ensures CroppedPath(stem + PyStr.PdfExt) == stem + "_cropped.pdf"
  {
    PyStr.PdfExtBorderless();
    PyStr.ReplaceAtEnd(stem, PyStr.PdfExt, "_cropped.pdf");
  }

  /** `crop_pdf_to_roi` over a document whose pages have the media boxes
      `mediaBoxes`: one output page per input page, in order, each sized to
      that page's clamped crop box; and the output path. */
  method CropPdfToRoi(path: string, mediaBoxes: seq<Rect>, roi: Sel.Roi) returns (pages: seq<Page>, outPath: string)
    ensures |pages| == |mediaBoxes|
    ensures forall i :: 0 <= i < |pages| ==> pages[i] == CroppedPage(i, Clamp(RoiBox(roi), mediaBoxes[i]))
    ensures outPath == CroppedPath(path)
  {
    var newPdf := new Document();
    var pageNumber := 0;
    while pageNumber < |mediaBoxes|
      invariant 0 <= pageNumber <= |mediaBoxes|
      invariant |newPdf.pages| == pageNumber
      invariant forall i :: 0 <= i < pageNumber ==> newPdf.pages[i] == CroppedPage(i, Clamp(RoiBox(roi), mediaBoxes[i]))
    {
      var cropBox := ClampToMedia(roi, mediaBoxes[pageNumber]);
      var newPage := newPdf.NewPage(cropBox.Width(), cropBox.Height());
      newPdf.Draw(newPage, CroppedCopy(pageNumber, cropBox));
      pageNumber := pageNumber + 1;
    }
    pages := newPdf.pages;
    outPath := CroppedPath(path);
  }

  /** How a run of the script ends. */
  datatype Outcome =
    | NoPdfSelected
    | NoRoiSelected
    | Cropped(pages: seq<Page>, outPath: string)

  /** `main`: an empty path from the file dialog or no region from the
      window ends the run before any page is touched; otherwise the document
      is cropped. Every tuple is true in Python, so only None aborts. Once a
      file is chosen, the window must receive an event that ends its loop. */
  method CropMain(path: string, events: seq<Sel.Event>, mediaBoxes: seq<Rect>) returns (outcome: Outcome)
    requires path != [] ==> Sel.StopIndex(events) < |events|
    ensures path == [] <==> outcome == NoPdfSelected
    ensures outcome == NoRoiSelected <==> path != [] && Sel.Selection(events) == Sel.None
    ensures outcome.Cropped? ==>
      Sel.Selection(events).Some? &&
      |outcome.pages| == |mediaBoxes| && outcome.outPath == CroppedPath(path) &&
      forall i :: 0 <= i < |mediaBoxes| ==>
        outcome.pages[i] == CroppedPage(i, Clamp(RoiBox(Sel.Selection(events).value), mediaBoxes[i]))
  {
    if path == [] {
      return NoPdfSelected;
    }
    var roi := Sel.SelectRoi(events);
    if roi.None? {
      return NoRoiSelected;
    }
    var pages, outPath := CropPdfToRoi(path, mediaBoxes, roi.value);
    outcome := Cropped(pages, outPath);
  }
}
