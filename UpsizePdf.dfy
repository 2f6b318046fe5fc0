/** upsize_pdf.py: every page is re-rendered at `scale_factor` and placed,
    with a margin of `margin * scale_factor` around it, on a larger new page.
    The scale factor and the margin are the integers the caller passes. */
module UpsizePdf {
  import opened PdfGeometry
  import opened PdfDocument
  import PyStr

  /** The values `open_file` passes to `resize_pdf`. */
  const DefaultScale: int := 2
  const DefaultMargin: int := 10
  /** The resolution `get_pixmap` is asked for. */
  const RenderDpi: int := 300

  /** The margin in points after scaling, `margin * scale_factor`. */
  function Pad(scale: int, margin: int): real
  {
    (margin * scale) as real
  }

  /** The rectangle the rendered page is placed in: the page with its
      bottom-right corner scaled, moved outwards by `margin * scale_factor` on
      every side. */
  function ImageRect(rect: Rect, scale: int, margin: int): (r: Rect)
    ensures var sr := ScaledRect(rect, scale); var d := Pad(scale, margin);
      r.x0 == sr.x0 - d && r.y0 == sr.y0 - d && r.x1 == sr.x1 + d && r.y1 == sr.y1 + d
  {
    var d := Pad(scale, margin);
    Rect(rect.x0 - d, rect.y0 - d, rect.x1 * scale as real + d, rect.y1 * scale as real + d)
  }

  /** The page rectangle with only its bottom-right corner scaled:
      `fitz.Rect(rect.tl, rect.br * scale_factor)`. */
  function ScaledRect(rect: Rect, scale: int): (r: Rect)
    ensures r.TopLeft() == rect.TopLeft()
    ensures rect.x0 == 0.0 && rect.y0 == 0.0 && scale >= 0 ==>
      r.Width() == rect.Width() * scale as real && r.Height() == rect.Height() * scale as real
  {
    FromCorners(rect.TopLeft(), rect.BottomRight().Scale(scale as real))
  }

  /** The page `resize_pdf` appends for source page `pno` with page
      rectangle `rect`: it shows that page rendered into the image rectangle,
      and, when the scaled page is not inverted, it is as wide as the scaled
      page plus four scaled margins (two from the image rectangle, two from
      the page size), and likewise tall. */
  function ResizedPage(pno: nat, rect: Rect, scale: int, margin: int): (p: Page)
    ensures p.content == ScaledImage(pno, ImageRect(rect, scale, margin), scale, RenderDpi)
    ensures scale >= 0 && margin >= 0 && rect.x0 <= rect.x1 * scale as real ==>
      p.width == rect.x1 * scale as real - rect.x0 + 4.0 * Pad(scale, margin)
    ensures scale >= 0 && margin >= 0 && rect.y0 <= rect.y1 * scale as real ==>
      p.height == rect.y1 * scale as real - rect.y0 + 4.0 * Pad(scale, margin)
  {
    var image := ImageRect(rect, scale, margin);
    var d := Pad(scale, margin);
    assert scale >= 0 && margin >= 0 ==> d >= 0.0 by {
      if scale >= 0 && margin >= 0 {
        assert margin * scale >= 0;
      }
    }
    Page(image.Width() + 2.0 * d, image.Height() + 2.0 * d, ScaledImage(pno, image, scale, RenderDpi))
  }

  /** The image rectangle extends the scaled page by the scaled margin on all
      four sides; when its extent is not negative its size is the scaled
      bottom-right corner minus the top-left corner plus two margins. */
  lemma ImageRectSize(rect: Rect, scale: int, margin: int)
    ensures var image := ImageRect(rect, scale, margin);
      var d := Pad(scale, margin);
      var w := rect.x1 * scale as real - rect.x0 + 2.0 * d;
      var h := rect.y1 * scale as real - rect.y0 + 2.0 * d;
      image.x1 - image.x0 == w && image.y1 - image.y0 == h &&
      (w >= 0.0 ==> image.Width() == w) && (h >= 0.0 ==> image.Height() == h)
  {
  }

  /** For a positive scale and margin the image rectangle strictly contains
      the scaled page rectangle. */
  lemma ImageRectContainsScaledPage(rect: Rect, scale: int, margin: int)
    requires scale > 0 && margin > 0
    ensures StrictlyWithin(ScaledRect(rect, scale), ImageRect(rect, scale, margin))
  {
    assert margin * scale > 0;
  }

  /** For a page at the origin of size `W` by `H`, the new page is
      `W*s + 4*m*s` by `H*s + 4*m*s`: one margin on each side from the image
      rectangle and one more on each side from the page size. */
  lemma PageAtOriginSize(width: real, height: real, scale: int, margin: int)
    requires width >= 0.0 && height >= 0.0 && scale >= 0 && margin >= 0
    ensures var p := ResizedPage(0, Rect(0.0, 0.0, width, height), scale, margin);
      var d := Pad(scale, margin);
      p.width == width * scale as real + 4.0 * d && p.height == height * scale as real + 4.0 * d
  {
    assert margin * scale >= 0;
    assert width * scale as real >= 0.0;
    assert height * scale as real >= 0.0;
  }

  /** With the defaults, a page at the origin of size `W` by `H` becomes
      `2W + 80` by `2H + 80`. */
  lemma DefaultPageSize(width: real, height: real)
    requires width >= 0.0 && height >= 0.0
    ensures var p := ResizedPage(0, Rect(0.0, 0.0, width, height), DefaultScale, DefaultMargin);
      p.width == 2.0 * width + 80.0 && p.height == 2.0 * height + 80.0
  {
    PageAtOriginSize(width, height, DefaultScale, DefaultMargin);
  }

  /** For a page at the origin and a positive scale and margin, the image
      rectangle starts a margin above and to the left of the new page's
      origin, and ends three margins before its far edges. */
  lemma ImageOverhangsOrigin(width: real, height: real, scale: int, margin: int)
    requires width >= 0.0 && height >= 0.0 && scale > 0 && margin > 0
    ensures var rect := Rect(0.0, 0.0, width, height);
      var image := ImageRect(rect, scale, margin);
      var p := ResizedPage(0, rect, scale, margin);
      var d := Pad(scale, margin);
      image.x0 == -d < 0.0 && image.y0 == -d < 0.0 &&
      p.width - image.x1 == 3.0 * d && p.height - image.y1 == 3.0 * d
  {
    PageAtOriginSize(width, height, scale, margin);
    assert margin * scale > 0;
  }

  /** The output file name: every ".pdf" becomes "_resized_{s}x.pdf", so the
      name never gets shorter. */
  function ResizedPath(path: string, scale: int): (out: string)
    ensures |out| >= |path|
  {
    PyStr.ReplaceAll(path, PyStr.PdfExt, "_resized_" + PyStr.IntToDecimal(scale) + "x.pdf")
  }

  /** A path ending in its only ".pdf" gets the marker before the extension,
      and the scale factor can be read back from it. */
  lemma ResizedPathOfPdf(stem: string, scale: int)
    requires !PyStr.Occurs(stem, PyStr.PdfExt)
    ensures ResizedPath(stem + PyStr.PdfExt, scale) == stem + "_resized_" + PyStr.IntToDecimal(scale) + "x.pdf"
    ensures PyStr.SignedDecimalValue(PyStr.IntToDecimal(scale)) == scale
  {
    PyStr.PdfExtBorderless();
    PyStr.ReplaceAtEnd(stem, PyStr.PdfExt, "_resized_" + PyStr.IntToDecimal(scale) + "x.pdf");
    assert stem + ("_resized_" + PyStr.IntToDecimal(scale) + "x.pdf") == stem + "_resized_" + PyStr.IntToDecimal(scale) + "x.pdf";
    PyStr.IntDecimalRoundTrip(scale);
  }

  /** A path without ".pdf" is used as it is, and only such a path. */
  lemma ResizedPathUnchangedIff(path: string, scale: int)
    ensures ResizedPath(path, scale) == path <==> !PyStr.Occurs(path, PyStr.PdfExt)
  {
    PyStr.ReplaceUnchangedIff(path, PyStr.PdfExt, "_resized_" + PyStr.IntToDecimal(scale) + "x.pdf");
  }

  /** With the default scale, "scan.pdf" becomes "scan_resized_2x.pdf". */
  lemma DefaultResizedPath()
    ensures ResizedPath("scan.pdf", DefaultScale) == "scan_resized_2x.pdf"
  {
    assert !PyStr.Occurs("scan", PyStr.PdfExt) by {
      assert !PyStr.OccursAt("scan", PyStr.PdfExt, 0);
    }
    assert "scan" + PyStr.PdfExt == "scan.pdf";
    ResizedPathOfPdf("scan", DefaultScale);
    assert PyStr.DigitChar(2) == '2';
    assert PyStr.NatToDecimal(2) == "2";
    assert PyStr.IntToDecimal(DefaultScale) == "2";
    assert "scan" + "_resized_" + "2" + "x.pdf" == "scan_resized_2x.pdf";
  }

  /** The in-place updates of `new_rect`: built from the page's top-left
      corner and its scaled bottom-right corner, then each edge moved out by
      the scaled margin, in the order the script does it. */
  method AddMargins(rect: Rect, scale: int, margin: int) returns (newRect: Rect)
    ensures newRect == ImageRect(rect, scale, margin)
  {
    newRect := FromCorners(rect.TopLeft(), rect.BottomRight().Scale(scale as real));
    newRect := newRect.(x1 := newRect.x1 + (margin * scale) as real);
    newRect := newRect.(y1 := newRect.y1 + (margin * scale) as real);
    newRect := newRect.(x0 := newRect.x0 - (margin * scale) as real);
    newRect := newRect.(y0 := newRect.y0 - (margin * scale) as real);
  }

  /** `resize_pdf` over a document whose pages have the rectangles
      `pageRects`: one appended page per input page, in input order, as
      ResizedPage says; and the output path. */
  method ResizePdf(path: string, pageRects: seq<Rect>, scale: int, margin: int) returns (pages: seq<Page>, outPath: string)
    ensures outPath == ResizedPath(path, scale)
    ensures |pages| == |pageRects|
    ensures forall i :: 0 <= i < |pages| ==> pages[i] == ResizedPage(i, pageRects[i], scale, margin)
  {
    outPath := ResizedPath(path, scale);
    var newPdf := new Document();
    var k := 0;
    while k < |pageRects|
      invariant 0 <= k <= |pageRects|
      invariant |newPdf.pages| == k
      invariant forall i :: 0 <= i < k ==> newPdf.pages[i] == ResizedPage(i, pageRects[i], scale, margin)
    {
      var newRect := AddMargins(pageRects[k], scale, margin);
      var pad := Pad(scale, margin);
      var newPage := newPdf.NewPage(newRect.Width() + 2.0 * pad, newRect.Height() + 2.0 * pad);
      newPdf.Draw(newPage, ScaledImage(k, newRect, scale, RenderDpi));
      k := k + 1;
    }
    pages := newPdf.pages;
  }

  /** How a run of the script ends. */
  datatype Outcome =
    | NoPdfSelected
    | Resized(pages: seq<Page>, outPath: string)

  /** `open_file`: a cancelled dialog does nothing; a chosen file is resized
      with scale 2 and margin 10. */
  method OpenFile(path: string, pageRects: seq<Rect>) returns (outcome: Outcome)
    ensures path == [] <==> outcome == NoPdfSelected
    ensures outcome.Resized? ==>
      outcome.outPath == ResizedPath(path, DefaultScale) && |outcome.pages| == |pageRects| &&
      forall i :: 0 <= i < |pageRects| ==> outcome.pages[i] == ResizedPage(i, pageRects[i], DefaultScale, DefaultMargin)
  {
    if path == [] {
      return NoPdfSelected;
    }
    var pages, outPath := ResizePdf(path, pageRects, DefaultScale, DefaultMargin);
    outcome := Resized(pages, outPath);
  }
}
