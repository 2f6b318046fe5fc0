/** PDF-Coords_to_string.py without the recognition itself: the crop box and
    the upscaled size handed to the OCR engine for each page, the stripping
    of its text, the rows `(page + 1, text)` in page order and the table
    with its header. The engine is a function parameter. */
module RoiOcr {
  import PyStr
  import Sel = RoiSelection

  /** The `scale_factor` `main` passes, also the default of `perform_ocr_on_roi`. */
  const DefaultScale: int := 6

  /** A PIL crop box `(left, upper, right, lower)` in pixels. */
  datatype Box = Box(left: int, upper: int, right: int, lower: int)

  /** What the OCR engine is given for one page: the page, the part of its
      image cut out, and the size that part is resized to. */
  datatype OcrRequest = OcrRequest(page: nat, box: Box, width: int, height: int)

  /** One entry of `results`. */
  datatype Row = Row(page: int, text: string)

  /** `image.crop((roi[0], roi[1], roi[0] + roi[2], roi[1] + roi[3]))`. */
  function CropBox(roi: Sel.Roi): (b: Box)
    ensures b.right - b.left == roi.w && b.lower - b.upper == roi.h
  {
    Box(roi.x, roi.y, roi.x + roi.w, roi.y + roi.h)
  }

  /** For a region selected by dragging, the crop box spans from the smaller
      to the larger coordinate of the two drag points on each axis. */
  lemma CropBoxOfDrag(a: Sel.Pixel, b: Sel.Pixel)
    ensures CropBox(Sel.Normalize(a, b)) ==
      Box(Sel.Min(a.x, b.x), Sel.Min(a.y, b.y), Sel.Max(a.x, b.x), Sel.Max(a.y, b.y))
  {
  }

  /** `perform_ocr_on_roi` up to the recognition: the cropped image is
      `right - left` by `lower - upper` pixels and each side is multiplied by
      the integer scale factor. */
  function Request(page: nat, roi: Sel.Roi, scale: int): (q: OcrRequest)
    ensures q.page == page && q.box == CropBox(roi)
    ensures q.width == roi.w * scale && q.height == roi.h * scale
  {
    var box := CropBox(roi);
    OcrRequest(page, box, (box.right - box.left) * scale, (box.lower - box.upper) * scale)
  }

  /** The text `perform_ocr_on_roi` returns: the engine's answer, stripped,
      so it neither starts nor ends with whitespace. */
  function PerformOcr(recognize: OcrRequest -> string, page: nat, roi: Sel.Roi, scale: int): (text: string)
    ensures text == [] || (!PyStr.IsSpace(text[0]) && !PyStr.IsSpace(text[|text| - 1]))
    ensures |text| <= |recognize(Request(page, roi, scale))|
  {
    PyStr.Strip(recognize(Request(page, roi, scale)))
  }

  /** The loop of `main`: for each page in order, the stripped text of its
      region, numbered from 1. Every page's region is handed to the engine
      enlarged six times on each side. */
  method CollectResults(pageCount: nat, roi: Sel.Roi, recognize: OcrRequest -> string) returns (results: seq<Row>)
    ensures |results| == pageCount
    ensures forall i :: 0 <= i < pageCount ==>
      results[i] == Row(i + 1, PerformOcr(recognize, i, roi, DefaultScale))
    ensures forall i, j :: 0 <= i < j < |results| ==> 1 <= results[i].page < results[j].page
    ensures forall i :: 0 <= i < pageCount ==>
      results[i].text == PyStr.Strip(recognize(OcrRequest(i, CropBox(roi), roi.w * 6, roi.h * 6)))
  {
    results := [];
    var pageNumber := 0;
    while pageNumber < pageCount
      invariant 0 <= pageNumber <= pageCount
      invariant |results| == pageNumber
      invariant forall i :: 0 <= i < pageNumber ==>
        results[i] == Row(i + 1, PerformOcr(recognize, i, roi, DefaultScale))
    {
      var extractedText := PerformOcr(recognize, pageNumber, roi, DefaultScale);
      results := results + [Row(pageNumber + 1, extractedText)];
      pageNumber := pageNumber + 1;
    }
  }

  const Header: seq<string> := ["Page Number", "Extracted Text"]

  /** What `csv.writer` is given: the header row, then one row per result,
      the page number written with `str`. */
  function Table(results: seq<Row>): (t: seq<seq<string>>)
    ensures |t| == |results| + 1 && t[0] == Header
    ensures forall i :: 0 <= i < |results| ==> t[i + 1] == [PyStr.IntToDecimal(results[i].page), results[i].text]
  {
    [Header] + seq(|results|, i requires 0 <= i < |results| => [PyStr.IntToDecimal(results[i].page), results[i].text])
  }

  /** Reading the first column of the table back gives the page numbers
      1, 2, ... in order. */
  lemma TablePageNumbers(results: seq<Row>, i: nat)
    requires i < |results|
    requires forall k :: 0 <= k < |results| ==> results[k].page == k + 1
    ensures PyStr.SignedDecimalValue(Table(results)[i + 1][0]) == i + 1
  {
    PyStr.IntDecimalRoundTrip(results[i].page);
  }

  /** How a run of the script ends. */
  datatype Outcome =
    | NoPdfSelected
    | NoRoiSelected
    | TableWritten(table: seq<seq<string>>)

  /** `main`: an empty path or no region ends the run before any page is
      recognised; otherwise every page is recognised and the table has one
      row per page after the header. Once a file is chosen, the window must
      receive an event that ends its loop. */
  method OcrMain(path: string, events: seq<Sel.Event>, pageCount: nat, recognize: OcrRequest -> string)
    returns (outcome: Outcome)
    requires path != [] ==> Sel.StopIndex(events) < |events|
    ensures path == [] <==> outcome == NoPdfSelected
    ensures outcome == NoRoiSelected <==> path != [] && Sel.Selection(events) == Sel.None
    ensures outcome.TableWritten? ==>
      Sel.Selection(events).Some? && |outcome.table| == pageCount + 1 && outcome.table[0] == Header &&
      forall i :: 0 <= i < pageCount ==>
        outcome.table[i + 1] == [PyStr.IntToDecimal(i + 1), PerformOcr(recognize, i, Sel.Selection(events).value, DefaultScale)]
  {
    if path == [] {
      return NoPdfSelected;
    }
    var roi := Sel.SelectRoi(events);
    if roi.None? {
      return NoRoiSelected;
    }
    var results := CollectResults(pageCount, roi.value, recognize);
    var table := Table(results);
    assert forall i :: 0 <= i < pageCount ==> table[i + 1] == [PyStr.IntToDecimal(i + 1), results[i].text];
    outcome := TableWritten(table);
  }
}
