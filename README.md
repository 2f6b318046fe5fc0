# PDF region tools: a verified Dafny model

This project models the three desktop scripts of a small PDF toolkit. All
three work on a rectangle (the region of interest, ROI) that the user drags
on the first page:

- `crop_pdf.py` crops every page to the ROI, clamped against each page's
  media box, and writes `<name>_cropped.pdf`.
- `PDF-Coords_to_string.py` OCRs the ROI on every page and builds a table of
  `(page number, text)`.
- `upsize_pdf.py` re-renders every page at a scale factor, places it with a
  margin on a larger page, and writes `<name>_resized_<s>x.pdf`.

The modules are:

- `RoiSelection`: `select_roi`, which is identical in `crop_pdf.py` and
  `PDF-Coords_to_string.py`. It has three parts:
  - the class `RoiSelector`, whose fields are the handlers' state (the
    `rect_start` dictionary, `rect_obj`, the outline on the canvas, whether
    `mainloop` runs);
  - the handlers `OnClick`, `OnDrag`, `OnRelease` and `OnClose`;
  - the method `SelectRoi`, which delivers a sequence of events and is proved
    against the function `Selection` on event sequences.
- `CropPdf`: the corner box, the four clamps (`ClampToMedia`, specified by
  `Clamp`), the page loop (`CropPdfToRoi`), the output path and `main`.
- `UpsizePdf`: the in-place margin updates of `new_rect` (`AddMargins`,
  specified by `ImageRect`), the new page size, the page loop (`ResizePdf`),
  the output path and `open_file`.
- `RoiOcr`: the crop box and upscaled size handed to the OCR engine, the
  stripped text, the results loop, the CSV table and `main`. The engine is a
  function parameter `recognize`.
- `PdfDocument`: the output document built with `fitz.open()`. It is a class
  whose page list `new_page(-1, ...)` appends to, and `Draw` fills in one
  page's content.
- `PdfGeometry`: `fitz.Point` and `fitz.Rect`.
- `PyStr`: the Python built-ins used here: `str.replace`, `str.strip` and
  `str(int)`.

Coordinates of PDF rectangles are Dafny `real`s. ROI pixels, the scale factor
and the margin are `int`s. `fitz.Rect.width` and `height` are modelled as
`max(x1 - x0, 0)` and `max(y1 - y0, 0)`, the PyMuPDF definition. As in
`crop_pdf.py:76`, ROI pixels are used as PDF points with no conversion.

Behaviours of the code that may surprise a reader:

- The upscaled page is `W*s + 4*m*s` wide, although the docstring at
  `upsize_pdf.py:12` speaks of a margin "added to each side of the page". The
  image rectangle already has one scaled margin on each side, and `new_page`
  adds two more (`UpsizePdf.ResizedPage`, `UpsizePdf.PageAtOriginSize`).
- Output names replace every `.pdf` in the path, not only the extension
  (`CropPdf.CroppedPath`, `UpsizePdf.ResizedPath`).
- The crop clamp only moves each edge onto the page if it lies outside; it
  does not keep a region inside the page. A region wholly outside a page
  gives an inverted crop box (`x1 > x2` or `y1 > y2`) (`CropPdf.ClampOrderedIff`,
  `CropPdf.ClampCanInvert`). The script then fails in `set_cropbox`
  (`crop_pdf.py:92`), which refuses such a box; the model, which does not
  model that refusal, goes on and gives `crop_box.width == 0`.

## Model

| member | source | states |
|---|---|---|
| `RoiSelection.Normalize` | crop_pdf.py:52-56 | width and height are non-negative, and on each axis the ROI's two edges are exactly the two drag coordinates (so `x` is the minimum and `w` the absolute difference); same code at PDF-Coords_to_string.py:62-66 |
| `RoiSelection.NormalizeSymmetric` | crop_pdf.py:53-56 | dragging from end to start gives the identical ROI tuple |
| `RoiSelection.NormalizeUnique` | crop_pdf.py:52-56 | any ROI with non-negative size whose edges are the two drag coordinates is the normalised one |
| `RoiSelection.NormalizeCorners` | crop_pdf.py:52-56 | dragging between opposite corners of a ROI, in any of the three directions tried, gives back that ROI |
| `RoiSelection.StopIndex` | crop_pdf.py:38-50 | the first release or window close ends the event loop; no earlier event does |
| `RoiSelection.LastPressIff` | crop_pdf.py:34-36 | a start point is recorded exactly when some press happened, and it is the point of the last press: no press follows it |
| `RoiSelection.DraggedIff` | crop_pdf.py:27-32 | `rect_obj` is set exactly when some motion came after a press |
| `RoiSelection.Selection` | crop_pdf.py:52-58 | a ROI is returned only when the loop was ended by a release after a press; it has non-negative size and its edges are the last press point and the release point on each axis |
| `RoiSelection.SelectionIff` | crop_pdf.py:27-58 | a ROI is returned exactly when the loop was ended by a release and, before it, a motion followed a press; a run whose loop ends any other way returns None |
| `RoiSelection.ClickWithoutDragSelectsNothing` | crop_pdf.py:38-44 | a press and release with no motion between them records no end point, so nothing is selected |
| `RoiSelection.ClosedWindowSelectsNothing` | crop_pdf.py:50-58 | closing the window before any release selects nothing |
| `RoiSelection.PressDragRelease` | crop_pdf.py:27-56 | press, motion and release select the normalised ROI between the press point and the release point |
| `RoiSelection.RoiSelector.constructor` | crop_pdf.py:24-25 | empty `rect_start`, no `rect_obj`, no outline, and the loop running |
| `RoiSelection.RoiSelector.OnClick` | crop_pdf.py:34-36 | the start point becomes the event's point; nothing else changes |
| `RoiSelection.RoiSelector.OnDrag` | crop_pdf.py:27-32 | with a start point, the outline is replaced by one from the start point to the event and `rect_obj` is set; without one, nothing changes |
| `RoiSelection.RoiSelector.OnRelease` | crop_pdf.py:38-44 | the end point is recorded and the outline removed only if `rect_obj` is set; the loop always stops |
| `RoiSelection.RoiSelector.OnClose` | crop_pdf.py:50 | closing the window stops the loop and changes nothing else |
| `RoiSelection.RoiSelector.Dispatch` | crop_pdf.py:46-48 | each event reaches its bound handler, with that handler's effect on the start point, `rect_obj`, the end point and the loop |
| `RoiSelection.RoiSelector.Result` | crop_pdf.py:52-58 | a ROI is returned exactly when an end point was recorded |
| `RoiSelection.SelectRoi` | crop_pdf.py:15-58 | for events of which one ends the loop, delivering them until the loop stops returns `Selection(events)`; same code at PDF-Coords_to_string.py:25-68 |
| `PyStr.ReplaceAll` | crop_pdf.py:101 | `str.replace` with a replacement at least as long as the pattern never shortens the string |
| `PyStr.ReplaceWithoutOccurrence` | crop_pdf.py:101 | `str.replace` leaves a string without the pattern unchanged |
| `PyStr.ReplaceLength` | crop_pdf.py:101 | a replacement longer than the pattern lengthens every string that contains the pattern |
| `PyStr.ReplaceUnchangedIff` | upsize_pdf.py:17 | with a longer replacement, the result equals the input exactly when the pattern does not occur |
| `PyStr.ReplaceAtEnd` | upsize_pdf.py:17 | for a pattern that cannot overlap itself, a string whose only occurrence is at its end has exactly that occurrence replaced |
| `PyStr.StripStart` | PDF-Coords_to_string.py:80 | the result is a suffix of the input, everything dropped is whitespace, and it does not start with whitespace |
| `PyStr.StripEnd` | PDF-Coords_to_string.py:80 | the result is a prefix of the input, everything dropped is whitespace, and it does not end with whitespace |
| `PyStr.Strip` | PDF-Coords_to_string.py:80 | the stripped text neither starts nor ends with whitespace |
| `PyStr.StripSlice` | PDF-Coords_to_string.py:80 | the stripped text is a contiguous slice of the input with only whitespace cut off on both sides |
| `PyStr.StripIdempotent` | PDF-Coords_to_string.py:80 | stripping twice is the same as stripping once |
| `PyStr.StripAllSpace` | PDF-Coords_to_string.py:80 | text made only of whitespace strips to the empty string |
| `PyStr.NatToDecimal` | upsize_pdf.py:17 | `str` of a natural number is a non-empty string of digits with no leading zero |
| `PyStr.IntToDecimal` | upsize_pdf.py:17 | `str` of an integer starts with `-` exactly when the integer is negative, and every other character is a digit |
| `PyStr.NatDecimalRoundTrip` | upsize_pdf.py:17 | reading back the digits `str` writes gives the number |
| `PyStr.IntDecimalRoundTrip` | upsize_pdf.py:17 | reading back `str(i)`, with its sign, gives `i` for every integer |
| `CropPdf.RoiBox` | crop_pdf.py:76-78 | the corner box `(x, y, x+w, y+h)` is ordered for a normalised ROI and has the ROI's width and height |
| `CropPdf.Clamp` | crop_pdf.py:80-89 | after clamping, the box lies within the media box on all four sides and within the ROI box, and each edge is the ROI's or the page's |
| `CropPdf.ClampToMedia` | crop_pdf.py:76-89 | the four successive `if`s compute exactly `Clamp` of the ROI's corner box |
| `CropPdf.ClampInsideIsIdentity` | crop_pdf.py:80-89 | a ROI inside the media box gives the crop box `(x, y, x+w, y+h)` unchanged |
| `CropPdf.ClampIdempotent` | crop_pdf.py:80-89 | clamping an already clamped box is a no-op |
| `CropPdf.ClampOrderedIff` | crop_pdf.py:80-89 | on each axis the clamped box is ordered exactly when the ROI meets the page on that axis; otherwise `x1 > x2` (or `y1 > y2`) |
| `CropPdf.ClampCanInvert` | crop_pdf.py:80-95 | a ROI wholly to the right of a 612x792 page leaves the inverted box (700, 100, 612, 140), and the new page gets width 0 |
| `CropPdf.CropFitsPage` | crop_pdf.py:80-95 | the crop box, and so the new page, is never wider or taller than the source page |
| `CropPdf.CropOfInnerRegion` | crop_pdf.py:76-95 | for a ROI inside the page, the new page is exactly `w` by `h` |
| `CropPdf.CroppedPage` | crop_pdf.py:95-98 | the new page is as wide and tall as the crop box on each axis that is not inverted, 0 on an inverted one, and shows that box of source page `pno` |
| `CropPdf.CroppedPath` | crop_pdf.py:101 | the output name replaces `.pdf` by `_cropped.pdf` and is never shorter than the input |
| `CropPdf.CroppedPathUnchangedIff` | crop_pdf.py:101 | the output path equals the input path exactly when `.pdf` does not occur in it |
| `CropPdf.CroppedPathOfPdf` | crop_pdf.py:101 | `stem + ".pdf"`, with no other `.pdf` in the stem, becomes `stem + "_cropped.pdf"` |
| `CropPdf.CropPdfToRoi` | crop_pdf.py:60-107 | one output page per input page, in input order; page `i` is sized to and shows page `i` cropped to the ROI clamped against its own media box; the output path is `CroppedPath` |
| `CropPdf.CropMain` | crop_pdf.py:109-126 | an empty file path ends the run first; no ROI (None) ends it before any page is processed; otherwise the document is cropped to the selected ROI; once a file is chosen the window must receive an event that ends its loop |
| `PdfDocument.Document.constructor` | crop_pdf.py:66 | a new document has no pages |
| `PdfDocument.Document.NewPage` | crop_pdf.py:95 | `new_page` appends one blank page of the given size and returns its number; earlier pages are kept |
| `PdfDocument.Document.Draw` | crop_pdf.py:98 | drawing on page `pno` changes only that page's content; sizes and other pages stay |
| `PdfGeometry.Rect.Width` | crop_pdf.py:95 | `Rect.width` is never negative and is `x1 - x0` for a rectangle that is not inverted on that axis |
| `PdfGeometry.Rect.Height` | crop_pdf.py:95 | `Rect.height` is never negative and is `y1 - y0` for a rectangle that is not inverted on that axis |
| `UpsizePdf.ScaledRect` | upsize_pdf.py:28 | `fitz.Rect(rect.tl, rect.br * s)` keeps the top-left corner, and for a page at the origin it is `s` times as wide and tall |
| `UpsizePdf.ImageRect` | upsize_pdf.py:28-34 | the image rect extends the scaled page rect by `m*s` on each of its four sides |
| `UpsizePdf.ResizedPage` | upsize_pdf.py:36-43 | the new page shows source page `pno` rendered into the image rect, and when the scaled page is not inverted it is `br.x*s - tl.x + 4*m*s` wide and `br.y*s - tl.y + 4*m*s` tall |
| `UpsizePdf.ResizedPath` | upsize_pdf.py:17 | the output name replaces `.pdf` by `_resized_<s>x.pdf` and is never shorter than the input |
| `UpsizePdf.AddMargins` | upsize_pdf.py:28-34 | after the in-place updates the rect is exactly `ImageRect`, the scaled page rect with `m*s` added on every side |
| `UpsizePdf.ImageRectSize` | upsize_pdf.py:28-34 | the image rect is `br.x*s - tl.x + 2*m*s` wide and `br.y*s - tl.y + 2*m*s` tall, and its `width` and `height` are exactly these when they are not negative |
| `UpsizePdf.ImageRectContainsScaledPage` | upsize_pdf.py:28-34 | for `s > 0` and `m > 0` the image rect strictly contains the scaled page rect |
| `UpsizePdf.PageAtOriginSize` | upsize_pdf.py:37 | a W by H page at the origin becomes a `W*s + 4*m*s` by `H*s + 4*m*s` page |
| `UpsizePdf.DefaultPageSize` | upsize_pdf.py:61-63 | with the caller's `s = 2` and `m = 10`, a W by H page becomes `2W + 80` by `2H + 80` |
| `UpsizePdf.ImageOverhangsOrigin` | upsize_pdf.py:31-43 | the image rect starts one scaled margin before the new page's origin on both axes and ends three scaled margins before its far edges |
| `UpsizePdf.ResizedPathOfPdf` | upsize_pdf.py:17 | `stem + ".pdf"` becomes `stem + "_resized_" + str(s) + "x.pdf"`, and `s` can be read back from the name |
| `UpsizePdf.ResizedPathUnchangedIff` | upsize_pdf.py:17 | the output path equals the input path exactly when `.pdf` does not occur in it |
| `UpsizePdf.DefaultResizedPath` | upsize_pdf.py:17 | with the default scale 2, `scan.pdf` becomes `scan_resized_2x.pdf` |
| `UpsizePdf.ResizePdf` | upsize_pdf.py:17-52 | one appended page per input page, in input order; page `i` is the image rect's size plus `2*m*s` on each axis and shows page `i` rendered with the call's recorded arguments (zoom matrix `s`, `dpi=300`) and placed in the image rect; the output path is `ResizedPath` |
| `UpsizePdf.OpenFile` | upsize_pdf.py:54-66 | a cancelled dialog produces nothing; otherwise the file is resized with `s = 2` and `m = 10` |
| `RoiOcr.CropBox` | PDF-Coords_to_string.py:72 | the PIL crop box `(x, y, x+w, y+h)` spans exactly `w` by `h` pixels |
| `RoiOcr.CropBoxOfDrag` | PDF-Coords_to_string.py:62-72 | for a dragged ROI the crop box is `(min, min, max, max)` of the two drag points |
| `RoiOcr.Request` | PDF-Coords_to_string.py:70-77 | the engine gets the page's crop box, resized to exactly `(w*scale, h*scale)` for an integer scale |
| `RoiOcr.PerformOcr` | PDF-Coords_to_string.py:70-80 | the returned text has no leading or trailing whitespace and is no longer than the engine's answer |
| `RoiOcr.CollectResults` | PDF-Coords_to_string.py:95-100 | exactly one row per page; row `i` is `(i+1, text of page i)`, so page numbers rise strictly from 1; every page's text is the stripped answer for its crop box enlarged to `(w*6, h*6)` |
| `RoiOcr.Table` | PDF-Coords_to_string.py:104-107 | the table is the header row followed by the results in order, so it has one row more than there are results |
| `RoiOcr.TablePageNumbers` | PDF-Coords_to_string.py:100-107 | reading back the first column of row `i+1` gives page number `i+1` |
| `RoiOcr.OcrMain` | PDF-Coords_to_string.py:82-107 | an empty path or no ROI ends the run before any page is recognised; otherwise the table has page-count + 1 rows: the header, then `(str(i+1), stripped text of page i)`; once a file is chosen the window must receive an event that ends its loop |

## Left out

- Tk windows, canvas drawing, the file dialogs, the success message box and
  every `print`: these are GUI I/O. The chosen path is an input string, with
  the empty string meaning the dialog was cancelled. The events the window
  receives are an input sequence, and the canvas outline is a field.
- The PyMuPDF calls are opaque library calls and are not modelled:
  `fitz.open`, `load_page`, `get_pixmap`, `set_cropbox`, `insert_page`,
  `insert_image`, `save` and `close`. A page is represented
  by its rectangle, and an output page records which source page it shows
  and how (`PdfDocument.Content`). `set_cropbox` also changes the source
  page, but that document is never saved, so the model records the crop box
  only on the output page.
- Rendering the first page, and the failure when a document has no pages:
  the selection is modelled from the events alone.
- PIL `Image.frombytes`, `crop` and `resize`, and Tesseract: these are
  foreign image and OCR libraries. The OCR result is the value of the
  parameter `recognize` for the request. Its language and `--psm 6` settings
  are not modelled.
- Writing the CSV file: the hard-coded path, quoting and encoding are not
  modelled. `csv.writer` is given `(int, str)` tuples; the model's table
  already holds the `str()` the writer applies to the page number.
- Floating-point rounding of PDF coordinates, non-integer scale factors, and
  the `int()` truncation they would need. Scales and margins are the
  integers the callers pass.
- Exceptions a library call raises, such as a bad file, an inverted crop box
  refused by the library, or a missing OCR engine. They abort the scripts
  and are not modelled.
- `RoiSelection.SelectRoi`: an event sequence in which no release and no
  window close occurs stands for a window that is still open, where
  `root.mainloop()` never returns. `Selection` gives None for it, but
  `SelectRoi`, `CropMain` and `OcrMain` require the loop to end, so the model
  claims nothing about such a run.
- `CropPdf.CropPdfToRoi`: the copy onto the new page (`crop_pdf.py:98`) is
  recorded as the intent the comment at `crop_pdf.py:97` states
  (`CroppedCopy`). Whether PyMuPDF's `Page` offers the `insert_page` method
  the script calls is outside this model, which does not model the library.
- `PyStr.ReplaceAll`: Python's behaviour for an empty pattern is not
  modelled, because the scripts only replace `.pdf`.
- `UpsizePdf.AddMargins`: `new_rect` is a fresh `fitz.Rect` that the script
  updates field by field. The model updates a record value in the same
  order, which shows the same behaviour because nothing else refers to
  that object.
