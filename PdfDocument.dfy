/** The new document both PDF scripts build with `fitz.open()`: a list of
    pages that `new_page` appends to and whose content is then filled in by
    one opaque library call per page. */
module PdfDocument {
  import opened PdfGeometry

  /** What a page of the output document shows. */
  datatype Content =
    | Blank
      /** `new_page.insert_page(pno, page)` in crop_pdf.py: source page `pno`,
          whose crop box was set to `cropBox`, copied onto the page. */
    | CroppedCopy(sourcePage: nat, cropBox: Rect)
      /** `new_page.insert_image(rect, pixmap=pix)` in upsize_pdf.py: source
          page `sourcePage` rendered with zoom matrix `zoom` at `dpi`, placed
          in `placement`. */
    | ScaledImage(sourcePage: nat, placement: Rect, zoom: int, dpi: int)

  datatype Page = Page(width: real, height: real, content: Content)

  class Document {
    var pages: seq<Page>

    /** `fitz.open()` with no file: an empty document. */
    constructor ()
      ensures pages == []
    {
      pages := [];
    }

    /** `Document.new_page(-1, width=w, height=h)`: the page number -1, which
        is also the default, appends a blank page at the end. */
    method NewPage(width: real, height: real) returns (pno: nat)
      modifies this
      ensures pages == old(pages) + [Page(width, height, Blank)]
      ensures pno == |old(pages)| && pno < |pages|
    {
      pno := |pages|;
      pages := pages + [Page(width, height, Blank)];
    }

    /** The call that draws on page `pno`; its size and the other pages stay as they were. */
    method Draw(pno: nat, content: Content)
      requires pno < |pages|
      modifies this
      ensures |pages| == |old(pages)|
      ensures pages == old(pages)[pno := old(pages)[pno].(content := content)]
    {
      pages := pages[pno := pages[pno].(content := content)];
    }
  }
}
