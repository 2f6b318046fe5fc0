/** Page geometry as PyMuPDF (`fitz`) represents it: points and rectangles
    with real coordinates, x growing to the right and y growing downwards.
    Floating-point rounding is not modelled. */
module PdfGeometry {

  datatype Point = Point(x: real, y: real)
  {
    /** `point * s`: both coordinates scaled. */
    function Scale(s: real): Point
    {
      Point(x * s, y * s)
    }
  }

  /** `fitz.Rect(x0, y0, x1, y1)`. The constructor stores the four numbers as
      given, so a rectangle may be inverted (`x0 > x1` or `y0 > y1`). */
  datatype Rect = Rect(x0: real, y0: real, x1: real, y1: real)
  {
    function TopLeft(): Point
    {
      Point(x0, y0)
    }

    function BottomRight(): Point
    {
      Point(x1, y1)
    }

    /** `Rect.width`: `max(x1 - x0, 0)`, so an inverted rectangle has width 0. */
    function Width(): (w: real)
      ensures w >= 0.0
      ensures x0 <= x1 ==> w == x1 - x0
    {
      if x1 - x0 > 0.0 then x1 - x0 else 0.0
    }

    /** `Rect.height`: `max(y1 - y0, 0)`. */
    function Height(): (h: real)
      ensures h >= 0.0
      ensures y0 <= y1 ==> h == y1 - y0
    {
      if y1 - y0 > 0.0 then y1 - y0 else 0.0
    }

    /** Neither axis is inverted. */
    predicate Ordered()
    {
      x0 <= x1 && y0 <= y1
    }
  }

  /** `fitz.Rect(tl, br)`: a rectangle from its two corners. */
  function FromCorners(tl: Point, br: Point): Rect
  {
    Rect(tl.x, tl.y, br.x, br.y)
  }

  /** Every edge of `inner` lies on or inside the matching edge of `outer`. */
  predicate Within(inner: Rect, outer: Rect)
  {
    outer.x0 <= inner.x0 && inner.x1 <= outer.x1 && outer.y0 <= inner.y0 && inner.y1 <= outer.y1
  }

  /** Every edge of `inner` lies strictly inside the matching edge of `outer`. */
  predicate StrictlyWithin(inner: Rect, outer: Rect)
  {
    outer.x0 < inner.x0 && inner.x1 < outer.x1 && outer.y0 < inner.y0 && inner.y1 < outer.y1
  }

  /** A rectangle inside another is no wider and no taller than it. */
  lemma WithinIsSmaller(inner: Rect, outer: Rect)
    requires Within(inner, outer)
    ensures inner.Width() <= outer.Width() && inner.Height() <= outer.Height()
  {
  }
}
