/**
 * Widget rectangles and the edge-by-edge closeness test used to match a
 * widget to the update record that was emitted when it was drawn
 * (python/generate_form.py:481-488).
 */
module Geometry {
  /** A rectangle given by its four edges, in the order pymupdf's `Rect` uses. */
  datatype Rect = Rect(x0: real, y0: real, x1: real, y1: real)

  /** The default `tol` of `_rects_close`. */
  const Tolerance: real := 0.05

  function Abs(x: real): (r: real)
    ensures r >= 0.0 && (r == x || r == -x)
  {
    if x < 0.0 then -x else x
  }

  /** One edge lies within the tolerance of the stored edge. */
  predicate Near(a: real, b: real) {
    Abs(a - b) <= Tolerance
  }

  /** `_rects_close(rect, stored_rect)`: all four edges are near. */
  predicate RectsClose(rect: Rect, stored: Rect) {
    Near(rect.x0, stored.x0) && Near(rect.y0, stored.y0) && Near(rect.x1, stored.x1) && Near(rect.y1, stored.y1)
  }

  /** Nearness is a band of width twice the tolerance around the stored edge. */
  lemma NearIsBand(a: real, b: real)
    ensures Near(a, b) <==> b - Tolerance <= a <= b + Tolerance
  {
  }

  /** A rectangle is close to itself, and closeness does not depend on which side was stored. */
  lemma RectsCloseReflexiveSymmetric(a: Rect, b: Rect)
    ensures RectsClose(a, a)
    ensures RectsClose(a, b) <==> RectsClose(b, a)
  {
  }

  /** Closeness is not transitive: two steps of the tolerance apart are not close. */
  lemma RectsCloseNotTransitive()
    ensures var a, b, c := Rect(0.0, 0.0, 1.0, 1.0), Rect(0.05, 0.0, 1.0, 1.0), Rect(0.1, 0.0, 1.0, 1.0);
      RectsClose(a, b) && RectsClose(b, c) && !RectsClose(a, c)
  {
  }
}
