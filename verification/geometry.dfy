/**
 Axis-aligned bounding boxes in page coordinates and the tolerant overlap
 test used to route text blocks to tables and figures (extract.py,
 `bbox_overlap`).
 */
module Geometry {

  /** `(x0, y0, x1, y1)`: left, top, right, bottom. */
  datatype Box = Box(x0: real, y0: real, x1: real, y1: real)

  /** The tolerance the page loop uses (the default `tol=3`). */
  const DefaultTolerance: real := 3.0

  /** Boxes as the PDF backend delivers them: left of right, top above bottom. */
  predicate WellFormed(b: Box) {
    b.x0 <= b.x1 && b.y0 <= b.y1
  }

  /** `b` grown by `t` on every side. */
  function Inflate(b: Box, t: real): (r: Box)
    ensures r.x1 - r.x0 == b.x1 - b.x0 + 2.0 * t
    ensures r.y1 - r.y0 == b.y1 - b.y0 + 2.0 * t
  {
    Box(b.x0 - t, b.y0 - t, b.x1 + t, b.y1 + t)
  }

  /** The point `(x, y)` lies in the closed box `b`. */
  predicate Contains(b: Box, x: real, y: real) {
    b.x0 <= x <= b.x1 && b.y0 <= y <= b.y1
  }

  /** `bbox_overlap(b1, b2, tol)`: false only when `b1` lies strictly left
      of, right of, above or below `b2` grown by `tol`. For well-formed boxes
      and a non-negative tolerance this is the closed-rectangle intersection
      of `b1` with `b2` inflated by `tol`. */
  predicate Overlap(b1: Box, b2: Box, tol: real)
    ensures WellFormed(b1) && WellFormed(b2) && tol >= 0.0 ==>
      (Overlap(b1, b2, tol) <==>
        exists x, y :: Contains(b1, x, y) && Contains(Inflate(b2, tol), x, y))
  {
    SharedPointIffNotApart(b1, b2, tol);
    !(b1.x1 < b2.x0 - tol || b1.x0 > b2.x1 + tol
      || b1.y1 < b2.y0 - tol || b1.y0 > b2.y1 + tol)
  }

  function Max(a: real, b: real): real {
    if a < b then b else a
  }

  function Min(a: real, b: real): real {
    if a < b then a else b
  }

  /** A shared point exists exactly when neither box lies strictly to one
      side of the other; stated on the test's own expression so that
      `Overlap` can rely on it. */
  lemma SharedPointIffNotApart(b1: Box, b2: Box, tol: real)
    ensures WellFormed(b1) && WellFormed(b2) && tol >= 0.0 ==>
      (!(b1.x1 < b2.x0 - tol || b1.x0 > b2.x1 + tol
         || b1.y1 < b2.y0 - tol || b1.y0 > b2.y1 + tol) <==>
       exists x, y :: Contains(b1, x, y) && Contains(Inflate(b2, tol), x, y))
  {
    var g := Inflate(b2, tol);
    if !(b1.x1 < b2.x0 - tol || b1.x0 > b2.x1 + tol
         || b1.y1 < b2.y0 - tol || b1.y0 > b2.y1 + tol) {
      var x := Max(b1.x0, g.x0);
      var y := Max(b1.y0, g.y0);
      assert WellFormed(b1) && WellFormed(b2) && tol >= 0.0 ==>
        Contains(b1, x, y) && Contains(g, x, y);
    } else {
      forall x, y | Contains(b1, x, y)
        ensures !Contains(g, x, y)
      {
      }
    }
  }

  /** The test does not depend on which box is the block and which the region. */
  lemma OverlapSymmetric(b1: Box, b2: Box, tol: real)
    ensures Overlap(b1, b2, tol) == Overlap(b2, b1, tol)
  {
  }

  /** Raising the tolerance never turns an overlap into a miss. */
  lemma OverlapMonotone(b1: Box, b2: Box, t1: real, t2: real)
    requires t1 <= t2
    ensures Overlap(b1, b2, t1) ==> Overlap(b1, b2, t2)
  {
  }

  /** Comparisons are strict: boxes whose gap is at most `tol` along each
      axis overlap, so touching boxes overlap even at tolerance zero. */
  lemma OverlapWithinGap(b1: Box, b2: Box, tol: real)
    requires WellFormed(b1) && WellFormed(b2)
    requires b2.x0 - b1.x1 <= tol && b1.x0 - b2.x1 <= tol
    requires b2.y0 - b1.y1 <= tol && b1.y0 - b2.y1 <= tol
    ensures Overlap(b1, b2, tol)
  {
  }
}
