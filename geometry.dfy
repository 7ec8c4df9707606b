/**
 * Axis-aligned rectangles `(x, y, w, h)` in pixel coordinates and the
 * overlap test `sobreponen` of the sprite compositor.  A rectangle covers
 * the half-open intervals `[x, x + w)` and `[y, y + h)`.
 */
module Geometry {

  datatype Rect = Rect(x: int, y: int, w: int, h: int)

  /** `sobreponen`: false as soon as one rectangle lies entirely to one side of the other. */
  predicate Overlaps(r1: Rect, r2: Rect)
  {
    if r1.x >= r2.x + r2.w || r1.x + r1.w <= r2.x then false
    else if r1.y >= r2.y + r2.h || r1.y + r1.h <= r2.y then false
    else true
  }

  /** `p` lies in the half-open interval `[a, a + wa)`. */
  predicate InInterval(p: int, a: int, wa: int)
  {
    a <= p < a + wa
  }

  /** The half-open intervals `[a, a + wa)` and `[b, b + wb)` share a point. */
  ghost predicate IntervalsMeet(a: int, wa: int, b: int, wb: int)
  {
    exists p :: InInterval(p, a, wa) && InInterval(p, b, wb)
  }

  /** A rectangle with positive width and height. */
  predicate NonEmpty(r: Rect)
  {
    r.w > 0 && r.h > 0
  }

  /** The pixel `(i, j)` (row `i`, column `j`) lies inside `r`. */
  predicate Contains(r: Rect, i: int, j: int)
  {
    r.y <= i < r.y + r.h && r.x <= j < r.x + r.w
  }

  lemma IntervalsMeetIff(a: int, wa: int, b: int, wb: int)
    requires wa > 0 && wb > 0
    ensures IntervalsMeet(a, wa, b, wb) <==> (a < b + wb && b < a + wa)
  {
    if a < b + wb && b < a + wa {
      var p := if a < b then b else a;
      assert InInterval(p, a, wa) && InInterval(p, b, wb);
    }
  }

  /** For non-empty rectangles the test is exactly "the x-intervals meet and the y-intervals meet". */
  lemma OverlapsIffIntervalsMeet(r1: Rect, r2: Rect)
    requires NonEmpty(r1) && NonEmpty(r2)
    ensures Overlaps(r1, r2) <==>
              IntervalsMeet(r1.x, r1.w, r2.x, r2.w) && IntervalsMeet(r1.y, r1.h, r2.y, r2.h)
  {
    IntervalsMeetIff(r1.x, r1.w, r2.x, r2.w);
    IntervalsMeetIff(r1.y, r1.h, r2.y, r2.h);
  }

  /** For non-empty rectangles, overlapping means sharing at least one pixel. */
  lemma OverlapsIffSharedPixel(r1: Rect, r2: Rect)
    requires NonEmpty(r1) && NonEmpty(r2)
    ensures Overlaps(r1, r2) <==> exists i, j :: Contains(r1, i, j) && Contains(r2, i, j)
  {
    if Overlaps(r1, r2) {
      var i := if r1.y < r2.y then r2.y else r1.y;
      var j := if r1.x < r2.x then r2.x else r1.x;
      assert Contains(r1, i, j) && Contains(r2, i, j);
    }
  }

  lemma OverlapsSymmetric(r1: Rect, r2: Rect)
    ensures Overlaps(r1, r2) <==> Overlaps(r2, r1)
  {
  }

  /** Rectangles that only touch along an edge do not overlap. */
  lemma TouchingDoNotOverlap(r1: Rect, r2: Rect)
    requires r1.x == r2.x + r2.w || r1.x + r1.w == r2.x || r1.y == r2.y + r2.h || r1.y + r1.h == r2.y
    ensures !Overlaps(r1, r2)
  {
  }
}
