/**
 * Integer points and rectangles, standing in for the `CGPoint`/`CGRect`
 * values the piano uses. Every frame in the piano is an integral constant,
 * so integers lose nothing there.
 */
module Geometry {

  datatype Point = Point(x: int, y: int)

  /** A frame: origin `(x, y)`, width `w`, height `h`. */
  datatype Rect = Rect(x: int, y: int, w: int, h: int)

  predicate NonEmpty(r: Rect) {
    r.w > 0 && r.h > 0
  }

  /** `CGRect.contains(_:)`: the minimum edges belong to the rectangle, the maximum edges do not. */
  predicate Contains(r: Rect, p: Point) {
    r.x <= p.x < r.x + r.w && r.y <= p.y < r.y + r.h
  }

  /** The two rectangles are separated along at least one axis. */
  predicate Disjoint(a: Rect, b: Rect) {
    a.x + a.w <= b.x || b.x + b.w <= a.x || a.y + a.h <= b.y || b.y + b.h <= a.y
  }

  /** `inner` lies entirely inside `outer`. */
  predicate Within(inner: Rect, outer: Rect) {
    && outer.x <= inner.x && inner.x + inner.w <= outer.x + outer.w
    && outer.y <= inner.y && inner.y + inner.h <= outer.y + outer.h
  }

  /** The location of `p` in the coordinate space of a subview whose frame starts at `origin`. */
  function InSubview(p: Point, origin: Point): (q: Point)
    ensures q.x + origin.x == p.x && q.y + origin.y == p.y
  {
    Point(p.x - origin.x, p.y - origin.y)
  }

  /**
   * A rectangle of the subview holds the converted point exactly when the
   * same rectangle, moved to the superview, holds the original point.
   */
  lemma InSubviewContains(p: Point, origin: Point, r: Rect)
    ensures Contains(r, InSubview(p, origin)) <==> Contains(Rect(r.x + origin.x, r.y + origin.y, r.w, r.h), p)
  {
  }

  /** Separation along an axis is exactly the absence of a shared point. */
  lemma DisjointIffNoCommonPoint(a: Rect, b: Rect)
    requires NonEmpty(a) && NonEmpty(b)
    ensures Disjoint(a, b) <==> forall p :: !(Contains(a, p) && Contains(b, p))
  {
    if !Disjoint(a, b) {
      var p := Point(if a.x < b.x then b.x else a.x, if a.y < b.y then b.y else a.y);
      assert Contains(a, p) && Contains(b, p);
    }
  }
}
