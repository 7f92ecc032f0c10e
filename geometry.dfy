/** Display rectangles and the overlap test used when placing the framebuffer target. */
module Geometry {

  /** hwc_rect_t: an axis-aligned display frame with half-open edges. */
  datatype Rect = Rect(left: int, top: int, right: int, bottom: int)

  function Max(x: int, y: int): int { if x < y then y else x }

  function Min(x: int, y: int): int { if x < y then x else y }

  /** The spans [lo1, hi1) and [lo2, hi2) along one axis have a common stretch of
      positive length. */
  predicate SpansOverlap(lo1: int, hi1: int, lo2: int, hi2: int)
  {
    Max(lo1, lo2) < Min(hi1, hi2)
  }

  /** HwcLayerList::hasIntersection: two frames overlap unless b lies entirely to the
      left, right, below or above a. Frames that only share an edge do not overlap. The
      test amounts, for frames that cover pixels, to the horizontal spans overlapping and
      the vertical spans overlapping. */
  predicate HasIntersection(a: Rect, b: Rect): (r: bool)
    ensures NonEmpty(a) && NonEmpty(b) ==>
      (r <==> SpansOverlap(a.left, a.right, b.left, b.right) && SpansOverlap(a.top, a.bottom, b.top, b.bottom))
  {
    !(b.right <= a.left || b.left >= a.right || b.top >= a.bottom || b.bottom <= a.top)
  }

  /** A frame that covers at least one pixel. */
  predicate NonEmpty(r: Rect)
  {
    r.left < r.right && r.top < r.bottom
  }

  /** Pixel (x, y) lies inside r. */
  predicate Covers(r: Rect, x: int, y: int)
  {
    r.left <= x < r.right && r.top <= y < r.bottom
  }

  lemma HasIntersectionSymmetric(a: Rect, b: Rect)
    ensures HasIntersection(a, b) == HasIntersection(b, a)
  {
  }

  /** The two sample pairs: [0,0,10,10] and [10,0,20,10] share only an edge;
      [0,0,10,10] and [5,0,20,10] overlap. */
  lemma EdgeSharingFramesDoNotIntersect()
    ensures !HasIntersection(Rect(0, 0, 10, 10), Rect(10, 0, 20, 10))
    ensures !HasIntersection(Rect(10, 0, 20, 10), Rect(0, 0, 10, 10))
    ensures HasIntersection(Rect(0, 0, 10, 10), Rect(5, 0, 20, 10))
    ensures HasIntersection(Rect(5, 0, 20, 10), Rect(0, 0, 10, 10))
  {
  }

  /** For frames that cover pixels, the edge test is exactly "some pixel lies in both". */
  lemma IntersectionIsCommonPixel(a: Rect, b: Rect)
    requires NonEmpty(a) && NonEmpty(b)
    ensures HasIntersection(a, b) <==> exists x, y :: Covers(a, x, y) && Covers(b, x, y)
  {
    if HasIntersection(a, b) {
      var x := if a.left < b.left then b.left else a.left;
      var y := if a.top < b.top then b.top else a.top;
      assert Covers(a, x, y) && Covers(b, x, y);
    }
  }

  /** The edge test needs non-empty frames to mean "common pixel": a zero-width
      frame strictly inside another still counts as intersecting it. */
  lemma ZeroWidthFrameIntersects()
    ensures !NonEmpty(Rect(5, 0, 5, 10))
    ensures HasIntersection(Rect(5, 0, 5, 10), Rect(0, 0, 10, 10))
    ensures !exists x, y :: Covers(Rect(5, 0, 5, 10), x, y)
  {
  }
}
