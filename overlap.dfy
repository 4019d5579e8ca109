/**
 * Axis-aligned boxes in corner form and their intersection-over-union, the overlap
 * measure non-maximum suppression compares against its threshold.
 */
module Overlap {
  import opened Reals

  /** A box given by its top-left (`x1`, `y1`) and bottom-right (`x2`, `y2`) corners. */
  datatype Box = Box(x1: real, y1: real, x2: real, y2: real)

  /** The corners are in order, so the box has non-negative width and height. */
  predicate WellFormed(b: Box) { b.x1 <= b.x2 && b.y1 <= b.y2 }

  /** Added to the union so that two zero-area boxes do not divide by zero. */
  const Epsilon: real := 0.000001

  /** Width and height of the overlap of two boxes, each floored at zero. */
  function OverlapWidth(a: Box, b: Box): real { Max(0.0, Min(a.x2, b.x2) - Max(a.x1, b.x1)) }

  function OverlapHeight(a: Box, b: Box): real { Max(0.0, Min(a.y2, b.y2) - Max(a.y1, b.y1)) }

  /** Area of the overlap of two boxes. */
  function Intersection(a: Box, b: Box): (r: real)
    ensures r >= 0.0
  {
    OverlapWidth(a, b) * OverlapHeight(a, b)
  }

  /** Signed area of a box: negative when exactly one pair of corners is out of order. */
  function Area(b: Box): real { (b.x2 - b.x1) * (b.y2 - b.y1) }

  /** The divisor of the overlap ratio: union of the two areas plus `Epsilon`. */
  function Denominator(a: Box, b: Box): real
  {
    Area(a) + Area(b) - Intersection(a, b) + Epsilon
  }

  /** The boxes share no area: their extents are disjoint along some axis. */
  predicate Disjoint(a: Box, b: Box)
  {
    Min(a.x2, b.x2) <= Max(a.x1, b.x1) || Min(a.y2, b.y2) <= Max(a.y1, b.y1)
  }

  /** Intersection over union, as a real number; defined whenever the divisor is non-zero. */
  function IoU(a: Box, b: Box): real
    requires Denominator(a, b) != 0.0
  {
    Intersection(a, b) / Denominator(a, b)
  }

  /**
   * The suppression test `IoU(a, b) > threshold` as evaluated in floating point:
   * a zero divisor (possible only for boxes with corners out of order) gives an
   * infinite ratio when the boxes overlap, which exceeds every threshold, and a
   * not-a-number ratio when they do not, which exceeds none.
   */
  predicate IoUExceeds(a: Box, b: Box, threshold: real)
  {
    if Denominator(a, b) == 0.0 then Intersection(a, b) > 0.0 else IoU(a, b) > threshold
  }

  /** Overlap does not depend on which box comes first. */
  lemma IoUSymmetric(a: Box, b: Box)
    ensures Denominator(a, b) == Denominator(b, a)
    ensures Denominator(a, b) != 0.0 ==> IoU(a, b) == IoU(b, a)
    ensures forall t: real :: IoUExceeds(a, b, t) <==> IoUExceeds(b, a, t)
  {
  }

  lemma MulBounded(p: real, q: real, r: real, s: real)
    requires 0.0 <= p <= q && 0.0 <= r <= s
    ensures p * r <= q * s
  {
    assert p * r <= q * r;
    assert q * r <= q * s;
  }

  /** The overlap of two well-formed boxes is no larger than either box. */
  lemma IntersectionBounded(a: Box, b: Box)
    requires WellFormed(a) && WellFormed(b)
    ensures Intersection(a, b) <= Area(a) && Intersection(a, b) <= Area(b)
  {
    MulBounded(OverlapWidth(a, b), a.x2 - a.x1, OverlapHeight(a, b), a.y2 - a.y1);
    MulBounded(OverlapWidth(a, b), b.x2 - b.x1, OverlapHeight(a, b), b.y2 - b.y1);
  }

  /** For well-formed boxes the divisor is positive and the ratio lies in [0, 1): never exactly 1. */
  lemma IoUBounds(a: Box, b: Box)
    requires WellFormed(a) && WellFormed(b)
    ensures Denominator(a, b) > 0.0
    ensures 0.0 <= IoU(a, b) < 1.0
  {
    IntersectionBounded(a, b);
    var i, d := Intersection(a, b), Denominator(a, b);
    assert 0.0 < d && i < d;
    assert i / d < 1.0 by {
      assert i / d * d == i;
    }
  }

  /** For well-formed boxes the ratio is zero exactly when the boxes share no area. */
  lemma IoUZeroIffDisjoint(a: Box, b: Box)
    requires WellFormed(a) && WellFormed(b)
    ensures Denominator(a, b) > 0.0
    ensures IoU(a, b) == 0.0 <==> Disjoint(a, b)
  {
    IoUBounds(a, b);
    var w, h := OverlapWidth(a, b), OverlapHeight(a, b);
    if !Disjoint(a, b) {
      assert w > 0.0 && h > 0.0;
      assert w * h > 0.0;
      assert Intersection(a, b) / Denominator(a, b) > 0.0;
    }
  }

  /** A box overlaps itself by its area over its area plus `Epsilon`: strictly below 1. */
  lemma IoUSelf(a: Box)
    requires WellFormed(a)
    ensures Denominator(a, a) == Area(a) + Epsilon
    ensures IoU(a, a) == Area(a) / (Area(a) + Epsilon) < 1.0
  {
    assert OverlapWidth(a, a) == a.x2 - a.x1;
    assert OverlapHeight(a, a) == a.y2 - a.y1;
    IoUBounds(a, a);
  }

  /** Between well-formed boxes the suppression test is the plain comparison of the ratio. */
  lemma IoUExceedsWellFormed(a: Box, b: Box, threshold: real)
    requires WellFormed(a) && WellFormed(b)
    ensures Denominator(a, b) > 0.0
    ensures IoUExceeds(a, b, threshold) <==> IoU(a, b) > threshold
  {
    IoUBounds(a, b);
  }

  /** Boxes that share no area never exceed a non-negative threshold. */
  lemma DisjointNeverExceeds(a: Box, b: Box, threshold: real)
    requires Disjoint(a, b) && threshold >= 0.0
    ensures !IoUExceeds(a, b, threshold)
  {
    assert Intersection(a, b) == 0.0;
  }

  /**
   * Two 100 x 100 boxes offset by 10 on both axes overlap by 8100 out of a union
   * of 11900, a ratio of about 0.68, which exceeds the default threshold 0.45.
   */
  lemma OffsetSquaresOverlap()
    ensures var a, b := Box(0.0, 0.0, 100.0, 100.0), Box(10.0, 10.0, 110.0, 110.0);
      Intersection(a, b) == 8100.0 && Denominator(a, b) == 11900.000001
      && 0.68 < IoU(a, b) < 0.69 && IoUExceeds(a, b, 0.45)
  {
    var a, b := Box(0.0, 0.0, 100.0, 100.0), Box(10.0, 10.0, 110.0, 110.0);
    assert OverlapWidth(a, b) == 90.0 && OverlapHeight(a, b) == 90.0;
  }
}
