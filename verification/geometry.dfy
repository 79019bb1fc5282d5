/**
 The planar geometry the waypoint tracker works in. A waypoint location and
 the vehicle location are three-dimensional points with real coordinates;
 only the first two coordinates take part in the proximity test.
 */
module Geometry {

  /** A location in the world frame: x and y in the road plane, z up. */
  datatype Point = Point(x: real, y: real, z: real)

  /** The proximity radius: a waypoint closer than this (in the plane) has been reached. */
  const Threshold: real := 3.0

  /** Squared planar distance between two points, ignoring z; never negative. */
  function PlanarDistSq(a: Point, b: Point): (d: real)
    ensures d >= 0.0
  {
    (a.x - b.x) * (a.x - b.x) + (a.y - b.y) * (a.y - b.y)
  }

  /** Two points agree on the coordinates the tracker looks at. */
  predicate SamePlanar(a: Point, b: Point) {
    a.x == b.x && a.y == b.y
  }

  /**
   The proximity test: the planar distance from `location` to `wp` is below
   `Threshold`, stated on squares so that no square root is needed.
   */
  predicate WithinReach(location: Point, wp: Point) {
    PlanarDistSq(location, wp) < Threshold * Threshold
  }

  /**
   The squared test agrees with the test on the Euclidean norm: for the
   non-negative `norm` whose square is the squared planar distance, the norm
   is below the threshold exactly when the square is below its square.
   */
  lemma NormBelowThreshold(location: Point, wp: Point, norm: real)
    requires norm >= 0.0
    requires norm * norm == PlanarDistSq(location, wp)
    ensures norm < Threshold <==> WithinReach(location, wp)
  {
    if norm < Threshold {
      assert norm * norm <= norm * Threshold;
      assert norm * Threshold < Threshold * Threshold;
      assert PlanarDistSq(location, wp) < Threshold * Threshold;
    } else {
      assert norm * norm >= norm * Threshold;
      assert norm * Threshold >= Threshold * Threshold;
    }
  }

  /** The proximity test does not look at z. */
  lemma WithinReachIgnoresZ(l1: Point, w1: Point, l2: Point, w2: Point)
    requires SamePlanar(l1, l2) && SamePlanar(w1, w2)
    ensures WithinReach(l1, w1) <==> WithinReach(l2, w2)
  {
    assert PlanarDistSq(l1, w1) == PlanarDistSq(l2, w2);
  }

  /** A vehicle standing exactly on a waypoint (in the plane) is within reach of it. */
  lemma CoincidentIsWithinReach(location: Point, wp: Point)
    requires SamePlanar(location, wp)
    ensures WithinReach(location, wp)
  {
  }
}
