/**
 Waypoint tracking: the cyclic first-match search that advances the index of
 the waypoint the vehicle is following. The reference path is a cyclic
 sequence of waypoints; starting at the current index and wrapping once
 around, the search returns the index of the first waypoint within reach of
 the vehicle, or the current index unchanged when no waypoint is.
 */
module Tracking {
  import opened Geometry

  /**
   The waypoint met at scan position `i` (taken modulo the path length) is
   within reach of `location`. False on an empty path, where no position
   names a waypoint.
   */
  predicate MatchesAt(location: Point, waypoints: seq<Point>, i: int) {
    |waypoints| > 0 && WithinReach(location, waypoints[i % |waypoints|])
  }

  /** No waypoint of the path, at any index, is within reach of `location`. */
  ghost predicate NoneWithinReach(location: Point, waypoints: seq<Point>) {
    forall t :: 0 <= t < |waypoints| ==> !WithinReach(location, waypoints[t])
  }

  /**
   The remainder of the scan from position `i`: positions run from
   `currentIdx` up to (excluding) `|waypoints| + currentIdx`, and the
   waypoint consulted at position `i` is the one at `i % |waypoints|`.
   Whatever it returns is the start index or a within-reach path index.
   */
  function Scan(location: Point, waypoints: seq<Point>, currentIdx: int, i: int): (r: int)
    requires currentIdx <= i <= |waypoints| + currentIdx
    decreases |waypoints| + currentIdx - i
    ensures r == currentIdx || (0 <= r < |waypoints| && WithinReach(location, waypoints[r]))
  {
    if i == |waypoints| + currentIdx then
      currentIdx
    else if WithinReach(location, waypoints[i % |waypoints|]) then
      i % |waypoints|
    else
      Scan(location, waypoints, currentIdx, i + 1)
  }

  /**
   The tracker's search: starting at `currentIdx` and wrapping once around
   the path, the index of the first waypoint within reach, reduced modulo
   the path length; `currentIdx` itself, not reduced, when a lap finds none.
   The result is always the start index or an in-range within-reach index.
   */
  function FilterWaypoints(location: Point, currentIdx: int, waypoints: seq<Point>): (r: int)
    ensures |waypoints| == 0 ==> r == currentIdx
    ensures r == currentIdx || (0 <= r < |waypoints| && WithinReach(location, waypoints[r]))
  {
    Scan(location, waypoints, currentIdx, currentIdx)
  }

  /**
   The same search as a loop over the scan positions with an early return,
   the way the tracker runs it.
   */
  method FilterWaypointsLoop(location: Point, currentIdx: int, waypoints: seq<Point>) returns (r: int)
    ensures r == FilterWaypoints(location, currentIdx, waypoints)
  {
    var n := |waypoints|;
    var i := currentIdx;
    while i < n + currentIdx
      invariant currentIdx <= i <= n + currentIdx
      invariant Scan(location, waypoints, currentIdx, i) == FilterWaypoints(location, currentIdx, waypoints)
      decreases n + currentIdx - i
    {
      if WithinReach(location, waypoints[i % n]) {
        return i % n;
      }
      i := i + 1;
    }
    return currentIdx;
  }

  // ---------------------------------------------------------------------------
  // Scan positions and path indices

  /** The path index met at `offset` steps past `start` on a path of length `n`. */
  function CyclicIndex(start: int, offset: int, n: int): (t: int)
    requires n > 0
    ensures 0 <= t < n
  {
    (start + offset) % n
  }

  /** A positive multiple of a positive `n` is at least `n`. */
  lemma MulAtLeast(d: int, n: int)
    requires d >= 1 && n > 0
    ensures d * n >= n
  {
    assert d * n == (d - 1) * n + n;
    assert (d - 1) * n >= 0;
  }

  /** Euclidean remainders are unique: `q * n + t` with `0 <= t < n` leaves remainder `t`. */
  lemma {:induction false} ModUnique(x: int, n: int, q: int, t: int)
    requires n > 0 && 0 <= t < n
    requires x == q * n + t
    ensures x % n == t
  {
    var q' := x / n;
    var t' := x % n;
    assert x == q' * n + t';
    var d := q - q';
    assert d * n == t' - t;
    if d >= 1 {
      MulAtLeast(d, n);
    } else if d <= -1 {
      MulAtLeast(-d, n);
    }
  }

  /** Every path index is met at some position of a lap, wherever the lap starts. */
  lemma {:induction false} PositionOfIndex(start: int, n: int, t: int) returns (j: int)
    requires 0 <= t < n
    ensures start <= j < n + start
    ensures j % n == t
  {
    var m := (t - start) % n;
    var q := (t - start) / n;
    assert t - start == q * n + m;
    j := start + m;
    ModUnique(j, n, -q, t);
  }

  // ---------------------------------------------------------------------------
  // The scan, position by position

  /** A scan over positions none of which matches runs to the end and returns the start index. */
  lemma {:induction false} ScanNoMatch(location: Point, waypoints: seq<Point>, currentIdx: int, i: int)
    requires currentIdx <= i <= |waypoints| + currentIdx
    requires forall j :: i <= j < |waypoints| + currentIdx ==> !MatchesAt(location, waypoints, j)
    decreases |waypoints| + currentIdx - i
    ensures Scan(location, waypoints, currentIdx, i) == currentIdx
  {
    if i < |waypoints| + currentIdx {
      assert !MatchesAt(location, waypoints, i);
      ScanNoMatch(location, waypoints, currentIdx, i + 1);
    }
  }

  /**
   A scan that meets no match before position `p` and a match at `p`
   returns the path index of `p`.
   */
  lemma {:induction false} ScanStopsAtFirst(location: Point, waypoints: seq<Point>, currentIdx: int, i: int, p: int)
    requires currentIdx <= i <= p < |waypoints| + currentIdx
    requires MatchesAt(location, waypoints, p)
    requires forall j :: i <= j < p ==> !MatchesAt(location, waypoints, j)
    decreases p - i
    ensures Scan(location, waypoints, currentIdx, i) == p % |waypoints|
  {
    if i < p {
      assert !MatchesAt(location, waypoints, i);
      ScanStopsAtFirst(location, waypoints, currentIdx, i + 1, p);
    }
  }

  /**
   If position `p` of the remaining scan matches, there is a first matching
   position `f` no later than `p`, and the scan returns its path index.
   */
  lemma {:induction false} ScanFindsFirst(location: Point, waypoints: seq<Point>, currentIdx: int, i: int, p: int)
    returns (f: int)
    requires currentIdx <= i <= p < |waypoints| + currentIdx
    requires MatchesAt(location, waypoints, p)
    decreases p - i
    ensures i <= f <= p && MatchesAt(location, waypoints, f)
    ensures forall j :: i <= j < f ==> !MatchesAt(location, waypoints, j)
    ensures Scan(location, waypoints, currentIdx, i) == f % |waypoints|
  {
    if MatchesAt(location, waypoints, i) {
      f := i;
    } else {
      f := ScanFindsFirst(location, waypoints, currentIdx, i + 1, p);
    }
  }

  /** A lap matches at some position exactly when some waypoint is within reach. */
  lemma LapMatchesIffSomeWithinReach(location: Point, currentIdx: int, waypoints: seq<Point>)
    ensures (exists j :: currentIdx <= j < |waypoints| + currentIdx && MatchesAt(location, waypoints, j))
            <==> !NoneWithinReach(location, waypoints)
  {
    if !NoneWithinReach(location, waypoints) {
      var t :| 0 <= t < |waypoints| && WithinReach(location, waypoints[t]);
      var j := PositionOfIndex(currentIdx, |waypoints|, t);
      assert MatchesAt(location, waypoints, j);
    }
  }

  // ---------------------------------------------------------------------------
  // Properties of the search

  /** On an empty path the scan range is empty and the index is returned as given. */
  lemma EmptyPathKeepsIndex(location: Point, currentIdx: int)
    ensures FilterWaypoints(location, currentIdx, []) == currentIdx
  {
  }

  /**
   When no waypoint anywhere on the path is within reach, the index comes back
   exactly as given: not reduced modulo the path length, so it may lie
   outside `[0, |waypoints|)`.
   */
  lemma NoMatchKeepsIndex(location: Point, currentIdx: int, waypoints: seq<Point>)
    requires NoneWithinReach(location, waypoints)
    ensures FilterWaypoints(location, currentIdx, waypoints) == currentIdx
  {
    LapMatchesIffSomeWithinReach(location, currentIdx, waypoints);
    ScanNoMatch(location, waypoints, currentIdx, currentIdx);
  }

  /**
   First match in cyclic order, as an all-inputs characterisation: the
   result is the path index `k` steps past `currentIdx` when the waypoint
   there is within reach while the waypoints at every smaller offset are not.
   */
  lemma FirstMatchDecides(location: Point, currentIdx: int, waypoints: seq<Point>, k: int)
    requires 0 <= k < |waypoints|
    requires WithinReach(location, waypoints[CyclicIndex(currentIdx, k, |waypoints|)])
    requires forall o :: 0 <= o < k ==> !WithinReach(location, waypoints[CyclicIndex(currentIdx, o, |waypoints|)])
    ensures FilterWaypoints(location, currentIdx, waypoints) == CyclicIndex(currentIdx, k, |waypoints|)
  {
    var n := |waypoints|;
    forall j | currentIdx <= j < currentIdx + k
      ensures !MatchesAt(location, waypoints, j)
    {
      assert !WithinReach(location, waypoints[CyclicIndex(currentIdx, j - currentIdx, n)]);
    }
    ScanStopsAtFirst(location, waypoints, currentIdx, currentIdx, currentIdx + k);
  }

  /**
   The converse, and the range promise: when some waypoint is within reach,
   the result is the path index `k` steps past `currentIdx` for an offset
   `k` in `[0, |waypoints|)` whose waypoint is within reach, while every
   smaller offset's waypoint is not.
   */
  lemma ResultIsFirstOffset(location: Point, currentIdx: int, waypoints: seq<Point>) returns (k: int)
    requires !NoneWithinReach(location, waypoints)
    ensures 0 <= k < |waypoints|
    ensures FilterWaypoints(location, currentIdx, waypoints) == CyclicIndex(currentIdx, k, |waypoints|)
    ensures WithinReach(location, waypoints[CyclicIndex(currentIdx, k, |waypoints|)])
    ensures forall o :: 0 <= o < k ==> !WithinReach(location, waypoints[CyclicIndex(currentIdx, o, |waypoints|)])
  {
    var n := |waypoints|;
    var t :| 0 <= t < n && WithinReach(location, waypoints[t]);
    var p := PositionOfIndex(currentIdx, n, t);
    var f := ScanFindsFirst(location, waypoints, currentIdx, currentIdx, p);
    k := f - currentIdx;
    assert currentIdx + k == f;
    forall o | 0 <= o < k
      ensures !WithinReach(location, waypoints[CyclicIndex(currentIdx, o, n)])
    {
      assert !MatchesAt(location, waypoints, currentIdx + o);
    }
  }

  /**
   When some waypoint is within reach, the result is a valid path index and
   the waypoint there is within reach of the vehicle.
   */
  lemma MatchIsInRangeAndWithinReach(location: Point, currentIdx: int, waypoints: seq<Point>)
    requires !NoneWithinReach(location, waypoints)
    ensures 0 <= FilterWaypoints(location, currentIdx, waypoints) < |waypoints|
    ensures WithinReach(location, waypoints[FilterWaypoints(location, currentIdx, waypoints)])
  {
    var k := ResultIsFirstOffset(location, currentIdx, waypoints);
  }

  /** If the waypoint at the starting position is within reach, the search stops there. */
  lemma StartWithinReachIsKept(location: Point, currentIdx: int, waypoints: seq<Point>)
    requires |waypoints| > 0
    requires WithinReach(location, waypoints[currentIdx % |waypoints|])
    ensures FilterWaypoints(location, currentIdx, waypoints) == currentIdx % |waypoints|
  {
    FirstMatchDecides(location, currentIdx, waypoints, 0);
  }

  /** A vehicle standing on waypoint `k` (in the plane) keeps tracking index `k`. */
  lemma StandingOnWaypointKeepsIt(location: Point, k: int, waypoints: seq<Point>)
    requires 0 <= k < |waypoints|
    requires SamePlanar(location, waypoints[k])
    ensures FilterWaypoints(location, k, waypoints) == k
  {
    assert k % |waypoints| == k;
    CoincidentIsWithinReach(location, waypoints[k]);
    StartWithinReachIsKept(location, k, waypoints);
  }

  /**
   Waypoints at (0,0), (10,0), (20,0) and the vehicle at (9.5,0), starting
   from index 0: the first waypoint is 9.5 away, the second 0.5, so the
   search returns 1.
   */
  lemma ThreeWaypointExample()
    ensures FilterWaypoints(Point(9.5, 0.0, 0.0), 0,
                            [Point(0.0, 0.0, 0.0), Point(10.0, 0.0, 0.0), Point(20.0, 0.0, 0.0)]) == 1
  {
    var wps := [Point(0.0, 0.0, 0.0), Point(10.0, 0.0, 0.0), Point(20.0, 0.0, 0.0)];
    var loc := Point(9.5, 0.0, 0.0);
    assert !WithinReach(loc, wps[0 % 3]);
    assert WithinReach(loc, wps[1 % 3]);
    FirstMatchDecides(loc, 0, wps, 1);
  }

  /**
   No lap finds a match when the only waypoint is far away: the start index
   5 comes back unchanged although the path has a single index, 0.
   */
  lemma UnchangedIndexMayBeOutOfRange()
    ensures FilterWaypoints(Point(0.0, 0.0, 0.0), 5, [Point(100.0, 0.0, 0.0)]) == 5
  {
    var wps := [Point(100.0, 0.0, 0.0)];
    var loc := Point(0.0, 0.0, 0.0);
    assert !WithinReach(loc, wps[0]);
    NoMatchKeepsIndex(loc, 5, wps);
  }

  // ---------------------------------------------------------------------------
  // Only the planar coordinates matter

  /** Two paths of the same length whose waypoints agree pointwise in the plane. */
  predicate SamePlanarPath(w1: seq<Point>, w2: seq<Point>) {
    |w1| == |w2| && forall t :: 0 <= t < |w1| ==> SamePlanar(w1[t], w2[t])
  }

  /** Changing heights (z) of the vehicle or of any waypoint leaves the rest of a scan unchanged. */
  lemma {:induction false} ScanIgnoresZ(l1: Point, w1: seq<Point>, l2: Point, w2: seq<Point>, currentIdx: int, i: int)
    requires SamePlanar(l1, l2) && SamePlanarPath(w1, w2)
    requires currentIdx <= i <= |w1| + currentIdx
    decreases |w1| + currentIdx - i
    ensures Scan(l1, w1, currentIdx, i) == Scan(l2, w2, currentIdx, i)
  {
    if i < |w1| + currentIdx {
      WithinReachIgnoresZ(l1, w1[i % |w1|], l2, w2[i % |w2|]);
      ScanIgnoresZ(l1, w1, l2, w2, currentIdx, i + 1);
    }
  }

  /** Changing heights (z) of the vehicle or of any waypoint leaves the search result unchanged. */
  lemma FilterIgnoresZ(l1: Point, w1: seq<Point>, l2: Point, w2: seq<Point>, currentIdx: int)
    requires SamePlanar(l1, l2) && SamePlanarPath(w1, w2)
    ensures FilterWaypoints(l1, currentIdx, w1) == FilterWaypoints(l2, currentIdx, w2)
  {
    ScanIgnoresZ(l1, w1, l2, w2, currentIdx, currentIdx);
  }
}
