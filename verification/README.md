# Waypoint tracking and angle wrapping for a racing-competition controller

This project models the locally written logic of a driving-competition
submission. The submission steers a simulated car. Almost all of it is glue
around a simulator, a reinforcement-learning library and an environment
wrapper library. Two pure helpers carry logic of their own:

- `filter_waypoints`: the waypoint tracker. The reference path is a cyclic
  list of waypoints. Starting at the current index and wrapping once around
  the list, the tracker looks for the first waypoint whose planar (x, y)
  distance from the vehicle is below 3. It returns that waypoint's index,
  reduced modulo the path length. If a full lap finds no such waypoint, it
  returns the current index unchanged.
- `normalize_rad`: wraps an angle into one turn centred on zero.

Modules:

- `Geometry` (`geometry.dfy`): points with real coordinates, the squared
  planar distance, and the proximity test `WithinReach`. The test uses
  squares (squared distance below 9) instead of a norm below 3.
  `NormBelowThreshold` proves the two tests agree.
- `Tracking` (`tracking.dfy`): `FilterWaypoints` is defined through `Scan`,
  a recursive walk over the scan positions `currentIdx .. |waypoints| + currentIdx - 1`.
  `FilterWaypointsLoop` is the same search written as the source's loop
  with an early return. The lemmas characterise the result by first match in
  cyclic order, the no-match fallback, and independence from heights.
- `Angles` (`angles.dfy`): `NormalizeRad` over the reals. The circle
  constant is a parameter `pi > 0`. The result is characterised as the
  unique value in `[-pi, pi)` that differs from the input by whole turns.

Python's `%` with a positive divisor is floor-based. Dafny's `%` on `int`
is Euclidean. The two agree for a positive divisor, including on negative
`current_idx`. So `i % |waypoints|` is written directly. Python's float `%`
is also floor-based. `Angles.FloorMod` writes it out with `Floor`.

Two edge cases of the code are worth stating on their own:

- On a lap with no match the tracker returns `current_idx` unchanged, so
  the result can be negative or `>= N`
  (`Tracking.UnchangedIndexMayBeOutOfRange`).
- `normalize_rad` returns values in `[-pi, pi)`, because the float
  remainder is floor-based, so `pi` maps to `-pi` (`Angles.NormalizeRadOfPi`).

Some members are building blocks, stated through the lemmas that use them:

- `Geometry.WithinReach` is the squared form of the test
  `dist_to_waypoint(...) < 3` (lines 22-27). `Geometry.NormBelowThreshold`
  proves that the two tests agree.
- `Tracking.MatchesAt` is line 27's test at one scan position `i`, on the
  waypoint `i % len(waypoints)`.

## Model

| member | source | states |
|---|---|---|
| Geometry.PlanarDistSq | competition_code/submission.py:22-25 | the squared planar distance used by the proximity test is never negative |
| Geometry.NormBelowThreshold | competition_code/submission.py:23-27 | for the non-negative norm whose square is the squared planar distance, `norm < 3` holds exactly when the squared test `WithinReach` holds |
| Geometry.WithinReachIgnoresZ | competition_code/submission.py:23-24 | the proximity test depends only on the first two coordinates of the vehicle and of the waypoint |
| Geometry.CoincidentIsWithinReach | competition_code/submission.py:23-27 | a vehicle at the same planar position as a waypoint is within reach of it (distance 0 < 3) |
| Tracking.Scan | competition_code/submission.py:26-29 | the rest of the scan from any position returns either the start index or an in-range index whose waypoint is within reach |
| Tracking.FilterWaypoints | competition_code/submission.py:21-29 | an empty path returns the start index; every result is either the start index or an in-range index whose waypoint is within reach |
| Tracking.FilterWaypointsLoop | competition_code/submission.py:26-29 | the loop with early return computes the same index as the recursive definition |
| Tracking.CyclicIndex | competition_code/submission.py:27 | the waypoint index `(start + offset) % N` used for each scan position always lies in `[0, N)` for a non-empty path |
| Tracking.PositionOfIndex | competition_code/submission.py:26-27 | every path index is visited at some position of `range(current_idx, N + current_idx)`, whatever `current_idx` is (negative included) |
| Tracking.LapMatchesIffSomeWithinReach | competition_code/submission.py:26-27 | some position of the lap passes the test if and only if some waypoint of the path is within reach |
| Tracking.ScanNoMatch | competition_code/submission.py:26-29 | a scan whose remaining positions all fail the test falls through to `return current_idx` |
| Tracking.ScanStopsAtFirst | competition_code/submission.py:26-28 | a scan returns the index of the first position that passes the test, with every earlier position failing |
| Tracking.ScanFindsFirst | competition_code/submission.py:26-28 | if some remaining position passes the test, a first passing position exists and the scan returns its path index |
| Tracking.EmptyPathKeepsIndex | competition_code/submission.py:26-29 | with no waypoints the loop range is empty and `current_idx` is returned |
| Tracking.NoMatchKeepsIndex | competition_code/submission.py:26-29 | if no waypoint is within reach, the result is exactly `current_idx`, not reduced modulo N |
| Tracking.FirstMatchDecides | competition_code/submission.py:26-28 | if the waypoint at offset `k < N` from `current_idx` is within reach and no smaller offset is, the result is `(current_idx + k) % N` |
| Tracking.ResultIsFirstOffset | competition_code/submission.py:26-28 | conversely, when some waypoint is within reach, the result is `(current_idx + k) % N` for an offset `0 <= k < N` whose waypoint is within reach while every smaller offset's is not |
| Tracking.MatchIsInRangeAndWithinReach | competition_code/submission.py:26-28 | when some waypoint is within reach, the result lies in `[0, N)` and the waypoint there is within reach |
| Tracking.StartWithinReachIsKept | competition_code/submission.py:26-28 | if the waypoint at `current_idx % N` is within reach, the result is `current_idx % N` |
| Tracking.StandingOnWaypointKeepsIt | competition_code/submission.py:21-28 | a vehicle standing on waypoint `k` in the plane, tracking from `k`, keeps index `k` |
| Tracking.ThreeWaypointExample | competition_code/submission.py:21-29 | waypoints (0,0), (10,0), (20,0), vehicle at (9.5,0) and start 0 give index 1 |
| Tracking.UnchangedIndexMayBeOutOfRange | competition_code/submission.py:29 | with one far-away waypoint and start index 5, the result is 5, outside the path's index range |
| Tracking.ScanIgnoresZ | competition_code/submission.py:22-28 | changing the z coordinate of the vehicle or of any waypoint does not change the rest of a scan |
| Tracking.FilterIgnoresZ | competition_code/submission.py:21-29 | changing the z coordinate of the vehicle or of any waypoint does not change the tracker's result |
| Angles.FloorMod | competition_code/submission.py:19 | the floor-based remainder lies in `[0, m)` and differs from its argument by a whole number of periods |
| Angles.NormalizeRad | competition_code/submission.py:18-19 | the wrapped angle lies in `[-pi, pi)` and differs from the input by a whole number of turns `2 * pi` |
| Angles.NormalizeRadUnique | competition_code/submission.py:18-19 | any value in `[-pi, pi)` a whole number of turns away from the input is the wrapped angle |
| Angles.NormalizeRadFixesRange | competition_code/submission.py:18-19 | an angle already in `[-pi, pi)` is returned unchanged |
| Angles.NormalizeRadIdempotent | competition_code/submission.py:18-19 | wrapping a wrapped angle changes nothing |
| Angles.NormalizeRadPeriodic | competition_code/submission.py:18-19 | adding any whole number of turns `2 * pi * k` (`k` any integer, negative included) to the input does not change the result |
| Angles.NormalizeRadOfPi | competition_code/submission.py:18-19 | an input of `pi` wraps to `-pi`, so the range is closed at `-pi` and open at `pi` |

## Left out

- Floating-point rounding: coordinates and angles are reals. The norm
  `np.linalg.norm` becomes an exact squared distance. `np.pi` becomes an
  exact positive parameter. No IEEE-754 behaviour is claimed.
- `SimplifyCarlaActionFilter` (lines 31-37): it only builds a
  gym `Dict` action space of two boxes. That is configuration of an external
  library, with no logic of its own.
- `RoarCompetitionSolution.__init__`, `initialize` and `step` (lines 39-137):
  these are asynchronous glue. They load a policy from disk, wrap the
  simulator in environment adapters, reset the environment and forward
  sampled actions. All of that is I/O and foreign calls. Lines 95-96 also
  use names that are never defined (`env`, `wandb_run`, `Monitor`), so
  `initialize` as written has no coherent behaviour to model.
- The proportional steering and throttle controller (lines 140-180): it is
  commented out, so it is dead code. It is also floating-point numerics
  (`sqrt`, `arctan2`, `clip`) that feed an actuator.
- Video recording, monitoring logs and model loading are I/O and are left out.
