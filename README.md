# turf-along, modelled in Dafny

turf-along exports one function, `along(line, dist, units)`. It walks a
GeoJSON LineString from its first vertex and returns the point reached after
travelling `dist`. It keeps a running total `travelled` of segment lengths.
At the first vertex whose total reaches `dist` it stops. If the total equals
`dist` exactly, it returns that vertex as it is. Otherwise it has gone past
the target, so it calls `destination` from that vertex with the negative
overshoot and the reversed bearing towards the previous vertex. If no vertex
before the last one reaches `dist`, the last vertex is returned.

The model treats the four geometric primitives (`point`, `distance`,
`bearing`, `destination`) as uninterpreted functions, gathered in
`Geo.Primitives`. Two things are assumed of them. First, `distance` is never
negative: its result type is `Geo.Length`. Second, every primitive is a total
function that returns normally on every argument (see "## Left out"). The point type `P` and the units
argument `U` are type parameters, because the function never looks inside
them. An out-of-range array read such as `coords[-1]` yields `Geo.Undefined`,
and `point` is applied to whatever the read yields.

Files:

- `geo.dfy`: coordinates, JavaScript array reads and the primitives.
- `prefix.dfy`: cumulative segment lengths (`Prefix`), their monotonicity,
  and `FirstReached`, the first vertex whose total reaches a target.
- `along.dfy`: input dispatch (`Coordinates`), the stop the walk chooses
  (`Locate`), the point it returns (`Realize`, `Outcome`), the calls it makes
  to the primitives (`CallsOf`, `Trace`), the loop (`Walk`) and the exported
  function (`Along`).
- `properties.dfy`: lemmas about the walk's results.
- `findings.dfy`: two places where the code departs from its documentation.

The methods return the calls they make to `distance`, `bearing` and
`destination`, as a list of `Call` values. This is what lets the model say
that a call is "never made" and that the loop "runs at most n - 1 times".

The contracts of `Walk`, `Locate` and `Trace` are written in terms of
`Lengths`. It gives one length per consecutive pair of vertices: the value
`distance(point(coords[k]), point(coords[k+1]), units)` that the loop adds at
index.js:70. The running totals `Prefix` are sums of these lengths.

The model follows the code in three places that are worth knowing about:

- On a line of two or more vertices, a negative `dist` interpolates from
  `coords[0]`. The test `travelled >= dist` already holds at vertex 0 with a
  non-zero overshoot, so the code takes the bearing towards `coords[-1]`,
  which is `undefined`. On a one-point line the loop never runs, and a
  negative `dist` returns the only vertex.
- A target inside the final segment is not interpolated. The last vertex is
  returned instead, so a two-point line returns its end point for any
  positive `dist`. This contradicts the documentation comment, which
  promises the "Point along the line at X distance" (index.js:13).
- A bare LineString is read at `line.geometry.coordinates`, the Feature's
  field. A standard bare LineString has no `geometry`, so reading it fails.
  This contradicts the error message at index.js:56, which names a
  "LineString Feature or Geometry" as accepted input.

## Model

| member | source | states |
|---|---|---|
| TurfAlong.Coordinates | index.js:53-56 | Any `type` tag other than "Feature" or "LineString" fails with the thrown error, and only then. Both accepted tags read `geometry.coordinates`, and a missing member on the way fails with a TypeError. |
| TurfAlong.Locate | index.js:58-73 | The walk stops at the smallest vertex index below the last whose cumulative length reaches `dist`. It returns that vertex when the total equals `dist`. It interpolates with overshoot `dist - total`, which is strictly negative, when the total went past. For `dist >= 0` the interpolating vertex is at index 1 or later. Otherwise every such total is below `dist` and the walk falls through. |
| TurfAlong.CallsOf | index.js:59-70 | The k-th distance call measures segment k. Bearing and destination are called only when the walk interpolates, so never when the overshoot is zero. |
| TurfAlong.Walk | index.js:58-73 | The loop returns exactly the point of the stop `Locate` chooses, and makes exactly the calls `CallsOf` lists. Its invariant: at the top of iteration i, `travelled` equals the sum of the first i segment lengths and every earlier total was below `dist`. |
| TurfAlong.Along | index.js:52-74 | A rejected input fails before any primitive is called. An accepted input returns the walk's point over its coordinates. |
| PrefixSums.FirstReached | index.js:59-60 | Returns the first index whose cumulative length reaches the target, or the segment count when none does. Every earlier total is below the target. |
| PrefixSums.PrefixMonotone | index.js:70 | With non-negative distances, `travelled` never decreases from one vertex to a later one. |
| AlongProperties.LocateMonotone | index.js:58-66 | A larger target never stops the walk at an earlier vertex. At the same interpolating vertex, it never lands farther back. |
| AlongProperties.LastSegmentNeverInterpolated | index.js:59-73 | A target beyond the total of every segment but the last returns the last vertex. |
| AlongProperties.TwoPointLineReturnsEnd | index.js:59-73 | A two-point line returns its second point for every positive target, after a single distance call. |
| AlongProperties.SinglePointLine | index.js:59-73 | A one-point line returns its only point for any target, and calls no primitive. |
| AlongProperties.ZeroDistanceReturnsFirstVertex | index.js:60-62 | A target of 0 returns the first vertex unchanged, and calls no primitive. |
| AlongProperties.NegativeDistanceReadsBeforeStart | index.js:60-66 | On a line of two or more vertices, a negative target interpolates from `coords[0]` with overshoot `dist`. The bearing is taken towards the undefined `coords[-1]`, minus 180. |
| AlongProperties.PredecessorDefinedIffNonNegative | index.js:60-64 | When the walk interpolates, the vertex before the stop exists exactly when `dist >= 0`. |
| AlongProperties.LoopRunsAtMostOncePerSegment | index.js:59-71 | At most `coords.length - 1` distance calls are made. When the walk stops early at vertex i, exactly i are made. |
| AlongFindings.LocateIntended | index.js:59-73 | The corrected stop also tests the last vertex. It falls through only when the target reaches the full length, and otherwise stops at the first vertex, the last included, whose total reaches the target. |
| AlongFindings.IntendedStopsInsideSegment | index.js:6-13 | With the correction, a target strictly inside the line stops within the segment that contains it. The interpolation goes back by less than that segment's length. |
| AlongFindings.AsWrittenSkipsFinalSegment | index.js:59-73 | As written, a target inside the final segment returns the last vertex, where the corrected walk interpolates. |
| AlongFindings.TwoPointMidpointCounterexample | index.js:59-73 | One segment of length 2 with a target of 1: as written the walk falls through, and corrected it goes back 1 from the end. |
| AlongFindings.CoordinatesIntended | index.js:53-56 | The corrected dispatch reads a bare LineString's own `coordinates`. It is unchanged for a Feature and for other tags. |
| AlongFindings.BareLineStringRejected | index.js:55 | As written, a bare LineString geometry fails with a TypeError. Corrected, it yields its coordinates. |

## Left out

- The spherical computations of `distance`, `bearing` and `destination`, and the wrapping done by `point` (turf-distance, turf-bearing, turf-destination and turf-point are not part of this model). They are uninterpreted. A distance is assumed non-negative, and every primitive is assumed total (next line).
- The primitives are modelled as total functions that always return normally, on every argument, including `point(undefined)` and a bearing towards such a point. Whether turf-point or turf-bearing throws on `undefined` is not modelled. The results for a negative target on a line of two or more vertices (`AlongProperties.NegativeDistanceReadsBeforeStart`) and for an empty coordinate list (`point(coords[-1])`) hold only under that assumption.
- The `units` argument is passed to the primitives unchanged. Its default and its conversions happen inside them.
- Floating-point rounding, NaN and infinities: `travelled` and `dist` are exact reals. The test `!overshot` is modelled as `overshot == 0`.
- Inputs that are not objects, coordinates that are not arrays of numbers, and the `type` of the inner geometry: the code never checks them.
- TurfAlong.Coordinates: a missing `geometry.coordinates` is reported at dispatch. The code fails one step later, at `coords.length`, and nothing is computed in between.
- The worked example in the documentation comment: its result depends on the spherical primitives.
- AlongFindings.LocateIntended: it describes lines of at least one vertex. An empty coordinate list is not covered by the corrected definition.

## Findings

The model of index.js keeps the behaviour as written, because it models that code. Each corrected definition stands beside it, with the intended property proved.

| source | as written | input that shows it | evidently intended | confidence | as-written member | corrected member |
|---|---|---|---|---|---|---|
| index.js:59 | The loop stops one vertex early, so the final segment is never searched and a target inside it returns the last vertex. | Line `[[0,0],[0,1]]` with `dist` equal to half its length: the end point `[0,1]` is returned. | The point at `dist` along the final segment, interpolated back from the last vertex. | high; not executed | AlongFindings.AsWrittenSkipsFinalSegment | AlongFindings.IntendedStopsInsideSegment |
| index.js:55 | The LineString branch reads `line.geometry.coordinates`. | `{type: "LineString", coordinates: [[0,0],[0,1]]}`: reading a member of the missing `geometry` fails. | `line.coordinates`, the bare geometry's own coordinates. | high; not executed | AlongFindings.BareLineStringRejected | AlongFindings.CoordinatesIntended |
