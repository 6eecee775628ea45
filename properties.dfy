/** What the walk along a line guarantees, stated over the stop it chooses,
    the point it returns and the calls it makes. */
module AlongProperties {
  import opened Geo
  import opened PrefixSums
  import opened TurfAlong

  /** The vertex index a stop lies at, the last vertex counting as `segments`. */
  function StopIndex(s: Stop, segments: nat): nat
  {
    if s.Last? then segments else s.i
  }

  /** A longer target never stops the walk at an earlier vertex, and at the
      same vertex it never lies farther back from it. */
  lemma LocateMonotone(lens: seq<real>, d1: real, d2: real)
    requires d1 <= d2
    ensures StopIndex(Locate(lens, d1), |lens|) <= StopIndex(Locate(lens, d2), |lens|)
    ensures var s1, s2 := Locate(lens, d1), Locate(lens, d2);
      s1.Overshoot? && s2.Overshoot? && s1.i == s2.i ==> s1.overshot <= s2.overshot
  {
  }

  /** A target beyond the summed length of every segment but the last
      returns the last vertex: the final segment is never interpolated. */
  lemma LastSegmentNeverInterpolated(lens: seq<Length>, dist: real)
    requires 1 <= |lens|
    requires Prefix(lens, |lens| - 1) < dist
    ensures Locate(lens, dist) == Last
  {
    forall j | 0 <= j < |lens|
      ensures Prefix(lens, j) < dist
    {
      PrefixMonotone(lens, j, |lens| - 1);
    }
  }

  /** A two-point line returns its second point for every positive target,
      however long its one segment is. */
  lemma TwoPointLineReturnsEnd<P, U>(prims: Primitives<P, U>, a: Coord, b: Coord, dist: real, units: U)
    requires 0.0 < dist
    ensures Outcome(prims, [a, b], dist, units) == prims.point(Defined(b))
    ensures Trace(prims, [a, b], dist, units) == [Distance(0)]
  {
  }

  /** A one-point line returns its only point, whatever the target, and
      measures nothing. */
  lemma SinglePointLine<P, U>(prims: Primitives<P, U>, c: Coord, dist: real, units: U)
    ensures Outcome(prims, [c], dist, units) == prims.point(Defined(c))
    ensures Trace(prims, [c], dist, units) == []
  {
  }

  /** A target of zero returns the first vertex unchanged. */
  lemma ZeroDistanceReturnsFirstVertex<P, U>(prims: Primitives<P, U>, coords: seq<Coord>, units: U)
    requires 1 <= |coords|
    ensures Outcome(prims, coords, 0.0, units) == prims.point(Defined(coords[0]))
    ensures Trace(prims, coords, 0.0, units) == []
  {
  }

  /** A negative target interpolates at once from the first vertex, with the
      bearing taken towards `coords[-1]`, a read outside the array. */
  lemma NegativeDistanceReadsBeforeStart<P, U>(prims: Primitives<P, U>, coords: seq<Coord>, dist: real, units: U)
    requires 2 <= |coords| && dist < 0.0
    ensures Locate(Lengths(prims, coords, units), dist) == Overshoot(0, dist)
    ensures var start := prims.point(Defined(coords[0]));
      Outcome(prims, coords, dist, units)
        == prims.destination(start, dist, prims.bearing(start, prims.point(Undefined)) - 180.0, units)
    ensures Trace(prims, coords, dist, units) == [Bearing(0, -1), Destination(0)]
  {
  }

  /** The vertex the bearing looks back to exists exactly when the target is
      not negative. */
  lemma PredecessorDefinedIffNonNegative<P, U>(prims: Primitives<P, U>, coords: seq<Coord>, dist: real, units: U)
    requires Locate(Lengths(prims, coords, units), dist).Overshoot?
    ensures var s := Locate(Lengths(prims, coords, units), dist);
      Read(coords, s.i - 1).Defined? <==> 0.0 <= dist
  {
  }

  /** The number of `distance` calls in a trace. */
  function Measures(calls: seq<Call>): nat
  {
    if calls == [] then 0
    else Measures(calls[..|calls| - 1]) + if calls[|calls| - 1].Distance? then 1 else 0
  }

  lemma {:induction false} MeasuresOfMeasured(n: nat)
    ensures Measures(Measured(n)) == n
  {
    if n > 0 {
      assert Measured(n)[..n - 1] == Measured(n - 1);
      MeasuresOfMeasured(n - 1);
    }
  }

  /** The loop body runs at most once per segment: the walk measures at most
      `coords.length - 1` segments, and exactly as many as the vertex it
      stops at when it stops early. */
  lemma LoopRunsAtMostOncePerSegment<P, U>(prims: Primitives<P, U>, coords: seq<Coord>, dist: real, units: U)
    ensures Measures(Trace(prims, coords, dist, units)) <= if |coords| == 0 then 0 else |coords| - 1
    ensures var s := Locate(Lengths(prims, coords, units), dist);
      !s.Last? ==> Measures(Trace(prims, coords, dist, units)) == s.i
  {
    var lens := Lengths(prims, coords, units);
    var s := Locate(lens, dist);
    var n := StopIndex(s, |lens|);
    MeasuresOfMeasured(n);
    if s.Overshoot? {
      var calls := CallsOf(s, |lens|);
      assert calls[..|calls| - 1][..|calls| - 2] == Measured(n);
    }
  }
}
