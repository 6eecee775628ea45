/** Two places where index.js does not do what its documentation promises,
    each shown on the function as written and on a corrected definition. */
module AlongFindings {
  import opened Geo
  import opened PrefixSums
  import opened TurfAlong

  // Finding 1: the final segment is never interpolated.

  /** Where the walk should stop: as `Locate`, except that the last vertex
      is also tested, so that a target inside the final segment is
      interpolated back from the last vertex. Lines of at least one vertex,
      where `|lens|` is the vertex count minus one. */
  function LocateIntended(lens: seq<real>, dist: real): (s: Stop)
    ensures s.Last? <==> (forall j :: 0 <= j < |lens| ==> Prefix(lens, j) < dist) && Total(lens) <= dist
    ensures !s.Last? ==> s.i <= |lens| && dist <= Prefix(lens, s.i)
    ensures !s.Last? ==> forall j :: 0 <= j < s.i ==> Prefix(lens, j) < dist
    ensures s.Vertex? ==> Prefix(lens, s.i) == dist
    ensures s.Overshoot? ==> s.overshot == dist - Prefix(lens, s.i) < 0.0
  {
    var s := Locate(lens, dist);
    if !s.Last? then
      assert s.i < |lens| && !(Prefix(lens, s.i) < dist);
      s
    else if Total(lens) <= dist then Last
    else Overshoot(|lens|, dist - Total(lens))
  }

  /** The corrected walk interpolates every target strictly inside the line
      within the one segment that contains it: between vertex i - 1 and
      vertex i, going back from vertex i by less than that segment's length. */
  lemma IntendedStopsInsideSegment(lens: seq<Length>, dist: real)
    requires 0.0 < dist < Total(lens)
    ensures var s := LocateIntended(lens, dist);
      && !s.Last?
      && 1 <= s.i <= |lens|
      && Prefix(lens, s.i - 1) < dist <= Prefix(lens, s.i)
      && (s.Overshoot? ==> -lens[s.i - 1] < s.overshot)
  {
  }

  /** As written, a target between the start of the final segment and the
      end of the line returns the last vertex, where the corrected walk
      interpolates inside the final segment. */
  lemma AsWrittenSkipsFinalSegment(lens: seq<Length>, dist: real)
    requires 1 <= |lens|
    requires Prefix(lens, |lens| - 1) < dist < Total(lens)
    ensures Locate(lens, dist) == Last
    ensures LocateIntended(lens, dist) == Overshoot(|lens|, dist - Total(lens))
  {
    forall j | 0 <= j < |lens|
      ensures Prefix(lens, j) < dist
    {
      PrefixMonotone(lens, j, |lens| - 1);
    }
  }

  /** The concrete case: on a two-point line whose segment is 2 units long,
      a target of 1 returns the end point as written, but the corrected
      walk goes back 1 unit from the end point. */
  lemma TwoPointMidpointCounterexample()
    ensures Locate([2.0], 1.0) == Last
    ensures LocateIntended([2.0], 1.0) == Overshoot(1, -1.0)
  {
  }

  // Finding 2: the bare LineString branch reads the Feature's field.

  /** Input dispatch as intended: a Feature's coordinates are at
      `geometry.coordinates`, a bare LineString's at `coordinates`. */
  function CoordinatesIntended(line: GeoJson): (r: Result<seq<Coord>>)
    ensures line.kind == "Feature" ==> r == Coordinates(line)
    ensures line.kind == "LineString" ==>
      r == if line.coordinates.Some? then Success(line.coordinates.value) else Failure(TypeError)
    ensures line.kind != "Feature" && line.kind != "LineString" ==> r == Failure(NotALine)
  {
    if line.kind == "Feature" then GeometryCoordinates(line.geometry)
    else if line.kind == "LineString" then
      match line.coordinates
      case None => Failure(TypeError)
      case Some(coords) => Success(coords)
    else Failure(NotALine)
  }

  /** As written, a bare LineString geometry, which carries its own
      `coordinates` and no `geometry`, is rejected; as intended it yields
      its coordinates. */
  lemma BareLineStringRejected(coords: seq<Coord>)
    ensures Coordinates(GeoJson("LineString", None, Some(coords))) == Failure(TypeError)
    ensures CoordinatesIntended(GeoJson("LineString", None, Some(coords))) == Success(coords)
  {
  }
}
