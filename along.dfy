/** The exported function of turf-along: walk a line and return the point
    at a given travel distance from its first vertex. */
module TurfAlong {
  import opened Geo
  import opened PrefixSums

  datatype Option<T> = None | Some(value: T)

  /** The two ways a call fails before anything is measured. */
  datatype AlongError =
    | NotALine   // the Error thrown for a `type` tag other than "Feature" or "LineString"
    | TypeError  // the runtime error of reading a member of a missing `geometry` or `coordinates`

  datatype Result<T> = Success(value: T) | Failure(error: AlongError)

  /** The `geometry` member of the input: only its `coordinates` are read. */
  datatype Geometry = Geometry(coordinates: Option<seq<Coord>>)

  /** The input object: its `type` tag, its `geometry` member and, as a bare
      LineString geometry carries them, its own `coordinates` member. */
  datatype GeoJson = GeoJson(kind: string, geometry: Option<Geometry>, coordinates: Option<seq<Coord>>)

  /** Reads `geometry.coordinates` of the input; a missing member on the way fails. */
  function GeometryCoordinates(geometry: Option<Geometry>): Result<seq<Coord>>
  {
    match geometry
    case None => Failure(TypeError)
    case Some(g) =>
      match g.coordinates
      case None => Failure(TypeError)
      case Some(coords) => Success(coords)
  }

  /** Input dispatch: a Feature or a LineString yields the coordinate list
      found at `geometry.coordinates`; any other tag is rejected. */
  function Coordinates(line: GeoJson): (r: Result<seq<Coord>>)
    ensures line.kind != "Feature" && line.kind != "LineString" <==> r == Failure(NotALine)
    ensures r.Success? <==>
      && (line.kind == "Feature" || line.kind == "LineString")
      && line.geometry.Some? && line.geometry.value.coordinates.Some?
    ensures r.Success? ==> line.geometry.value.coordinates == Some(r.value)
  {
    if line.kind == "Feature" then GeometryCoordinates(line.geometry)
    else if line.kind == "LineString" then GeometryCoordinates(line.geometry)
    else Failure(NotALine)
  }

  /** Where the walk stops. */
  datatype Stop =
    | Vertex(i: nat)                     // the total reached `dist` exactly at vertex i
    | Overshoot(i: nat, overshot: real)  // the total passed `dist` at vertex i, by -overshot
    | Last                               // no vertex before the last one reached `dist`

  /** Where a walk over segments of lengths `lens` stops for target `dist`:
      at the first vertex before the last whose cumulative length reaches
      `dist`, exactly or past it, or nowhere. */
  function Locate(lens: seq<real>, dist: real): (s: Stop)
    ensures s.Last? <==> forall j :: 0 <= j < |lens| ==> Prefix(lens, j) < dist
    ensures !s.Last? ==> s.i < |lens| && dist <= Prefix(lens, s.i)
    ensures !s.Last? ==> forall j :: 0 <= j < s.i ==> Prefix(lens, j) < dist
    ensures s.Vertex? ==> Prefix(lens, s.i) == dist
    ensures s.Overshoot? ==> s.overshot == dist - Prefix(lens, s.i) < 0.0
    ensures s.Overshoot? && 0.0 <= dist ==> 1 <= s.i
  {
    var i := FirstReached(lens, dist);
    assert i < |lens| ==> dist <= Prefix(lens, i);
    if i == |lens| then Last
    else if dist - Prefix(lens, i) == 0.0 then Vertex(i)
    else Overshoot(i, dist - Prefix(lens, i))
  }

  /** The distance the walk measures for segment `k`, from vertex k to k + 1. */
  function Segment<P, U>(prims: Primitives<P, U>, coords: seq<Coord>, k: int, units: U): Length
  {
    prims.distance(prims.point(Read(coords, k)), prims.point(Read(coords, k + 1)), units)
  }

  /** The lengths of the segments the loop can visit: one per consecutive
      pair of vertices. */
  function Lengths<P, U>(prims: Primitives<P, U>, coords: seq<Coord>, units: U): seq<Length>
  {
    if |coords| == 0 then [] else seq(|coords| - 1, k => Segment(prims, coords, k, units))
  }

  /** The point returned for a stop: the vertex as it is, the destination
      reached from vertex i going back by the (negative) overshoot along the
      reversed bearing towards vertex i - 1, or the last vertex. */
  function Realize<P, U>(prims: Primitives<P, U>, coords: seq<Coord>, s: Stop, units: U): P
  {
    match s
    case Vertex(i) => prims.point(Read(coords, i))
    case Overshoot(i, overshot) =>
      var direction := prims.bearing(prims.point(Read(coords, i)), prims.point(Read(coords, i - 1))) - 180.0;
      prims.destination(prims.point(Read(coords, i)), overshot, direction, units)
    case Last => prims.point(Read(coords, |coords| - 1))
  }

  /** The point the walk returns for the coordinate list `coords`. */
  function Outcome<P, U>(prims: Primitives<P, U>, coords: seq<Coord>, dist: real, units: U): P
  {
    Realize(prims, coords, Locate(Lengths(prims, coords, units), dist), units)
  }

  /** A call into a measuring primitive, by the vertex indices it is given. */
  datatype Call =
    | Distance(segment: nat)         // distance(coords[segment], coords[segment + 1])
    | Bearing(from: int, to: int)    // bearing(coords[from], coords[to])
    | Destination(from: int)         // destination(coords[from], ...)

  /** One distance call per segment, for the first `n` segments, in order. */
  function Measured(n: nat): seq<Call>
  {
    seq(n, k requires 0 <= k < n => Distance(k))
  }

  /** The calls a walk makes before it stops at `s`, out of `segments`. */
  function CallsOf(s: Stop, segments: nat): (calls: seq<Call>)
    ensures forall k :: 0 <= k < |calls| && calls[k].Distance? ==> calls[k].segment == k
    ensures (forall k :: 0 <= k < |calls| ==> calls[k].Distance?) <==> !s.Overshoot?
  {
    match s
    case Vertex(i) => Measured(i)
    case Overshoot(i, _) =>
      var calls := Measured(i) + [Bearing(i, i - 1), Destination(i)];
      assert !calls[i].Distance?;
      calls
    case Last => Measured(segments)
  }

  /** The calls the walk makes for the coordinate list `coords`. */
  function Trace<P, U>(prims: Primitives<P, U>, coords: seq<Coord>, dist: real, units: U): seq<Call>
  {
    var lens := Lengths(prims, coords, units);
    CallsOf(Locate(lens, dist), |lens|)
  }

  /** The accumulation loop: adds segment lengths to `travelled` until the
      total reaches `dist` at some vertex before the last, then returns that
      vertex or interpolates back from it; otherwise returns the last vertex. */
  method Walk<P, U>(prims: Primitives<P, U>, coords: seq<Coord>, dist: real, units: U)
    returns (p: P, calls: seq<Call>)
    ensures p == Outcome(prims, coords, dist, units)
    ensures calls == Trace(prims, coords, dist, units)
  {
    ghost var lens := Lengths(prims, coords, units);
    var travelled := 0.0;
    calls := [];
    var i := 0;
    while i < |coords| - 1
      invariant 0 <= i <= |lens|
      invariant travelled == Prefix(lens, i)
      invariant forall j :: 0 <= j < i ==> Prefix(lens, j) < dist
      invariant calls == Measured(i)
    {
      if travelled >= dist {
        var overshot := dist - travelled;
        if overshot == 0.0 {
          p := prims.point(Read(coords, i));
          return;
        } else {
          var direction := prims.bearing(prims.point(Read(coords, i)), prims.point(Read(coords, i - 1))) - 180.0;
          p := prims.destination(prims.point(Read(coords, i)), overshot, direction, units);
          calls := calls + [Bearing(i, i - 1), Destination(i)];
          return;
        }
      } else {
        travelled := travelled + prims.distance(prims.point(Read(coords, i)), prims.point(Read(coords, i + 1)), units);
        calls := calls + [Distance(i)];
        i := i + 1;
      }
    }
    p := prims.point(Read(coords, |coords| - 1));
  }

  /** The exported function: dispatch on the input, then walk. A rejected
      input fails before any primitive is called. */
  method Along<P, U>(prims: Primitives<P, U>, line: GeoJson, dist: real, units: U)
    returns (r: Result<P>, calls: seq<Call>)
    ensures Coordinates(line).Failure? ==> r == Failure(Coordinates(line).error) && calls == []
    ensures Coordinates(line).Success? ==>
      var coords := Coordinates(line).value;
      r == Success(Outcome(prims, coords, dist, units)) && calls == Trace(prims, coords, dist, units)
  {
    var coords := Coordinates(line);
    if coords.Failure? {
      return Failure(coords.error), [];
    }
    var p;
    p, calls := Walk(prims, coords.value, dist, units);
    r := Success(p);
  }
}
