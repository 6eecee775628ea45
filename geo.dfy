/** The geometric building blocks the walk along a line relies on.
    The spherical computations behind them live in separate packages
    (turf-distance, turf-bearing, turf-destination, turf-point); here they
    are uninterpreted functions, and the only fact assumed of them is that
    a distance is never negative. */
module Geo {

  /** A position `[longitude, latitude]` in decimal degrees. */
  datatype Coord = Coord(lon: real, lat: real)

  /** What reading `coords[j]` from a JavaScript array yields: the element,
      or `undefined` when `j` lies outside the array. */
  datatype Slot = Defined(coord: Coord) | Undefined

  /** The array read `coords[j]`, for any integer `j`. */
  function Read(coords: seq<Coord>, j: int): Slot
  {
    if 0 <= j < |coords| then Defined(coords[j]) else Undefined
  }

  /** A distance as the distance primitive reports it. */
  type Length = r: real | 0.0 <= r

  /** The four primitives, over an opaque point type `P` (the point feature
      that `point` builds) and an opaque units argument `U`, which is handed
      to `distance` and `destination` unchanged and never inspected. */
  datatype Primitives<!P, !U> = Primitives(
    point: Slot -> P,
    distance: (P, P, U) -> Length,
    bearing: (P, P) -> real,
    destination: (P, real, real, U) -> P)
}
