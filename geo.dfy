/** Points, routes and the fixed-tolerance coordinate match used to recognise
    a junction between routes. Coordinates are exact reals. */
module Geo {

  /** Largest difference, in degrees, at which two coordinates count as equal. */
  const Tolerance: real := 0.00001

  datatype Point = Point(longitude: real, latitude: real)

  /** A route is the ordered list of its points. */
  type Route = seq<Point>

  function Abs(x: real): real
  {
    if x < 0.0 then -x else x
  }

  /** points_match. The arguments come interleaved: both longitudes, then both latitudes. */
  function PointsMatch(long1: real, long2: real, lat1: real, lat2: real): (r: bool)
    ensures r <==> (long2 - Tolerance <= long1 <= long2 + Tolerance &&
                    lat2 - Tolerance <= lat1 <= lat2 + Tolerance)
  {
    Abs(long1 - long2) <= Tolerance && Abs(lat1 - lat2) <= Tolerance
  }

  /** The match of a stored point q against a requested location, written in
      the order in which find_routes_by_point asks it. */
  predicate At(q: Point, longitude: real, latitude: real)
  {
    PointsMatch(q.longitude, longitude, q.latitude, latitude)
  }

  /** The first point of a route (atEnd false) or its last point (atEnd true). */
  function Endpoint(r: Route, atEnd: bool): Point
    requires |r| > 0
  {
    if atEnd then r[|r| - 1] else r[0]
  }

  lemma PointsMatchReflexive(longitude: real, latitude: real)
    ensures PointsMatch(longitude, longitude, latitude, latitude)
  {
  }

  lemma PointsMatchSymmetric(long1: real, long2: real, lat1: real, lat2: real)
    ensures PointsMatch(long1, long2, lat1, lat2) == PointsMatch(long2, long1, lat2, lat1)
  {
  }

  /** Matching is not transitive: two points each within tolerance of a third
      can be two tolerances apart, so "the same location" is not an equivalence. */
  lemma PointsMatchNotTransitive()
    ensures PointsMatch(0.0, 0.00001, 0.0, 0.0)
    ensures PointsMatch(0.00001, 0.00002, 0.0, 0.0)
    ensures !PointsMatch(0.0, 0.00002, 0.0, 0.0)
  {
  }
}
