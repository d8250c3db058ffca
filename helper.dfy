/** The route-list reconciliation of the GPX helper: finding the routes that
    start or end at a point, removing a junction point by dropping a route or
    by merging the two routes that meet there, and the upload filename check.

    A GPX document is modelled by its list of routes, which the operations
    change in place with Python's `pop` and `insert`. The route service is an
    oracle `getRoute` passed in by the caller. */
module Helper {
  import opened PyList
  import opened Geo

  /** is_valid_gpx_file, on the upload's filename: it must end in ".gpx"
      (compared case-sensitively). */
  function IsValidGpxFile(filename: string): (r: bool)
    ensures r ==> |filename| >= 4 && filename == filename[..|filename| - 4] + ".gpx"
  {
    |filename| >= 4 && filename[|filename| - 4..] == ".gpx"
  }

  /** What `get_route` hands back to merge_routes. */
  datatype Fetch =
    | RequestRaised                // get_route raised before returning
    | NotADocument                 // parse_gpx handed back its error value instead of a document
    | Document(routes: seq<Route>) // a parsed document with these routes

  /** The route service: get_route(long1, lat1, long2, lat2). */
  type RouteOracle = (real, real, real, real) -> Fetch

  /** How a helper call ends: it returns, or an exception escapes. */
  datatype Outcome = Returned | Raised(error: PyError)

  /** How a call ends together with the route list it leaves behind; an
      exception can escape after the list has already been changed. */
  datatype Effect = Effect(outcome: Outcome, routes: seq<Route>)

  /** Every route has a first and a last point. */
  predicate AllNonEmpty(routes: seq<Route>)
  {
    forall i :: 0 <= i < |routes| ==> |routes[i]| > 0
  }

  /** The highest index of a route whose first point (atEnd false) or last
      point (atEnd true) matches the location, or -1 when there is none. */
  function LastMatching(routes: seq<Route>, atEnd: bool, longitude: real, latitude: real): (r: int)
    requires AllNonEmpty(routes)
    ensures -1 <= r < |routes|
    ensures r >= 0 ==> At(Endpoint(routes[r], atEnd), longitude, latitude)
    ensures forall i :: r < i < |routes| ==> !At(Endpoint(routes[i], atEnd), longitude, latitude)
    decreases |routes|
  {
    if |routes| == 0 then -1
    else if At(Endpoint(routes[|routes| - 1], atEnd), longitude, latitude) then |routes| - 1
    else LastMatching(routes[..|routes| - 1], atEnd, longitude, latitude)
  }

  /** The effect of merge_routes on a route list, step by step as the code
      takes it: read routes[endIdx][0] and routes[startIdx][-1], ask the route
      service, pop startIdx, pop endIdx from the shortened list, and insert
      the first fetched route at endIdx. */
  function MergeEffect(routes: seq<Route>, startIdx: int, endIdx: int, getRoute: RouteOracle): (r: Effect)
    ensures r.outcome == Raised(RouteRequestError) ==> r.routes == routes
    ensures r.outcome.Returned? ==> |r.routes| == |routes| - 1
  {
    var n := |routes|;
    var e, s := Position(endIdx, n), Position(startIdx, n);
    if e.None? || s.None? || |routes[e.value]| == 0 || |routes[s.value]| == 0 then
      Effect(Raised(IndexError), routes)
    else
      var origin := routes[e.value][0];
      var destination := routes[s.value][|routes[s.value]| - 1];
      var fetched := getRoute(origin.longitude, origin.latitude, destination.longitude, destination.latitude);
      if fetched.RequestRaised? then Effect(Raised(RouteRequestError), routes)
      else
        var once := Removed(routes, s.value);
        match Position(endIdx, n - 1)
        case None => Effect(Raised(IndexError), once)
        case Some(e2) =>
          var twice := Removed(once, e2);
          if fetched.NotADocument? then Effect(Raised(AttributeError), twice)
          else if |fetched.routes| == 0 then Effect(Raised(IndexError), twice)
          else Effect(Returned, Inserted(twice, endIdx, fetched.routes[0]))
  }

  /** The effect of process_point_removal on a route list. */
  function RemovalEffect(routes: seq<Route>, longitude: real, latitude: real, getRoute: RouteOracle): (r: Effect)
    ensures r.outcome.Returned? ==> |routes| > 0 && AllNonEmpty(routes) && |r.routes| == |routes| - 1
    ensures r.outcome == Raised(RouteRequestError) ==> r.routes == routes
  {
    if !AllNonEmpty(routes) then Effect(Raised(IndexError), routes)
    else
      var startIdx := LastMatching(routes, false, longitude, latitude);
      var endIdx := LastMatching(routes, true, longitude, latitude);
      if startIdx == -1 then
        match Position(endIdx, |routes|)
        case None => Effect(Raised(IndexError), routes)
        case Some(k) => Effect(Returned, Removed(routes, k))
      else MergeEffect(routes, startIdx, endIdx, getRoute)
  }

  /** The part of a gpxpy document the helper touches: its list of routes. */
  class Gpx {
    var routes: seq<Route>

    constructor (routes: seq<Route>)
      ensures this.routes == routes
    {
      this.routes := routes;
    }

    /** gpx.routes.pop(i) */
    method PopRoute(i: int) returns (r: Result<Route>)
      modifies this
      ensures match Position(i, |old(routes)|)
              case None => r == Failure(IndexError) && routes == old(routes)
              case Some(k) => r == Success(old(routes)[k]) && routes == Removed(old(routes), k)
    {
      var k := Position(i, |routes|);
      if k.None? {
        return Failure(IndexError);
      }
      r := Success(routes[k.value]);
      routes := routes[..k.value] + routes[k.value + 1..];
    }

    /** gpx.routes.insert(i, route) */
    method InsertRoute(i: int, route: Route)
      modifies this
      ensures routes == Inserted(old(routes), i, route)
    {
      var k := InsertPosition(i, |routes|);
      routes := routes[..k] + [route] + routes[k..];
    }
  }

  /** find_routes_by_point: one pass over the routes that overwrites the start
      and end index at every match, so the last match wins. A route without
      points makes `points[0]` raise IndexError. */
  method FindRoutesByPoint(gpx: Gpx, longitude: real, latitude: real) returns (r: Result<(int, int)>)
    ensures r.Failure? <==> !AllNonEmpty(gpx.routes)
    ensures r.Failure? ==> r.error == IndexError
    ensures r.Success? ==> r.value == (LastMatching(gpx.routes, false, longitude, latitude),
                                       LastMatching(gpx.routes, true, longitude, latitude))
  {
    var routeStartWith, routeEndWith := -1, -1;
    var i := 0;
    while i < |gpx.routes|
      invariant 0 <= i <= |gpx.routes|
      invariant AllNonEmpty(gpx.routes[..i])
      invariant routeStartWith == LastMatching(gpx.routes[..i], false, longitude, latitude)
      invariant routeEndWith == LastMatching(gpx.routes[..i], true, longitude, latitude)
    {
      var route := gpx.routes[i];
      if |route| == 0 {
        return Failure(IndexError);
      }
      if PointsMatch(route[0].longitude, longitude, route[0].latitude, latitude) {
        routeStartWith := i;
      }
      if PointsMatch(route[|route| - 1].longitude, longitude, route[|route| - 1].latitude, latitude) {
        routeEndWith := i;
      }
      assert gpx.routes[..i + 1][..i] == gpx.routes[..i];
      i := i + 1;
    }
    assert gpx.routes[..i] == gpx.routes;
    return Success((routeStartWith, routeEndWith));
  }

  /** merge_routes: replaces the routes at startIdx and endIdx by one route
      fetched from the first point of routes[endIdx] to the last point of
      routes[startIdx]. */
  method MergeRoutes(gpx: Gpx, startIdx: int, endIdx: int, getRoute: RouteOracle) returns (outcome: Outcome)
    modifies gpx
    ensures Effect(outcome, gpx.routes) == MergeEffect(old(gpx.routes), startIdx, endIdx, getRoute)
  {
    var e := Position(endIdx, |gpx.routes|);
    if e.None? || |gpx.routes[e.value]| == 0 {
      return Raised(IndexError);
    }
    var startPoint := gpx.routes[e.value][0];
    var s := Position(startIdx, |gpx.routes|);
    if s.None? || |gpx.routes[s.value]| == 0 {
      return Raised(IndexError);
    }
    var endPoint := gpx.routes[s.value][|gpx.routes[s.value]| - 1];
    var routeGpx := getRoute(startPoint.longitude, startPoint.latitude, endPoint.longitude, endPoint.latitude);
    if routeGpx.RequestRaised? {
      return Raised(RouteRequestError);
    }
    var popped := gpx.PopRoute(startIdx);
    popped := gpx.PopRoute(endIdx);
    if popped.Failure? {
      return Raised(popped.error);
    }
    if routeGpx.NotADocument? {
      return Raised(AttributeError);
    }
    if |routeGpx.routes| == 0 {
      return Raised(IndexError);
    }
    gpx.InsertRoute(endIdx, routeGpx.routes[0]);
    return Returned;
  }

  /** process_point_removal: when no route starts at the point, pop the route
      that ends there (the last route when none does); otherwise merge. The
      document it returns is the one it was given. */
  method ProcessPointRemoval(gpx: Gpx, longitude: real, latitude: real, getRoute: RouteOracle)
    returns (r: Result<Gpx>)
    modifies gpx
    ensures r.Success? ==> r.value == gpx
    ensures Effect(if r.Success? then Returned else Raised(r.error), gpx.routes)
         == RemovalEffect(old(gpx.routes), longitude, latitude, getRoute)
  {
    var found := FindRoutesByPoint(gpx, longitude, latitude);
    if found.Failure? {
      return Failure(found.error);
    }
    var (routeStartIdx, routeEndIdx) := found.value;
    if routeStartIdx == -1 {
      var popped := gpx.PopRoute(routeEndIdx);
      if popped.Failure? {
        return Failure(popped.error);
      }
    } else {
      var outcome := MergeRoutes(gpx, routeStartIdx, routeEndIdx, getRoute);
      if outcome.Raised? {
        return Failure(outcome.error);
      }
    }
    return Success(gpx);
  }
}
