/** What removing a junction point does to the route list, case by case:
    no route starting there, two adjacent routes meeting there, a closed
    route, no route ending there, and the pop order of merge_routes. */
module HelperProperties {
  import opened PyList
  import opened Geo
  import opened Helper

  /** The route service answers the query for the merge of startIdx and endIdx
      (both non-negative) with a document whose first route is `merged`. */
  predicate Answers(getRoute: RouteOracle, routes: seq<Route>, startIdx: nat, endIdx: nat, merged: Route)
    requires startIdx < |routes| && endIdx < |routes|
    requires |routes[startIdx]| > 0 && |routes[endIdx]| > 0
  {
    var origin := routes[endIdx][0];
    var destination := routes[startIdx][|routes[startIdx]| - 1];
    var fetched := getRoute(origin.longitude, origin.latitude, destination.longitude, destination.latitude);
    fetched.Document? && |fetched.routes| > 0 && fetched.routes[0] == merged
  }

  /** The only question merge_routes asks the route service is the route from
      the first point of routes[endIdx] to the last point of routes[startIdx],
      passed as (longitude, latitude, longitude, latitude): two services that
      agree on that one query leave the same effect. */
  lemma MergeAsksOnlyForJunctionRoute(routes: seq<Route>, startIdx: int, endIdx: int, g1: RouteOracle, g2: RouteOracle)
    requires Position(startIdx, |routes|).Some? && Position(endIdx, |routes|).Some?
    requires |routes[Position(startIdx, |routes|).value]| > 0 && |routes[Position(endIdx, |routes|).value]| > 0
    requires var origin := routes[Position(endIdx, |routes|).value][0];
             var s := routes[Position(startIdx, |routes|).value];
             var destination := s[|s| - 1];
             g1(origin.longitude, origin.latitude, destination.longitude, destination.latitude)
             == g2(origin.longitude, origin.latitude, destination.longitude, destination.latitude)
    ensures MergeEffect(routes, startIdx, endIdx, g1) == MergeEffect(routes, startIdx, endIdx, g2)
  {
  }

  /** Whatever exception escapes from merge_routes, the route list it leaves
      is the old one, or the old one after one pop, or after two pops. */
  lemma MergeRaisesAfterAtMostTwoPops(routes: seq<Route>, startIdx: int, endIdx: int, getRoute: RouteOracle)
    ensures var r := MergeEffect(routes, startIdx, endIdx, getRoute);
            r.outcome.Raised? ==>
              r.routes == routes
              || (exists k :: 0 <= k < |routes| && r.routes == Removed(routes, k))
              || (exists k, k2 :: 0 <= k < |routes| && 0 <= k2 < |routes| - 1
                                  && r.routes == Removed(Removed(routes, k), k2))
  {
    var r := MergeEffect(routes, startIdx, endIdx, getRoute);
    var n := |routes|;
    var e, s := Position(endIdx, n), Position(startIdx, n);
    if e.Some? && s.Some? && |routes[e.value]| > 0 && |routes[s.value]| > 0 && r.routes != routes {
      var once := Removed(routes, s.value);
      match Position(endIdx, n - 1)
      case None =>
        assert r.routes == once;
      case Some(e2) =>
        assert r.outcome.Raised? ==> r.routes == Removed(once, e2);
    }
  }

  /** merge_routes as evidently intended: both merged routes leave the list
      and the fetched route takes the place of the earlier one. The higher
      position is popped first, so the lower one still addresses its route. */
  function MergedRoutes(routes: seq<Route>, startIdx: nat, endIdx: nat, merged: Route): (r: seq<Route>)
    requires startIdx < |routes| && endIdx < |routes| && startIdx != endIdx
    ensures |r| == |routes| - 1
  {
    var lo := if startIdx < endIdx then startIdx else endIdx;
    var hi := if startIdx < endIdx then endIdx else startIdx;
    Inserted(Removed(Removed(routes, hi), lo), lo, merged)
  }

  /** The corrected merge removes exactly the two merged routes, keeps every
      other route in order, and puts the fetched route where the earlier stood. */
  lemma MergedRoutesReplacesBoth(routes: seq<Route>, startIdx: nat, endIdx: nat, merged: Route)
    requires startIdx < |routes| && endIdx < |routes| && startIdx != endIdx
    ensures var lo := if startIdx < endIdx then startIdx else endIdx;
            var hi := if startIdx < endIdx then endIdx else startIdx;
            MergedRoutes(routes, startIdx, endIdx, merged)
            == routes[..lo] + [merged] + routes[lo + 1..hi] + routes[hi + 1..]
  {
    if startIdx < endIdx {
      assert MergedRoutes(routes, startIdx, endIdx, merged)
             == Inserted(Removed(Removed(routes, endIdx), startIdx), startIdx, merged);
      ReplacedBetween(routes, startIdx, endIdx, merged);
    } else {
      assert MergedRoutes(routes, startIdx, endIdx, merged)
             == Inserted(Removed(Removed(routes, startIdx), endIdx), endIdx, merged);
      ReplacedBetween(routes, endIdx, startIdx, merged);
    }
  }

  /** Popping hi and then lo, and inserting at lo, as slices. */
  lemma ReplacedBetween(routes: seq<Route>, lo: nat, hi: nat, merged: Route)
    requires lo < hi < |routes|
    ensures Inserted(Removed(Removed(routes, hi), lo), lo, merged)
            == routes[..lo] + [merged] + routes[lo + 1..hi] + routes[hi + 1..]
  {
    RemovedTwice(routes, lo, hi);
    var twice := routes[..lo] + routes[lo + 1..hi] + routes[hi + 1..];
    InsertedAt(twice, lo, merged);
    assert twice[..lo] == routes[..lo];
    assert twice[lo..] == routes[lo + 1..hi] + routes[hi + 1..];
  }

  /** A merge whose route request yields a document with a route, and whose
      second pop finds its index, returns after both pops and the insert. */
  lemma MergeSucceeds(routes: seq<Route>, startIdx: nat, endIdx: int, getRoute: RouteOracle, merged: Route)
    requires startIdx < |routes|
    requires Position(endIdx, |routes|).Some? && Position(endIdx, |routes| - 1).Some?
    requires |routes[startIdx]| > 0 && |routes[Position(endIdx, |routes|).value]| > 0
    requires Answers(getRoute, routes, startIdx, Position(endIdx, |routes|).value, merged)
    ensures MergeEffect(routes, startIdx, endIdx, getRoute)
            == Effect(Returned, Inserted(Removed(Removed(routes, startIdx), Position(endIdx, |routes| - 1).value), endIdx, merged))
  {
  }

  /** When the route ending at the point comes before the route starting
      there, the code as written does what was intended. */
  lemma MergeEndBeforeStart(routes: seq<Route>, startIdx: nat, endIdx: nat, getRoute: RouteOracle, merged: Route)
    requires endIdx < startIdx < |routes|
    requires |routes[startIdx]| > 0 && |routes[endIdx]| > 0
    requires Answers(getRoute, routes, startIdx, endIdx, merged)
    ensures MergeEffect(routes, startIdx, endIdx, getRoute)
            == Effect(Returned, MergedRoutes(routes, startIdx, endIdx, merged))
  {
    MergeSucceeds(routes, startIdx, endIdx, getRoute, merged);
  }

  /** As written, when the route starting at the point comes first, the second
      pop lands on the shifted list: the route ending at the point stays and
      the route after it is dropped instead. */
  lemma MergeStartBeforeEnd(routes: seq<Route>, startIdx: nat, endIdx: nat, getRoute: RouteOracle, merged: Route)
    requires startIdx < endIdx < |routes| - 1
    requires |routes[startIdx]| > 0 && |routes[endIdx]| > 0
    requires Answers(getRoute, routes, startIdx, endIdx, merged)
    ensures MergeEffect(routes, startIdx, endIdx, getRoute)
            == Effect(Returned, routes[..startIdx] + routes[startIdx + 1..endIdx + 1] + [merged] + routes[endIdx + 2..])
  {
    MergeSucceeds(routes, startIdx, endIdx, getRoute, merged);
    RemovedTwice(routes, startIdx, endIdx + 1);
    var twice := routes[..startIdx] + routes[startIdx + 1..endIdx + 1] + routes[endIdx + 2..];
    InsertedAt(twice, endIdx, merged);
    assert twice[..endIdx] == routes[..startIdx] + routes[startIdx + 1..endIdx + 1];
    assert twice[endIdx..] == routes[endIdx + 2..];
  }

  /** ... and when that route is the last one, the second pop raises
      IndexError after the first pop has already removed a route. */
  lemma MergeStartBeforeLastEnd(routes: seq<Route>, startIdx: nat, getRoute: RouteOracle, merged: Route)
    requires startIdx < |routes| - 1
    requires |routes[startIdx]| > 0 && |routes[|routes| - 1]| > 0
    requires Answers(getRoute, routes, startIdx, |routes| - 1, merged)
    ensures MergeEffect(routes, startIdx, |routes| - 1, getRoute)
            == Effect(Raised(IndexError), Removed(routes, startIdx))
  {
  }

  /** A single closed route that starts and ends at the point gives
      startIdx == endIdx: the same position is popped twice, so the route after
      it goes too, and when it is the last route the second pop raises
      IndexError with the route already gone. */
  lemma MergeClosedRoute(routes: seq<Route>, idx: nat, getRoute: RouteOracle, merged: Route)
    requires idx < |routes| && |routes[idx]| > 0
    requires Answers(getRoute, routes, idx, idx, merged)
    ensures idx + 1 < |routes| ==>
              MergeEffect(routes, idx, idx, getRoute) == Effect(Returned, routes[..idx] + [merged] + routes[idx + 2..])
    ensures idx + 1 == |routes| ==>
              MergeEffect(routes, idx, idx, getRoute) == Effect(Raised(IndexError), routes[..idx])
  {
    if idx + 1 < |routes| {
      MergeSucceeds(routes, idx, idx, getRoute, merged);
      RemovedTwice(routes, idx, idx + 1);
      var twice := routes[..idx] + routes[idx + 1..idx + 1] + routes[idx + 2..];
      InsertedAt(twice, idx, merged);
      assert twice[..idx] == routes[..idx];
      assert twice[idx..] == routes[idx + 2..];
    } else {
      assert Position(idx, |routes| - 1).None?;
    }
  }

  /** When some route starts at the point but none ends there, endIdx is -1:
      the second pop takes the last route, and `insert(-1, ...)` puts the
      fetched route before the remaining last route rather than at the end. */
  lemma MergeWithoutEndMatch(routes: seq<Route>, startIdx: nat, getRoute: RouteOracle, merged: Route)
    requires startIdx < |routes| - 2
    requires |routes[startIdx]| > 0 && |routes[|routes| - 1]| > 0
    requires Answers(getRoute, routes, startIdx, |routes| - 1, merged)
    ensures MergeEffect(routes, startIdx, -1, getRoute)
            == Effect(Returned, routes[..startIdx] + routes[startIdx + 1..|routes| - 2] + [merged, routes[|routes| - 2]])
  {
    var n := |routes|;
    assert MergeEffect(routes, startIdx, -1, getRoute)
           == Effect(Returned, Inserted(Removed(Removed(routes, startIdx), n - 2), -1, merged)) by {
      assert Position(-1, n) == Some(n - 1) && Position(-1, n - 1) == Some(n - 2);
      MergeSucceeds(routes, startIdx, -1, getRoute, merged);
    }
    var twice := routes[..startIdx] + routes[startIdx + 1..n - 1];
    assert Removed(Removed(routes, startIdx), n - 2) == twice by {
      RemovedTwice(routes, startIdx, n - 1);
      assert routes[n..] == [];
    }
    assert Inserted(twice, -1, merged)
           == routes[..startIdx] + routes[startIdx + 1..n - 2] + [merged, routes[n - 2]] by {
      InsertBeforeLast(twice, merged);
      assert twice[..|twice| - 1] == routes[..startIdx] + routes[startIdx + 1..n - 2];
      assert twice[|twice| - 1] == routes[n - 2];
    }
  }

  /** endIdx == -1 when the route starting at the point is one of the last
      two: both of the last two routes are dropped, and the fetched route
      lands before the route that is now last. */
  lemma MergeWithoutEndMatchAtTail(routes: seq<Route>, startIdx: nat, getRoute: RouteOracle, merged: Route)
    requires |routes| >= 3 && |routes| - 2 <= startIdx < |routes|
    requires |routes[startIdx]| > 0 && |routes[|routes| - 1]| > 0
    requires Answers(getRoute, routes, startIdx, |routes| - 1, merged)
    ensures MergeEffect(routes, startIdx, -1, getRoute)
            == Effect(Returned, routes[..|routes| - 3] + [merged, routes[|routes| - 3]])
  {
    var n := |routes|;
    assert Position(-1, n) == Some(n - 1) && Position(-1, n - 1) == Some(n - 2);
    MergeSucceeds(routes, startIdx, -1, getRoute, merged);
    RemovedTwice(routes, n - 2, n - 1);
    var twice := routes[..n - 2];
    assert Removed(Removed(routes, startIdx), n - 2) == twice;
    InsertBeforeLast(twice, merged);
    assert twice[..|twice| - 1] == routes[..n - 3];
  }

  /** endIdx == -1 on a short list: with two routes both are popped and only
      the fetched route is left; with a single route (removing its first
      point) the first pop empties the list and the second raises IndexError,
      leaving a document without routes. */
  lemma MergeWithoutEndMatchShort(routes: seq<Route>, startIdx: nat, getRoute: RouteOracle, merged: Route)
    requires 1 <= |routes| <= 2 && startIdx < |routes|
    requires |routes[startIdx]| > 0 && |routes[|routes| - 1]| > 0
    requires Answers(getRoute, routes, startIdx, |routes| - 1, merged)
    ensures |routes| == 2 ==> MergeEffect(routes, startIdx, -1, getRoute) == Effect(Returned, [merged])
    ensures |routes| == 1 ==> MergeEffect(routes, startIdx, -1, getRoute) == Effect(Raised(IndexError), [])
  {
    if |routes| == 2 {
      MergeSucceeds(routes, startIdx, -1, getRoute, merged);
      assert Removed(Removed(routes, startIdx), 0) == [];
    } else {
      assert Position(-1, 0).None?;
    }
  }

  /** With no route starting at the point, process_point_removal pops the
      route with the highest index that ends there, or the last route when
      none does; the route service is not consulted. */
  lemma RemovalWithoutStartMatch(routes: seq<Route>, longitude: real, latitude: real, getRoute: RouteOracle)
    requires |routes| > 0 && AllNonEmpty(routes)
    requires forall i :: 0 <= i < |routes| ==> !At(routes[i][0], longitude, latitude)
    ensures var endIdx := LastMatching(routes, true, longitude, latitude);
            var k := if endIdx == -1 then |routes| - 1 else endIdx;
            RemovalEffect(routes, longitude, latitude, getRoute) == Effect(Returned, routes[..k] + routes[k + 1..])
  {
    var s := LastMatching(routes, false, longitude, latitude);
    if s != -1 {
      assert false;
    }
  }

  /** A point that matches nothing still removes a route: the last one. */
  lemma RemovalOfUnknownPoint(routes: seq<Route>, longitude: real, latitude: real, getRoute: RouteOracle)
    requires |routes| > 0 && AllNonEmpty(routes)
    requires forall i :: 0 <= i < |routes| ==> !At(routes[i][0], longitude, latitude)
    requires forall i :: 0 <= i < |routes| ==> !At(routes[i][|routes[i]| - 1], longitude, latitude)
    ensures RemovalEffect(routes, longitude, latitude, getRoute) == Effect(Returned, routes[..|routes| - 1])
  {
    RemovalWithoutStartMatch(routes, longitude, latitude, getRoute);
    var e := LastMatching(routes, true, longitude, latitude);
    if e != -1 {
      assert false;
    }
  }

  /** On a document without routes the pop of index -1 raises IndexError. */
  lemma RemovalFromEmptyList(longitude: real, latitude: real, getRoute: RouteOracle)
    ensures RemovalEffect([], longitude, latitude, getRoute) == Effect(Raised(IndexError), [])
  {
  }

  /** The highest matching index is k when route k matches and no later route does. */
  lemma LastMatchingIs(routes: seq<Route>, atEnd: bool, k: nat, longitude: real, latitude: real)
    requires AllNonEmpty(routes) && k < |routes|
    requires At(Endpoint(routes[k], atEnd), longitude, latitude)
    requires forall i :: k < i < |routes| ==> !At(Endpoint(routes[i], atEnd), longitude, latitude)
    ensures LastMatching(routes, atEnd, longitude, latitude) == k
  {
  }

  /** The intended use: route e ends at the point, route e + 1 starts there,
      and no later route starts or ends there. The two routes are replaced by
      the one fetched from the start of route e to the end of route e + 1. */
  lemma RemovalOfJunction(routes: seq<Route>, e: nat, longitude: real, latitude: real, getRoute: RouteOracle, merged: Route)
    requires e + 1 < |routes| && AllNonEmpty(routes)
    requires At(routes[e][|routes[e]| - 1], longitude, latitude)
    requires At(routes[e + 1][0], longitude, latitude)
    requires forall i :: e < i < |routes| ==> !At(routes[i][|routes[i]| - 1], longitude, latitude)
    requires forall i :: e + 1 < i < |routes| ==> !At(routes[i][0], longitude, latitude)
    requires Answers(getRoute, routes, e + 1, e, merged)
    ensures RemovalEffect(routes, longitude, latitude, getRoute)
            == Effect(Returned, routes[..e] + [merged] + routes[e + 2..])
  {
    LastMatchingIs(routes, false, e + 1, longitude, latitude);
    LastMatchingIs(routes, true, e, longitude, latitude);
    MergeEndBeforeStart(routes, e + 1, e, getRoute, merged);
    MergedRoutesReplacesBoth(routes, e + 1, e, merged);
    assert routes[e + 1..e + 1] == [];
  }

  /** The pop order made concrete: route B = [(0,0), (1,1)] ends at (1,1) and
      sits after route A = [(1,1), (2,2)], which starts there; C is unrelated.
      With a route service that answers the query from (0,0) to (2,2) with M,
      removing (1,1) keeps B and loses C, where the intended merge gives [M, C]. */
  lemma MergeDropsUnrelatedRoute(a: Route, b: Route, c: Route, m: Route, getRoute: RouteOracle)
    requires a == [Point(1.0, 1.0), Point(2.0, 2.0)]
    requires b == [Point(0.0, 0.0), Point(1.0, 1.0)]
    requires c == [Point(5.0, 5.0), Point(6.0, 6.0)]
    requires m == [Point(0.0, 0.0), Point(2.0, 2.0)]
    requires getRoute(0.0, 0.0, 2.0, 2.0) == Document([m])
    ensures RemovalEffect([a, b, c], 1.0, 1.0, getRoute) == Effect(Returned, [b, m])
    ensures MergedRoutes([a, b, c], 0, 1, m) == [m, c]
  {
    var routes := [a, b, c];
    assert RemovalEffect(routes, 1.0, 1.0, getRoute) == MergeEffect(routes, 0, 1, getRoute) by {
      LastMatchingIs(routes, false, 0, 1.0, 1.0);
      LastMatchingIs(routes, true, 1, 1.0, 1.0);
    }
    assert MergeEffect(routes, 0, 1, getRoute) == Effect(Returned, [b, m]) by {
      MergeStartBeforeEnd(routes, 0, 1, getRoute, m);
      assert routes[..0] + routes[1..2] + [m] + routes[3..] == [b, m];
    }
    assert MergedRoutes(routes, 0, 1, m) == [m, c] by {
      MergedRoutesReplacesBoth(routes, 0, 1, m);
      assert routes[..0] + [m] + routes[1..1] + routes[2..] == [m, c];
    }
  }

  /** Every name ending in ".gpx" passes the upload check. */
  lemma GpxNameAccepted(stem: string)
    ensures IsValidGpxFile(stem + ".gpx")
  {
    assert (stem + ".gpx")[|stem|..] == ".gpx";
  }

  /** The suffix test is case-sensitive and checks the last four characters only. */
  lemma OtherNamesRejected()
    ensures !IsValidGpxFile("route.GPX")
    ensures !IsValidGpxFile("gpx")
    ensures !IsValidGpxFile("route.gpx.zip")
  {
  }
}
