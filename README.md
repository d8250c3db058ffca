# Route-list reconciliation of the path-finder GPX helper

This project models, in Dafny, the part of the path-finder web application that edits a GPX
document's list of routes when a user removes a junction point. A document holds routes, and
each route is an ordered list of points. The junction point is where one route ends and the
next one starts. Removing it means:

- find the route whose first point matches the point and the route whose last point matches it
  (`find_routes_by_point`, using the fixed-tolerance test `points_match`);
- if no route starts there, drop the route that ends there (`process_point_removal`);
- otherwise ask the route service for one route from the start of the ending route to the end
  of the starting route, pop both old routes and insert the new one (`merge_routes`).

It also models the upload check `is_valid_gpx_file`.

The helper exists twice in the repository: `flaskr/helper.py` and the older `helper.py` at the
root. Their `points_match`, `find_routes_by_point`, `process_point_removal` and `merge_routes`
are the same statements line for line (`flaskr/helper.py:45-85`, `helper.py:41-78`). One model
therefore serves both copies. The table cites whichever copy's lines each member states.

Modules:

- `PyList` (`pylist.dfy`): the Python list semantics the code depends on. `s[i]` and `s.pop(i)`
  accept `-len <= i < len` and raise `IndexError` otherwise. `s.insert(i, x)` never raises: it
  counts a negative `i` from the end and clamps out-of-range positions.
- `Geo` (`geo.dfy`): points as exact `real` coordinates, routes as `seq<Point>`, and `PointsMatch`
  with the source's interleaved argument order `(long1, long2, lat1, lat2)`.
- `Helper` (`helper.dfy`): the document as a class `Gpx` whose `routes` field the methods change
  in place, the scan `FindRoutesByPoint` as a loop, and `MergeRoutes` and `ProcessPointRemoval`
  as methods. Each method is proved against a specification function (`LastMatching`,
  `MergeEffect`, `RemovalEffect`). Python exceptions are outcomes. An `Effect` records both how
  the call ended and the route list it left behind, because `merge_routes` can raise after its
  two pops have already changed the list.
- `HelperProperties` (`helper_properties.dfy`): the case analysis of removal and merging, and the
  pop-order finding below.

The route service `get_route` is an oracle parameter `getRoute(long1, lat1, long2, lat2)`. It
yields one of three results:

- `RequestRaised`: the call raised before returning. In `flaskr/helper.py`, `http_post` raises
  `ConnectionError`. In `helper.py`, `http_post` returns a tuple whose missing `.text` raises
  `AttributeError`. Either way nothing has been changed yet.
- `NotADocument`: `parse_gpx` returned its error value (a `ValueError` object in one copy, a
  tuple in the other). Looking up `.routes` on it then raises `AttributeError`, after both pops.
- `Document(routes)`: a parsed document. If it has no routes, `routes[0]` raises `IndexError`,
  also after both pops.

## Model

| member | source | states |
|---|---|---|
| `Geo.PointsMatch` | flaskr/helper.py:72-74 | true exactly when the first longitude lies within 0.00001 of the second and the first latitude within 0.00001 of the second, bounds included |
| `Geo.PointsMatchReflexive` | helper.py:66-68 | every point matches itself |
| `Geo.PointsMatchSymmetric` | flaskr/helper.py:72-74 | swapping the two points does not change the answer |
| `Geo.PointsMatchNotTransitive` | helper.py:66-68 | two points can each match a third without matching each other, so a match is not an equivalence |
| `PyList.Position` | flaskr/helper.py:51 | a subscript or pop index is accepted exactly when `-len <= i < len`; the position it addresses is `i` or `i + len` |
| `PyList.Removed` | flaskr/helper.py:83-84 | `pop` leaves one element fewer: those before the position unchanged, those after it shifted down by one |
| `PyList.InsertPosition` | flaskr/helper.py:85 | `insert` puts the element at `i` when `0 <= i <= len`, at `i + len` when `-len <= i < 0`, at the end when `i > len` and at the front when `i < -len`; never outside the list |
| `PyList.Inserted` | flaskr/helper.py:85 | `insert` lengthens the list by one, with the new element at its position and every old element kept in order around it |
| `PyList.RemovedTwice` | flaskr/helper.py:83-84 | two pops, the higher position first or the lower first (then one less on the shortened list), both leave the list without exactly those two elements |
| `PyList.InsertedAt` | flaskr/helper.py:85 | an insert at an in-range position `k` splits the list at `k` and puts the element between the halves |
| `PyList.InsertBeforeLast` | flaskr/helper.py:85 | `insert(-1, x)` on a non-empty list puts `x` just before the last element, not after it |
| `Helper.IsValidGpxFile` | flaskr/helper.py:5-7 | an accepted filename is some stem followed by `.gpx` |
| `HelperProperties.GpxNameAccepted` | flaskr/helper.py:5-7 | every stem followed by `.gpx` is accepted |
| `HelperProperties.OtherNamesRejected` | flaskr/helper.py:5-7 | the test is case-sensitive and looks only at the end: `route.GPX`, `gpx` and `route.gpx.zip` are refused |
| `Helper.LastMatching` | flaskr/helper.py:59-69 | the result is -1 or a valid index whose chosen endpoint matches, and no later route's endpoint matches: the highest matching index, or -1 when none matches |
| `Helper.FindRoutesByPoint` | flaskr/helper.py:59-69 | raises `IndexError` exactly when some route has no points; otherwise returns the highest index whose first point matches and the highest whose last point matches, each -1 when there is none |
| `HelperProperties.LastMatchingIs` | helper.py:54-63 | when route k matches and no later route does, the scan returns k even if earlier routes match too |
| `Helper.Gpx.PopRoute` | flaskr/helper.py:51 | `gpx.routes.pop(i)` returns and removes the addressed route, or raises `IndexError` and changes nothing |
| `Helper.Gpx.InsertRoute` | flaskr/helper.py:85 | `gpx.routes.insert(i, route)` leaves the list given by `Inserted` |
| `Helper.MergeEffect` | flaskr/helper.py:77-85 | a merge that returns shortens the list by exactly one; a failed route request leaves it untouched |
| `Helper.MergeRoutes` | flaskr/helper.py:77-85 | the outcome and the new route list are those of `MergeEffect` on the old list |
| `HelperProperties.MergeAsksOnlyForJunctionRoute` | helper.py:71-74 | the merge depends on the route service only through one query: from the first point of `routes[end_idx]` to the last point of `routes[start_idx]`, passed as longitude, latitude, longitude, latitude |
| `HelperProperties.MergeRaisesAfterAtMostTwoPops` | flaskr/helper.py:77-85 | whatever exception escapes, the list left behind is the old list, the old list after one pop, or the old list after two pops |
| `HelperProperties.MergeSucceeds` | helper.py:71-78 | when both indices address routes with points, the second pop finds its index and the service answers with a document holding a route, the merge returns: pop `start_idx`, pop `end_idx` on the shortened list, insert the fetched route at `end_idx` |
| `HelperProperties.MergeEndBeforeStart` | helper.py:76-78 | when `end_idx < start_idx`, the pops in the order start then end remove exactly those two routes, and the fetched route takes position `end_idx` |
| `HelperProperties.MergedRoutes` | flaskr/helper.py:83-85 | the corrected merge (higher position popped first) shortens the list by one |
| `HelperProperties.MergedRoutesReplacesBoth` | flaskr/helper.py:83-85 | the corrected merge removes exactly the two merged routes, keeps all others in order and puts the fetched route where the earlier one stood |
| `HelperProperties.MergeStartBeforeEnd` | flaskr/helper.py:83-85 | as written, when `start_idx < end_idx` the route at `end_idx` survives and the one after it is dropped |
| `HelperProperties.MergeStartBeforeLastEnd` | flaskr/helper.py:83-84 | as written, when `start_idx < end_idx` and `end_idx` is the last route, the second pop raises `IndexError` after the first pop has removed a route |
| `HelperProperties.MergeClosedRoute` | helper.py:76-78 | when one route both starts and ends at the point (`start_idx == end_idx`), it and the route after it are replaced by the fetched route; if it is the last route, `IndexError` is raised with that route already removed |
| `HelperProperties.MergeWithoutEndMatch` | flaskr/helper.py:79-85 | with `end_idx == -1` and `start_idx < len - 2` (so at least three routes), the origin is the last route's first point, the last route is dropped, and the fetched route lands before the remaining last route |
| `HelperProperties.MergeWithoutEndMatchAtTail` | flaskr/helper.py:83-85 | with `end_idx == -1`, at least three routes and `start_idx` one of the last two positions, both of the last two routes are dropped and the fetched route lands before the route that is now last |
| `HelperProperties.MergeWithoutEndMatchShort` | helper.py:76-78 | with `end_idx == -1` and two routes only the fetched route is left; with a single route the first pop empties the list and the second raises `IndexError`, leaving a document without routes |
| `Helper.RemovalEffect` | flaskr/helper.py:45-56 | a removal that returns needs a non-empty document whose routes all have points, and shortens the list by exactly one; a failed route request leaves the list untouched |
| `Helper.ProcessPointRemoval` | flaskr/helper.py:45-56 | returns the very document it was given; its outcome and new route list are those of `RemovalEffect` on the old list |
| `HelperProperties.RemovalWithoutStartMatch` | helper.py:44-46 | with no route starting at the point, exactly one route is removed: the highest-indexed one ending there, or the last route when none does; the route service plays no part |
| `HelperProperties.RemovalOfUnknownPoint` | flaskr/helper.py:49-51 | a point that matches no endpoint still removes the last route |
| `HelperProperties.RemovalFromEmptyList` | helper.py:44-46 | on a document without routes, `pop(-1)` raises `IndexError` and nothing changes |
| `HelperProperties.RemovalOfJunction` | helper.py:41-51 | when route e ends at the point, route e+1 starts there and no later route starts or ends there, both are replaced at position e by the route fetched from the start of route e to the end of route e+1 |
| `HelperProperties.MergeDropsUnrelatedRoute` | flaskr/helper.py:83-85 | for routes `[A, B, C]`, where A starts at the point and B ends there, and a route service answering the junction query with M, the code leaves `[B, M]`; the corrected merge leaves `[M, C]` |

## Findings

| source | as written | input that shows it | evidently intended | confidence | as-written member | corrected member |
|---|---|---|---|---|---|---|
| flaskr/helper.py:83-85 (same in helper.py:76-78) | `pop(start_idx)` and then `pop(end_idx)` on the already shortened list | routes `[A, B, C]` with `A = [(1,1), (2,2)]` starting at `(1,1)` and `B = [(0,0), (1,1)]` ending there; removing `(1,1)` leaves `[B, M]` | both merged routes leave the list: `[M, C]` | not executed; medium (the list order is only meaningful when the route ending at the point precedes the one starting there, where both agree) | `HelperProperties.MergeDropsUnrelatedRoute` | `HelperProperties.MergedRoutes` |

The `Helper` methods keep the code's pop order. `MergedRoutes` is the corrected definition, and
`MergedRoutesReplacesBoth` proves its intended property. `MergeEndBeforeStart` shows that the
code and the correction agree whenever `end_idx < start_idx`.

## Left out

- Request handlers in `flaskr/app.py` and `app.py` are not modelled: HTTP routing, form parsing, redirects and templates.
- Persistence in `flaskr/service.py`, `service.py`, `flaskr/db.py` and the two `models.py` is not modelled: these are thin wrappers around the relational mapper.
- `get_route` and `http_post` are not modelled beyond the oracle described above. They make network calls to the directions service.
- Helper.MergeRoutes: the route service is a pure function of its four coordinates. Network nondeterminism, and whether the same query can get different answers, is not captured.
- `parse_gpx` is not modelled. It delegates to the gpxpy library, and its error value appears only as `NotADocument`.
- The GPX document is reduced to its list of routes. Tracks, waypoints and metadata are untouched by the modelled code.
- Routes are values. The aliasing of the inserted route object with the fetched document is not modelled.
- Helper.IsValidGpxFile: takes the upload's filename string. An upload object without a filename (where `.endswith` itself would fail) is not modelled.
- `flaskr/static/view_gpx.js` (map UI, geolocation, reverse geocoding) is not modelled.
- The point-editor operations imported by `flaskr/app.py` (insert-nearest, append, move, set start, set end, profile update) are not modelled. Their definitions are not part of this model.
- Coordinates are exact reals and the tolerance comparison is exact. IEEE floating-point rounding is not modelled.
