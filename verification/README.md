# Truck route optimiser: the routing core in Dafny

The system is a single Streamlit script (`route.py`) that plans one delivery
route from a fixed warehouse through uploaded customer stops. This project
models the routing logic embedded in it and proves what that logic promises:

- `solver.dfy` (module `Solver`): the nearest-neighbour solver
  `solve_tsp_nearest_neighbor`, written as a method with a `visited` array,
  an `order` sequence and the nested scan. It is proved against a
  declarative specification. A complete run starts at index 0. Each later
  index is an unvisited location with the least cost from the previous one.
  On a tie the lowest index wins, because the scan only replaces its
  candidate on a strict `<`. The running minimum that starts at
  `float('inf')` is an `Option` that starts at `None`. Costs are whole
  seconds (`nat`).
- `plan.dfy` (module `Plan`): one optimisation run. The warehouse is put in
  front of the stops, the order is solved, and the order is mapped back to
  the stop records. It comes in two forms. One takes the cost matrix as an
  input. The other is the run as the script performs it, on the all-zero
  matrix it builds.
- `directions.dfy` (module `Directions`): stop records, the warehouse, and
  `get_road_route`. The provider's reply is an input: a decoded route, a
  non-OK status or a failed request. The module also holds the
  green/yellow/red colour of a traffic duration.
- `viewer.dfy` (module `Viewer`): the route viewer. It holds the full route
  as consecutive segments, the lookup of one segment by stop name (first
  match, then "segment", "last stop" or "not found"), the selection box,
  and the dispatch between the two views.
- `wrappers.dfy` (module `Wrappers`): `Option` and `Result`.

Three behaviours of the code are stated as they are, rather than as a
route optimiser would be expected to behave:

- The cost matrix is never filled from directions queries. The script
  solves on `np.zeros` (route.py:128-135). `Plan.OptimizeAsWritten` proves
  the consequence: the "optimised" route is the warehouse followed by the
  stops in upload order. `Plan.Optimize` is the same run over a matrix
  supplied by the caller.
- Ties between equal costs go to the lowest index, because the scan only
  replaces its candidate on a strict `<`.
- A warehouse-only point set is not refused: the code returns `[0]` for a
  one-row matrix, and only the button guard at route.py:121 keeps that case
  away. An empty matrix makes the code raise at `visited[0]`, and the model
  returns `Failure(NoLocations)` for it.

## Model

| member | source | states |
|---|---|---|
| `Solver.SolveNearestNeighbor` | route.py:101-119 | fails exactly on an empty matrix; otherwise returns a full nearest-neighbour route: length = number of rows, first entry 0, each later entry an unvisited index of least cost from the previous one, the lowest such index on ties |
| `Solver.NearestNeighborRouteIsPermutation` | route.py:102-116 | a nearest-neighbour route has one entry per row, starts at 0, repeats no index and contains every index below the row count |
| `Solver.NearestPickIsUnique` | route.py:109-114 | two scans after the same visited prefix settle on the same index |
| `Solver.NearestPickExists` | route.py:109-114 | while some index is unvisited, a scan after the visited prefix settles on some index (together with the row above: exactly one) |
| `Solver.NearestNeighborRouteIsUnique` | route.py:108-117 | a matrix has exactly one nearest-neighbour route, so the solver is deterministic |
| `Solver.ZeroMatrixRouteIsIdentity` | route.py:109-117 | on the all-zero n-by-n matrix the route is 0, 1, ..., n-1 |
| `Plan.OrderedRouteVisitsEveryPoint` | route.py:131-138 | mapping a solved order through `[warehouse] + locations` gives a route as long as the point list, whose k-th entry is the point at the k-th index of the order, whose first entry is the warehouse, and which contains every uploaded stop |
| `Plan.Optimize` | route.py:124-138 | given a square matrix over warehouse + stops, returns the nearest-neighbour order and the stop records in that order, starting at the warehouse |
| `Plan.OptimizeAsWritten` | route.py:128-135 | solving on the zero matrix the script builds returns exactly the warehouse followed by the stops in upload order |
| `Plan.ScenarioRoute` | route.py:101-119 | with Depot->A 500 s, Depot->B 1000 s, A->B 200 s, B->A 300 s the route is Depot, A, B |
| `Plan.ScenarioLegsAreGreen` | route.py:177-182 | drawing the scenario's route Warehouse, A, B with the full-route loop, when the provider answers with 500 s and 200 s: two legs, Warehouse to A and A to B, carrying those durations and both drawn green |
| `Directions.RoutedQuoteIsProviderResult` | route.py:89-92 | an OK reply yields the provider's decoded path and its traffic duration unchanged |
| `Directions.FailedQuoteIsStraightLine` | route.py:93-98 | a non-OK status or a failed request yields exactly the two points [start, end] and duration 0, which draws green |
| `Directions.LineColorBands` | route.py:182 | green iff duration < 600, yellow iff 600 <= duration < 1800, red iff duration >= 1800 |
| `Directions.LineColorBoundaries` | route.py:200 | 599, 600, 1799 and 1800 seconds draw green, yellow, yellow and red |
| `Directions.LineColorIsMonotone` | route.py:182 | a longer duration never draws a milder colour |
| `Viewer.FullRoute` | route.py:177-182 | yields one segment per adjacent pair of the route, none for an empty route; segment k joins stop k to stop k + 1 and carries the k-th query's quote and that quote's colour |
| `Viewer.SegmentsRebuildRoute` | route.py:177-179 | for a route of two or more stops, the first segment's origin followed by every segment's destination is the route again |
| `Viewer.SegmentFrom` | route.py:187-208 | a segment is shown iff some stop before the last has the name; it then starts at the first stop so named and ends at its successor; "last stop" iff the first match is the final stop (or, as the index comparison is written, the route is empty); "not found" iff no stop of a non-empty route has the name |
| `Viewer.OfferedNameHasSegment` | route.py:147 | every stop name the selection box offers belongs to a stop that has a successor |
| `Viewer.Display` | route.py:175-208 | "Show Full Route" gives the whole route and nothing else does, leg k joining stop k to stop k + 1 with the k-th query's quote and colour; any other option gives exactly what the single-segment branch gives for that name; a stop name taken from the selection box always gives that stop's segment, never "last stop" or "not found" |

## Left out

- Streamlit page set-up, widgets, session state and map rendering (markers, polylines, the `isinstance` shape checks): presentation only. The run result is passed explicitly between the modelled members.
- Spreadsheet and Google-Sheets loading and column splitting: stops arrive as parsed `Point` records.
- The HTTP request, `raise_for_status`, JSON field extraction and `polyline.decode`: network I/O and a foreign library. The reply is an input, with its path already decoded. A status-OK response that lacks the expected fields would raise in the script; the model has no such reply. The `st.error` warning shown with each fallback (route.py:94, 97) is not modelled either, so a fallback quote cannot be told apart from a real zero-second route by its `Quote` alone; the `Reply` it came from says which it was.
- Floating point: coordinates are `real` values that are only carried along; costs and durations are whole seconds, so infinite or negative costs cannot occur.
- `Solver.SolveNearestNeighbor`: requires a square matrix, which `np.zeros` guarantees. A matrix with a row shorter than the row count, when the scan reaches that row, would make the script raise; that error is not modelled.
- The `sales` value is carried in `Point` but never read, as in the script.
- The text of the "last stop" message is not modelled. As written, that line names an undefined variable and would raise. `Viewer.Display` shows that a name from the selection box never reaches that branch.
- A stop literally named "Show Full Route" cannot have its segment selected, because the script compares the option text. `Viewer.Display` has the same behaviour.
- The order in which the script issues directions queries during the full-route loop is represented only by the index passed to `replies`.
