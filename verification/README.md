# sabor-express route optimization, modelled in Dafny

This project models the route-optimization core of sabor-express. The core
plans delivery routes over geographic points. It has the following parts:

- **Backend optimizer** (`src/backend/optimizer.py`). It splits the points into
  zones with KMeans. For each zone it builds an open travelling-salesperson path:
  a haversine distance matrix, a nearest-neighbour tour from a chosen start, then
  first-improvement 2-opt. It reports each zone's length and ETA at 25 km/h, plus
  the totals.
- **API path search** (`api/optimizer.py`). A best-first search over adjacency
  lists with a Manhattan heuristic and a binary heap. It reads the path back from
  `came_from`.
- **Stop routing over a road graph** (`src/routing.py`, `src/route.py`,
  `src/otimiza_rota.py`). Stops are put in nearest-neighbour order by
  shortest-path length. A* legs are then stitched between consecutive stops into
  one path and one cost. `route_summary` reports minutes, kilometres and
  per-leg rows.
- **CSV road graph** (`src/utils.py`). It builds the edge attributes (length,
  minutes, weight) from the places and edges files, and adds an attribute up
  along a path.
- **Input-order route** (`optimizer.py`, `optimize_routes`). The points are kept
  in the order given. The road coordinates of every leg that has a path are
  concatenated.

One Dafny module per component:

| module | file | models |
|---|---|---|
| `Common` | common.dfy | sums, `Option`/`Result`, costs that may be infinite, the assumptions on a geodesic distance |
| `Clustering` | clustering.dfy | the choice of `k` and the grouping of points by KMeans label |
| `Tsp` | tsp.dfy | `distance_matrix`, nearest neighbour, 2-opt, `tsp_route` |
| `Backend` | backend.dfy | `estimate_eta_km`, `optimize` |
| `BestFirst` | best_first.dfy | `heuristic`, `shortest_path` |
| `StopOrder` | stop_order.dfy | the two nearest-neighbour stop orderings: over a list, and over a set |
| `Stitching` | stitching.dfy | `route_with_stops` and `rota_com_paradas` |
| `InputOrder` | input_order.dfy | `optimize_routes` |
| `Heuristics` | heuristics.dfy | the A* heuristics `_heuristica`, `h_func`, `_heuristica_factory` |
| `RoadGraph` | road_graph.dfy | `construir_grafo` and `imprimir_resumo_rota` |
| `RouteSummary` | route_summary.dfy | `route_summary`, as written and as intended |

The following code is outside Dafny and appears only as function-typed
parameters, each under stated assumptions:

- **Distances.** The geodesic distances (haversine, great circle) are
  parameters. They are assumed non-negative, symmetric and zero on equal
  points.
- **Road-graph library.**
  - `nx.shortest_path_length` is a `Cost` oracle; `Infinite` stands for
    `NetworkXNoPath`.
  - `nx.astar_path` together with `nx.path_weight` is a leg oracle. It returns a
    path and its weight, or nothing.
  - `get_route_edge_attributes` and `G[u][v]` are oracles as well.
- **KMeans** is a label oracle.
- **Set order.** The order in which Python iterates a set is an oracle that
  lists each element once.

Floats are `real`. Python exceptions become `Result` errors.

## Model

| member | source | states |
|---|---|---|
| Clustering.ClampK | src/backend/optimizer.py:18-19 | a requested `k` in `1..n` is kept; any other `k` becomes the integer square root `r` of `n` (`r*r <= n < (r+1)*(r+1)`), so for `n >= 1` the result always lies in `1..n` |
| Clustering.AddToClusterLabels | src/backend/optimizer.py:25 | `setdefault(label, []).append(p)` adds the label to the set of cluster labels and nothing else |
| Clustering.AddToClusterDistinct | src/backend/optimizer.py:25 | appending a point never creates a second cluster for a label |
| Clustering.AddToClusterMembers | src/backend/optimizer.py:25 | appending adds exactly the point to the multiset of all cluster members |
| Clustering.AddToClusterSelect | src/backend/optimizer.py:25 | appending keeps every cluster equal to the points carrying its label, in input order |
| Clustering.GroupByLabelPartitions | src/backend/optimizer.py:23-25 | the clusters have distinct labels and these are exactly the labels used, listed in the order in which they first appear among the labels (the dictionary keeps insertion order); each cluster holds exactly the points with its label, in input order; together they hold every point exactly once |
| Clustering.AddToClusterKeepsMembers | src/backend/optimizer.py:24-25 | one `setdefault(...).append(p)` adds exactly the point `p` to the points held by all clusters |
| Clustering.AddToClusterKeepsOrder | src/backend/optimizer.py:24-25 | one more `setdefault(...).append(p)` keeps the clusters in order of first appearance of their labels |
| Clustering.GroupByLabelOrder | src/backend/optimizer.py:23-25 | the clusters come in the order in which their labels first appear: wherever a later cluster's label occurs, every earlier cluster's label has occurred before it, as `setdefault` on an insertion-ordered dictionary gives |
| Clustering.ClusterCount | src/backend/optimizer.py:23-26 | there are exactly as many clusters as distinct labels |
| Tsp.DistanceMatrix | src/backend/optimizer.py:29-36 | an `n`×`n` matrix with zero diagonal, symmetric, non-negative for a non-negative distance, and with entry `[i][j]` equal to the distance between points `i` and `j` for a symmetric distance that is zero on equal points |
| Tsp.PathLenNonNegative | src/backend/optimizer.py:57-58 | `total_len` of any route over a non-negative matrix is non-negative |
| Tsp.ClosestUnvisited | src/backend/optimizer.py:51 | `min(unvisited, key=...)` returns an unvisited index no farther from `last` than any other unvisited index |
| Tsp.NearestNeighbourLoopStep | src/backend/optimizer.py:49-53 | one iteration keeps the route distinct and in range, keeps `unvisited` equal to the indices not yet on the route, and keeps every step a nearest-neighbour step |
| Tsp.CoveringIsPermutation | src/backend/optimizer.py:49 | a distinct route that leaves no index unvisited lists every index exactly once |
| Tsp.NearestNeighbour | src/backend/optimizer.py:46-53 | a permutation of all indices that starts at `start_idx`; each step goes to an index at least as close as every index not yet visited |
| Tsp.TwoOptMove | src/backend/optimizer.py:64 | positions outside `i..j` keep their index; position `k` inside receives the index from `i + j - k` |
| Tsp.TwoOptMoveKeepsPermutation | src/backend/optimizer.py:64 | a reversal maps a permutation to a permutation |
| Tsp.FirstImprovingPartner | src/backend/optimizer.py:63-70 | the first `j` for which the reversal of `i..j` beats the current length by more than 1e-9, with no improving `j` before it; or none exists |
| Tsp.FirstImprovingMove | src/backend/optimizer.py:60-72 | no move found means no pair `1 <= i < j <= n-2` improves (a 2-opt local optimum); otherwise the move found improves, and no pair earlier in scan order does |
| Tsp.TwoOpt | src/backend/optimizer.py:56-74 | the result is a permutation with the same first and last index, no longer than the start route, a 2-opt local optimum, unchanged for `n <= 3`, and the reported length is its `total_len` |
| Tsp.TspRoute | src/backend/optimizer.py:39-74 | at most one point gives `range(n)` and 0.0; otherwise a permutation starting at `start_idx`, a local optimum, no longer than a nearest-neighbour tour with the same last index, and with its own length reported |
| Backend.EstimateEta | src/backend/optimizer.py:76-78 | minutes such that `eta * speed == km * 60` when the speed is at least 1e-6, and `eta * 1e-6 == km * 60` otherwise; non-negative for a non-negative distance |
| Backend.EstimateEtaAdditive | src/backend/optimizer.py:76-78 | the ETA of a sum of distances is the sum of their ETAs |
| Backend.EstimateEtaMonotone | src/backend/optimizer.py:76-78 | a longer distance never gets a shorter ETA |
| Backend.PickPermutation | src/backend/optimizer.py:88-89 | `Pick`, the comprehension `[pts[i] for i in order_idx]`, read through a permutation of the indices gives the same multiset of points |
| Backend.PathLenOfPick | src/backend/optimizer.py:57-58 | the matrix length of an index route equals the geodesic length of the points it picks, taken in order |
| Backend.SouthWestIndex | src/backend/optimizer.py:86-87 | the intended start of a zone: a valid index such that no point of the zone is south-west of it in `(lat, lon)` tuple order, and every earlier point is north-east of it (ties go to the first) |
| Backend.StartIndexAsWritten | src/backend/optimizer.py:87 | `start_idx` as written: the first position of the least value in the flattened `n` by 2 array of coordinates (`FlatCoordinates`, `ArgMin`), a number below `2n` that is no larger than any latitude or longitude of the zone |
| Backend.AsWrittenStartOutOfRange | src/backend/optimizer.py:47-48 | two points (-23.5, -46.6) and (-23.6, -46.7): `start_idx` is 3, past the last point, so `unvisited.remove(3)` raises; the south-west point is point 1 |
| Backend.AsWrittenStartWrongPoint | src/backend/optimizer.py:86-88 | three points whose westernmost is point 0: `start_idx` is 1, a valid index but not the south-west point 0 |
| Backend.ClusterTour | src/backend/optimizer.py:88 | the tour of a zone is a permutation of its indices starting at the start index (for two or more points), with its matrix length; it is a heuristic tour (`IsHeuristicTour`): no 2-opt move shortens it, and it is no longer than the nearest-neighbour tour from the same start |
| Backend.ClusterRouteOfTour | src/backend/optimizer.py:88-97 | a zone entry built from a heuristic tour holds the zone's points reordered, their ids in the same order (`Ids`, the `order` list of line 94, applied to the picked points), the tour's start first, the geodesic length of the path, and the ETA of that length |
| Backend.RouteCluster | src/backend/optimizer.py:86-97 | one zone's entry: the zone's points along a tour that no 2-opt move shortens and that is no longer than its nearest-neighbour start, as a multiset equal to the zone's members, starting (with two or more points) at the south-west point `SouthWestIndex` picks; their ids; the length of the path through them; and the ETA at 25 km/h |
| Backend.TotalEtaOfTotalKm | src/backend/optimizer.py:99-100 | summing per-zone ETAs at the default speed gives the ETA of the total length |
| Backend.RouteGroupsStep | src/backend/optimizer.py:92-100 | one iteration appends the entry for the next zone and adds its length and ETA to the totals |
| Backend.RouteGroups | src/backend/optimizer.py:85-100 | entry `i` routes zone `i`, and the totals are the sums of the entries' lengths and ETAs |
| Backend.OptimizeSummary | src/backend/optimizer.py:82-100 | one entry per distinct label, zones distinct and equal to the labels used, in the order in which the labels first appear; each entry routes exactly the points carrying its label; the total ETA is the ETA of the total length |
| Backend.Optimize | src/backend/optimizer.py:80-104 | with each zone started at its south-west point as line 86 intends, fails exactly on an empty point list (as written, line 87 can also make line 48 raise `KeyError`; see "## Findings"); otherwise as `OptimizeSummary`, each zone's points following a 2-opt-optimal tour no longer than its nearest-neighbour start, with `total_km` and `total_eta_min` being the sums over the entries |
| BestFirst.Heuristic | api/optimizer.py:3-4 | the Manhattan distance is non-negative and zero exactly between equal coordinate pairs |
| BestFirst.MinIndex | api/optimizer.py:12 | `heappop` removes an entry that is least in Python's tuple order (priority, then coordinates) |
| BestFirst.Expand | api/optimizer.py:26-30 | the heap keeps its old entries and gains only unvisited neighbours of the node; every neighbour ends up visited or on the heap; `came_from` changes only for pushed neighbours, which get the node as parent |
| BestFirst.PopVisited | api/optimizer.py:12-15 | discarding an entry whose node is already visited keeps the search invariant |
| BestFirst.VisitTree | api/optimizer.py:16 | marking the popped node visited keeps the parent tree: every parent visited earlier, with an edge to its child |
| BestFirst.ExpandedFrontier | api/optimizer.py:16-30 | after visiting a node and pushing its unvisited neighbours, every edge out of a visited node still leads to a visited or queued node |
| BestFirst.VisitExpand | api/optimizer.py:16-30 | visiting and expanding a node that is not the goal keeps the search invariant |
| BestFirst.ExhaustedUnreachable | api/optimizer.py:11-32 | when the heap runs empty, no walk leads from the start to the goal |
| BestFirst.TraceBack | api/optimizer.py:19-23 | following `came_from` from the goal reaches the start; each node is visited after the next one in the list, and an edge leads from that next node to it |
| BestFirst.ReversedChain | api/optimizer.py:24 | reversing that list gives a walk without repeated nodes |
| BestFirst.Reconstruct | api/optimizer.py:18-24 | the path read back is a walk without repeats from the start to the goal, and `[start]` when they are equal |
| BestFirst.Visit | api/optimizer.py:16-30 | one visit of a popped node that is not the goal keeps the search invariant |
| BestFirst.Search | api/optimizer.py:6-32 | on reaching the goal, the recorded parents form a tree over the visited nodes that contains the goal; otherwise the goal is unreachable and differs from the start |
| BestFirst.ShortestPath | api/optimizer.py:6-32 | the result is empty exactly when no walk leads from the start to the goal; otherwise it is a walk without repeats from the start to the goal, and `[start]` when they are equal |
| StopOrder.Nearest | src/routing.py:47-54 | `melhor` after the scan: `None` exactly when every stop is unreachable; otherwise a stop of least finite cost, the first one on ties |
| StopOrder.RemoveFirst | src/routing.py:56 | `list.remove` drops the first occurrence of the stop (`FirstIndex`) and keeps every other entry in its order, so exactly one occurrence leaves the multiset |
| StopOrder.OrderStops | src/routing.py:43-58 | the same function as `src/route.py:48-63`: the ordering is a permutation of the stops (as a multiset); or it gets stuck at a node from which every remaining stop is unreachable |
| StopOrder.OrderStopsGreedy | src/routing.py:46-57 | each stop of a successful ordering is finitely reachable from the previous one and no farther than any stop still remaining |
| StopOrder.GreedyCons | src/routing.py:46-57 | taking the nearest stop first, then nearest-neighbour steps over the rest, gives nearest-neighbour steps throughout |
| StopOrder.FirstOnTiesCons | src/routing.py:46-57 | taking the earliest of the nearest stops first, then ordering the rest with the same tie rule, keeps the rule at every step |
| StopOrder.OrderStopsFirstOnTies | src/routing.py:46-57 | at every step of a successful ordering, the stop taken is still in `restantes`, which keeps the stops' original order less those already taken; every stop listed before its first occurrence is strictly farther (the strict `c < best` of line 53), so ties go to the earliest remaining stop |
| StopOrder.OrderStopsSucceeds | src/routing.py:49-54 | with every cost finite, the ordering succeeds |
| StopOrder.OrderStopsSet | src/otimiza_rota.py:29-44 | the set-based ordering lists every stop of the set exactly once; or it gets stuck at a node from which every remaining stop is unreachable |
| StopOrder.OrderStopsSetGreedy | src/otimiza_rota.py:32-43 | each chosen stop is finitely reachable from the previous one and no farther than any stop still in the set |
| StopOrder.OrderDistinctStops | src/otimiza_rota.py:30 | `set(paradas)` collapses duplicates: the ordering lists each distinct stop once, and has all the stops when they were distinct |
| Stitching.StitchAlongLegs | src/routing.py:64-70 | the loop succeeds exactly when every consecutive pair has a leg; the path is then the first leg followed by every later leg without its first node, and the cost is the sum of the leg weights |
| Stitching.StitchJoined | src/routing.py:67-69 | stitching segments that meet end to start keeps the first node of the first segment and the last of the last, and a chain of edges stays a chain |
| Stitching.ChainAppend | src/routing.py:67-69 | appending a chain without its first node to a chain ending at that node gives a chain |
| Stitching.LegPathAt | src/routing.py:65-66 | the leg path of pair `i` is non-empty and runs from `vs[i]` to `vs[i + 1]` |
| Stitching.LegPathsJoined | src/routing.py:65-66 | legs that run from their first node to their second meet end to start along the visiting sequence |
| Stitching.VisitingSequence | src/routing.py:61-63 | the visiting sequence is origin, stops, destination; the stops are reordered (same multiset) only when reordering is asked for and there are stops; it fails only when that ordering gets stuck |
| Stitching.StitchedLegs | src/routing.py:65-69 | stitching the legs along a sequence gives a path from its first node to its last, along the legs' edges |
| Stitching.RouteWithStopsSpec | src/routing.py:60-71 | a successful route runs from the origin to the destination along the legs' edges, and its cost is the sum of the leg weights; a missing-path error means some consecutive pair has no leg |
| Stitching.StitchAlongEnds | src/route.py:70-75 | a successful stitch runs from the first node of the sequence to the last |
| Stitching.RotaComParadas | src/otimiza_rota.py:46-58 | a successful result's path starts at the origin |
| Stitching.RotaComParadasEnds | src/otimiza_rota.py:50-57 | a successful result's path runs from the origin to the destination |
| Stitching.RotaComParadasAgrees | src/otimiza_rota.py:50-57 | without reordering, `rota_com_paradas` returns exactly the path and cost of `route_with_stops` for the same stops, given the same leg oracle (the two programs run A* with different heuristics on different graphs), and fails exactly when it does |
| Stitching.FollowTargetsIsStitch | src/otimiza_rota.py:52-57 | starting from `[origin]` and appending each segment without its first node gives the stitched path of `[origin] + targets`, with the same cost |
| Stitching.FollowTargetsLegs | src/otimiza_rota.py:52-57 | the loop succeeds exactly when every leg along `[origin] + targets` exists; its cost is then the sum of the leg weights |
| InputOrder.OptimizeRoutes | optimizer.py:5-33 | the points come back unchanged, in input order; fewer than two points give no coordinates |
| InputOrder.OptimizeRoutesConcatenates | optimizer.py:19-31 | the coordinates are the concatenation, in point order, of every leg that has a path (`LegOptions` asks for one leg per consecutive pair of points, between those two points); legs without one are skipped |
| InputOrder.FoundAll | optimizer.py:23-28 | when every leg has a path, there is one segment per consecutive pair, in order, each that leg's coordinates |
| InputOrder.FlattenKeepsJunctions | optimizer.py:25-26 | with `k` non-empty legs the concatenation is `k - 1` entries longer than the stitched path, since every junction node appears twice |
| Heuristics.RoadHeuristic | src/routing.py:26-35 | for `"length"` the great-circle distance; for other weights the seconds at 13.9 m/s; between 0 and the distance, and 0 when the distance is 0 |
| Heuristics.RoadHeuristicConsistent | src/route.py:38-42 | for a distance with the triangle inequality, the estimate never drops by more than an edge's weight, as long as the edge is no shorter than the straight line (length) or not travelled faster than 13.9 m/s (time) |
| Heuristics.FactoryHeuristic | src/otimiza_rota.py:12-21 | 0 when a coordinate is missing; otherwise the haversine kilometres, or minutes at 40 km/h for `"tempo_min"`; non-negative for a non-negative distance |
| Heuristics.FactoryHeuristicConsistent | src/otimiza_rota.py:13-20 | for a distance with the triangle inequality, the estimate never drops by more than an edge's weight, as long as the edge is no shorter than the straight line (km) or not travelled faster than 40 km/h (minutes) |
| RoadGraph.Places | src/utils.py:29-35 | the graph has a coordinate for exactly the ids of the places file |
| RoadGraph.PlacesLastRowWins | src/utils.py:29-35 | a place's coordinates come from the last row with its id |
| RoadGraph.EdgeOf | src/utils.py:39-51 | keeps `via`; uses a non-zero `dist_km` as given, and otherwise the haversine distance between the ends; `tempo_min * speed == dist * 60`, the speed being the row's or else the caller's `velocidade_padrao_kmh`; the weight is the minutes or the km; fails exactly on a zero speed, or on a missing coordinate when the fallback is needed |
| RoadGraph.Edges | src/utils.py:38-51 | the graph has an edge for exactly the unordered pairs of ends named by the rows |
| RoadGraph.EdgesFailOnFirstBadRow | src/utils.py:38-46 | the construction fails exactly when some row fails, and then with the error of the first such row |
| RoadGraph.EdgesLastRowWins | src/utils.py:48-51 | an edge carries the attributes of the last row between its ends, in either direction |
| RoadGraph.EdgeBetweenSymmetric | src/utils.py:27 | the graph is undirected: the edge from `u` to `v` is the edge from `v` to `u` |
| RoadGraph.SlowerTakesLonger | src/utils.py:42-46 | an edge timed at a speed no higher than the cap takes at least the minutes the same length takes at the cap |
| RoadGraph.FallbackEdgeKeepsHeuristicConsistent | src/utils.py:42-46 | an edge whose length came from the haversine fallback, at no more than 40 km/h, takes at least the minutes the CSV heuristic estimates for it |
| RoadGraph.RouteTotalIsSum | src/utils.py:58-71 | the total succeeds exactly when every step has the attribute (and named ends), and is then the sum of the step costs |
| RoadGraph.RouteTotalAdditive | src/utils.py:62-66 | the total of two paths joined at a node is the sum of their totals |
| RouteSummary.RouteAttributes | src/routing.py:75-76 | one attribute value per consecutive pair, read from the edge between them; an error names a pair lacking it |
| RouteSummary.Legs | src/routing.py:80-91 | one row per consecutive pair, each the leg rule applied to that pair's edge view |
| RouteSummary.Summarize | src/routing.py:73-92 | minutes are the sum of the travel times over 60, km the sum of the lengths over 1000, and there is one leg row per pair; its leg rows are exactly those `Legs` builds from the same path and leg oracle |
| RouteSummary.CorrectedLegsAddUp | src/routing.py:77-91 | with the intended leg rule (`IntendedLeg`: edge 0 of a multigraph, or the edge of a simple graph, its length in km and time in minutes) and the chosen edge being edge 0, the leg rows add up to the totals |
| RouteSummary.AsWrittenLegsAreZero | src/routing.py:83-85 | as written (`Leg`: `.get` on a multigraph's edge view, keyed by edge keys, finds neither attribute; on a simple graph `[0]` fails), every leg row of a successful summary reads 0 km and 0 minutes |
| RouteSummary.AsWrittenLegsMissTheTotals | src/routing.py:73-92 | a one-edge multigraph path of 1000 m and 60 s: totals 1 km and 1 minute; the leg as written reads 0 and 0; the intended leg reads 1 km and 1 minute |

## Left out

- Trigonometry: `_haversine_km`, `haversine_km` and `great_circle_vec` are distance parameters. Only the properties stated by `IsGeoDistance`, and the triangle inequality where a lemma requires it, are assumed.
- Floating point: all arithmetic is on exact reals. NaN values, rounding error, and the termination of 2-opt under round-off are not modelled. The final `round(...)` calls in `optimize` and `route_summary` are also left out, because they only format the output.
- KMeans fitting (`model.fit_predict`) is a label oracle. Its error on an empty list is the `NoPoints` error.
- Backend.RouteCluster: the zone is started at the south-west point (`SouthWestIndex`), as the comment at src/backend/optimizer.py:86 intends, not at the flattened `np.argmin` of line 87. That index can lie past the last point, and then `unvisited.remove` at line 48 raises `KeyError`. Smaller values pick a point other than the south-west one. `StartIndexAsWritten` and the two counterexample lemmas in "## Findings" model it.
- BestFirst.ShortestPath: returns a walk, but no shortest-walk claim is made. The priority adds the heuristic to the accumulated cost (`cost` already contains earlier heuristics). `came_from` is overwritten by later pushes. Neither permits an optimality guarantee.
- BestFirst: `graph.get(str(node), [])` is modelled as the adjacency list of the node itself. The string conversion of keys is outside the model, and so is the conversion `tuple(neighbor)`: the model tests membership in `visited` on the same node it pushes, while api/optimizer.py:27-30 tests the raw neighbour, which raises `TypeError` when the neighbours come from JSON as lists.
- StopOrder.OrderStops: when every remaining stop is unreachable, the code appends `None` and `list.remove(None)` raises `ValueError` (the set version raises `KeyError`). The model returns the `Stuck` error there and does not model the appended `None`.
- Stitching: `nx.astar_path` and `nx.path_weight` are one leg oracle. The A* search inside the road-graph library, and whether its result is a shortest path, are not modelled. A `NetworkXNoPath` error is the `NoPath` error.
- RoadGraph.StepCost: the non-numeric `via` attribute raises `TypeError` in `total += custo`. It is folded into `NoAttribute`. The printing of names is modelled only through the error when a node has no `name`.
- RoadGraph.EdgeOf: a missing `velocidade_kmh` column is `None`, and the speed is then the `defaultSpeedKmh` parameter (35 km/h when the caller omits it). A present but empty cell (NaN in pandas) is not modelled.
- RouteSummary: `get_route_edge_attributes` picks among parallel edges itself; its choice is the `attr` oracle. `CorrectedLegsAddUp` assumes that choice is edge 0 (`SameEdge`).
- Geocoding, `nearest_nodes`, downloading the OSM graph, Flask/Streamlit handlers, folium maps and CSV reading are input/output and are not modelled.
- Three details of the code that the model follows as written:
  - 2-opt accepts a move only when it shortens the route by more than 1e-9 (src/backend/optimizer.py:66), and its loop has no iteration cap;
  - the default `k` is `int(sqrt(n))`, rounded down, and it also replaces a `k` larger than `n` (src/backend/optimizer.py:18-19);
  - a leg without a path is skipped by `optimize_routes` (optimizer.py:27-28) and raises `NoPath` in `route_with_stops` (src/routing.py:66); neither draws a straight line in its place.

## Findings

| source | as written | input that shows it | evidently intended | confidence | as-written member | corrected member |
|---|---|---|---|---|---|---|
| src/routing.py:83 | `G[u][v][0] if isinstance(G[u][v], dict) else G[u][v]`: an OSM multigraph's `G[u][v]` is a read-only mapping, not a `dict`, so it is used whole, and `.get("travel_time", 0)` and `.get("length", 0)` find no such keys; on a simple graph `G[u][v]` is a `dict` of attributes and `[0]` raises `KeyError` | a one-edge multigraph path `[0, 1]` whose edge 0 has length 1000 m and travel time 60 s: totals 1 km and 1 min, leg row 0 km and 0 min | take edge 0 when `G[u][v]` holds parallel edges, the attributes themselves otherwise, so the leg rows add up to the totals | medium (not executed) | RouteSummary.AsWrittenLegsMissTheTotals | RouteSummary.CorrectedLegsAddUp |
| src/backend/optimizer.py:87 | `np.argmin([(p.lat, p.lon) for p in pts])`: numpy flattens the `n` by 2 array, so the result is a position among `2n` coordinates, not a point index | a zone with points (-23.5, -46.6) and (-23.6, -46.7): `start_idx` is 3, and `unvisited.remove(3)` at line 48 raises `KeyError`; with three points whose first is westernmost it is 1, silently not the south-west point | the index of the least `(lat, lon)` tuple, the "most south-west" point the comment at line 86 names | high (not executed) | Backend.AsWrittenStartOutOfRange | Backend.SouthWestIndex |
