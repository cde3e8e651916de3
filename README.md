# Route planner core: graph construction, edge weights, nearest node

This project models the routing core of a small web route planner in Dafny.
The planner takes raw map data: node elements with coordinates, and way
elements that list node references and carry tags. From it the planner
builds an undirected weighted road graph. It snaps the start and end
coordinates to the nearest known nodes and asks a shortest-path solver for
a route. The route's node ids are then turned back into coordinates.

The model covers these parts:

- `MapData` (map_data.dfy): node ids, coordinates and raw elements. It also
  holds the id → (lat, lon) table. Like a Python dictionary, the table
  remembers the order in which keys were first inserted. It holds unordered node
  pairs (`Edge`, built by `Between`) as well.
- `Weight` (weight.dfy): the quietness factor table with its default of 3,
  and the edge-weight rule. Only the path type `"quietness"` scales the
  distance. Any other path type, or a missing one, uses plain distance.
- `RoadGraph` (road_graph.dfy): the simple undirected graph, as a class.
  It holds a vertex set and one weight per unordered pair. `AddEdge`
  replaces the weight of a pair that is already present.
- `Builder` (builder.dfy): the two-pass construction, written as an
  imperative method with loops (`ParseOsmData`, `AddWayEdges`). It is
  proved equal to specification functions that visit the elements and the
  pairs in the same order. Those functions are `NodeTableOf`, `Segments`,
  `EdgeWeights` and `Touched`.
- `GraphProperties` (graph_properties.dfy): what the built table and graph
  contain, stated in terms of the raw elements.
- `Locator` (locator.dfy): the nearest-node scan. It keeps the first key of
  least distance, in insertion order. On an empty table it fails.
- `Route` (route.dfy): the shape of a solver path, and the conversion of
  that path to coordinates.
- `Scenarios` (scenarios.dfy): small concrete maps and the graphs built
  from them.

Great-circle distance is a parameter `dist: (Coord, Coord) -> real`. Its
trigonometry is not modelled. Where a property needs distances to be
non-negative, it says so with `NonNegative(dist)`. Weights and coordinates
are `real`s.

## Model

| member | source | states |
|---|---|---|
| MapData.NodeTable.Put | app.py:44 | Dictionary assignment keeps the table well-formed: it has no duplicate keys and its order lists exactly the keys. The key set gains `id`, and `id` now maps to the new coordinates. Other keys keep their values and their positions. A new key is appended at the end. |
| MapData.Between | app.py:38 | An edge of the undirected graph is the unordered pair {u, v}: its two ends are exactly u and v, smaller first. |
| MapData.BetweenSameEdge | app.py:67 | Two `add_edge` calls hit the same edge exactly when they name the same pair, in either direction. |
| Weight.QuietnessFactor | app.py:19-28 | A total lookup: a listed tag gets its table factor, any other tag gets 3. Every factor lies in [0.5, 5]. |
| Weight.EdgeWeight | app.py:59-65 | Only the path type "quietness" multiplies the distance by the tag's factor. Every other path type, including a missing one, gives the distance itself. For a non-negative distance the weight lies between half and five times the distance. |
| Weight.UnknownTagWeighsThreefold | app.py:61-62 | In quietness mode an unlisted tag weighs 3 × distance. |
| Weight.OtherPathTypesIgnoreTag | app.py:63-65 | Outside quietness mode the weight does not depend on the tag and equals the distance. |
| Weight.WeightNonNegative | app.py:57-65 | A non-negative distance gives a non-negative weight. |
| Weight.WeightStrictlyIncreasing | app.py:59-65 | For a fixed tag and path type, weight is strictly increasing in distance, because every factor is positive. |
| Weight.WeightMonotoneInFactor | app.py:59-62 | For a fixed non-negative distance in quietness mode, a larger factor never gives a smaller weight. |
| RoadGraph.Graph.constructor | app.py:38 | A new graph has no vertices and no edges. |
| RoadGraph.Graph.AddEdge | app.py:67 | Both ends become vertices. The weight of {u, v} is set to the new weight, replacing any earlier one. Every edge still joins two vertices. |
| Builder.NodeTableOf | app.py:41-44 | The first pass always yields a well-formed table: no duplicate keys, and the order lists exactly the keys. |
| Builder.WaySegments | app.py:50-53 | A way with n references yields the pairs (refs[i], refs[i+1]) for i from 0 to n − 2, in order. A way with zero or one reference yields none. |
| Builder.ParseOsmData | app.py:37-69 | The returned table is the first pass's table. The graph's weights and vertices are those obtained by adding every resolving pair of every highway way, in visiting order. The graph is new and well-formed. |
| Builder.AddWayEdges | app.py:49-67 | The inner loop over one highway way adds exactly that way's resolving pairs, in order, to the edges and vertices built so far. |
| GraphProperties.NodeTableKeys | app.py:42-44 | The table's keys are exactly the ids of the node elements, including nodes that no way uses. |
| GraphProperties.NodeTableLastWins | app.py:44 | When an id repeats, the table holds the coordinates of its last node element. |
| GraphProperties.NodeTableOrderFirstSeen | app.py:42-44 | The table's key order is the order in which ids first appear. For every i < j, key i has an element before any element of key j. |
| GraphProperties.SegmentsAreWayPairs | app.py:47-53 | The pairs visited are exactly the consecutive pairs of the ways whose tags contain `highway`, each with that way's highway value. |
| GraphProperties.NoHighwayNoSegments | app.py:47-48 | Input with no highway way gives no pairs at all. Node elements, untagged ways and other elements add nothing. |
| GraphProperties.EdgeKeys | app.py:52-54 | The graph has an edge on a pair exactly when some visited pair has both ends in the table. A dangling pair is skipped, and the other pairs of its way are still added. |
| GraphProperties.EdgeLastWins | app.py:67 | An edge carries the weight of the last resolving pair on it. A later `add_edge` on the same pair overwrites the earlier weight. |
| GraphProperties.VerticesAreEndpoints | app.py:67 | The vertex set is exactly the set of edge endpoints. |
| GraphProperties.VerticesInTable | app.py:54 | Every vertex of the graph is a key of the node table. |
| GraphProperties.WeightsNonNegative | app.py:57-65 | With a non-negative distance, every edge weight is non-negative. |
| Locator.ArgMin | app.py:79 | The index found holds a least value. Every earlier index holds a strictly larger one, so on ties the first least element wins, as in a left-to-right scan that replaces the best only on a strict improvement. |
| Locator.ArgMinUnique | app.py:79 | Those two properties determine the index, so the scan's answer is fully specified. |
| Locator.Nearest | app.py:79-80 | Nearest fails exactly when the table is empty, where Python's `min` raises `ValueError`. Otherwise it returns a key whose distance to the query is no larger than that of any key. Every key inserted before it is strictly farther. Being a function, it gives the same answer for the same query and table. |
| Locator.NearestUnitFree | app.py:79-80 | Scaling every distance by one positive factor, such as kilometres against metres, gives the same nearest node. |
| Locator.NoNodesNoNearest | app.py:79-80 | Map data with no node element gives no nearest node, so the route fails rather than being empty. |
| Route.TrailCoords | app.py:117 | The coordinate list has one entry per path node, in path order: the table's coordinates of that node. |
| Route.RouteHasCoordinates | app.py:117 | Every node of a route over the built graph is in the table, so the conversion never fails. The coordinate list starts at the coordinates of the route's first node and ends at those of its last node. |
| Route.RouteStepsFollowWays | app.py:83 | Each step of a route over the built graph joins two nodes that are adjacent in some highway way of the input. |
| Scenarios.SinglePair | app.py:52-67 | Two distinct nodes joined by a highway way give exactly one edge, between those two nodes. Its weight follows the weight rule for the way's tag and the distance between them. |
| Scenarios.ResidentialPair | app.py:59-65 | For a residential way, that weight equals the distance in every mode. |
| Scenarios.UnknownTagPair | app.py:59-62 | In quietness mode, a way with an unlisted tag weighs its edge at 3 × distance. |
| Scenarios.DanglingReference | app.py:52-54 | A way a–b–c, where c is unknown, keeps only the edge {a, b} and the vertices a and b. |

## Left out

- Fetching the map data (the query string and the HTTP call, app.py:9-16 and app.py:31-34) is I/O. The model starts from the decoded list of elements.
- The web routes, the `float()` parsing of request arguments, the map drawing and the template rendering (app.py:90-129) are presentation glue.
- The great-circle distance is a parameter of every operation. The construction measures in metres (app.py:57); the nearest-node scan uses the library's default unit (app.py:79-80). `Locator.NearestUnitFree` shows that the unit does not change the chosen node in exact arithmetic.
- Floating-point rounding is not modelled. Weights and coordinates are exact reals.
- The shortest-path solver (app.py:83) is a library call whose code is not part of this model. Only the shape of its answer is stated, as `Route.IsRoute`. Its optimality, its error when no path exists, and its error for a node that is not a vertex are not modelled.
- The A* heuristic and the commented-out A* call (app.py:72-75, app.py:86) are unused.
- The bounding box (app.py:104-105) is request-handler arithmetic. It takes the south and west sides from the start and the north and east sides from the end, each widened by the 0.02° margin. The box is inverted when the end lies more than 0.04° south or west of the start. For a smaller south or west offset the box shrinks, and from 0.02° on it contains neither endpoint.
- Elements are well-shaped by their datatype. An element missing a key the code reads (a way without `tags`, a node without `lat`) would make Python raise `KeyError`; that error is not modelled.
- The graph keeps one weight per unordered pair, as the simple graph used by the code does (app.py:38, app.py:67). Under the other reading, a multigraph would keep every parallel segment. The model follows the code.
- The library graph also remembers the order in which vertices were inserted. That order only affects how the solver breaks ties, so it is not modelled.
- Locator.Nearest: returns `None` on an empty table, where Python's `min` raises `ValueError`. The model does not carry the exception itself.
- Route.TrailCoords: requires every path node to be in the table instead of modelling the lookup error. `Route.RouteHasCoordinates` proves that this holds for every route over the built graph.
