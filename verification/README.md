# Supply-chain network analysis in Dafny

This project models the network-analysis engine of a supply-chain resilience
service. Facilities (suppliers, warehouses, distributors, retailers,
manufacturers) are nodes of a directed graph. Transport routes are its arcs,
and each arc carries a distance, a cost, a time, a status, a transport mode
and a risk level. The engine:

- builds the graph from the stored node and route records, skipping
  self-loops, repeated arcs and routes whose endpoints are unknown;
- computes each node's local clustering coefficient with the nested
  neighbour loops of the source;
- classifies bottleneck nodes (normalised betweenness of at least 0.05) and
  critical nodes (mean of normalised degree and betweenness of at least
  0.1), both sorted by descending score with the stable library sort;
- enumerates alternative simple paths breadth-first, bounded by a path count
  and a path length of eleven nodes;
- simulates a disruption by dropping a node or an arc from a copy of the
  graph and reporting the nodes left isolated;
- assembles per-node metrics and network statistics (density, average
  degree).

Above the engine sit the pure parts of three HTTP handlers:

- `/find-paths`: guards, per-path totals, ordering by cost.
- `/simulate-disruption`: guards and the impact report.
- `/network-health`: the weighted health score, its status band and the
  generated recommendations.

The `Node` and `Route` document schemas are modelled as validating
constructors (setters, validators, defaults).

Everything is a pure function over immutable values. Graphs are
`Graph(ids, attrs, arcs)`: the node ids and the arcs are sequences in
insertion order, because the path search, `Object.entries` and the stable
sort all depend on that order (see "Left out" for where the library's order
differs). A JavaScript `throw` becomes the failure case
of a `Result`. `NaN` and `-Infinity` become `None`. Request fields that
JavaScript tests for truthiness are `Option<string>`, and they are truthy
when present and non-empty.

Modules, in dependency order:

| module | file | role |
|---|---|---|
| `Base` | base.dfy | `Option`, `Result`, distinctness, filtering |
| `Sorting` | sorting.dfy | stable sort by descending key (V8's `Array.prototype.sort`) |
| `Records` | records.dfy | node and route documents, enums, trim/lowercase setters, validators |
| `Graphs` | graph.dfy | the directed graph, degrees, the handshake identity |
| `Builder` | builder.dfy | `buildGraph` |
| `Scores` | scores.dfy | score maps, the abstract library centralities, maxima, normalisation |
| `Clustering` | clustering.dfy | `calculateLocalClustering` |
| `Classify` | classify.dfy | `identifyBottlenecks`, `identifyCriticalNodes` |
| `PathFinder` | paths.dfy | `findAlternativePaths` |
| `Disruption` | disruption.dfy | `simulateDisruption` |
| `Metrics` | metrics.dfy | `calculateAllMetrics` |
| `Analytics` | analytics.dfy | `/find-paths` and `/simulate-disruption` handlers |
| `Health` | health.dfy | `/network-health` and `generateRecommendations` |

## Model

| member | source | states |
|---|---|---|
| Records.Trim | backend/models/Node.js:4-9 | the trim setter leaves no leading or trailing white space, never lengthens, and only cuts a prefix and a suffix |
| Records.TrimIdempotent | backend/models/Route.js:4-13 | trimming a trimmed value changes nothing |
| Records.Lower | backend/models/Node.js:15-20 | the lowercase setter keeps the length, leaves no upper-case letter, moves each upper-case letter 32 code points on to its lower-case partner, and keeps every other character |
| Records.LowerIdempotent | backend/models/Node.js:15-20 | lower-casing twice is lower-casing once |
| Records.NodeTypeFromName | backend/models/Node.js:15-20 | the type enum accepts exactly the six type names, each naming its own type |
| Records.NodeStatusFromName | backend/models/Node.js:49-53 | the node status enum accepts exactly active, inactive and disrupted |
| Records.RouteStatusFromName | backend/models/Route.js:35-39 | the route status enum accepts exactly active, inactive, disrupted and congested |
| Records.TransportModeFromName | backend/models/Route.js:40-44 | the transport-mode enum accepts exactly its six names |
| Records.RiskLevelFromName | backend/models/Route.js:46-50 | the risk enum accepts exactly low, medium, high and critical |
| Records.NodeViolationsExact | backend/models/Node.js:3-53 | the validators report nothing exactly when every field requirement holds |
| Records.MakeNode | backend/models/Node.js:3-62 | a node saves iff it is acceptable and is then well formed (trimmed id, lowercase known type, coordinates in range), storing the trimmed name, region, country and city, the given coordinates, capacity, status and owner, with status active, capacity 0 and zeroed metrics by default; a rejected node lists at least one violation |
| Records.NodeRoundTrip | backend/models/Node.js:3-62 | saving the fields of a well-formed node with fresh metrics gives back that node |
| Records.MakeRoute | backend/models/Route.js:3-50 | a route saves iff it is acceptable and is then well formed (trimmed endpoints, non-negative numbers); it stores each given distance, cost, time, capacity, status, mode, risk level and owner, and defaults distance, cost, time and capacity to 0, status to active, mode to road and risk to low |
| Records.RouteRoundTrip | backend/models/Route.js:3-50 | saving the fields of a well-formed route gives back that route |
| Records.OneOwnerPairsDistinct | backend/models/Route.js:70-71 | with `(source, target, user)` unique, one owner's routes never repeat an endpoint pair |
| Sorting.SortDescCorrect | backend/utils/networkAnalysis.js:157 | the sort returns a permutation ordered by non-increasing key, and keeps every group of equal keys in input order (stability) |
| Graphs.Handshake | backend/utils/networkAnalysis.js:276 | the degrees of all nodes sum to twice the number of arcs |
| Graphs.SizeBound | backend/utils/networkAnalysis.js:275 | a valid graph has at most `order * (order - 1)` arcs |
| Builder.BuildGraph | backend/utils/networkAnalysis.js:9-45 | the build succeeds iff node ids are distinct (a repeated `addNode` throws); the graph is valid, has the nodes in input order, and gives each node its record's attributes |
| Builder.BuildGraphEdges | backend/utils/networkAnalysis.js:26-42 | an arc exists iff some route joins two distinct known nodes in that direction |
| Builder.BuildGraphFirstWins | backend/utils/networkAnalysis.js:28-40 | an arc carries the attributes of the first route for its endpoint pair; later duplicates are skipped |
| Builder.BuildGraphOneOwner | backend/utils/networkAnalysis.js:26-42 | for one owner's routes the graph has exactly one arc per route with distinct, known endpoints |
| Builder.BuildGraphNonNegative | backend/utils/networkAnalysis.js:29-36 | when every route passes the schema, every arc's distance, cost and time are non-negative |
| Scores.ScoreTable | backend/utils/networkAnalysis.js:50-84 | a centrality wrapper yields one entry per graph node in node order, each holding the library's score for that node, or the empty map when the library throws |
| Scores.TableScore | backend/utils/networkAnalysis.js:283-285 | reading a node's score from a wrapper's map with `|| 0` gives the library's score, or 0 when the library threw |
| Scores.Lookup | backend/utils/networkAnalysis.js:170 | a map lookup is undefined exactly for ids that are not keys, and otherwise returns that key's entry |
| Scores.MaxScore | backend/utils/networkAnalysis.js:140 | the maximum is undefined (`-Infinity`) exactly for the empty map, bounds every score, and is attained |
| Scores.NormalizeBounds | backend/utils/networkAnalysis.js:143 | a normalised score is at most 1, at least 0 for a non-negative score, and 0 without a positive maximum |
| Clustering.Neighbors | backend/utils/networkAnalysis.js:110 | the neighbours of a node are exactly the nodes joined to it by an arc in either direction, each listed once |
| Clustering.NeighborsValid | backend/utils/networkAnalysis.js:110 | in a valid graph a node is never its own neighbour |
| Clustering.LinkedPairsBound | backend/utils/networkAnalysis.js:119-126 | the linked neighbour pairs are at most `k(k-1)/2`; they equal it iff all pairs are linked, and are 0 iff none is |
| Clustering.LocalClustering | backend/utils/networkAnalysis.js:106-133 | a coefficient lies in [0, 1], and is 0 for fewer than two neighbours |
| Clustering.ClusteringExtremes | backend/utils/networkAnalysis.js:119-129 | with at least two neighbours the coefficient is 1 iff the neighbourhood is a clique, and 0 iff no two neighbours are linked |
| Clustering.CountConnections | backend/utils/networkAnalysis.js:118-126 | the nested loops count exactly the linked neighbour pairs |
| Clustering.LocalClusteringOf | backend/utils/networkAnalysis.js:109-130 | the loop-based coefficient equals the functional definition |
| Clustering.LocalClusteringTable | backend/utils/networkAnalysis.js:106-133 | one entry per node, in node order, holding that node's local clustering coefficient, each in [0, 1] |
| Classify.BottleneckCandidates | backend/utils/networkAnalysis.js:142-155 | before sorting, the list holds exactly the records of the entries whose normalised score reaches the threshold |
| Classify.IdentifyBottlenecks | backend/utils/networkAnalysis.js:138-158 | the list holds exactly the entries reaching the threshold; it is sorted by descending betweenness, with ties in map order |
| Classify.BottleneckFields | backend/utils/networkAnalysis.js:143-153 | every listed node is a key, has a normalised score between the threshold and 1 (non-negative for non-negative scores), and has total degree = in-degree + out-degree |
| Classify.NoPositiveMaxNoBottlenecks | backend/utils/networkAnalysis.js:140-143 | without a positive maximum nothing is a bottleneck for a positive threshold |
| Classify.CriticalCandidates | backend/utils/networkAnalysis.js:168-183 | before sorting, the list holds exactly the degree-map entries whose criticality is a number at least the threshold |
| Classify.IdentifyCriticalNodes | backend/utils/networkAnalysis.js:163-186 | the list holds exactly the degree-map entries reaching the threshold; it is sorted by descending criticality, with ties in map order |
| Classify.CriticalityBounds | backend/utils/networkAnalysis.js:169-171 | with non-negative scores a criticality, where it is a number, lies in [0, 1] |
| Classify.CriticalFields | backend/utils/networkAnalysis.js:168-183 | every listed node is a degree key, with criticality at least the threshold (and at most 1 for non-negative scores) |
| Classify.NoPositiveMaxNoCriticalNodes | backend/utils/networkAnalysis.js:165-171 | with neither map having a positive maximum, nothing is critical for a positive threshold |
| PathFinder.Extensions | backend/utils/networkAnalysis.js:211-215 | each new queue entry is the path plus one out-neighbour not on it, and every such neighbour gives an entry |
| PathFinder.ExtensionsInOrder | backend/utils/networkAnalysis.js:211-215 | the new entries are exactly the path plus each fresh neighbour, one per neighbour, in neighbour order |
| PathFinder.ExtensionsDistinct | backend/utils/networkAnalysis.js:211-215 | distinct neighbours give distinct new entries |
| PathFinder.SearchCorrect | backend/utils/networkAnalysis.js:198-216 | the loop keeps its invariant: queued paths are partial simple paths in length order, and accepted paths are complete, length-sorted, within the limit, and no longer than any queued path |
| PathFinder.SearchNoFailure | backend/utils/networkAnalysis.js:209 | in a valid graph whose queued paths end at known nodes, `outNeighbors` never throws |
| PathFinder.FindAlternativePathsSpec | backend/utils/networkAnalysis.js:191-219 | the result is at most `maxPaths` simple paths from source to target of at most eleven nodes, shortest first, none twice without parallel arcs, and all of them when fewer than `maxPaths` come back; in a valid graph it fails iff it must expand an unknown source |
| PathFinder.SearchComplete | backend/utils/networkAnalysis.js:198-216 | a complete path with a prefix still queued is accepted unless the loop stops at `maxPaths` |
| PathFinder.FindAlternativePathsComplete | backend/utils/networkAnalysis.js:191-219 | when fewer than `maxPaths` paths come back, the queue ran dry and every simple path of at most eleven nodes from source to target is among them |
| PathFinder.SearchDistinct | backend/utils/networkAnalysis.js:198-216 | the loop never queues or accepts a path twice: each path has one parent, which is expanded once |
| PathFinder.FindAlternativePathsDistinct | backend/utils/networkAnalysis.js:191-219 | in a graph without parallel arcs no path is returned twice |
| PathFinder.SameEndpoints | backend/utils/networkAnalysis.js:202-205 | with source = target the only path is the one-node path |
| PathFinder.DirectEdgeFoundFirst | backend/utils/networkAnalysis.js:195-213 | when the arc source→target exists, the two-node path is the first one found |
| Disruption.RemoveNodeSpec | backend/utils/networkAnalysis.js:227-228 | dropping a node removes exactly it and its arcs: the order falls by 1 and the size by its degree |
| Disruption.RemoveArcSpec | backend/utils/networkAnalysis.js:229-230 | dropping an existing arc removes exactly that arc and no node |
| Disruption.Isolated | backend/utils/networkAnalysis.js:238-243 | the isolated nodes are exactly the nodes of degree 0, each listed once |
| Disruption.SimulateDisruption | backend/utils/networkAnalysis.js:224-254 | the affected nodes are exactly the isolated nodes of the disrupted graph, and the sizes are its order and arc count |
| Disruption.SimulateDisruptionEffect | backend/utils/networkAnalysis.js:224-254 | the three branches (node present; else arc present; else unchanged) with their effect on order and size; the result is a valid graph |
| Metrics.Density | backend/utils/networkAnalysis.js:275 | the density is undefined (NaN) iff there are at most one node, and otherwise lies in [0, 1] |
| Metrics.AverageDegreeIsMean | backend/utils/networkAnalysis.js:276 | the average degree is the mean of the node degrees |
| Metrics.StatsSpec | backend/utils/networkAnalysis.js:272-278 | the statistics give order and size; density times the number of ordered pairs is the size; the average degree is the mean degree, or 0 without nodes |
| Metrics.CalculateAllMetrics | backend/utils/networkAnalysis.js:259-303 | the analysis succeeds iff node ids are distinct, on the graph `buildGraph` builds, and counts every node; its bottleneck and critical-node lists are those `identifyBottlenecks` (0.05) and `identifyCriticalNodes` (0.1) give on that graph's score tables, and its statistics are that graph's |
| Metrics.BottleneckFlag | backend/utils/networkAnalysis.js:290 | a node is listed as a bottleneck iff its normalised betweenness reaches the threshold |
| Metrics.CalculateAllMetricsSpec | backend/utils/networkAnalysis.js:281-294 | one metrics record per node, in node order; in- and out-degree are the graph's and add up to the total; each centrality is the library's score (0 when it threw); the clustering coefficient is the node's own, in [0, 1]; the flags match the lists, and `isBottleneck` holds iff the normalised betweenness is at least 0.05 |
| Analytics.PathTotalsDefined | backend/routes/analytics.js:206-211 | the totals of a path exist (`getEdgeAttributes` does not throw) iff every leg is an arc |
| Analytics.PathTotalsNonNegative | backend/routes/analytics.js:206-211 | over arcs with non-negative attributes every total is non-negative |
| Analytics.SumPathTotals | backend/routes/analytics.js:201-219 | the handler's accumulation loop computes the recursive totals, and fails exactly on a path with a missing leg |
| Analytics.Reports | backend/routes/analytics.js:201-220 | the report list exists iff every path has totals, with one report per path carrying its totals |
| Analytics.PathsResponseFailure | backend/routes/analytics.js:194-198 | on a built graph the handler fails only with 404, exactly when an endpoint is not a node |
| Analytics.PathsResponseResult | backend/routes/analytics.js:198-229 | `pathsFound` counts the reports; the reported paths are a reordering of the found paths; each report carries its own path's hops (length − 1) and leg sums; costs never decrease along the list; totals are non-negative over non-negative arcs |
| Analytics.PathsResponseReports | backend/routes/analytics.js:200-223 | the sorted reports are a permutation of one report per found path, each with its own path's totals |
| Analytics.PathsOfPermutation | backend/routes/analytics.js:223 | reordering reports reorders their paths the same way |
| Analytics.FindPathsSpec | backend/routes/analytics.js:175-236 | 400 iff an endpoint is missing or there are no nodes; 500 iff node ids repeat; 404 iff an endpoint is not a node; otherwise the built graph's response, with non-negative totals when every route passed the schema |
| Analytics.SimulateDisruptionRequestSpec | backend/routes/analytics.js:118-170 | 400 iff neither a node nor both edge ends are given, or there are no nodes; 500 iff node ids repeat or the edge source is an unknown node distinct from the target; never 404 |
| Analytics.DisruptionOnFailure | backend/routes/analytics.js:136-166 | on a built graph the disruption fails only with 500, exactly when both edge ends are given, differ, and the edge source is not a node |
| Analytics.DisruptionOnResult | backend/routes/analytics.js:136-164 | the report on a valid graph: type, the element (the node id, or `source -> target`), sizes before and after, isolated nodes, alternatives counted; the alternatives are the search's result on the graph before the disruption, so they are distinct simple paths and, when fewer than five, all of them (no alternatives iff no such path) |
| Analytics.SimulateDisruptionResult | backend/routes/analytics.js:136-164 | with a node or both edge ends, stored nodes with distinct ids and a distinct edge source among them, the request succeeds; the type is node iff `nodeId` is given and the element is the node id or `source -> target`; sizes before and after; the disconnected count is the number of isolated nodes; the recommendation counts the alternatives, which are the search's result on the original graph (distinct simple paths, all of them when fewer than five) and empty without both edge ends |
| Analytics.DisruptedArcOfferedFirst | backend/routes/analytics.js:139-146 | disrupting an existing arc removes one arc, yet the arc itself is offered as the first alternative path |
| Health.NodeStatusPartition | backend/routes/analytics.js:255-257 | the active, inactive and disrupted node counts add up to the node count |
| Health.RouteStatusPartition | backend/routes/analytics.js:256-258 | the four route status counts add up to the route count |
| Health.Clamp | backend/routes/analytics.js:261 | the clamp lands in [0, 100] and is the identity there |
| Health.RawScoreBounds | backend/routes/analytics.js:261-266 | for consistent counts the weighted sum already lies in [0, 100], so the clamp never acts |
| Health.PerfectScore | backend/routes/analytics.js:261-266 | all nodes and routes active, no bottleneck and no high-risk route give 100 |
| Health.NoRoutesCeiling | backend/routes/analytics.js:263-265 | without routes the score is at most 70 and never Excellent |
| Health.StatusOf | backend/routes/analytics.js:268-272 | Excellent iff ≥ 80, Good iff in [60, 80), Fair iff in [40, 60), Poor iff in [20, 40), Critical iff < 20 |
| Health.StatusMonotone | backend/routes/analytics.js:268-272 | a higher score never gives a worse status |
| Health.IssuesFrom | backend/routes/analytics.js:302-347 | the conditional entries are warranted, in strictly increasing emission position, and include every warranted one |
| Health.IssuesSpec | backend/routes/analytics.js:302-347 | each of the five entries is present iff its condition holds; an undefined density never triggers; there are none iff nothing is warranted |
| Health.Recommend | backend/routes/analytics.js:299-359 | the list is never empty and is in the fixed order; each entry is present iff warranted; "network healthy" appears iff nothing else does |
| Health.NetworkHealthSpec | backend/routes/analytics.js:241-296 | 400 iff there are no nodes; 500 iff node ids repeat; otherwise the summary holds the active and disrupted node counts, the active, disrupted and high-risk route counts and the lengths of the engine's bottleneck and critical-node lists, the score is the unclamped weighted sum in [0, 100], the status is its band (all five stated), the statistics are the engine's, and the recommendations are those the signals warrant, exactly "network healthy" iff nothing else is |

## Left out

- The graphology centralities (degree, betweenness and closeness) and the
  global clustering coefficient are foreign library code. They are the
  abstract parameter `Scores.Centralities`; a call that throws becomes the
  empty map, as in the wrappers.
- The database: `Node.find`, `Route.find` and the metrics write-back of
  `/metrics` are I/O. The handlers take the loaded record lists as
  arguments. The per-user filter is the precondition of
  `Builder.BuildGraphOneOwner`.
- `/metrics`, `/bottlenecks` and `/critical-nodes` only forward the output
  of `calculateAllMetrics`, which is modelled. E-mail, reports, upload,
  CRUD and auth routes, and the frontend are outside the engine.
- Response messages and the `message` strings of errors are not modelled.
  Errors are their status codes, and the "no alternative paths" string is
  the empty list.
- `Math.round` of the health score is not modelled: the score is the exact
  real value.
- Floating point: scores, totals and ratios are exact reals. The `|| 0`
  on numeric attributes and scores is the identity on numbers. A route
  attribute that is `undefined` cannot arise once the schema defaults
  apply.
- `toLowerCase` and `trim` are modelled on the white-space and letter
  characters listed in `Records`, without full Unicode case mapping.
- `Object.entries` orders integer-like keys first. Score maps are taken
  in node insertion order.
- `graph.outNeighbors` also reads the keys of a plain object, so
  graphology lists integer-like neighbour ids first, in ascending order.
  The model lists out-neighbours in arc insertion order. For graphs with
  such ids, which paths survive the `maxPaths` cut-off, and their order,
  can differ from the library's.
- Classify.IdentifyBottlenecks: a betweenness key that is not a node gets
  in- and out-degree 0, where graphology's `inDegree` throws. The engine
  only passes tables whose keys are exactly the graph's nodes
  (`Scores.ScoreTable`), so this error path never arises from
  `calculateAllMetrics`.
- Classify.IdentifyCriticalNodes: likewise, a degree key that is not a
  node gets degree 0 instead of the library's throw.
- The default `maxPaths = 3` of `findAlternativePaths` is not modelled:
  both handlers always pass `maxPaths`.
- The order of `graph.neighbors` does not matter: the clustering count
  and its bounds are independent of it.
- `maxPaths` values that are not integers, or are `null`, are not
  modelled; the request value is an optional integer.
- `graph.copy()` is implicit: graphs are immutable values, so the caller's
  graph is unchanged by construction.
- Health.GenerateRecommendations: the `healthScore` argument is never read
  by the source, so the model drops it.
