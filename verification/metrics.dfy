/** `calculateAllMetrics`: build the graph, run the centralities, classify
    bottleneck and critical nodes, and assemble network statistics and one
    metrics record per node. */
module Metrics {
  import opened Base
  import opened Records
  import opened Graphs
  import opened Builder
  import opened Scores
  import opened Clustering
  import opened Classify
  import opened Sorting

  /** `networkStats`; `density` is `None` where the source divides zero by zero. */
  datatype NetworkStats = NetworkStats(
    totalNodes: nat,
    totalEdges: nat,
    density: Option<real>,
    averageDegree: real,
    globalClusteringCoefficient: real)

  datatype NodeMetrics = NodeMetrics(
    nodeId: NodeId,
    degreeCentrality: real,
    betweennessCentrality: real,
    closenessCentrality: real,
    clusteringCoefficient: real,
    inDegree: nat,
    outDegree: nat,
    totalDegree: nat,
    isBottleneck: bool,
    isCritical: bool)

  datatype AllMetrics = AllMetrics(
    nodeMetrics: seq<NodeMetrics>,
    networkStats: NetworkStats,
    bottlenecks: seq<Bottleneck>,
    criticalNodes: seq<CriticalNode>,
    graph: Graph)

  /** `size / (order * (order - 1))`: arcs present over ordered pairs possible. */
  function Density(g: Graph): (d: Option<real>)
    ensures Valid(g) ==> (d.None? <==> Order(g) <= 1)
    ensures Valid(g) && d.Some? ==> 0.0 <= d.value <= 1.0
  {
    PairsZero(Order(g));
    if OrderedPairs(g) == 0 then None
    else
      if Valid(g) then
        SizeBound(g);
        DensityBound(Size(g), OrderedPairs(g));
        Some(Size(g) as real / OrderedPairs(g) as real)
      else Some(Size(g) as real / OrderedPairs(g) as real)
  }

  lemma PairsZero(n: nat)
    ensures n * (n - 1) == 0 <==> n <= 1
  {
    if n > 1 {
      assert n * (n - 1) >= n - 1;
    }
  }

  lemma DensityBound(size: nat, pairs: nat)
    requires 0 < pairs && size <= pairs
    ensures 0.0 <= size as real / pairs as real <= 1.0
  {
  }

  /** `order > 0 ? 2 * size / order : 0` */
  function AverageDegree(g: Graph): real
  {
    if Order(g) > 0 then (2 * Size(g)) as real / Order(g) as real else 0.0
  }

  /** The average degree is the mean of `graph.degree` over the nodes. */
  lemma AverageDegreeIsMean(g: Graph)
    requires Valid(g) && Order(g) > 0
    ensures AverageDegree(g) == DegreeSum(g, g.ids) as real / Order(g) as real
  {
    Handshake(g);
  }

  function Stats(g: Graph, globalClustering: real): (s: NetworkStats)
    ensures s.totalNodes == Order(g) && s.totalEdges == Size(g)
  {
    NetworkStats(Order(g), Size(g), Density(g), AverageDegree(g), globalClustering)
  }

  /** `list.some(x => x.nodeId === id)` for the two result lists. */
  predicate ListsBottleneck(bs: seq<Bottleneck>, id: NodeId)
  {
    exists i :: 0 <= i < |bs| && bs[i].nodeId == id
  }

  predicate ListsCritical(cs: seq<CriticalNode>, id: NodeId)
  {
    exists i :: 0 <= i < |cs| && cs[i].nodeId == id
  }

  function NodeMetricsOf(g: Graph, id: NodeId, degree: seq<Entry>, betweenness: seq<Entry>, closeness: seq<Entry>,
                         bottlenecks: seq<Bottleneck>, criticalNodes: seq<CriticalNode>): NodeMetrics
  {
    NodeMetrics(id, ScoreOrZero(degree, id), ScoreOrZero(betweenness, id), ScoreOrZero(closeness, id),
                LocalClustering(g, id), InDegree(g, id), OutDegree(g, id), Degree(g, id),
                ListsBottleneck(bottlenecks, id), ListsCritical(criticalNodes, id))
  }

  /** One record per node of `ids`, in node order. */
  function NodeMetricsTable(g: Graph, ids: seq<NodeId>, degree: seq<Entry>, betweenness: seq<Entry>, closeness: seq<Entry>,
                            bottlenecks: seq<Bottleneck>, criticalNodes: seq<CriticalNode>): (r: seq<NodeMetrics>)
    ensures |r| == |ids|
    ensures forall i :: 0 <= i < |ids| ==> r[i] == NodeMetricsOf(g, ids[i], degree, betweenness, closeness, bottlenecks, criticalNodes)
  {
    if ids == [] then []
    else [NodeMetricsOf(g, ids[0], degree, betweenness, closeness, bottlenecks, criticalNodes)]
         + NodeMetricsTable(g, ids[1..], degree, betweenness, closeness, bottlenecks, criticalNodes)
  }

  /** Fails only where `buildGraph` throws: on a repeated node id. */
  function CalculateAllMetrics(nodes: seq<NodeRecord>, routes: seq<RouteRecord>, lib: Centralities): (r: Result<AllMetrics, BuildError>)
    ensures r.Success? <==> UniqueNodeIds(nodes)
    ensures r.Success? ==> BuildGraph(nodes, routes) == Success(r.value.graph)
    ensures r.Success? ==> r.value.networkStats.totalNodes == |nodes|
    ensures r.Success? ==>
      var g := r.value.graph;
      && r.value.bottlenecks == IdentifyBottlenecks(g, ScoreTable(g, lib.betweenness(g)), DefaultBottleneckThreshold)
      && r.value.criticalNodes == IdentifyCriticalNodes(g, ScoreTable(g, lib.degree(g)), ScoreTable(g, lib.betweenness(g)),
                                                        DefaultCriticalThreshold)
      && r.value.networkStats == Stats(g, lib.globalClustering(g))
  {
    match BuildGraph(nodes, routes)
    case Failure(e) => Failure(e)
    case Success(g) =>
      var degree := ScoreTable(g, lib.degree(g));
      var betweenness := ScoreTable(g, lib.betweenness(g));
      var closeness := ScoreTable(g, lib.closeness(g));
      var bottlenecks := IdentifyBottlenecks(g, betweenness, DefaultBottleneckThreshold);
      var criticalNodes := IdentifyCriticalNodes(g, degree, betweenness, DefaultCriticalThreshold);
      var stats := Stats(g, lib.globalClustering(g));
      Success(AllMetrics(NodeMetricsTable(g, g.ids, degree, betweenness, closeness, bottlenecks, criticalNodes),
                         stats, bottlenecks, criticalNodes, g))
  }

  /** A node is listed as a bottleneck exactly when its normalised
      betweenness reaches the threshold. */
  lemma BottleneckFlag(g: Graph, f: NodeId -> real, i: nat, threshold: real)
    requires NoDup(g.ids) && i < |g.ids|
    ensures var bt := Tabulate(g.ids, f);
      (ListsBottleneck(IdentifyBottlenecks(g, bt, threshold), g.ids[i]) <==>
         Normalize(f(g.ids[i]), MaxScore(bt)) >= threshold)
  {
    var bt := Tabulate(g.ids, f);
    var bs := IdentifyBottlenecks(g, bt, threshold);
    var id := g.ids[i];
    if ListsBottleneck(bs, id) {
      var j :| 0 <= j < |bs| && bs[j].nodeId == id;
      assert bs[j] in bs;
      var k :| 0 <= k < |bt| && bs[j] == BottleneckOf(g, bt[k], MaxScore(bt))
               && IsBottleneck(bt[k], MaxScore(bt), threshold);
      assert g.ids[k] == id;
    }
    if Normalize(f(id), MaxScore(bt)) >= threshold {
      var b := BottleneckOf(g, bt[i], MaxScore(bt));
      assert b in bs;
      var j :| 0 <= j < |bs| && bs[j] == b;
    }
  }

  /** One metrics record per graph node, in node order; a node is flagged a
      bottleneck exactly when its normalised betweenness reaches 0.05, and
      flags, degrees and clustering agree with the graph. */
  lemma CalculateAllMetricsSpec(nodes: seq<NodeRecord>, routes: seq<RouteRecord>, lib: Centralities, i: nat)
    requires UniqueNodeIds(nodes) && i < |nodes|
    ensures var m := CalculateAllMetrics(nodes, routes, lib).value;
      && |m.nodeMetrics| == Order(m.graph) == |nodes|
      && |m.bottlenecks| <= |nodes| && |m.criticalNodes| <= |nodes|
      && m.nodeMetrics[i].nodeId == nodes[i].nodeId
      && m.nodeMetrics[i].inDegree == InDegree(m.graph, nodes[i].nodeId)
      && m.nodeMetrics[i].outDegree == OutDegree(m.graph, nodes[i].nodeId)
      && m.nodeMetrics[i].totalDegree == m.nodeMetrics[i].inDegree + m.nodeMetrics[i].outDegree
      && m.nodeMetrics[i].degreeCentrality == LibraryScore(lib.degree(m.graph), nodes[i].nodeId)
      && m.nodeMetrics[i].betweennessCentrality == LibraryScore(lib.betweenness(m.graph), nodes[i].nodeId)
      && m.nodeMetrics[i].closenessCentrality == LibraryScore(lib.closeness(m.graph), nodes[i].nodeId)
      && m.nodeMetrics[i].clusteringCoefficient == LocalClustering(m.graph, nodes[i].nodeId)
      && 0.0 <= m.nodeMetrics[i].clusteringCoefficient <= 1.0
      && (m.nodeMetrics[i].isBottleneck <==> ListsBottleneck(m.bottlenecks, nodes[i].nodeId))
      && (m.nodeMetrics[i].isCritical <==> ListsCritical(m.criticalNodes, nodes[i].nodeId))
      && (lib.betweenness(m.graph).Some? ==>
            var bt := ScoreTable(m.graph, lib.betweenness(m.graph));
            (m.nodeMetrics[i].isBottleneck <==>
               Normalize(lib.betweenness(m.graph).value(nodes[i].nodeId), MaxScore(bt)) >= DefaultBottleneckThreshold))
  {
    var m := CalculateAllMetrics(nodes, routes, lib).value;
    var g := m.graph;
    var bt := ScoreTable(g, lib.betweenness(g));
    var dt := ScoreTable(g, lib.degree(g));
    assert Valid(g) && g.ids == NodeIdsOf(nodes);
    ListLength(g, bt, dt);
    var id := nodes[i].nodeId;
    assert g.ids[i] == id;
    TableScore(g, lib.degree(g), id);
    TableScore(g, lib.betweenness(g), id);
    TableScore(g, lib.closeness(g), id);
    if lib.betweenness(g).Some? {
      BottleneckFlag(g, lib.betweenness(g).value, i, DefaultBottleneckThreshold);
    }
  }

  /** Each list names a node at most once per table entry, so is no longer
      than the graph. */
  lemma ListLength(g: Graph, bt: seq<Entry>, dt: seq<Entry>)
    requires Valid(g)
    requires Keys(bt) == g.ids || bt == []
    requires Keys(dt) == g.ids || dt == []
    ensures |IdentifyBottlenecks(g, bt, DefaultBottleneckThreshold)| <= Order(g)
    ensures |IdentifyCriticalNodes(g, dt, bt, DefaultCriticalThreshold)| <= Order(g)
  {
    var mb := MaxScore(bt);
    var cb := BottleneckCandidates(g, bt, mb, DefaultBottleneckThreshold);
    CandidatesLength(g, bt, mb, DefaultBottleneckThreshold);
    var cc := CriticalCandidates(g, dt, dt, bt, DefaultCriticalThreshold);
    CriticalLength(g, dt, dt, bt, DefaultCriticalThreshold);
  }

  lemma {:induction false} CandidatesLength(g: Graph, t: seq<Entry>, max: Option<real>, threshold: real)
    ensures |BottleneckCandidates(g, t, max, threshold)| <= |t|
  {
    if t != [] {
      CandidatesLength(g, t[1..], max, threshold);
    }
  }

  lemma {:induction false} CriticalLength(g: Graph, t: seq<Entry>, dt: seq<Entry>, bt: seq<Entry>, threshold: real)
    ensures |CriticalCandidates(g, t, dt, bt, threshold)| <= |t|
  {
    if t != [] {
      CriticalLength(g, t[1..], dt, bt, threshold);
    }
  }

  /** The network statistics of a valid graph: the counts are its order and
      size, the density lies in [0, 1] and is undefined below two nodes, and the
      average degree is twice the size over the order. */
  lemma StatsSpec(g: Graph, globalClustering: real)
    requires Valid(g)
    ensures var s := Stats(g, globalClustering);
      && (s.density.None? <==> Order(g) <= 1)
      && (s.density.Some? ==> 0.0 <= s.density.value <= 1.0 && s.density.value * OrderedPairs(g) as real == Size(g) as real)
      && (Order(g) > 0 ==> s.averageDegree == DegreeSum(g, g.ids) as real / Order(g) as real)
      && (Order(g) == 0 ==> s.averageDegree == 0.0)
  {
    var s := Stats(g, globalClustering);
    assert s.density == Density(g) && s.averageDegree == AverageDegree(g);
    DensitySpec(g);
    AverageDegreeSpec(g);
  }

  lemma DensitySpec(g: Graph)
    requires Valid(g)
    ensures Density(g).None? <==> Order(g) <= 1
    ensures Density(g).Some? ==> 0.0 <= Density(g).value <= 1.0
    ensures Density(g).Some? ==> Density(g).value * OrderedPairs(g) as real == Size(g) as real
  {
    DensityTimesPairs(g);
  }

  lemma AverageDegreeSpec(g: Graph)
    requires Valid(g)
    ensures Order(g) > 0 ==> AverageDegree(g) == DegreeSum(g, g.ids) as real / Order(g) as real
    ensures Order(g) == 0 ==> AverageDegree(g) == 0.0
  {
    if Order(g) > 0 {
      AverageDegreeIsMean(g);
    }
  }

  /** `order * (order - 1)`, the number of ordered pairs of distinct nodes. */
  function OrderedPairs(g: Graph): nat
  {
    Order(g) * (Order(g) - 1)
  }

  lemma DensityTimesPairs(g: Graph)
    ensures Density(g).Some? ==> Density(g).value * OrderedPairs(g) as real == Size(g) as real
  {
    if OrderedPairs(g) > 0 {
      DivMul(Size(g), OrderedPairs(g));
    }
  }

  lemma DivMul(a: nat, b: nat)
    requires b > 0
    ensures (a as real / b as real) * b as real == a as real
  {
  }
}
