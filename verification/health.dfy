/** `/network-health`: counts over the node and route lists, the weighted
    health score and its status band, and the recommendations of
    `generateRecommendations`. */
module Health {
  import opened Base
  import opened Records
  import opened Builder
  import opened Scores
  import opened Metrics
  import opened Analytics
  import Clustering

  // ---------------------------------------------------------------------
  // Counts

  /** `nodes.filter(n => n.status === st).length` */
  function NodesWithStatus(nodes: seq<NodeRecord>, st: NodeStatus): nat
  {
    |Keep(nodes, (n: NodeRecord) => n.status == st)|
  }

  /** `routes.filter(r => r.status === st).length` */
  function RoutesWithStatus(routes: seq<RouteRecord>, st: RouteStatus): nat
  {
    |Keep(routes, (r: RouteRecord) => r.status == st)|
  }

  predicate HighRisk(r: RouteRecord)
  {
    r.riskLevel == High || r.riskLevel == Critical
  }

  /** The routes whose risk level is high or critical. */
  function HighRiskCount(routes: seq<RouteRecord>): nat
  {
    |Keep(routes, HighRisk)|
  }

  /** Every node has exactly one of the three statuses. */
  lemma {:induction false} NodeStatusPartition(nodes: seq<NodeRecord>)
    ensures NodesWithStatus(nodes, NodeActive) + NodesWithStatus(nodes, NodeInactive)
            + NodesWithStatus(nodes, NodeDisrupted) == |nodes|
  {
    if nodes != [] {
      NodeStatusPartition(nodes[1..]);
    }
  }

  /** Every route has exactly one of the four statuses. */
  lemma {:induction false} RouteStatusPartition(routes: seq<RouteRecord>)
    ensures RoutesWithStatus(routes, RouteActive) + RoutesWithStatus(routes, RouteInactive)
            + RoutesWithStatus(routes, RouteDisrupted) + RoutesWithStatus(routes, RouteCongested) == |routes|
  {
    if routes != [] {
      RouteStatusPartition(routes[1..]);
    }
  }

  /** The `summary` of the response. */
  datatype Summary = Summary(
    totalNodes: nat,
    activeNodes: nat,
    disruptedNodes: nat,
    totalRoutes: nat,
    activeRoutes: nat,
    disruptedRoutes: nat,
    highRiskRoutes: nat,
    bottlenecks: nat,
    criticalNodes: nat)

  function SummaryOf(nodes: seq<NodeRecord>, routes: seq<RouteRecord>, m: AllMetrics): (s: Summary)
    ensures s.totalNodes == |nodes| && s.totalRoutes == |routes|
  {
    Summary(|nodes|, NodesWithStatus(nodes, NodeActive), NodesWithStatus(nodes, NodeDisrupted),
            |routes|, RoutesWithStatus(routes, RouteActive), RoutesWithStatus(routes, RouteDisrupted),
            HighRiskCount(routes), |m.bottlenecks|, |m.criticalNodes|)
  }

  /** Counts that could come from real lists: no part exceeds its whole. */
  predicate Consistent(s: Summary)
  {
    && s.totalNodes > 0
    && s.activeNodes + s.disruptedNodes <= s.totalNodes
    && s.bottlenecks <= s.totalNodes
    && s.activeRoutes + s.disruptedRoutes <= s.totalRoutes
    && s.highRiskRoutes <= s.totalRoutes
  }

  // ---------------------------------------------------------------------
  // Score

  /** `k || 1` */
  function OrOne(k: nat): nat
  {
    if k == 0 then 1 else k
  }

  /** The 40/30/20/10 weighted sum before clamping: active nodes, active
      routes, nodes that are not bottlenecks, routes that are not high-risk. */
  function RawScore(s: Summary): real
    requires s.totalNodes > 0
  {
    (s.activeNodes as real / s.totalNodes as real) * 40.0
    + (s.activeRoutes as real / OrOne(s.totalRoutes) as real) * 30.0
    + (1.0 - s.bottlenecks as real / OrOne(s.totalNodes) as real) * 20.0
    + (1.0 - s.highRiskRoutes as real / OrOne(s.totalRoutes) as real) * 10.0
  }

  /** `Math.max(0, Math.min(100, x))` */
  function Clamp(x: real): (r: real)
    ensures 0.0 <= r <= 100.0
    ensures 0.0 <= x <= 100.0 ==> r == x
    ensures x < 0.0 ==> r == 0.0
    ensures x > 100.0 ==> r == 100.0
  {
    var low := if x < 100.0 then x else 100.0;
    if low > 0.0 then low else 0.0
  }

  function HealthScore(s: Summary): (score: real)
    requires s.totalNodes > 0
    ensures 0.0 <= score <= 100.0
  {
    Clamp(RawScore(s))
  }

  /** For consistent counts each ratio lies in [0, 1], so the weighted sum is
      already in [0, 100] and the clamp never acts. */
  lemma RawScoreBounds(s: Summary)
    requires Consistent(s)
    ensures 0.0 <= RawScore(s) <= 100.0
    ensures HealthScore(s) == RawScore(s)
  {
    Clustering.Ratio(s.activeNodes, s.totalNodes);
    Clustering.Ratio(s.activeRoutes, OrOne(s.totalRoutes));
    Clustering.Ratio(s.bottlenecks, OrOne(s.totalNodes));
    Clustering.Ratio(s.highRiskRoutes, OrOne(s.totalRoutes));
  }

  /** All nodes and routes active, no bottleneck and no high-risk route give
      the full score. */
  lemma PerfectScore(s: Summary)
    requires s.totalNodes > 0 && s.totalRoutes > 0
    requires s.activeNodes == s.totalNodes && s.activeRoutes == s.totalRoutes
    requires s.bottlenecks == 0 && s.highRiskRoutes == 0
    ensures HealthScore(s) == 100.0
  {
    Clustering.Ratio(s.activeNodes, s.totalNodes);
    Clustering.Ratio(s.activeRoutes, s.totalRoutes);
  }

  /** Without routes the route term is lost: the score is at most 70, so
      such a network is never rated Excellent. */
  lemma NoRoutesCeiling(s: Summary)
    requires Consistent(s) && s.totalRoutes == 0
    ensures HealthScore(s) <= 70.0
    ensures StatusOf(HealthScore(s)) != HealthExcellent
  {
    RawScoreBounds(s);
    Clustering.Ratio(s.activeNodes, s.totalNodes);
    Clustering.Ratio(s.bottlenecks, s.totalNodes);
  }

  // ---------------------------------------------------------------------
  // Status

  datatype HealthStatus = HealthExcellent | HealthGood | HealthFair | HealthPoor | HealthCritical

  /** The chain of `if (healthScore < k)` overrides, in source order. */
  function StatusOf(score: real): (st: HealthStatus)
    ensures st == HealthExcellent <==> score >= 80.0
    ensures st == HealthGood <==> 60.0 <= score < 80.0
    ensures st == HealthFair <==> 40.0 <= score < 60.0
    ensures st == HealthPoor <==> 20.0 <= score < 40.0
    ensures st == HealthCritical <==> score < 20.0
  {
    var st0 := HealthExcellent;
    var st1 := if score < 80.0 then HealthGood else st0;
    var st2 := if score < 60.0 then HealthFair else st1;
    var st3 := if score < 40.0 then HealthPoor else st2;
    if score < 20.0 then HealthCritical else st3
  }

  function Rank(st: HealthStatus): nat
  {
    match st
    case HealthCritical => 0
    case HealthPoor => 1
    case HealthFair => 2
    case HealthGood => 3
    case HealthExcellent => 4
  }

  /** A higher score never gives a worse status. */
  lemma StatusMonotone(a: real, b: real)
    requires a <= b
    ensures Rank(StatusOf(a)) <= Rank(StatusOf(b))
  {
    var sa, sb := StatusOf(a), StatusOf(b);
    if Rank(sb) < Rank(sa) {
      match sa
      case HealthExcellent =>
      case HealthGood =>
      case HealthFair =>
      case HealthPoor =>
      case HealthCritical =>
    }
  }

  // ---------------------------------------------------------------------
  // Recommendations

  datatype Priority = PriorityCritical | PriorityHigh | PriorityMedium | PriorityLow | PriorityInfo

  /** One entry of the list; the counts are the numbers its description quotes. */
  datatype Recommendation =
    | BottlenecksDetected(count: nat)
    | CriticalNodesIdentified(count: nat)
    | HighRiskRoutesDetected(count: nat)
    | DisruptedNodesFound(count: nat)
    | LowDensity
    | NetworkHealthy

  function PriorityOf(r: Recommendation): Priority
  {
    match r
    case BottlenecksDetected(_) => PriorityHigh
    case CriticalNodesIdentified(_) => PriorityHigh
    case HighRiskRoutesDetected(_) => PriorityMedium
    case DisruptedNodesFound(_) => PriorityCritical
    case LowDensity => PriorityLow
    case NetworkHealthy => PriorityInfo
  }

  /** The place of each kind in the fixed emission order. */
  function Position(r: Recommendation): nat
  {
    match r
    case BottlenecksDetected(_) => 0
    case CriticalNodesIdentified(_) => 1
    case HighRiskRoutesDetected(_) => 2
    case DisruptedNodesFound(_) => 3
    case LowDensity => 4
    case NetworkHealthy => 5
  }

  /** What the recommendations look at. */
  datatype Signals = Signals(bottlenecks: nat, criticalNodes: nat, highRiskRoutes: nat, disruptedNodes: nat,
                             density: Option<real>)

  function SignalsOf(m: AllMetrics, nodes: seq<NodeRecord>, routes: seq<RouteRecord>): Signals
  {
    Signals(|m.bottlenecks|, |m.criticalNodes|, HighRiskCount(routes), NodesWithStatus(nodes, NodeDisrupted),
            m.networkStats.density)
  }

  /** `density < 0.1`; an undefined (NaN) density compares false. */
  predicate Sparse(density: Option<real>)
  {
    density.Some? && density.value < 0.1
  }

  predicate Quiet(sg: Signals)
  {
    sg.bottlenecks == 0 && sg.criticalNodes == 0 && sg.highRiskRoutes == 0 && sg.disruptedNodes == 0
    && !Sparse(sg.density)
  }

  /** The condition under which the source emits an entry, with the count it quotes. */
  predicate Warranted(r: Recommendation, sg: Signals)
  {
    match r
    case BottlenecksDetected(n) => n == sg.bottlenecks && n > 0
    case CriticalNodesIdentified(n) => n == sg.criticalNodes && n > 0
    case HighRiskRoutesDetected(n) => n == sg.highRiskRoutes && n > 0
    case DisruptedNodesFound(n) => n == sg.disruptedNodes && n > 0
    case LowDensity => Sparse(sg.density)
    case NetworkHealthy => Quiet(sg)
  }

  /** The entry considered in place `k` of the emission order, when its
      condition holds. */
  function Candidate(sg: Signals, k: nat): (r: Option<Recommendation>)
    ensures r.Some? ==> Position(r.value) == k && Warranted(r.value, sg)
  {
    if k == 0 then (if sg.bottlenecks > 0 then Some(BottlenecksDetected(sg.bottlenecks)) else None)
    else if k == 1 then (if sg.criticalNodes > 0 then Some(CriticalNodesIdentified(sg.criticalNodes)) else None)
    else if k == 2 then (if sg.highRiskRoutes > 0 then Some(HighRiskRoutesDetected(sg.highRiskRoutes)) else None)
    else if k == 3 then (if sg.disruptedNodes > 0 then Some(DisruptedNodesFound(sg.disruptedNodes)) else None)
    else if k == 4 then (if Sparse(sg.density) then Some(LowDensity) else None)
    else None
  }

  /** The conditional entries from place `k` on, in emission order. */
  function IssuesFrom(sg: Signals, k: nat): (r: seq<Recommendation>)
    ensures forall i :: 0 <= i < |r| ==> k <= Position(r[i]) < 5 && Warranted(r[i], sg)
    ensures forall i, j :: 0 <= i < j < |r| ==> Position(r[i]) < Position(r[j])
    ensures forall j :: k <= j && Candidate(sg, j).Some? ==> Candidate(sg, j).value in r
    decreases 5 - k
  {
    if k >= 5 then []
    else
      var rest := IssuesFrom(sg, k + 1);
      match Candidate(sg, k)
      case None => rest
      case Some(x) => [x] + rest
  }

  /** The entries in emission order: each present exactly when warranted,
      "network healthy" exactly when nothing else is, so never empty. */
  function Recommend(sg: Signals): (r: seq<Recommendation>)
    ensures r != []
    ensures forall x :: x in r ==> Warranted(x, sg)
    ensures forall i, j :: 0 <= i < j < |r| ==> Position(r[i]) < Position(r[j])
    ensures BottlenecksDetected(sg.bottlenecks) in r <==> sg.bottlenecks > 0
    ensures CriticalNodesIdentified(sg.criticalNodes) in r <==> sg.criticalNodes > 0
    ensures HighRiskRoutesDetected(sg.highRiskRoutes) in r <==> sg.highRiskRoutes > 0
    ensures DisruptedNodesFound(sg.disruptedNodes) in r <==> sg.disruptedNodes > 0
    ensures LowDensity in r <==> Sparse(sg.density)
    ensures NetworkHealthy in r <==> Quiet(sg)
  {
    var issues := IssuesFrom(sg, 0);
    IssuesSpec(sg);
    if issues == [] then [NetworkHealthy] else issues
  }

  /** Which conditional entries are present: each exactly when warranted,
      none at all exactly when nothing is warranted. */
  lemma IssuesSpec(sg: Signals)
    ensures var r := IssuesFrom(sg, 0);
      && NetworkHealthy !in r
      && (BottlenecksDetected(sg.bottlenecks) in r <==> sg.bottlenecks > 0)
      && (CriticalNodesIdentified(sg.criticalNodes) in r <==> sg.criticalNodes > 0)
      && (HighRiskRoutesDetected(sg.highRiskRoutes) in r <==> sg.highRiskRoutes > 0)
      && (DisruptedNodesFound(sg.disruptedNodes) in r <==> sg.disruptedNodes > 0)
      && (LowDensity in r <==> Sparse(sg.density))
      && (r == [] <==> Quiet(sg))
  {
    IssuesPresent(sg);
    IssuesEmpty(sg);
  }

  lemma IssuesPresent(sg: Signals)
    ensures var r := IssuesFrom(sg, 0);
      && NetworkHealthy !in r
      && (BottlenecksDetected(sg.bottlenecks) in r <==> sg.bottlenecks > 0)
      && (CriticalNodesIdentified(sg.criticalNodes) in r <==> sg.criticalNodes > 0)
      && (HighRiskRoutesDetected(sg.highRiskRoutes) in r <==> sg.highRiskRoutes > 0)
      && (DisruptedNodesFound(sg.disruptedNodes) in r <==> sg.disruptedNodes > 0)
      && (LowDensity in r <==> Sparse(sg.density))
  {
    IssuesWarranted(sg);
    CandidatesPresent(sg);
  }

  lemma IssuesEmpty(sg: Signals)
    ensures IssuesFrom(sg, 0) == [] <==> Quiet(sg)
  {
    var r := IssuesFrom(sg, 0);
    CandidatesPresent(sg);
    if r != [] {
      IssuesWarranted(sg);
      assert r[0] in r;
      WarrantedNotQuiet(sg, r[0]);
    }
  }

  /** Every conditional entry is warranted, and none is "network healthy". */
  lemma IssuesWarranted(sg: Signals)
    ensures forall x :: x in IssuesFrom(sg, 0) ==> Warranted(x, sg) && x != NetworkHealthy
  {
    var r := IssuesFrom(sg, 0);
    forall x | x in r
      ensures Warranted(x, sg) && x != NetworkHealthy
    {
      var i :| 0 <= i < |r| && r[i] == x;
      assert Position(r[i]) < 5;
    }
  }

  lemma CandidatesPresent(sg: Signals)
    ensures var r := IssuesFrom(sg, 0);
      && (sg.bottlenecks > 0 ==> BottlenecksDetected(sg.bottlenecks) in r)
      && (sg.criticalNodes > 0 ==> CriticalNodesIdentified(sg.criticalNodes) in r)
      && (sg.highRiskRoutes > 0 ==> HighRiskRoutesDetected(sg.highRiskRoutes) in r)
      && (sg.disruptedNodes > 0 ==> DisruptedNodesFound(sg.disruptedNodes) in r)
      && (Sparse(sg.density) ==> LowDensity in r)
  {
    var r := IssuesFrom(sg, 0);
    assert Candidate(sg, 0).Some? ==> Candidate(sg, 0).value in r;
    assert Candidate(sg, 1).Some? ==> Candidate(sg, 1).value in r;
    assert Candidate(sg, 2).Some? ==> Candidate(sg, 2).value in r;
    assert Candidate(sg, 3).Some? ==> Candidate(sg, 3).value in r;
    assert Candidate(sg, 4).Some? ==> Candidate(sg, 4).value in r;
  }

  lemma WarrantedNotQuiet(sg: Signals, x: Recommendation)
    requires Warranted(x, sg) && x != NetworkHealthy
    ensures !Quiet(sg)
  {
  }

  /** `generateRecommendations`; its `healthScore` argument is never read. */
  function GenerateRecommendations(m: AllMetrics, nodes: seq<NodeRecord>, routes: seq<RouteRecord>): seq<Recommendation>
  {
    Recommend(SignalsOf(m, nodes, routes))
  }

  // ---------------------------------------------------------------------
  // The handler

  datatype HealthReport = HealthReport(
    healthScore: real,
    healthStatus: HealthStatus,
    summary: Summary,
    networkStats: NetworkStats,
    recommendations: seq<Recommendation>)

  function NetworkHealth(nodes: seq<NodeRecord>, routes: seq<RouteRecord>, lib: Centralities): Result<HealthReport, HttpError>
  {
    if nodes == [] then Failure(BadRequest)
    else
      match CalculateAllMetrics(nodes, routes, lib)
      case Failure(_) => Failure(ServerError)
      case Success(m) =>
        var s := SummaryOf(nodes, routes, m);
        var score := HealthScore(s);
        Success(HealthReport(score, StatusOf(score), s, m.networkStats, GenerateRecommendations(m, nodes, routes)))
  }

  /** 400 without nodes, 500 on repeated node ids; otherwise the summary
      counts are the status, risk and list counts of the stored records and
      the engine's output, consistent with each other, the score is the
      unclamped weighted sum, the status is its band, the statistics are the
      engine's, and the recommendations are those the signals warrant, with
      "network healthy" exactly when no other one is. */
  lemma NetworkHealthSpec(nodes: seq<NodeRecord>, routes: seq<RouteRecord>, lib: Centralities)
    ensures var r := NetworkHealth(nodes, routes, lib);
      && (r == Failure(BadRequest) <==> nodes == [])
      && (r == Failure(ServerError) <==> nodes != [] && !UniqueNodeIds(nodes))
      && (r.Success? ==>
            var rep := r.value;
            var m := CalculateAllMetrics(nodes, routes, lib).value;
            && Consistent(rep.summary)
            && rep.summary.totalNodes == |nodes| && rep.summary.totalRoutes == |routes|
            && rep.summary.activeNodes == NodesWithStatus(nodes, NodeActive)
            && rep.summary.disruptedNodes == NodesWithStatus(nodes, NodeDisrupted)
            && rep.summary.activeRoutes == RoutesWithStatus(routes, RouteActive)
            && rep.summary.disruptedRoutes == RoutesWithStatus(routes, RouteDisrupted)
            && rep.summary.highRiskRoutes == HighRiskCount(routes)
            && rep.summary.bottlenecks == |m.bottlenecks|
            && rep.summary.criticalNodes == |m.criticalNodes|
            && rep.healthScore == RawScore(rep.summary)
            && 0.0 <= rep.healthScore <= 100.0
            && rep.healthStatus == StatusOf(rep.healthScore)
            && (rep.healthStatus == HealthExcellent <==> rep.healthScore >= 80.0)
            && (rep.healthStatus == HealthGood <==> 60.0 <= rep.healthScore < 80.0)
            && (rep.healthStatus == HealthFair <==> 40.0 <= rep.healthScore < 60.0)
            && (rep.healthStatus == HealthPoor <==> 20.0 <= rep.healthScore < 40.0)
            && (rep.healthStatus == HealthCritical <==> rep.healthScore < 20.0)
            && rep.networkStats == m.networkStats
            && rep.recommendations == Recommend(SignalsOf(m, nodes, routes))
            && rep.recommendations != []
            && (rep.recommendations == [NetworkHealthy] <==> Quiet(SignalsOf(m, nodes, routes))))
  {
    if nodes != [] && UniqueNodeIds(nodes) {
      var m := CalculateAllMetrics(nodes, routes, lib).value;
      CalculateAllMetricsSpec(nodes, routes, lib, 0);
      NodeStatusPartition(nodes);
      RouteStatusPartition(routes);
      var s := SummaryOf(nodes, routes, m);
      assert Consistent(s);
      RawScoreBounds(s);
      var recs := Recommend(SignalsOf(m, nodes, routes));
      if recs == [NetworkHealthy] {
        assert NetworkHealthy in recs;
      }
    }
  }
}
