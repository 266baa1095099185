/** The pure logic of the `/find-paths` and `/simulate-disruption` endpoints:
    request guards, the per-path totals and their ordering, and the shape of
    the disruption report. Loading the records is left to the caller: the
    handlers take the node and route lists the store returned. */
module Analytics {
  import opened Base
  import opened Records
  import opened Graphs
  import opened Builder
  import opened Scores
  import opened Sorting
  import opened PathFinder
  import opened Disruption
  import opened Metrics

  /** The error responses: 400 for a rejected request, 404 for an unknown
      endpoint, 500 for anything the handler's `catch` block turns into an error. */
  datatype HttpError = BadRequest | NotFound | ServerError

  function StatusCode(e: HttpError): nat
  {
    match e
    case BadRequest => 400
    case NotFound => 404
    case ServerError => 500
  }

  // ---------------------------------------------------------------------
  // Path totals

  datatype Totals = Totals(distance: real, cost: real, time: real)

  const NoTotals := Totals(0.0, 0.0, 0.0)

  /** One leg added to running totals; `x || 0` is the identity on numbers. */
  function AddLeg(t: Totals, a: EdgeAttrs): Totals
  {
    Totals(t.distance + a.distance, t.cost + a.cost, t.time + a.time)
  }

  /** The sums over the consecutive legs of `p`; `None` where
      `getEdgeAttributes` throws because a leg is not an arc. */
  function PathTotals(g: Graph, p: Path): Option<Totals>
    decreases |p|
  {
    if |p| <= 1 then Some(NoTotals)
    else
      match PathTotals(g, p[..|p| - 1])
      case None => None
      case Some(t) =>
        match EdgeAttrsOf(g.arcs, p[|p| - 2], p[|p| - 1])
        case None => None
        case Some(a) => Some(AddLeg(t, a))
  }

  /** The totals exist exactly for edge paths. */
  lemma {:induction false} PathTotalsDefined(g: Graph, p: Path)
    ensures PathTotals(g, p).Some? <==> EdgePath(g, p)
    decreases |p|
  {
    if |p| > 1 {
      var q := p[..|p| - 1];
      PathTotalsDefined(g, q);
      EdgeAttrsOfSpec(g.arcs, p[|p| - 2], p[|p| - 1]);
      assert forall i :: 0 <= i < |q| ==> q[i] == p[i];
      if EdgePath(g, q) && HasEdge(g, p[|p| - 2], p[|p| - 1]) {
        forall i | 0 <= i < |p| - 1
          ensures HasEdge(g, p[i], p[i + 1])
        {
          if i < |p| - 2 {
            assert HasEdge(g, q[i], q[i + 1]);
          }
        }
      }
    }
  }

  /** Over arcs with non-negative attributes every total is non-negative. */
  lemma {:induction false} PathTotalsNonNegative(g: Graph, p: Path)
    requires NonNegativeArcs(g.arcs)
    ensures PathTotals(g, p).Some? ==>
      var t := PathTotals(g, p).value; t.distance >= 0.0 && t.cost >= 0.0 && t.time >= 0.0
    decreases |p|
  {
    if |p| > 1 {
      PathTotalsNonNegative(g, p[..|p| - 1]);
      AttrsOfArc(g.arcs, p[|p| - 2], p[|p| - 1]);
    }
  }

  /** The attributes found for a pair are those of an arc of the sequence. */
  lemma {:induction false} AttrsOfArc(arcs: seq<Arc>, u: NodeId, v: NodeId)
    requires NonNegativeArcs(arcs)
    ensures EdgeAttrsOf(arcs, u, v).Some? ==> NonNegativeAttrs(EdgeAttrsOf(arcs, u, v).value)
  {
    if arcs != [] && !(arcs[0].source == u && arcs[0].target == v) {
      assert forall k :: 0 <= k < |arcs| - 1 ==> arcs[1..][k] == arcs[k + 1];
      AttrsOfArc(arcs[1..], u, v);
    }
  }

  /** The `for` loop of the handler: it stops (the handler throws) at the
      first leg that is not an arc. */
  method SumPathTotals(g: Graph, path: Path) returns (r: Option<Totals>)
    ensures r == PathTotals(g, path)
    ensures r.Some? <==> EdgePath(g, path)
  {
    PathTotalsDefined(g, path);
    if |path| == 0 {
      return Some(NoTotals);
    }
    var acc := NoTotals;
    var i := 0;
    while i < |path| - 1
      invariant 0 <= i <= |path| - 1
      invariant PathTotals(g, path[..i + 1]) == Some(acc)
    {
      var edgeData := EdgeAttrsOf(g.arcs, path[i], path[i + 1]);
      if edgeData.None? {
        MissingLeg(g, path, i);
        return None;
      }
      TotalsStep(g, path, i, acc);
      acc := AddLeg(acc, edgeData.value);
      i := i + 1;
    }
    assert path[..i + 1] == path;
    r := Some(acc);
  }

  /** Extending a prefix by one arc adds that arc's attributes to its totals. */
  lemma TotalsStep(g: Graph, path: Path, i: nat, t: Totals)
    requires i + 1 < |path| && PathTotals(g, path[..i + 1]) == Some(t)
    requires EdgeAttrsOf(g.arcs, path[i], path[i + 1]).Some?
    ensures PathTotals(g, path[..i + 2]) == Some(AddLeg(t, EdgeAttrsOf(g.arcs, path[i], path[i + 1]).value))
  {
    var next := path[..i + 2];
    assert next[..|next| - 1] == path[..i + 1];
    assert next[|next| - 2] == path[i] && next[|next| - 1] == path[i + 1];
  }

  /** A leg that is not an arc leaves the whole path without totals. */
  lemma MissingLeg(g: Graph, path: Path, i: nat)
    requires i + 1 < |path| && EdgeAttrsOf(g.arcs, path[i], path[i + 1]).None?
    ensures PathTotals(g, path) == None
  {
    EdgeAttrsOfSpec(g.arcs, path[i], path[i + 1]);
    PathTotalsDefined(g, path);
  }

  // ---------------------------------------------------------------------
  // `/find-paths`

  datatype PathReport = PathReport(path: Path, hops: int, totalDistance: real, totalCost: real, totalTime: real)

  function ReportOf(p: Path, t: Totals): PathReport
  {
    PathReport(p, |p| - 1, t.distance, t.cost, t.time)
  }

  /** Sorting by `a.totalCost - b.totalCost` is sorting by descending negated cost. */
  function CostKey(r: PathReport): real
  {
    -r.totalCost
  }

  /** `paths.map(...)`: one report per path, or `None` when a path's totals throw. */
  function Reports(g: Graph, paths: seq<Path>): (r: Option<seq<PathReport>>)
    ensures r.Some? <==> forall i :: 0 <= i < |paths| ==> PathTotals(g, paths[i]).Some?
    ensures r.Some? ==> |r.value| == |paths|
    ensures r.Some? ==> forall i :: 0 <= i < |paths| ==> r.value[i] == ReportOf(paths[i], PathTotals(g, paths[i]).value)
  {
    if paths == [] then Some([])
    else
      assert forall i :: 1 <= i < |paths| ==> paths[i] == paths[1..][i - 1];
      match PathTotals(g, paths[0])
      case None => None
      case Some(t) =>
        match Reports(g, paths[1..])
        case None => None
        case Some(rest) => Some([ReportOf(paths[0], t)] + rest)
  }

  datatype FindPathsResponse = FindPathsResponse(source: NodeId, target: NodeId, pathsFound: nat, paths: seq<PathReport>)

  /** The request's `maxPaths`, 5 when absent. */
  function RequestMaxPaths(maxPaths: Option<int>): int
  {
    if maxPaths.Some? then maxPaths.value else 5
  }

  /** The handler once the graph is built: check the endpoints, search,
      total each path and sort by ascending cost. */
  function PathsResponse(g: Graph, s: NodeId, t: NodeId, maxPaths: int): Result<FindPathsResponse, HttpError>
  {
    if !HasNode(g, s) || !HasNode(g, t) then Failure(NotFound)
    else
      match FindAlternativePaths(g, s, t, maxPaths)
      case Failure(_) => Failure(ServerError)
      case Success(paths) =>
        match Reports(g, paths)
        case None => Failure(ServerError)
        case Some(reports) =>
          var sorted := SortDesc(reports, CostKey);
          Success(FindPathsResponse(s, t, |sorted|, sorted))
  }

  function FindPaths(nodes: seq<NodeRecord>, routes: seq<RouteRecord>, lib: Centralities,
                     source: Option<string>, target: Option<string>, maxPaths: Option<int>): Result<FindPathsResponse, HttpError>
  {
    if !Truthy(source) || !Truthy(target) then Failure(BadRequest)
    else if nodes == [] then Failure(BadRequest)
    else
      match CalculateAllMetrics(nodes, routes, lib)
      case Failure(_) => Failure(ServerError)
      case Success(m) => PathsResponse(m.graph, source.value, target.value, RequestMaxPaths(maxPaths))
  }

  /** On a valid graph the only failure is an unknown endpoint: the search
      cannot meet an unknown node and every path it finds has totals. */
  lemma PathsResponseFailure(g: Graph, s: NodeId, t: NodeId, maxPaths: int)
    requires Valid(g)
    ensures var r := PathsResponse(g, s, t, maxPaths);
      && (r.Failure? <==> !HasNode(g, s) || !HasNode(g, t))
      && (r.Failure? ==> r.error == NotFound)
  {
    if HasNode(g, s) && HasNode(g, t) {
      FindAlternativePathsSpec(g, s, t, maxPaths);
      var paths := FindAlternativePaths(g, s, t, maxPaths).value;
      forall i | 0 <= i < |paths|
        ensures PathTotals(g, paths[i]).Some?
      {
        PathTotalsDefined(g, paths[i]);
      }
    }
  }

  /** The paths the reports are about, in report order. */
  function PathsOf(rs: seq<PathReport>): seq<Path>
  {
    seq(|rs|, i requires 0 <= i < |rs| => rs[i].path)
  }

  lemma PathsOfAppend(a: seq<PathReport>, b: seq<PathReport>)
    ensures PathsOf(a + b) == PathsOf(a) + PathsOf(b)
  {
    assert forall i :: 0 <= i < |a| ==> (a + b)[i] == a[i];
    assert forall i :: |a| <= i < |a + b| ==> (a + b)[i] == b[i - |a|];
  }

  /** Taking one report out of the middle. */
  lemma RemoveAt(b: seq<PathReport>, j: nat) returns (b': seq<PathReport>)
    requires j < |b|
    ensures b' == b[..j] + b[j + 1..]
    ensures multiset(b') == multiset(b) - multiset{b[j]}
  {
    b' := b[..j] + b[j + 1..];
    assert b == b[..j] + [b[j]] + b[j + 1..];
  }

  /** The paths of the reports around one report are its path taken out. */
  lemma PathsAround(b: seq<PathReport>, j: nat)
    requires j < |b|
    ensures multiset(PathsOf(b)) == multiset(PathsOf(b[..j] + b[j + 1..])) + multiset{b[j].path}
  {
    var front, back := b[..j], b[j + 1..];
    assert b == front + [b[j]] + back;
    PathsOfAppend(front + [b[j]], back);
    PathsOfAppend(front, [b[j]]);
    PathsOfAppend(front, back);
  }

  /** Reordering reports reorders their paths the same way. */
  lemma {:induction false} PathsOfPermutation(a: seq<PathReport>, b: seq<PathReport>)
    requires multiset(a) == multiset(b)
    ensures multiset(PathsOf(a)) == multiset(PathsOf(b))
    decreases |a|
  {
    if a == [] {
      assert |b| == |multiset(b)| == 0;
    } else {
      var x := a[0];
      var a' := a[1..];
      assert a == [x] + a';
      assert x in multiset(b);
      var j :| 0 <= j < |b| && b[j] == x;
      var b' := RemoveAt(b, j);
      PathsAround(b, j);
      assert multiset(a) == multiset{x} + multiset(a');
      assert multiset(a') == multiset(b');
      PathsOfPermutation(a', b');
      PathsOfAppend([x], a');
      assert PathsOf([x]) == [x.path];
      assert multiset(PathsOf(a)) == multiset{x.path} + multiset(PathsOf(a'));
    }
  }

  /** The sorted reports are a reordering of one report per found path, and
      each carries the leg sums of its own path. */
  lemma PathsResponseReports(g: Graph, s: NodeId, t: NodeId, maxPaths: int)
    requires PathsResponse(g, s, t, maxPaths).Success?
    ensures var resp := PathsResponse(g, s, t, maxPaths).value;
      var found := FindAlternativePaths(g, s, t, maxPaths).value;
      && Reports(g, found).Some?
      && multiset(resp.paths) == multiset(Reports(g, found).value)
      && multiset(PathsOf(resp.paths)) == multiset(found)
      && (forall i :: 0 <= i < |resp.paths| ==>
            && resp.paths[i].path in found
            && PathTotals(g, resp.paths[i].path).Some?
            && resp.paths[i] == ReportOf(resp.paths[i].path, PathTotals(g, resp.paths[i].path).value))
  {
    var found := FindAlternativePaths(g, s, t, maxPaths).value;
    var reports := Reports(g, found).value;
    var resp := PathsResponse(g, s, t, maxPaths).value;
    assert resp.paths == SortDesc(reports, CostKey);
    SortDescCorrect(reports, CostKey);
    PathsOfPermutation(resp.paths, reports);
    assert PathsOf(reports) == found;
    forall i | 0 <= i < |resp.paths|
      ensures resp.paths[i].path in found
      ensures PathTotals(g, resp.paths[i].path).Some?
      ensures resp.paths[i] == ReportOf(resp.paths[i].path, PathTotals(g, resp.paths[i].path).value)
    {
      assert resp.paths[i] in multiset(reports);
      var k :| 0 <= k < |reports| && reports[k] == resp.paths[i];
    }
  }

  /** The successful response: `pathsFound` counts the paths, the reports
      are a reordering of one report per found path, each carrying its own
      path's hop count and leg sums, costs never decrease along the list, and
      totals are non-negative over arcs with non-negative attributes. */
  lemma PathsResponseResult(g: Graph, s: NodeId, t: NodeId, maxPaths: int)
    requires PathsResponse(g, s, t, maxPaths).Success?
    ensures var resp := PathsResponse(g, s, t, maxPaths).value;
      var found := FindAlternativePaths(g, s, t, maxPaths).value;
      && resp.source == s && resp.target == t
      && resp.pathsFound == |resp.paths| == |found|
      && multiset(PathsOf(resp.paths)) == multiset(found)
      && (forall i :: 0 <= i < |resp.paths| ==>
            && PathTotals(g, resp.paths[i].path).Some?
            && resp.paths[i] == ReportOf(resp.paths[i].path, PathTotals(g, resp.paths[i].path).value))
      && (forall i :: 0 <= i < |resp.paths| ==>
            && resp.paths[i].path in found
            && Complete(g, s, t, resp.paths[i].path)
            && resp.paths[i].hops == |resp.paths[i].path| - 1)
      && (forall i, j :: 0 <= i < j < |resp.paths| ==> resp.paths[i].totalCost <= resp.paths[j].totalCost)
      && (NonNegativeArcs(g.arcs) ==>
            forall i :: 0 <= i < |resp.paths| ==>
              resp.paths[i].totalDistance >= 0.0 && resp.paths[i].totalCost >= 0.0 && resp.paths[i].totalTime >= 0.0)
  {
    FindAlternativePathsSpec(g, s, t, maxPaths);
    var found := FindAlternativePaths(g, s, t, maxPaths).value;
    var reports := Reports(g, found).value;
    var resp := PathsResponse(g, s, t, maxPaths).value;
    assert resp.paths == SortDesc(reports, CostKey);
    SortDescCorrect(reports, CostKey);
    PathsResponseReports(g, s, t, maxPaths);
    if NonNegativeArcs(g.arcs) {
      forall i | 0 <= i < |resp.paths|
        ensures resp.paths[i].totalDistance >= 0.0 && resp.paths[i].totalCost >= 0.0 && resp.paths[i].totalTime >= 0.0
      {
        PathTotalsNonNegative(g, resp.paths[i].path);
      }
    }
  }

  /** Which requests fail and how: 400 without both endpoints or without
      nodes, 500 on repeated node ids, 404 when an endpoint is not a node;
      otherwise the response is the one for the built graph, whose totals are
      non-negative when every route passed the schema. */
  lemma FindPathsSpec(nodes: seq<NodeRecord>, routes: seq<RouteRecord>, lib: Centralities,
                      source: Option<string>, target: Option<string>, maxPaths: Option<int>)
    ensures var r := FindPaths(nodes, routes, lib, source, target, maxPaths);
      && (r == Failure(BadRequest) <==> !Truthy(source) || !Truthy(target) || nodes == [])
      && (r == Failure(ServerError) <==> Truthy(source) && Truthy(target) && nodes != [] && !UniqueNodeIds(nodes))
      && (r == Failure(NotFound) <==>
            && Truthy(source) && Truthy(target) && nodes != [] && UniqueNodeIds(nodes)
            && (source.value !in NodeIdsOf(nodes) || target.value !in NodeIdsOf(nodes)))
      && (r.Success? ==>
            && r == PathsResponse(BuildGraph(nodes, routes).value, source.value, target.value, RequestMaxPaths(maxPaths))
            && ((forall k :: 0 <= k < |routes| ==> WellFormedRoute(routes[k])) ==>
                  NonNegativeArcs(BuildGraph(nodes, routes).value.arcs)))
  {
    if Truthy(source) && Truthy(target) && nodes != [] && UniqueNodeIds(nodes) {
      var g := BuildGraph(nodes, routes).value;
      PathsResponseFailure(g, source.value, target.value, RequestMaxPaths(maxPaths));
      if forall k :: 0 <= k < |routes| ==> WellFormedRoute(routes[k]) {
        BuildGraphNonNegative(nodes, routes);
      }
    }
  }

  // ---------------------------------------------------------------------
  // `/simulate-disruption`

  datatype DisruptionType = NodeDisruption | EdgeDisruption

  /** The recommendation line: the number of alternatives, or the critical
      message when there is none. */
  datatype Advice = AlternativesAvailable(count: nat) | CriticalDisruption

  datatype Impact = Impact(
    affectedNodes: seq<NodeId>,
    networkSizeBefore: nat,
    networkSizeAfter: nat,
    edgesBefore: nat,
    edgesAfter: nat,
    nodesDisconnected: nat)

  /** `alternativePaths` is `[]` where the source sends its
      "no alternative paths" string. */
  datatype DisruptionResponse = DisruptionResponse(
    disruptionType: DisruptionType,
    disruptedElement: string,
    impact: Impact,
    alternativePaths: seq<Path>,
    recommendation: Advice)

  /** The alternative paths the handler searches for, always on the graph
      before the disruption and only when both edge ends are given. */
  function Alternatives(g: Graph, edgeSource: Option<string>, edgeTarget: Option<string>): Result<seq<Path>, PathError>
  {
    if Truthy(edgeSource) && Truthy(edgeTarget) then FindAlternativePaths(g, edgeSource.value, edgeTarget.value, 5)
    else Success([])
  }

  /** The handler's work once the graph is built: disrupt a copy, search
      alternatives in the graph before the disruption, shape the report. */
  function DisruptionOn(g: Graph, lib: Centralities,
                        nodeId: Option<string>, edgeSource: Option<string>, edgeTarget: Option<string>)
    : Result<DisruptionResponse, HttpError>
    requires Truthy(nodeId) || (Truthy(edgeSource) && Truthy(edgeTarget))
  {
    var d := SimulateDisruption(g, nodeId, edgeSource, edgeTarget, lib);
    match Alternatives(g, edgeSource, edgeTarget)
    case Failure(_) => Failure(ServerError)
    case Success(paths) =>
      Success(DisruptionResponse(
        if Truthy(nodeId) then NodeDisruption else EdgeDisruption,
        if Truthy(nodeId) then nodeId.value else edgeSource.value + " -> " + edgeTarget.value,
        Impact(d.affectedNodes, Order(g), d.networkSize, Size(g), d.networkEdges, |d.affectedNodes|),
        paths,
        if |paths| > 0 then AlternativesAvailable(|paths|) else CriticalDisruption))
  }

  function SimulateDisruptionRequest(nodes: seq<NodeRecord>, routes: seq<RouteRecord>, lib: Centralities,
                                     nodeId: Option<string>, edgeSource: Option<string>, edgeTarget: Option<string>)
    : Result<DisruptionResponse, HttpError>
  {
    if !Truthy(nodeId) && (!Truthy(edgeSource) || !Truthy(edgeTarget)) then Failure(BadRequest)
    else if nodes == [] then Failure(BadRequest)
    else
      match CalculateAllMetrics(nodes, routes, lib)
      case Failure(_) => Failure(ServerError)
      case Success(m) => DisruptionOn(m.graph, lib, nodeId, edgeSource, edgeTarget)
  }

  /** On a valid graph the disruption fails only with a 500, exactly when the
      path search has to expand an edge source that is not a node. */
  lemma DisruptionOnFailure(g: Graph, lib: Centralities,
                            nodeId: Option<string>, edgeSource: Option<string>, edgeTarget: Option<string>)
    requires Valid(g) && (Truthy(nodeId) || (Truthy(edgeSource) && Truthy(edgeTarget)))
    ensures var r := DisruptionOn(g, lib, nodeId, edgeSource, edgeTarget);
      && (r.Failure? <==> Truthy(edgeSource) && Truthy(edgeTarget) && edgeSource.value != edgeTarget.value
                          && !HasNode(g, edgeSource.value))
      && (r.Failure? ==> r.error == ServerError)
  {
    if Truthy(edgeSource) && Truthy(edgeTarget) {
      FindAlternativePathsSpec(g, edgeSource.value, edgeTarget.value, 5);
    }
  }

  /** Which disruption requests fail: 400 without a node or a full edge or
      without nodes, 500 on repeated node ids or when the path search has to
      expand an edge source that is not a node; never 404. */
  lemma SimulateDisruptionRequestSpec(nodes: seq<NodeRecord>, routes: seq<RouteRecord>, lib: Centralities,
                                      nodeId: Option<string>, edgeSource: Option<string>, edgeTarget: Option<string>)
    ensures var r := SimulateDisruptionRequest(nodes, routes, lib, nodeId, edgeSource, edgeTarget);
      && (r == Failure(BadRequest) <==> (!Truthy(nodeId) && (!Truthy(edgeSource) || !Truthy(edgeTarget))) || nodes == [])
      && (r == Failure(ServerError) <==>
            && (Truthy(nodeId) || (Truthy(edgeSource) && Truthy(edgeTarget))) && nodes != []
            && (!UniqueNodeIds(nodes)
                || (Truthy(edgeSource) && Truthy(edgeTarget) && edgeSource.value != edgeTarget.value
                    && edgeSource.value !in NodeIdsOf(nodes))))
      && r != Failure(NotFound)
  {
    if (Truthy(nodeId) || (Truthy(edgeSource) && Truthy(edgeTarget))) && nodes != [] && UniqueNodeIds(nodes) {
      var g := CalculateAllMetrics(nodes, routes, lib).value.graph;
      assert g.ids == NodeIdsOf(nodes);
      DisruptionOnFailure(g, lib, nodeId, edgeSource, edgeTarget);
    }
  }

  /** The successful disruption report on a valid graph: the type follows
      `nodeId`, the impact compares the graph before and after, the
      disconnected count is the number of isolated nodes, and the
      recommendation counts the alternatives. The alternatives are the
      search's result between the edge ends in the graph before the
      disruption: distinct simple paths, and all of them when fewer than five
      come back, so "no alternatives" means there is no such path. */
  lemma DisruptionOnResult(g: Graph, lib: Centralities,
                           nodeId: Option<string>, edgeSource: Option<string>, edgeTarget: Option<string>)
    requires Valid(g) && (Truthy(nodeId) || (Truthy(edgeSource) && Truthy(edgeTarget)))
    requires DisruptionOn(g, lib, nodeId, edgeSource, edgeTarget).Success?
    ensures var resp := DisruptionOn(g, lib, nodeId, edgeSource, edgeTarget).value;
      var h := Disrupted(g, nodeId, edgeSource, edgeTarget);
      && (resp.disruptionType == NodeDisruption <==> Truthy(nodeId))
      && (Truthy(nodeId) ==> resp.disruptedElement == nodeId.value)
      && (!Truthy(nodeId) ==> resp.disruptedElement == edgeSource.value + " -> " + edgeTarget.value)
      && resp.impact.networkSizeBefore == Order(g)
      && resp.impact.edgesBefore == Size(g)
      && resp.impact.networkSizeAfter == Order(h) && resp.impact.edgesAfter == Size(h)
      && NoDup(resp.impact.affectedNodes)
      && (forall w :: w in resp.impact.affectedNodes <==> HasNode(h, w) && Degree(h, w) == 0)
      && resp.impact.nodesDisconnected == |resp.impact.affectedNodes|
      && (resp.recommendation == CriticalDisruption <==> resp.alternativePaths == [])
      && (resp.recommendation.AlternativesAvailable? ==> resp.recommendation.count == |resp.alternativePaths|)
      && (!(Truthy(edgeSource) && Truthy(edgeTarget)) ==> resp.alternativePaths == [])
      && (Truthy(edgeSource) && Truthy(edgeTarget) ==>
            && FindAlternativePaths(g, edgeSource.value, edgeTarget.value, 5) == Success(resp.alternativePaths)
            && Answer(g, edgeSource.value, edgeTarget.value, resp.alternativePaths, 5)
            && Exhaustive(g, edgeSource.value, edgeTarget.value, resp.alternativePaths, 5)
            && NoDup(resp.alternativePaths))
  {
    SimulateDisruptionEffect(g, nodeId, edgeSource, edgeTarget, lib);
    if Truthy(edgeSource) && Truthy(edgeTarget) {
      FindAlternativePathsSpec(g, edgeSource.value, edgeTarget.value, 5);
    }
  }

  /** With a node or a full edge, stored nodes with distinct ids, and a
      distinct edge source that is a stored node, the request succeeds, and
      its report is the one of `DisruptionOnResult` on the graph `buildGraph`
      makes from the stored records, the size before being the number of
      stored nodes. */
  lemma SimulateDisruptionResult(nodes: seq<NodeRecord>, routes: seq<RouteRecord>, lib: Centralities,
                                 nodeId: Option<string>, edgeSource: Option<string>, edgeTarget: Option<string>)
    requires Truthy(nodeId) || (Truthy(edgeSource) && Truthy(edgeTarget))
    requires nodes != [] && UniqueNodeIds(nodes)
    requires Truthy(edgeSource) && Truthy(edgeTarget) && edgeSource.value != edgeTarget.value
             ==> edgeSource.value in NodeIdsOf(nodes)
    ensures SimulateDisruptionRequest(nodes, routes, lib, nodeId, edgeSource, edgeTarget).Success?
    ensures var resp := SimulateDisruptionRequest(nodes, routes, lib, nodeId, edgeSource, edgeTarget).value;
      var g := BuildGraph(nodes, routes).value;
      var h := Disrupted(g, nodeId, edgeSource, edgeTarget);
      && (resp.disruptionType == NodeDisruption <==> Truthy(nodeId))
      && (Truthy(nodeId) ==> resp.disruptedElement == nodeId.value)
      && (!Truthy(nodeId) ==> resp.disruptedElement == edgeSource.value + " -> " + edgeTarget.value)
      && resp.impact.networkSizeBefore == |nodes|
      && resp.impact.edgesBefore == Size(g)
      && resp.impact.networkSizeAfter == Order(h) && resp.impact.edgesAfter == Size(h)
      && NoDup(resp.impact.affectedNodes)
      && (forall w :: w in resp.impact.affectedNodes <==> HasNode(h, w) && Degree(h, w) == 0)
      && resp.impact.nodesDisconnected == |resp.impact.affectedNodes|
      && (resp.recommendation == CriticalDisruption <==> resp.alternativePaths == [])
      && (resp.recommendation.AlternativesAvailable? ==> resp.recommendation.count == |resp.alternativePaths|)
      && (!(Truthy(edgeSource) && Truthy(edgeTarget)) ==> resp.alternativePaths == [])
      && (Truthy(edgeSource) && Truthy(edgeTarget) ==>
            && FindAlternativePaths(g, edgeSource.value, edgeTarget.value, 5) == Success(resp.alternativePaths)
            && Answer(g, edgeSource.value, edgeTarget.value, resp.alternativePaths, 5)
            && Exhaustive(g, edgeSource.value, edgeTarget.value, resp.alternativePaths, 5)
            && NoDup(resp.alternativePaths))
  {
    SimulateDisruptionRequestSpec(nodes, routes, lib, nodeId, edgeSource, edgeTarget);
    var g := CalculateAllMetrics(nodes, routes, lib).value.graph;
    assert SimulateDisruptionRequest(nodes, routes, lib, nodeId, edgeSource, edgeTarget)
           == DisruptionOn(g, lib, nodeId, edgeSource, edgeTarget);
    DisruptionOnResult(g, lib, nodeId, edgeSource, edgeTarget);
  }

  /** The alternatives are searched in the graph before the disruption, so a
      disrupted arc that exists is itself offered, as the first alternative. */
  lemma DisruptedArcOfferedFirst(nodes: seq<NodeRecord>, routes: seq<RouteRecord>, lib: Centralities,
                                 edgeSource: string, edgeTarget: string)
    requires nodes != [] && UniqueNodeIds(nodes) && edgeSource != "" && edgeTarget != ""
    requires HasEdge(BuildGraph(nodes, routes).value, edgeSource, edgeTarget)
    ensures var r := SimulateDisruptionRequest(nodes, routes, lib, None, Some(edgeSource), Some(edgeTarget));
      && r.Success?
      && r.value.disruptionType == EdgeDisruption
      && r.value.disruptedElement == edgeSource + " -> " + edgeTarget
      && r.value.impact.edgesAfter == r.value.impact.edgesBefore - 1
      && r.value.alternativePaths != [] && r.value.alternativePaths[0] == [edgeSource, edgeTarget]
  {
    var g := BuildGraph(nodes, routes).value;
    DirectEdgeFoundFirst(g, edgeSource, edgeTarget, 5);
    SimulateDisruptionEffect(g, None, Some(edgeSource), Some(edgeTarget), lib);
  }
}
