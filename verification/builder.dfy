/** `buildGraph`: one graph node per node record, then one arc per route whose
    endpoints both exist, skipping self-loops and repeated endpoint pairs. */
module Builder {
  import opened Base
  import opened Records
  import opened Graphs

  /** `addNode` throws on an id that is already present; nothing catches it. */
  datatype BuildError = DuplicateNode(id: NodeId)

  const EmptyGraph := Graph([], map[], [])

  function NodeIdsOf(nodes: seq<NodeRecord>): seq<NodeId>
  {
    seq(|nodes|, i requires 0 <= i < |nodes| => nodes[i].nodeId)
  }

  function NodeAttrsOf(n: NodeRecord): NodeAttrs
  {
    NodeAttrs(n.name, n.nodeType, n.latitude, n.longitude, n.capacity, n.region, n.status)
  }

  function RouteAttrs(r: RouteRecord): EdgeAttrs
  {
    EdgeAttrs(r.distance, r.cost, r.time, r.status, r.transportMode, r.riskLevel)
  }

  /** A route that `addEdge` accepts into a graph on the nodes `ids` (ignoring
      arcs already present): both endpoints exist and differ. */
  predicate Eligible(ids: seq<NodeId>, r: RouteRecord)
  {
    r.source in ids && r.target in ids && r.source != r.target
  }

  function AddNodes(g: Graph, nodes: seq<NodeRecord>): Result<Graph, BuildError>
    decreases |nodes|
  {
    if nodes == [] then Success(g)
    else if HasNode(g, nodes[0].nodeId) then Failure(DuplicateNode(nodes[0].nodeId))
    else
      var n := nodes[0];
      AddNodes(Graph(g.ids + [n.nodeId], g.attrs[n.nodeId := NodeAttrsOf(n)], g.arcs), nodes[1..])
  }

  /** One iteration of the route loop: the `hasNode` guard, then `addEdge`,
      whose throw on a self-loop or an existing arc is caught and ignored. */
  function AddRoute(g: Graph, r: RouteRecord): Graph
  {
    if HasNode(g, r.source) && HasNode(g, r.target) then
      if r.source == r.target || HasEdge(g, r.source, r.target) then g
      else Graph(g.ids, g.attrs, g.arcs + [Arc(r.source, r.target, RouteAttrs(r))])
    else g
  }

  function AddRoutes(g: Graph, routes: seq<RouteRecord>): Graph
    decreases |routes|
  {
    if routes == [] then g else AddRoutes(AddRoute(g, routes[0]), routes[1..])
  }

  function BuildGraph(nodes: seq<NodeRecord>, routes: seq<RouteRecord>): (r: Result<Graph, BuildError>)
    ensures r.Success? <==> UniqueNodeIds(nodes)
    ensures r.Success? ==> Valid(r.value) && r.value.ids == NodeIdsOf(nodes)
    ensures r.Success? ==> forall i :: 0 <= i < |nodes| ==> nodes[i].nodeId in r.value.attrs && r.value.attrs[nodes[i].nodeId] == NodeAttrsOf(nodes[i])
  {
    AddNodesSpec(EmptyGraph, nodes);
    assert EmptyGraph.ids + NodeIdsOf(nodes) == NodeIdsOf(nodes);
    UniqueIdsNoDup(nodes);
    match AddNodes(EmptyGraph, nodes)
    case Failure(e) => Failure(e)
    case Success(g) =>
      AddRoutesValid(g, routes);
      Success(AddRoutes(g, routes))
  }

  // ---------------------------------------------------------------------
  // Nodes

  lemma UniqueIdsNoDup(nodes: seq<NodeRecord>)
    ensures UniqueNodeIds(nodes) <==> NoDup(NodeIdsOf(nodes))
  {
    var ids := NodeIdsOf(nodes);
    if NoDup(ids) {
      forall i, j | 0 <= i < j < |nodes|
        ensures nodes[i].nodeId != nodes[j].nodeId
      {
        assert ids[i] != ids[j];
      }
    }
  }

  lemma NoDupLeft(a: seq<NodeId>, b: seq<NodeId>)
    requires NoDup(a + b)
    ensures NoDup(a)
  {
    forall i, j | 0 <= i < j < |a|
      ensures a[i] != a[j]
    {
      assert a[i] == (a + b)[i] && a[j] == (a + b)[j];
    }
  }

  /** Once the first node is in, the attributes the rest of the nodes leave
      cover every node. */
  lemma AddNodesAttrs(g': Graph, nodes: seq<NodeRecord>)
    requires nodes != [] && nodes[0].nodeId in g'.attrs && g'.attrs[nodes[0].nodeId] == NodeAttrsOf(nodes[0])
    requires AddNodes(g', nodes[1..]).Success?
    requires var h := AddNodes(g', nodes[1..]).value;
      && (forall x :: x in g'.attrs ==> x in h.attrs && h.attrs[x] == g'.attrs[x])
      && (forall i :: 0 <= i < |nodes[1..]| ==> nodes[1..][i].nodeId in h.attrs && h.attrs[nodes[1..][i].nodeId] == NodeAttrsOf(nodes[1..][i]))
    ensures var h := AddNodes(g', nodes[1..]).value;
      forall i :: 0 <= i < |nodes| ==> nodes[i].nodeId in h.attrs && h.attrs[nodes[i].nodeId] == NodeAttrsOf(nodes[i])
  {
    var h := AddNodes(g', nodes[1..]).value;
    forall i | 0 <= i < |nodes|
      ensures nodes[i].nodeId in h.attrs && h.attrs[nodes[i].nodeId] == NodeAttrsOf(nodes[i])
    {
      if i > 0 {
        assert nodes[1..][i - 1] == nodes[i];
      }
    }
  }

  lemma NoDupSnoc(s: seq<NodeId>, x: NodeId)
    requires NoDup(s)
    ensures NoDup(s + [x]) <==> x !in s
  {
    if x in s {
      var k :| 0 <= k < |s| && s[k] == x;
      assert (s + [x])[k] == (s + [x])[|s|];
    }
  }

  lemma {:induction false} AddNodesSpec(g: Graph, nodes: seq<NodeRecord>)
    requires NoDup(g.ids) && g.arcs == [] && g.attrs.Keys == Elems(g.ids)
    ensures AddNodes(g, nodes).Success? <==> NoDup(g.ids + NodeIdsOf(nodes))
    ensures AddNodes(g, nodes).Success? ==>
      var h := AddNodes(g, nodes).value;
      && h.ids == g.ids + NodeIdsOf(nodes) && h.arcs == [] && h.attrs.Keys == Elems(h.ids)
      && (forall x :: x in g.attrs ==> h.attrs[x] == g.attrs[x])
      && (forall i :: 0 <= i < |nodes| ==> nodes[i].nodeId in h.attrs && h.attrs[nodes[i].nodeId] == NodeAttrsOf(nodes[i]))
    decreases |nodes|
  {
    if nodes == [] {
      assert g.ids + NodeIdsOf(nodes) == g.ids;
    } else {
      var n := nodes[0];
      var all := g.ids + NodeIdsOf(nodes);
      assert all == (g.ids + [n.nodeId]) + NodeIdsOf(nodes[1..]);
      if HasNode(g, n.nodeId) {
        var k :| 0 <= k < |g.ids| && g.ids[k] == n.nodeId;
        assert all[k] == all[|g.ids|];
      } else {
        NoDupSnoc(g.ids, n.nodeId);
        var g' := Graph(g.ids + [n.nodeId], g.attrs[n.nodeId := NodeAttrsOf(n)], g.arcs);
        assert g'.attrs.Keys == Elems(g'.ids);
        AddNodesSpec(g', nodes[1..]);
        if NoDup(all) {
          NoDupLeft(g.ids + [n.nodeId], NodeIdsOf(nodes[1..]));
        }
        if AddNodes(g, nodes).Success? {
          AddNodesAttrs(g', nodes);
        }
      }
    }
  }

  // ---------------------------------------------------------------------
  // Routes

  lemma AddRouteValid(g: Graph, r: RouteRecord)
    requires Valid(g)
    ensures var h := AddRoute(g, r);
      && Valid(h) && h.ids == g.ids && h.attrs == g.attrs
      && (exists more :: h.arcs == g.arcs + more)
  {
    var h := AddRoute(g, r);
    if h.arcs != g.arcs {
      var a := Arc(r.source, r.target, RouteAttrs(r));
      assert h.arcs == g.arcs + [a];
      forall i, j | 0 <= i < j < |h.arcs|
        ensures Pair(h.arcs[i]) != Pair(h.arcs[j])
      {
        if j == |g.arcs| {
          assert h.arcs[i] == g.arcs[i];
          assert !(g.arcs[i].source == r.source && g.arcs[i].target == r.target);
        }
      }
    } else {
      assert h.arcs == g.arcs + [];
    }
  }

  lemma {:induction false} AddRoutesValid(g: Graph, routes: seq<RouteRecord>)
    requires Valid(g)
    ensures var h := AddRoutes(g, routes);
      && Valid(h) && h.ids == g.ids && h.attrs == g.attrs
      && (exists more :: h.arcs == g.arcs + more)
    decreases |routes|
  {
    if routes != [] {
      var g' := AddRoute(g, routes[0]);
      AddRouteValid(g, routes[0]);
      AddRoutesValid(g', routes[1..]);
      var m1 :| g'.arcs == g.arcs + m1;
      var m2 :| AddRoutes(g', routes[1..]).arcs == g'.arcs + m2;
      assert AddRoutes(g, routes).arcs == g.arcs + (m1 + m2);
    } else {
      assert g.arcs == g.arcs + [];
    }
  }

  lemma HasArcSnoc(arcs: seq<Arc>, a: Arc, u: NodeId, v: NodeId)
    ensures HasArc(arcs + [a], u, v) <==> HasArc(arcs, u, v) || (a.source == u && a.target == v)
  {
    var s := arcs + [a];
    if HasArc(arcs, u, v) {
      var i :| 0 <= i < |arcs| && arcs[i].source == u && arcs[i].target == v;
      assert s[i] == arcs[i];
    }
    if a.source == u && a.target == v {
      assert s[|arcs|] == a;
    }
    if HasArc(s, u, v) {
      var i :| 0 <= i < |s| && s[i].source == u && s[i].target == v;
      if i < |arcs| {
        assert arcs[i] == s[i];
      }
    }
  }

  /** An arc from `u` to `v` is in the built graph iff it was there before or
      some route from `u` to `v` is eligible: routes with a missing endpoint
      and self-loops are dropped, and nothing else is. */
  lemma {:induction false} AddRoutesEdges(g: Graph, routes: seq<RouteRecord>, u: NodeId, v: NodeId)
    ensures HasEdge(AddRoutes(g, routes), u, v)
        <==> HasEdge(g, u, v)
             || exists i :: 0 <= i < |routes| && routes[i].source == u && routes[i].target == v
                            && Eligible(g.ids, routes[i])
    decreases |routes|
  {
    if routes != [] {
      var r := routes[0];
      var g' := AddRoute(g, r);
      AddRoutesEdges(g', routes[1..], u, v);
      assert g'.ids == g.ids;
      if g'.arcs != g.arcs {
        HasArcSnoc(g.arcs, Arc(r.source, r.target, RouteAttrs(r)), u, v);
      }
      if exists i :: 0 <= i < |routes| && routes[i].source == u && routes[i].target == v
                     && Eligible(g.ids, routes[i]) {
        var i :| 0 <= i < |routes| && routes[i].source == u && routes[i].target == v
                 && Eligible(g.ids, routes[i]);
        if i > 0 {
          assert routes[1..][i - 1] == routes[i];
        }
      }
      if exists i :: 0 <= i < |routes[1..]| && routes[1..][i].source == u && routes[1..][i].target == v
                     && Eligible(g'.ids, routes[1..][i]) {
        var i :| 0 <= i < |routes[1..]| && routes[1..][i].source == u && routes[1..][i].target == v
                 && Eligible(g'.ids, routes[1..][i]);
        assert routes[i + 1] == routes[1..][i];
      }
    }
  }

  lemma {:induction false} EdgeAttrsOfExtend(arcs: seq<Arc>, more: seq<Arc>, u: NodeId, v: NodeId)
    requires EdgeAttrsOf(arcs, u, v).Some?
    ensures EdgeAttrsOf(arcs + more, u, v) == EdgeAttrsOf(arcs, u, v)
  {
    if !(arcs[0].source == u && arcs[0].target == v) {
      assert (arcs + more)[1..] == arcs[1..] + more;
      EdgeAttrsOfExtend(arcs[1..], more, u, v);
    }
  }

  lemma {:induction false} EdgeAttrsOfAppendNew(arcs: seq<Arc>, a: Arc)
    requires !HasArc(arcs, a.source, a.target)
    ensures EdgeAttrsOf(arcs + [a], a.source, a.target) == Some(a.attrs)
  {
    if arcs == [] {
      assert arcs + [a] == [a];
    } else {
      assert arcs == [arcs[0]] + arcs[1..];
      HasArcCons(arcs[0], arcs[1..], a.source, a.target);
      assert (arcs + [a])[1..] == arcs[1..] + [a];
      EdgeAttrsOfAppendNew(arcs[1..], a);
    }
  }

  /** For a repeated endpoint pair the first eligible route wins: the arc
      carries that route's attributes and later duplicates are skipped. */
  lemma {:induction false} AddRoutesFirstWins(g: Graph, routes: seq<RouteRecord>, i: nat)
    requires i < |routes| && Eligible(g.ids, routes[i])
    requires !HasEdge(g, routes[i].source, routes[i].target)
    requires forall j :: 0 <= j < i ==> (routes[j].source, routes[j].target) != (routes[i].source, routes[i].target)
    ensures EdgeAttrsOf(AddRoutes(g, routes).arcs, routes[i].source, routes[i].target) == Some(RouteAttrs(routes[i]))
    decreases |routes|
  {
    var r := routes[0];
    var g' := AddRoute(g, r);
    var u, v := routes[i].source, routes[i].target;
    if i == 0 {
      var a := Arc(u, v, RouteAttrs(r));
      assert g'.arcs == g.arcs + [a];
      EdgeAttrsOfAppendNew(g.arcs, a);
      AddRoutesPrefix(g', routes[1..]);
      var more :| AddRoutes(g', routes[1..]).arcs == g'.arcs + more;
      EdgeAttrsOfExtend(g'.arcs, more, u, v);
    } else {
      assert !HasEdge(g', u, v) by {
        if g'.arcs != g.arcs {
          HasArcSnoc(g.arcs, Arc(r.source, r.target, RouteAttrs(r)), u, v);
        }
      }
      assert routes[1..][i - 1] == routes[i];
      AddRoutesFirstWins(g', routes[1..], i - 1);
    }
  }

  lemma {:induction false} AddRoutesPrefix(g: Graph, routes: seq<RouteRecord>)
    ensures exists more :: AddRoutes(g, routes).arcs == g.arcs + more
    decreases |routes|
  {
    if routes == [] {
      assert g.arcs == g.arcs + [];
    } else {
      var g' := AddRoute(g, routes[0]);
      var m1: seq<Arc> := if g'.arcs == g.arcs then [] else [Arc(routes[0].source, routes[0].target, RouteAttrs(routes[0]))];
      assert g'.arcs == g.arcs + m1;
      AddRoutesPrefix(g', routes[1..]);
      var m2 :| AddRoutes(g', routes[1..]).arcs == g'.arcs + m2;
      assert AddRoutes(g, routes).arcs == g.arcs + (m1 + m2);
    }
  }

  /** Number of routes that `addEdge` would accept on a graph with nodes `ids`. */
  function EligibleCount(ids: seq<NodeId>, routes: seq<RouteRecord>): nat
  {
    if routes == [] then 0
    else (if Eligible(ids, routes[0]) then 1 else 0) + EligibleCount(ids, routes[1..])
  }

  /** With no repeated endpoint pair among the routes, every eligible route
      becomes an arc: nothing is lost to the duplicate-arc skip. */
  lemma {:induction false} AddRoutesDistinctSize(g: Graph, routes: seq<RouteRecord>)
    requires DistinctRoutePairs(routes)
    requires forall i :: 0 <= i < |routes| ==> !HasEdge(g, routes[i].source, routes[i].target)
    ensures Size(AddRoutes(g, routes)) == Size(g) + EligibleCount(g.ids, routes)
    decreases |routes|
  {
    if routes != [] {
      var r := routes[0];
      var g' := AddRoute(g, r);
      var rest := routes[1..];
      assert DistinctRoutePairs(rest) by {
        forall i, j | 0 <= i < j < |rest|
          ensures (rest[i].source, rest[i].target) != (rest[j].source, rest[j].target)
        {
          assert rest[i] == routes[i + 1] && rest[j] == routes[j + 1];
        }
      }
      forall i | 0 <= i < |rest|
        ensures !HasEdge(g', rest[i].source, rest[i].target)
      {
        assert rest[i] == routes[i + 1];
        assert (routes[0].source, routes[0].target) != (routes[i + 1].source, routes[i + 1].target);
        if g'.arcs != g.arcs {
          HasArcSnoc(g.arcs, Arc(r.source, r.target, RouteAttrs(r)), rest[i].source, rest[i].target);
        }
      }
      AddRoutesDistinctSize(g', rest);
    }
  }

  // ---------------------------------------------------------------------
  // The properties of `buildGraph`

  /** The arcs of the built graph are exactly the eligible routes' pairs. */
  lemma BuildGraphEdges(nodes: seq<NodeRecord>, routes: seq<RouteRecord>, u: NodeId, v: NodeId)
    requires UniqueNodeIds(nodes)
    ensures HasEdge(BuildGraph(nodes, routes).value, u, v)
        <==> exists i :: 0 <= i < |routes| && routes[i].source == u && routes[i].target == v
                         && Eligible(NodeIdsOf(nodes), routes[i])
  {
    AddNodesSpec(EmptyGraph, nodes);
    var g := AddNodes(EmptyGraph, nodes).value;
    assert g.ids == NodeIdsOf(nodes);
    AddRoutesEdges(g, routes, u, v);
  }

  /** A route whose pair occurs first at position `i` and is eligible gives
      the built arc its attributes. */
  lemma BuildGraphFirstWins(nodes: seq<NodeRecord>, routes: seq<RouteRecord>, i: nat)
    requires UniqueNodeIds(nodes)
    requires i < |routes| && Eligible(NodeIdsOf(nodes), routes[i])
    requires forall j :: 0 <= j < i ==> (routes[j].source, routes[j].target) != (routes[i].source, routes[i].target)
    ensures EdgeAttrsOf(BuildGraph(nodes, routes).value.arcs, routes[i].source, routes[i].target)
         == Some(RouteAttrs(routes[i]))
  {
    AddNodesSpec(EmptyGraph, nodes);
    var g := AddNodes(EmptyGraph, nodes).value;
    AddRoutesFirstWins(g, routes, i);
  }

  /** One owner's routes never hit the duplicate-arc skip, so the graph has
      exactly one arc per route with two distinct, existing endpoints. */
  lemma BuildGraphOneOwner(nodes: seq<NodeRecord>, routes: seq<RouteRecord>, owner: Option<UserId>)
    requires UniqueNodeIds(nodes)
    requires UniqueRouteKeys(routes) && OwnedBy(routes, owner)
    ensures Size(BuildGraph(nodes, routes).value) == EligibleCount(NodeIdsOf(nodes), routes)
  {
    OneOwnerPairsDistinct(routes, owner);
    AddNodesSpec(EmptyGraph, nodes);
    UniqueIdsNoDup(nodes);
    assert EmptyGraph.ids + NodeIdsOf(nodes) == NodeIdsOf(nodes);
    var g := AddNodes(EmptyGraph, nodes).value;
    assert g.arcs == [] && g.ids == NodeIdsOf(nodes);
    forall i | 0 <= i < |routes|
      ensures !HasEdge(g, routes[i].source, routes[i].target)
    {
    }
    AddRoutesDistinctSize(g, routes);
  }

  /** Every arc carries the attributes of the route that added it, so routes
      that pass the schema give arcs with non-negative distance, cost and time. */
  lemma {:induction false} AddRoutesNonNegative(g: Graph, routes: seq<RouteRecord>)
    requires NonNegativeArcs(g.arcs)
    requires forall i :: 0 <= i < |routes| ==> NonNegativeAttrs(RouteAttrs(routes[i]))
    ensures NonNegativeArcs(AddRoutes(g, routes).arcs)
    decreases |routes|
  {
    if routes != [] {
      AddRoutesNonNegative(AddRoute(g, routes[0]), routes[1..]);
    }
  }

  lemma BuildGraphNonNegative(nodes: seq<NodeRecord>, routes: seq<RouteRecord>)
    requires UniqueNodeIds(nodes)
    requires forall i :: 0 <= i < |routes| ==> WellFormedRoute(routes[i])
    ensures NonNegativeArcs(BuildGraph(nodes, routes).value.arcs)
  {
    AddNodesSpec(EmptyGraph, nodes);
    assert EmptyGraph.ids + NodeIdsOf(nodes) == NodeIdsOf(nodes);
    UniqueIdsNoDup(nodes);
    AddRoutesNonNegative(AddNodes(EmptyGraph, nodes).value, routes);
  }
}
