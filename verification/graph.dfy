/** The directed graph the analysis runs on: a graphology `Graph` of type
    'directed' with `allowSelfLoops: false` and no parallel arcs. Node ids and
    arcs are kept in insertion order. The library enumerates nodes in that
    order, and the model also lists out-neighbours in arc insertion order;
    graphology reads them from the keys of a plain object, which puts
    integer-like ids first in ascending order. */
module Graphs {
  import opened Base
  import opened Records

  type NodeId = string

  /** The node attributes copied from a node record; no algorithm reads them. */
  datatype NodeAttrs = NodeAttrs(
    name: string,
    nodeType: NodeType,
    latitude: real,
    longitude: real,
    capacity: real,
    region: Option<string>,
    status: NodeStatus)

  /** The arc attributes copied from a route record. */
  datatype EdgeAttrs = EdgeAttrs(
    distance: real,
    cost: real,
    time: real,
    status: RouteStatus,
    transportMode: TransportMode,
    riskLevel: RiskLevel)

  datatype Arc = Arc(source: NodeId, target: NodeId, attrs: EdgeAttrs)

  /** Distance, cost and time are all non-negative. */
  predicate NonNegativeAttrs(a: EdgeAttrs)
  {
    a.distance >= 0.0 && a.cost >= 0.0 && a.time >= 0.0
  }

  predicate NonNegativeArcs(arcs: seq<Arc>)
  {
    forall k :: 0 <= k < |arcs| ==> NonNegativeAttrs(arcs[k].attrs)
  }

  datatype Graph = Graph(ids: seq<NodeId>, attrs: map<NodeId, NodeAttrs>, arcs: seq<Arc>)

  function Pair(a: Arc): (NodeId, NodeId)
  {
    (a.source, a.target)
  }

  predicate HasNode(g: Graph, v: NodeId)
  {
    v in g.ids
  }

  predicate HasArc(arcs: seq<Arc>, u: NodeId, v: NodeId)
  {
    exists i :: 0 <= i < |arcs| && arcs[i].source == u && arcs[i].target == v
  }

  predicate HasEdge(g: Graph, u: NodeId, v: NodeId)
  {
    HasArc(g.arcs, u, v)
  }

  /** At most one arc per ordered pair of endpoints. */
  predicate DistinctPairs(arcs: seq<Arc>)
  {
    forall i, j :: 0 <= i < j < |arcs| ==> Pair(arcs[i]) != Pair(arcs[j])
  }

  /** Every arc joins two distinct nodes of the graph. */
  predicate ArcsWithin(ids: seq<NodeId>, arcs: seq<Arc>)
  {
    forall i :: 0 <= i < |arcs| ==>
      arcs[i].source in ids && arcs[i].target in ids && arcs[i].source != arcs[i].target
  }

  /** The invariants graphology keeps for a simple directed graph. */
  predicate Valid(g: Graph)
  {
    && NoDup(g.ids)
    && g.attrs.Keys == Elems(g.ids)
    && DistinctPairs(g.arcs)
    && ArcsWithin(g.ids, g.arcs)
  }

  /** `graph.order` */
  function Order(g: Graph): nat
  {
    |g.ids|
  }

  /** `graph.size` */
  function Size(g: Graph): nat
  {
    |g.arcs|
  }

  datatype Side = Tail | Head

  function End(a: Arc, side: Side): NodeId
  {
    if side == Tail then a.source else a.target
  }

  /** Number of arcs whose `side` end is `v`. */
  function CountEnd(arcs: seq<Arc>, v: NodeId, side: Side): nat
  {
    if arcs == [] then 0
    else (if End(arcs[0], side) == v then 1 else 0) + CountEnd(arcs[1..], v, side)
  }

  function OutDegree(g: Graph, v: NodeId): nat
  {
    CountEnd(g.arcs, v, Tail)
  }

  function InDegree(g: Graph, v: NodeId): nat
  {
    CountEnd(g.arcs, v, Head)
  }

  /** `graph.degree(v)` of a directed graph: in-degree plus out-degree. */
  function Degree(g: Graph, v: NodeId): nat
  {
    InDegree(g, v) + OutDegree(g, v)
  }

  /** Targets of the arcs leaving `v`, in arc order. */
  function Targets(arcs: seq<Arc>, v: NodeId): seq<NodeId>
  {
    if arcs == [] then []
    else (if arcs[0].source == v then [arcs[0].target] else []) + Targets(arcs[1..], v)
  }

  /** `graph.outNeighbors(v)` */
  function OutNeighbors(g: Graph, v: NodeId): seq<NodeId>
  {
    Targets(g.arcs, v)
  }

  /** Attributes of the first arc from `u` to `v` (`getEdgeAttributes`). */
  function EdgeAttrsOf(arcs: seq<Arc>, u: NodeId, v: NodeId): Option<EdgeAttrs>
  {
    if arcs == [] then None
    else if arcs[0].source == u && arcs[0].target == v then Some(arcs[0].attrs)
    else EdgeAttrsOf(arcs[1..], u, v)
  }

  // ---------------------------------------------------------------------
  // Facts about arc sequences

  lemma HasArcCons(a: Arc, rest: seq<Arc>, u: NodeId, v: NodeId)
    ensures HasArc([a] + rest, u, v) <==> (a.source == u && a.target == v) || HasArc(rest, u, v)
  {
    var s := [a] + rest;
    if a.source == u && a.target == v {
      assert s[0] == a;
    }
    if HasArc(rest, u, v) {
      var i :| 0 <= i < |rest| && rest[i].source == u && rest[i].target == v;
      assert s[i + 1] == rest[i];
    }
    if HasArc(s, u, v) {
      var i :| 0 <= i < |s| && s[i].source == u && s[i].target == v;
      if i > 0 {
        assert rest[i - 1] == s[i];
      }
    }
  }

  lemma DistinctPairsTail(arcs: seq<Arc>)
    requires DistinctPairs(arcs) && arcs != []
    ensures DistinctPairs(arcs[1..])
    ensures !HasArc(arcs[1..], arcs[0].source, arcs[0].target)
  {
    var rest := arcs[1..];
    forall i, j | 0 <= i < j < |rest|
      ensures Pair(rest[i]) != Pair(rest[j])
    {
      assert rest[i] == arcs[i + 1] && rest[j] == arcs[j + 1];
    }
    forall i | 0 <= i < |rest|
      ensures !(rest[i].source == arcs[0].source && rest[i].target == arcs[0].target)
    {
      assert rest[i] == arcs[i + 1];
      assert Pair(arcs[0]) != Pair(arcs[i + 1]);
    }
  }

  /** The out-neighbour list has one entry per outgoing arc, names exactly the
      heads of those arcs, and repeats nothing when arcs are not parallel. */
  lemma {:induction false} TargetsSpec(arcs: seq<Arc>, v: NodeId)
    ensures |Targets(arcs, v)| == CountEnd(arcs, v, Tail) <= |arcs|
    ensures forall w :: w in Targets(arcs, v) <==> HasArc(arcs, v, w)
    ensures DistinctPairs(arcs) ==> NoDup(Targets(arcs, v))
  {
    if arcs != [] {
      var rest := arcs[1..];
      assert arcs == [arcs[0]] + rest;
      TargetsSpec(rest, v);
      forall w
        ensures w in Targets(arcs, v) <==> HasArc(arcs, v, w)
      {
        HasArcCons(arcs[0], rest, v, w);
      }
      if DistinctPairs(arcs) {
        DistinctPairsTail(arcs);
        if arcs[0].source == v {
          NoDupCons(arcs[0].target, Targets(rest, v));
        }
      }
    }
  }

  lemma {:induction false} EdgeAttrsOfSpec(arcs: seq<Arc>, u: NodeId, v: NodeId)
    ensures EdgeAttrsOf(arcs, u, v).Some? <==> HasArc(arcs, u, v)
  {
    if arcs != [] {
      EdgeAttrsOfSpec(arcs[1..], u, v);
      assert arcs == [arcs[0]] + arcs[1..];
      HasArcCons(arcs[0], arcs[1..], u, v);
    }
  }

  lemma EdgeAttrsOfIndex(arcs: seq<Arc>, k: nat)
    requires DistinctPairs(arcs) && k < |arcs|
    ensures EdgeAttrsOf(arcs, arcs[k].source, arcs[k].target) == Some(arcs[k].attrs)
  {
    if k > 0 {
      DistinctPairsTail(arcs);
      assert Pair(arcs[0]) != Pair(arcs[k]);
      EdgeAttrsOfIndex(arcs[1..], k - 1);
    }
  }

  // ---------------------------------------------------------------------
  // Degree sums

  /** Sum, over the nodes `ns`, of the number of arcs whose `side` end is that node. */
  function SumEnd(ns: seq<NodeId>, arcs: seq<Arc>, side: Side): nat
  {
    if ns == [] then 0 else CountEnd(arcs, ns[0], side) + SumEnd(ns[1..], arcs, side)
  }

  /** Sum of `graph.degree` over the nodes `ns`. */
  function DegreeSum(g: Graph, ns: seq<NodeId>): nat
  {
    if ns == [] then 0 else Degree(g, ns[0]) + DegreeSum(g, ns[1..])
  }

  lemma {:induction false} SumEndPeel(ns: seq<NodeId>, a: Arc, rest: seq<Arc>, side: Side)
    ensures SumEnd(ns, [a] + rest, side) == Occurrences(ns, End(a, side)) + SumEnd(ns, rest, side)
  {
    assert ([a] + rest)[1..] == rest;
    if ns != [] {
      SumEndPeel(ns[1..], a, rest, side);
    }
  }

  lemma {:induction false} SumEndNoArcs(ns: seq<NodeId>, side: Side)
    ensures SumEnd(ns, [], side) == 0
  {
    if ns != [] {
      SumEndNoArcs(ns[1..], side);
    }
  }

  /** Each arc is counted once at its `side` end when the ends all lie in `ns`. */
  lemma {:induction false} SumEndAll(ns: seq<NodeId>, arcs: seq<Arc>, side: Side)
    requires NoDup(ns)
    requires forall i :: 0 <= i < |arcs| ==> End(arcs[i], side) in ns
    ensures SumEnd(ns, arcs, side) == |arcs|
  {
    if arcs != [] {
      var rest := arcs[1..];
      assert arcs == [arcs[0]] + rest;
      assert forall i :: 0 <= i < |rest| ==> rest[i] == arcs[i + 1];
      SumEndAll(ns, rest, side);
      SumEndPeel(ns, arcs[0], rest, side);
      assert End(arcs[0], side) in ns;
      NoDupOccursOnce(ns, End(arcs[0], side));
    } else {
      SumEndNoArcs(ns, side);
    }
  }

  lemma {:induction false} DegreeSumSplit(g: Graph, ns: seq<NodeId>)
    ensures DegreeSum(g, ns) == SumEnd(ns, g.arcs, Head) + SumEnd(ns, g.arcs, Tail)
  {
    if ns != [] {
      DegreeSumSplit(g, ns[1..]);
    }
  }

  /** Handshake identity: summed over all nodes, total degrees count every
      arc twice. */
  lemma Handshake(g: Graph)
    requires Valid(g)
    ensures DegreeSum(g, g.ids) == 2 * Size(g)
  {
    DegreeSumSplit(g, g.ids);
    SumEndAll(g.ids, g.arcs, Head);
    SumEndAll(g.ids, g.arcs, Tail);
  }

  lemma {:induction false} SumEndBound(ns: seq<NodeId>, arcs: seq<Arc>, side: Side, b: nat)
    requires forall v :: v in ns ==> CountEnd(arcs, v, side) <= b
    ensures SumEnd(ns, arcs, side) <= |ns| * b
  {
    if ns != [] {
      SumEndBound(ns[1..], arcs, side, b);
      assert |ns| * b == b + (|ns| - 1) * b;
    }
  }

  /** A node has at most `order - 1` outgoing arcs. */
  lemma OutDegreeBound(g: Graph, v: NodeId)
    requires Valid(g) && HasNode(g, v)
    ensures OutDegree(g, v) <= Order(g) - 1
  {
    var ts := Targets(g.arcs, v);
    TargetsSpec(g.arcs, v);
    forall w | w in Elems(ts)
      ensures w in Elems(g.ids) - {v}
    {
      var i :| 0 <= i < |g.arcs| && g.arcs[i].source == v && g.arcs[i].target == w;
    }
    NoDupWithin(ts, Elems(g.ids) - {v});
    NoDupCard(g.ids);
  }

  /** A simple directed graph on n nodes has at most n(n-1) arcs. */
  lemma SizeBound(g: Graph)
    requires Valid(g)
    ensures Size(g) <= Order(g) * (Order(g) - 1)
  {
    if Order(g) > 0 {
      forall v | v in g.ids
        ensures CountEnd(g.arcs, v, Tail) <= Order(g) - 1
      {
        OutDegreeBound(g, v);
      }
      SumEndBound(g.ids, g.arcs, Tail, Order(g) - 1);
      SumEndAll(g.ids, g.arcs, Tail);
    } else {
      ArcsNeedNodes(g);
    }
  }

  /** An arc of a valid graph has its ends among the nodes, so a graph
      without nodes has no arcs. */
  lemma ArcsNeedNodes(g: Graph)
    requires Valid(g)
    ensures Size(g) > 0 ==> Order(g) > 0
  {
    if Size(g) > 0 {
      assert g.arcs[0].source in g.ids;
    }
  }
}
