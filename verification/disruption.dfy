/** `simulateDisruption`: on a copy of the graph, drop the named node (with
    every arc touching it) or, failing that, the named arc; then report the
    nodes left without any arc. Graph values are immutable, so the copy is
    implicit and the caller's graph is untouched by construction. */
module Disruption {
  import opened Base
  import opened Graphs
  import opened Scores

  /** The arcs that do not touch `v`, in order. */
  function ArcsAvoiding(arcs: seq<Arc>, v: NodeId): (r: seq<Arc>)
    ensures |r| <= |arcs|
  {
    if arcs == [] then []
    else (if arcs[0].source != v && arcs[0].target != v then [arcs[0]] else []) + ArcsAvoiding(arcs[1..], v)
  }

  /** The arcs other than the one from `u` to `w`, in order. */
  function ArcsExcept(arcs: seq<Arc>, u: NodeId, w: NodeId): (r: seq<Arc>)
    ensures |r| <= |arcs|
  {
    if arcs == [] then []
    else (if Pair(arcs[0]) != (u, w) then [arcs[0]] else []) + ArcsExcept(arcs[1..], u, w)
  }

  /** `dropNode(v)` */
  function RemoveNode(g: Graph, v: NodeId): Graph
  {
    Graph(Without(g.ids, v), g.attrs - {v}, ArcsAvoiding(g.arcs, v))
  }

  /** `dropEdge(u, w)` */
  function RemoveArc(g: Graph, u: NodeId, w: NodeId): Graph
  {
    Graph(g.ids, g.attrs, ArcsExcept(g.arcs, u, w))
  }

  // ---------------------------------------------------------------------
  // Arc filters

  lemma {:induction false} ArcsAvoidingSpec(arcs: seq<Arc>, v: NodeId)
    ensures forall a, b :: HasArc(ArcsAvoiding(arcs, v), a, b) <==> HasArc(arcs, a, b) && a != v && b != v
    ensures forall i :: 0 <= i < |ArcsAvoiding(arcs, v)| ==> ArcsAvoiding(arcs, v)[i] in arcs
    ensures DistinctPairs(arcs) ==> DistinctPairs(ArcsAvoiding(arcs, v))
  {
    if arcs != [] {
      var rest := arcs[1..];
      ArcsAvoidingSpec(rest, v);
      assert arcs == [arcs[0]] + rest;
      var r := ArcsAvoiding(arcs, v);
      assert r == if arcs[0].source != v && arcs[0].target != v then [arcs[0]] + ArcsAvoiding(rest, v) else ArcsAvoiding(rest, v);
      forall a, b
        ensures HasArc(r, a, b) <==> HasArc(arcs, a, b) && a != v && b != v
      {
        HasArcCons(arcs[0], rest, a, b);
        if arcs[0].source != v && arcs[0].target != v {
          HasArcCons(arcs[0], ArcsAvoiding(rest, v), a, b);
        }
      }
      if DistinctPairs(arcs) {
        DistinctPairsTail(arcs);
        if arcs[0].source != v && arcs[0].target != v {
          DistinctPairsCons(arcs[0], ArcsAvoiding(rest, v));
        }
      }
    }
  }

  lemma {:induction false} ArcsExceptSpec(arcs: seq<Arc>, u: NodeId, w: NodeId)
    ensures forall a, b :: HasArc(ArcsExcept(arcs, u, w), a, b) <==> HasArc(arcs, a, b) && (a, b) != (u, w)
    ensures forall i :: 0 <= i < |ArcsExcept(arcs, u, w)| ==> ArcsExcept(arcs, u, w)[i] in arcs
    ensures DistinctPairs(arcs) ==> DistinctPairs(ArcsExcept(arcs, u, w))
    ensures DistinctPairs(arcs) ==> |ArcsExcept(arcs, u, w)| == |arcs| - (if HasArc(arcs, u, w) then 1 else 0)
  {
    if arcs != [] {
      var rest := arcs[1..];
      ArcsExceptSpec(rest, u, w);
      assert arcs == [arcs[0]] + rest;
      var r := ArcsExcept(arcs, u, w);
      assert r == if Pair(arcs[0]) != (u, w) then [arcs[0]] + ArcsExcept(rest, u, w) else ArcsExcept(rest, u, w);
      forall a, b
        ensures HasArc(r, a, b) <==> HasArc(arcs, a, b) && (a, b) != (u, w)
      {
        HasArcCons(arcs[0], rest, a, b);
        if Pair(arcs[0]) != (u, w) {
          HasArcCons(arcs[0], ArcsExcept(rest, u, w), a, b);
        }
      }
      HasArcCons(arcs[0], rest, u, w);
      if DistinctPairs(arcs) {
        DistinctPairsTail(arcs);
        if Pair(arcs[0]) != (u, w) {
          DistinctPairsCons(arcs[0], ArcsExcept(rest, u, w));
        }
      }
    }
  }

  lemma DistinctPairsCons(a: Arc, rest: seq<Arc>)
    requires DistinctPairs(rest) && !HasArc(rest, a.source, a.target)
    ensures DistinctPairs([a] + rest)
  {
    var s := [a] + rest;
    forall i, j | 0 <= i < j < |s|
      ensures Pair(s[i]) != Pair(s[j])
    {
      assert s[j] == rest[j - 1];
      if i > 0 {
        assert s[i] == rest[i - 1];
      }
    }
  }

  /** The arcs touching `v` are its in-arcs plus its out-arcs when no arc is
      a loop at `v`. */
  lemma {:induction false} ArcsAvoidingSize(arcs: seq<Arc>, v: NodeId)
    requires forall i :: 0 <= i < |arcs| ==> !(arcs[i].source == v && arcs[i].target == v)
    ensures |ArcsAvoiding(arcs, v)| + CountEnd(arcs, v, Head) + CountEnd(arcs, v, Tail) == |arcs|
  {
    if arcs != [] {
      assert forall i :: 0 <= i < |arcs| - 1 ==> arcs[1..][i] == arcs[i + 1];
      ArcsAvoidingSize(arcs[1..], v);
    }
  }

  // ---------------------------------------------------------------------
  // Removing a node or an arc

  /** Dropping a node removes exactly it and the arcs touching it: the order
      falls by one and the size by the node's total degree. */
  lemma RemoveNodeSpec(g: Graph, v: NodeId)
    requires Valid(g) && HasNode(g, v)
    ensures var h := RemoveNode(g, v);
      && Valid(h)
      && Order(h) == Order(g) - 1
      && Size(h) == Size(g) - Degree(g, v)
      && !HasNode(h, v)
      && (forall w :: HasNode(h, w) <==> HasNode(g, w) && w != v)
      && (forall a, b :: HasEdge(h, a, b) <==> HasEdge(g, a, b) && a != v && b != v)
  {
    var h := RemoveNode(g, v);
    WithoutSpec(g.ids, v);
    ArcsAvoidingSpec(g.arcs, v);
    ArcsAvoidingSize(g.arcs, v);
    assert forall w :: w in h.ids <==> w in Elems(h.ids);
    assert forall w :: w in g.ids <==> w in Elems(g.ids);
    forall i | 0 <= i < |h.arcs|
      ensures h.arcs[i].source in h.ids && h.arcs[i].target in h.ids && h.arcs[i].source != h.arcs[i].target
    {
      var a := h.arcs[i];
      assert HasArc(h.arcs, a.source, a.target);
      var k :| 0 <= k < |g.arcs| && g.arcs[k] == a;
    }
  }

  /** Dropping an existing arc removes exactly that arc and no node. */
  lemma RemoveArcSpec(g: Graph, u: NodeId, w: NodeId)
    requires Valid(g) && HasEdge(g, u, w)
    ensures var h := RemoveArc(g, u, w);
      && Valid(h)
      && h.ids == g.ids
      && Size(h) == Size(g) - 1
      && (forall a, b :: HasEdge(h, a, b) <==> HasEdge(g, a, b) && (a, b) != (u, w))
  {
    var h := RemoveArc(g, u, w);
    ArcsExceptSpec(g.arcs, u, w);
    forall i | 0 <= i < |h.arcs|
      ensures h.arcs[i].source in h.ids && h.arcs[i].target in h.ids && h.arcs[i].source != h.arcs[i].target
    {
      var k :| 0 <= k < |g.arcs| && g.arcs[k] == h.arcs[i];
    }
  }

  // ---------------------------------------------------------------------
  // The simulation

  /** The graph after the disruption: the node when given and present, else
      the arc when both ends are given and the arc is present, else no change. */
  function Disrupted(g: Graph, nodeId: Option<string>, edgeSource: Option<string>, edgeTarget: Option<string>): Graph
  {
    if Truthy(nodeId) && HasNode(g, nodeId.value) then RemoveNode(g, nodeId.value)
    else if Truthy(edgeSource) && Truthy(edgeTarget) && HasEdge(g, edgeSource.value, edgeTarget.value) then
      RemoveArc(g, edgeSource.value, edgeTarget.value)
    else g
  }

  /** The nodes with no arc at all, in node order. */
  function Isolated(g: Graph): (r: seq<NodeId>)
    ensures forall w :: w in r <==> w in g.ids && Degree(g, w) == 0
    ensures NoDup(g.ids) ==> NoDup(r)
  {
    var r := Keep(g.ids, w => Degree(g, w) == 0);
    if NoDup(g.ids) then KeepNoDup(g.ids, w => Degree(g, w) == 0); r else r
  }

  datatype DisruptionResult = DisruptionResult(
    affectedNodes: seq<NodeId>,
    newDegree: seq<Entry>,
    newBetweenness: seq<Entry>,
    networkSize: nat,
    networkEdges: nat)

  function SimulateDisruption(g: Graph, nodeId: Option<string>, edgeSource: Option<string>, edgeTarget: Option<string>,
                              lib: Centralities): (r: DisruptionResult)
    ensures var h := Disrupted(g, nodeId, edgeSource, edgeTarget);
      && (forall w :: w in r.affectedNodes <==> HasNode(h, w) && Degree(h, w) == 0)
      && r.networkSize == Order(h) && r.networkEdges == Size(h)
  {
    var h := Disrupted(g, nodeId, edgeSource, edgeTarget);
    DisruptionResult(Isolated(h), ScoreTable(h, lib.degree(h)), ScoreTable(h, lib.betweenness(h)), Order(h), Size(h))
  }

  /** The three branches of the simulation, by their effect on order and size;
      the disrupted graph is again a valid graph and lists each isolated node once. */
  lemma SimulateDisruptionEffect(g: Graph, nodeId: Option<string>, edgeSource: Option<string>, edgeTarget: Option<string>,
                                 lib: Centralities)
    requires Valid(g)
    ensures var r := SimulateDisruption(g, nodeId, edgeSource, edgeTarget, lib);
      && Valid(Disrupted(g, nodeId, edgeSource, edgeTarget))
      && NoDup(r.affectedNodes)
      && (Truthy(nodeId) && HasNode(g, nodeId.value) ==>
            r.networkSize == Order(g) - 1 && r.networkEdges == Size(g) - Degree(g, nodeId.value))
      && (!(Truthy(nodeId) && HasNode(g, nodeId.value)) && Truthy(edgeSource) && Truthy(edgeTarget)
            && HasEdge(g, edgeSource.value, edgeTarget.value) ==>
            r.networkSize == Order(g) && r.networkEdges == Size(g) - 1)
      && (!(Truthy(nodeId) && HasNode(g, nodeId.value))
            && !(Truthy(edgeSource) && Truthy(edgeTarget) && HasEdge(g, edgeSource.value, edgeTarget.value)) ==>
            Disrupted(g, nodeId, edgeSource, edgeTarget) == g)
  {
    if Truthy(nodeId) && HasNode(g, nodeId.value) {
      RemoveNodeSpec(g, nodeId.value);
    } else if Truthy(edgeSource) && Truthy(edgeTarget) && HasEdge(g, edgeSource.value, edgeTarget.value) {
      RemoveArcSpec(g, edgeSource.value, edgeTarget.value);
    }
  }
}
