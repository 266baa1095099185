/** `calculateLocalClustering`: for each node, the fraction of pairs of its
    neighbours (in- and out-neighbours together, each counted once) that are
    joined by an arc in either direction. */
module Clustering {
  import opened Base
  import opened Graphs
  import opened Scores

  /** Joined by an arc in one direction or the other. */
  predicate Linked(g: Graph, u: NodeId, w: NodeId)
  {
    HasEdge(g, u, w) || HasEdge(g, w, u)
  }

  /** `graph.neighbors(v)`: the nodes joined to `v`, each once. */
  function Neighbors(g: Graph, v: NodeId): (r: seq<NodeId>)
    ensures forall w :: w in r <==> w in g.ids && Linked(g, v, w)
    ensures NoDup(g.ids) ==> NoDup(r)
  {
    var r := Keep(g.ids, w => Linked(g, v, w));
    if NoDup(g.ids) then KeepNoDup(g.ids, w => Linked(g, v, w)); r else r
  }

  /** In a valid graph every linked node is a node of the graph. */
  lemma NeighborsValid(g: Graph, v: NodeId)
    requires Valid(g)
    ensures forall w :: w in Neighbors(g, v) <==> Linked(g, v, w)
    ensures v !in Neighbors(g, v)
  {
    forall w | Linked(g, v, w)
      ensures w in g.ids && w != v
    {
      if HasEdge(g, v, w) {
        var i :| 0 <= i < |g.arcs| && g.arcs[i].source == v && g.arcs[i].target == w;
      } else {
        var i :| 0 <= i < |g.arcs| && g.arcs[i].source == w && g.arcs[i].target == v;
      }
    }
  }

  /** Number of nodes in `rest` linked to `x`. */
  function LinkedTo(g: Graph, x: NodeId, rest: seq<NodeId>): nat
  {
    if rest == [] then 0 else (if Linked(g, x, rest[0]) then 1 else 0) + LinkedTo(g, x, rest[1..])
  }

  /** Number of index pairs `i < j` of `ns` whose nodes are linked. */
  function LinkedPairs(g: Graph, ns: seq<NodeId>): nat
  {
    if ns == [] then 0 else LinkedTo(g, ns[0], ns[1..]) + LinkedPairs(g, ns[1..])
  }

  /** `k * (k - 1) / 2`, the number of index pairs of a sequence of length `k`. */
  function Pairs(k: nat): nat
  {
    k * (k - 1) / 2
  }

  lemma {:induction false} LinkedToBound(g: Graph, x: NodeId, rest: seq<NodeId>)
    ensures LinkedTo(g, x, rest) <= |rest|
    ensures LinkedTo(g, x, rest) == |rest| <==> forall j :: 0 <= j < |rest| ==> Linked(g, x, rest[j])
    ensures LinkedTo(g, x, rest) == 0 <==> forall j :: 0 <= j < |rest| ==> !Linked(g, x, rest[j])
  {
    if rest != [] {
      LinkedToBound(g, x, rest[1..]);
      assert forall j :: 1 <= j < |rest| ==> rest[j] == rest[1..][j - 1];
    }
  }

  lemma PairsStep(k: nat)
    requires k >= 1
    ensures Pairs(k) == (k - 1) + Pairs(k - 1)
  {
    var m := k - 1;
    assert k * (k - 1) == 2 * m + m * (m - 1) by {
      assert k * (k - 1) == (m + 1) * m;
    }
  }

  /** At most every pair is linked; exactly every pair iff all are, and none
      iff no pair is. */
  lemma {:induction false} LinkedPairsBound(g: Graph, ns: seq<NodeId>)
    ensures LinkedPairs(g, ns) <= Pairs(|ns|)
    ensures LinkedPairs(g, ns) == Pairs(|ns|)
        <==> forall i, j :: 0 <= i < j < |ns| ==> Linked(g, ns[i], ns[j])
    ensures LinkedPairs(g, ns) == 0
        <==> forall i, j :: 0 <= i < j < |ns| ==> !Linked(g, ns[i], ns[j])
  {
    if ns != [] {
      var rest := ns[1..];
      LinkedToBound(g, ns[0], rest);
      LinkedPairsBound(g, rest);
      PairsStep(|ns|);
      assert forall j :: 1 <= j < |ns| ==> ns[j] == rest[j - 1];
      if forall i, j :: 0 <= i < j < |ns| ==> Linked(g, ns[i], ns[j]) {
        assert forall j :: 0 <= j < |rest| ==> Linked(g, ns[0], rest[j]);
        assert forall i, j :: 0 <= i < j < |rest| ==> Linked(g, rest[i], rest[j]);
      }
      if forall i, j :: 0 <= i < j < |ns| ==> !Linked(g, ns[i], ns[j]) {
        assert forall j :: 0 <= j < |rest| ==> !Linked(g, ns[0], rest[j]);
        assert forall i, j :: 0 <= i < j < |rest| ==> !Linked(g, rest[i], rest[j]);
      }
      if LinkedPairs(g, ns) == Pairs(|ns|) {
        forall i, j | 0 <= i < j < |ns|
          ensures Linked(g, ns[i], ns[j])
        {
          if i > 0 {
            assert Linked(g, rest[i - 1], rest[j - 1]);
          } else {
            assert Linked(g, ns[0], rest[j - 1]);
          }
        }
      }
      if LinkedPairs(g, ns) == 0 {
        forall i, j | 0 <= i < j < |ns|
          ensures !Linked(g, ns[i], ns[j])
        {
          if i > 0 {
            assert !Linked(g, rest[i - 1], rest[j - 1]);
          } else {
            assert !Linked(g, ns[0], rest[j - 1]);
          }
        }
      }
    }
  }

  /** `k * (k - 1)` is even, so the floating-point half is the pair count. */
  lemma HalfIsPairs(k: nat)
    ensures (k * (k - 1)) as real / 2.0 == Pairs(k) as real
  {
    if k > 0 {
      PairsStep(k);
      HalfIsPairs(k - 1);
    }
  }

  lemma Ratio(c: nat, p: nat)
    requires 0 < p && c <= p
    ensures 0.0 <= c as real / p as real <= 1.0
    ensures c as real / p as real == 1.0 <==> c == p
    ensures c as real / p as real == 0.0 <==> c == 0
  {
  }

  /** The coefficient of one node. */
  function LocalClustering(g: Graph, v: NodeId): (c: real)
    ensures 0.0 <= c <= 1.0
    ensures |Neighbors(g, v)| < 2 ==> c == 0.0
  {
    var ns := Neighbors(g, v);
    var k := |ns|;
    if k < 2 then 0.0
    else
      var maxConnections := (k * (k - 1)) as real / 2.0;
      LinkedPairsBound(g, ns);
      HalfIsPairs(k);
      PairsPositive(k);
      Ratio(LinkedPairs(g, ns), Pairs(k));
      if maxConnections > 0.0 then LinkedPairs(g, ns) as real / maxConnections else 0.0
  }

  lemma PairsPositive(k: nat)
    requires k >= 2
    ensures Pairs(k) >= 1
  {
    PairsStep(k);
  }

  /** The coefficient is 1 exactly when the neighbourhood is a clique and 0
      exactly when no two neighbours are linked (for two or more neighbours). */
  lemma ClusteringExtremes(g: Graph, v: NodeId)
    requires |Neighbors(g, v)| >= 2
    ensures var ns := Neighbors(g, v);
      && (LocalClustering(g, v) == 1.0 <==> forall i, j :: 0 <= i < j < |ns| ==> Linked(g, ns[i], ns[j]))
      && (LocalClustering(g, v) == 0.0 <==> forall i, j :: 0 <= i < j < |ns| ==> !Linked(g, ns[i], ns[j]))
  {
    var ns := Neighbors(g, v);
    ClusteringIsRatio(g, v);
    LinkedPairsBound(g, ns);
    PairsPositive(|ns|);
    Ratio(LinkedPairs(g, ns), Pairs(|ns|));
  }

  /** With two or more neighbours the coefficient is the linked pairs over all pairs. */
  lemma ClusteringIsRatio(g: Graph, v: NodeId)
    requires |Neighbors(g, v)| >= 2
    ensures LocalClustering(g, v) == LinkedPairs(g, Neighbors(g, v)) as real / Pairs(|Neighbors(g, v)|) as real
  {
    var k := |Neighbors(g, v)|;
    HalfIsPairs(k);
    PairsPositive(k);
  }

  /** The nested loops of the source, counting linked pairs `i < j`. */
  method CountConnections(g: Graph, neighbors: seq<NodeId>) returns (connections: nat)
    ensures connections == LinkedPairs(g, neighbors)
  {
    connections := 0;
    var i := 0;
    while i < |neighbors|
      invariant 0 <= i <= |neighbors|
      invariant connections + LinkedPairs(g, neighbors[i..]) == LinkedPairs(g, neighbors)
    {
      var j := i + 1;
      var row := 0;
      while j < |neighbors|
        invariant i + 1 <= j <= |neighbors|
        invariant row + LinkedTo(g, neighbors[i], neighbors[j..]) == LinkedTo(g, neighbors[i], neighbors[i + 1..])
      {
        if HasEdge(g, neighbors[i], neighbors[j]) || HasEdge(g, neighbors[j], neighbors[i]) {
          row := row + 1;
        }
        assert neighbors[j..][1..] == neighbors[j + 1..];
        j := j + 1;
      }
      assert neighbors[i..][1..] == neighbors[i + 1..];
      connections := connections + row;
      i := i + 1;
    }
  }

  /** The loop-based coefficient of the source agrees with `LocalClustering`. */
  method LocalClusteringOf(g: Graph, v: NodeId) returns (c: real)
    ensures c == LocalClustering(g, v)
    ensures 0.0 <= c <= 1.0
  {
    var neighbors := Neighbors(g, v);
    var k := |neighbors|;
    if k < 2 {
      return 0.0;
    }
    var connections := CountConnections(g, neighbors);
    var maxConnections := (k * (k - 1)) as real / 2.0;
    c := if maxConnections > 0.0 then connections as real / maxConnections else 0.0;
  }

  /** The map `calculateLocalClustering` returns: one entry per node, in node order. */
  function LocalClusteringTable(g: Graph): (t: seq<Entry>)
    ensures Keys(t) == g.ids
    ensures forall i :: 0 <= i < |t| ==> t[i].score == LocalClustering(g, t[i].id)
    ensures forall i :: 0 <= i < |t| ==> 0.0 <= t[i].score <= 1.0
  {
    Tabulate(g.ids, v => LocalClustering(g, v))
  }
}
