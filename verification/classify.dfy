/** `identifyBottlenecks` and `identifyCriticalNodes`: scores normalised
    against the table's maximum, kept when at least a threshold, then sorted by
    descending score with the stable library sort. */
module Classify {
  import opened Base
  import opened Graphs
  import opened Scores
  import opened Sorting

  const DefaultBottleneckThreshold: real := 0.05
  const DefaultCriticalThreshold: real := 0.1

  // ---------------------------------------------------------------------
  // Bottlenecks

  datatype Bottleneck = Bottleneck(
    nodeId: NodeId,
    betweennessScore: real,
    normalizedScore: real,
    inDegree: nat,
    outDegree: nat,
    totalDegree: nat)

  function BetweennessKey(b: Bottleneck): real
  {
    b.betweennessScore
  }

  /** The record built for one entry of the betweenness table. */
  function BottleneckOf(g: Graph, e: Entry, max: Option<real>): Bottleneck
  {
    Bottleneck(e.id, e.score, Normalize(e.score, max), InDegree(g, e.id), OutDegree(g, e.id), Degree(g, e.id))
  }

  predicate IsBottleneck(e: Entry, max: Option<real>, threshold: real)
  {
    Normalize(e.score, max) >= threshold
  }

  /** The `forEach` over `Object.entries`, before sorting. */
  function BottleneckCandidates(g: Graph, t: seq<Entry>, max: Option<real>, threshold: real): (r: seq<Bottleneck>)
    ensures forall b :: b in r <==> exists i :: 0 <= i < |t| && b == BottleneckOf(g, t[i], max) && IsBottleneck(t[i], max, threshold)
  {
    if t == [] then []
    else
      var rest := BottleneckCandidates(g, t[1..], max, threshold);
      assert forall i :: 1 <= i < |t| ==> t[i] == t[1..][i - 1];
      if IsBottleneck(t[0], max, threshold) then [BottleneckOf(g, t[0], max)] + rest else rest
  }

  /** The bottleneck list: exactly the entries whose normalised score reaches
      the threshold, sorted by descending betweenness, ties in table order. */
  function IdentifyBottlenecks(g: Graph, t: seq<Entry>, threshold: real): (r: seq<Bottleneck>)
    ensures forall b :: b in r <==>
      exists i :: 0 <= i < |t| && b == BottleneckOf(g, t[i], MaxScore(t)) && IsBottleneck(t[i], MaxScore(t), threshold)
    ensures SortedDesc(r, BetweennessKey)
    ensures forall k :: Tied(r, BetweennessKey, k) == Tied(BottleneckCandidates(g, t, MaxScore(t), threshold), BetweennessKey, k)
  {
    var c := BottleneckCandidates(g, t, MaxScore(t), threshold);
    SortDescCorrect(c, BetweennessKey);
    SortDescMembers(c, BetweennessKey);
    SortDesc(c, BetweennessKey)
  }

  /** Every listed record reaches the threshold, has a normalised score of at
      most 1 (at least 0 for non-negative scores), and a total degree that is
      the sum of its in- and out-degree. */
  lemma BottleneckFields(g: Graph, t: seq<Entry>, threshold: real)
    ensures forall b :: b in IdentifyBottlenecks(g, t, threshold) ==>
      && threshold <= b.normalizedScore <= 1.0
      && (NonNegative(t) ==> b.normalizedScore >= 0.0)
      && b.totalDegree == b.inDegree + b.outDegree
      && b.nodeId in Keys(t)
  {
    var max := MaxScore(t);
    forall b | b in IdentifyBottlenecks(g, t, threshold)
      ensures threshold <= b.normalizedScore <= 1.0
      ensures NonNegative(t) ==> b.normalizedScore >= 0.0
      ensures b.totalDegree == b.inDegree + b.outDegree
      ensures b.nodeId in Keys(t)
    {
      var i :| 0 <= i < |t| && b == BottleneckOf(g, t[i], max) && IsBottleneck(t[i], max, threshold);
      NormalizeBounds(t[i].score, max);
      assert Keys(t)[i] == b.nodeId;
    }
  }

  /** Without a positive maximum (all scores zero, or an empty map) nothing is
      a bottleneck for a positive threshold. */
  lemma NoPositiveMaxNoBottlenecks(g: Graph, t: seq<Entry>, threshold: real)
    requires MaxScore(t).None? || MaxScore(t).value <= 0.0
    requires threshold > 0.0
    ensures IdentifyBottlenecks(g, t, threshold) == []
  {
    forall i | 0 <= i < |t|
      ensures !IsBottleneck(t[i], MaxScore(t), threshold)
    {
      NormalizeBounds(t[i].score, MaxScore(t));
    }
    NoBottleneckCandidates(g, t, MaxScore(t), threshold);
  }

  lemma {:induction false} NoBottleneckCandidates(g: Graph, t: seq<Entry>, max: Option<real>, threshold: real)
    requires forall i :: 0 <= i < |t| ==> !IsBottleneck(t[i], max, threshold)
    ensures BottleneckCandidates(g, t, max, threshold) == []
  {
    if t != [] {
      assert forall i :: 0 <= i < |t| - 1 ==> t[1..][i] == t[i + 1];
      NoBottleneckCandidates(g, t[1..], max, threshold);
    }
  }

  // ---------------------------------------------------------------------
  // Critical nodes

  datatype CriticalNode = CriticalNode(
    nodeId: NodeId,
    criticalityScore: real,
    degreeScore: real,
    betweennessScore: Option<real>,
    inDegree: nat,
    outDegree: nat)

  function CriticalityKey(c: CriticalNode): real
  {
    c.criticalityScore
  }

  /** One normalised term: 0 without a positive maximum; `None` is the NaN of
      dividing an `undefined` score by a positive maximum. */
  function Term(s: Option<real>, max: Option<real>): Option<real>
  {
    if max.Some? && max.value > 0.0 then (if s.Some? then Some(s.value / max.value) else None)
    else Some(0.0)
  }

  /** `(normalizedDegree + normalizedBetweenness) / 2`, `None` for NaN. */
  function Criticality(degree: real, maxDegree: Option<real>, betweenness: Option<real>, maxBetweenness: Option<real>): Option<real>
  {
    var d := Term(Some(degree), maxDegree);
    var b := Term(betweenness, maxBetweenness);
    if d.Some? && b.Some? then Some((d.value + b.value) / 2.0) else None
  }

  /** The criticality of a degree-table entry against the two tables. */
  function CriticalityOf(e: Entry, dt: seq<Entry>, bt: seq<Entry>): Option<real>
  {
    Criticality(e.score, MaxScore(dt), Lookup(bt, e.id), MaxScore(bt))
  }

  /** NaN compares false, so an entry is kept only with a number at least the threshold. */
  predicate IsCritical(e: Entry, dt: seq<Entry>, bt: seq<Entry>, threshold: real)
  {
    var c := CriticalityOf(e, dt, bt);
    c.Some? && c.value >= threshold
  }

  function CriticalNodeOf(g: Graph, e: Entry, dt: seq<Entry>, bt: seq<Entry>): CriticalNode
    requires CriticalityOf(e, dt, bt).Some?
  {
    CriticalNode(e.id, CriticalityOf(e, dt, bt).value, e.score, Lookup(bt, e.id), InDegree(g, e.id), OutDegree(g, e.id))
  }

  /** The `forEach` over the degree table's keys, before sorting. */
  function CriticalCandidates(g: Graph, t: seq<Entry>, dt: seq<Entry>, bt: seq<Entry>, threshold: real): (r: seq<CriticalNode>)
    ensures forall c :: c in r <==>
      exists i :: 0 <= i < |t| && IsCritical(t[i], dt, bt, threshold) && c == CriticalNodeOf(g, t[i], dt, bt)
  {
    if t == [] then []
    else
      var rest := CriticalCandidates(g, t[1..], dt, bt, threshold);
      assert forall i :: 1 <= i < |t| ==> t[i] == t[1..][i - 1];
      if IsCritical(t[0], dt, bt, threshold) then [CriticalNodeOf(g, t[0], dt, bt)] + rest else rest
  }

  /** The critical-node list: exactly the degree-table entries whose
      criticality reaches the threshold, sorted by descending criticality,
      ties in table order. */
  function IdentifyCriticalNodes(g: Graph, dt: seq<Entry>, bt: seq<Entry>, threshold: real): (r: seq<CriticalNode>)
    ensures forall c :: c in r <==>
      exists i :: 0 <= i < |dt| && IsCritical(dt[i], dt, bt, threshold) && c == CriticalNodeOf(g, dt[i], dt, bt)
    ensures SortedDesc(r, CriticalityKey)
    ensures forall k :: Tied(r, CriticalityKey, k) == Tied(CriticalCandidates(g, dt, dt, bt, threshold), CriticalityKey, k)
  {
    var c := CriticalCandidates(g, dt, dt, bt, threshold);
    SortDescCorrect(c, CriticalityKey);
    SortDescMembers(c, CriticalityKey);
    SortDesc(c, CriticalityKey)
  }

  /** With non-negative scores in both tables a criticality is a number in [0, 1]. */
  lemma CriticalityBounds(e: Entry, dt: seq<Entry>, bt: seq<Entry>)
    requires e in dt && NonNegative(dt) && NonNegative(bt)
    ensures CriticalityOf(e, dt, bt).Some? ==> 0.0 <= CriticalityOf(e, dt, bt).value <= 1.0
  {
    var md, mb := MaxScore(dt), MaxScore(bt);
    NormalizeBounds(e.score, md);
    assert Term(Some(e.score), md) == Some(Normalize(e.score, md));
    match Lookup(bt, e.id)
    case None =>
    case Some(s) =>
      NormalizeBounds(s, mb);
      assert Term(Some(s), mb) == Some(Normalize(s, mb));
  }

  /** Every listed node is a key of the degree table and has a criticality
      at least the threshold, at most 1 for non-negative scores. */
  lemma CriticalFields(g: Graph, dt: seq<Entry>, bt: seq<Entry>, threshold: real)
    ensures forall c :: c in IdentifyCriticalNodes(g, dt, bt, threshold) ==>
      && c.nodeId in Keys(dt)
      && threshold <= c.criticalityScore
      && (NonNegative(dt) && NonNegative(bt) ==> 0.0 <= c.criticalityScore <= 1.0)
  {
    forall c | c in IdentifyCriticalNodes(g, dt, bt, threshold)
      ensures c.nodeId in Keys(dt)
      ensures threshold <= c.criticalityScore
      ensures NonNegative(dt) && NonNegative(bt) ==> 0.0 <= c.criticalityScore <= 1.0
    {
      var i :| 0 <= i < |dt| && IsCritical(dt[i], dt, bt, threshold) && c == CriticalNodeOf(g, dt[i], dt, bt);
      assert Keys(dt)[i] == c.nodeId;
      if NonNegative(dt) && NonNegative(bt) {
        CriticalityBounds(dt[i], dt, bt);
      }
    }
  }

  /** Without a positive maximum in either table nothing is critical for a
      positive threshold. */
  lemma NoPositiveMaxNoCriticalNodes(g: Graph, dt: seq<Entry>, bt: seq<Entry>, threshold: real)
    requires MaxScore(dt).None? || MaxScore(dt).value <= 0.0
    requires MaxScore(bt).None? || MaxScore(bt).value <= 0.0
    requires threshold > 0.0
    ensures IdentifyCriticalNodes(g, dt, bt, threshold) == []
  {
    forall i | 0 <= i < |dt|
      ensures !IsCritical(dt[i], dt, bt, threshold)
    {
      ZeroCriticality(dt[i], dt, bt);
    }
    NoCriticalCandidates(g, dt, dt, bt, threshold);
    var c := CriticalCandidates(g, dt, dt, bt, threshold);
    assert SortDesc(c, CriticalityKey) == [];
  }

  /** Without a positive maximum both terms are 0, and so is the criticality. */
  lemma ZeroCriticality(e: Entry, dt: seq<Entry>, bt: seq<Entry>)
    requires MaxScore(dt).None? || MaxScore(dt).value <= 0.0
    requires MaxScore(bt).None? || MaxScore(bt).value <= 0.0
    ensures CriticalityOf(e, dt, bt) == Some(0.0)
  {
    assert Term(Some(e.score), MaxScore(dt)) == Some(0.0);
    assert Term(Lookup(bt, e.id), MaxScore(bt)) == Some(0.0);
  }

  lemma {:induction false} NoCriticalCandidates(g: Graph, t: seq<Entry>, dt: seq<Entry>, bt: seq<Entry>, threshold: real)
    requires forall i :: 0 <= i < |t| ==> !IsCritical(t[i], dt, bt, threshold)
    ensures CriticalCandidates(g, t, dt, bt, threshold) == []
  {
    if t != [] {
      assert forall i :: 0 <= i < |t| - 1 ==> t[1..][i] == t[i + 1];
      NoCriticalCandidates(g, t[1..], dt, bt, threshold);
    }
  }
}
