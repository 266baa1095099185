/** Centrality score maps. A JavaScript object `{ nodeId: score }` is read
    through `Object.entries`, so it is modelled as a table of entries in key
    order. The graphology centralities themselves are foreign code: they are
    a parameter of the analysis, one abstract score function per measure. */
module Scores {
  import opened Base
  import opened Graphs

  datatype Entry = Entry(id: NodeId, score: real)

  /** The library calls the analysis makes on a graph. `None` stands for a
      call that threw, which the wrappers turn into the empty map `{}`. */
  datatype Centralities = Centralities(
    degree: Graph -> Option<NodeId -> real>,
    betweenness: Graph -> Option<NodeId -> real>,
    closeness: Graph -> Option<NodeId -> real>,
    globalClustering: Graph -> real)

  /** The keys of a table, in order. */
  function Keys(t: seq<Entry>): (r: seq<NodeId>)
    ensures |r| == |t| && forall i :: 0 <= i < |t| ==> r[i] == t[i].id
  {
    if t == [] then [] else [t[0].id] + Keys(t[1..])
  }

  /** One entry per node of `ids`, in that order. */
  function Tabulate(ids: seq<NodeId>, f: NodeId -> real): (r: seq<Entry>)
    ensures |r| == |ids| && forall i :: 0 <= i < |ids| ==> r[i] == Entry(ids[i], f(ids[i]))
  {
    if ids == [] then [] else [Entry(ids[0], f(ids[0]))] + Tabulate(ids[1..], f)
  }

  /** The map a wrapper such as `calculateBetweennessCentrality` returns. */
  function ScoreTable(g: Graph, scores: Option<NodeId -> real>): (r: seq<Entry>)
    ensures scores.None? ==> r == []
    ensures scores.Some? ==> Keys(r) == g.ids
    ensures scores.Some? ==> forall i :: 0 <= i < |r| ==> r[i].score == scores.value(r[i].id)
  {
    if scores.None? then [] else Tabulate(g.ids, scores.value)
  }

  /** Property access `t[id]`: `None` is `undefined`. */
  function Lookup(t: seq<Entry>, id: NodeId): (r: Option<real>)
    ensures r.None? <==> id !in Keys(t)
    ensures r.Some? ==> Entry(id, r.value) in t
  {
    if t == [] then None
    else if t[0].id == id then Some(t[0].score)
    else Lookup(t[1..], id)
  }

  /** `t[id] || 0` for a numeric score. */
  function ScoreOrZero(t: seq<Entry>, id: NodeId): real
  {
    match Lookup(t, id)
    case None => 0.0
    case Some(s) => s
  }

  /** A centrality as the library reports it for one node; a call that
      threw reads as 0. */
  function LibraryScore(scores: Option<NodeId -> real>, id: NodeId): real
  {
    if scores.Some? then scores.value(id) else 0.0
  }

  /** Reading a node's score from a wrapper's map with `|| 0` gives the
      library's score, or 0 when the library threw. */
  lemma TableScore(g: Graph, scores: Option<NodeId -> real>, id: NodeId)
    requires HasNode(g, id)
    ensures ScoreOrZero(ScoreTable(g, scores), id) == LibraryScore(scores, id)
  {
    var t := ScoreTable(g, scores);
    if scores.Some? {
      var j :| 0 <= j < |g.ids| && g.ids[j] == id;
      assert Keys(t)[j] == id;
      var s := Lookup(t, id).value;
      var k :| 0 <= k < |t| && t[k] == Entry(id, s);
    }
  }

  /** `Math.max(...Object.values(t))`; `None` is the `-Infinity` of an empty map. */
  function MaxScore(t: seq<Entry>): (m: Option<real>)
    ensures m.None? <==> t == []
    ensures m.Some? ==> forall i :: 0 <= i < |t| ==> t[i].score <= m.value
    ensures m.Some? ==> exists i :: 0 <= i < |t| && t[i].score == m.value
  {
    if t == [] then None
    else
      match MaxScore(t[1..])
      case None => Some(t[0].score)
      case Some(m) =>
        assert forall i :: 1 <= i < |t| ==> t[i] == t[1..][i - 1];
        Some(if t[0].score >= m then t[0].score else m)
  }

  /** Every score in the table is non-negative, as centralities are. */
  predicate NonNegative(t: seq<Entry>)
  {
    forall i :: 0 <= i < |t| ==> t[i].score >= 0.0
  }

  /** `x > 0 ? s / x : 0` where `x` is a table's maximum. */
  function Normalize(s: real, max: Option<real>): real
  {
    if max.Some? && max.value > 0.0 then s / max.value else 0.0
  }

  /** A score at most the maximum normalises to at most 1, and a non-negative
      one to at least 0; without a positive maximum everything normalises to 0. */
  lemma NormalizeBounds(s: real, max: Option<real>)
    requires max.Some? ==> s <= max.value
    ensures Normalize(s, max) <= 1.0
    ensures s >= 0.0 ==> Normalize(s, max) >= 0.0
    ensures (max.None? || max.value <= 0.0) ==> Normalize(s, max) == 0.0
  {
    if max.Some? && max.value > 0.0 {
      assert s / max.value <= max.value / max.value;
    }
  }
}
