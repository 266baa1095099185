/** `findAlternativePaths`: a breadth-first enumeration of simple paths from
    `source` to `target`. A FIFO queue holds partial paths, starting with
    `[source]`. A dequeued path that ends at the target is accepted. Otherwise
    it is extended by every out-neighbour it does not yet visit, unless it
    already has more than ten nodes. The search stops once `maxPaths` paths
    have been accepted or the queue runs dry. */
module PathFinder {
  import opened Base
  import opened Graphs

  type Path = seq<NodeId>

  /** Paths with more nodes than this are dequeued without being extended. */
  const MaxExpandLength: nat := 10

  /** `graph.outNeighbors` throws on a node that is not in the graph. */
  datatype PathError = UnknownNode(id: NodeId)

  function Last(p: Path): NodeId
    requires p != []
  {
    p[|p| - 1]
  }

  /** Every consecutive pair of nodes is an arc of the graph. */
  predicate EdgePath(g: Graph, p: Path)
  {
    forall i :: 0 <= i < |p| - 1 ==> HasEdge(g, p[i], p[i + 1])
  }

  /** What every queued path satisfies: it starts at `s`, is an edge path
      without repeated nodes, has at most eleven nodes, and visits `t` at most
      as its last node. */
  predicate Partial(g: Graph, s: NodeId, t: NodeId, p: Path)
  {
    && 1 <= |p| <= MaxExpandLength + 1
    && p[0] == s
    && NoDup(p)
    && EdgePath(g, p)
    && t !in p[..|p| - 1]
  }

  /** A simple path from `s` to `t` of at most eleven nodes on which `t`
      occurs only at the end. */
  predicate Complete(g: Graph, s: NodeId, t: NodeId, p: Path)
  {
    Partial(g, s, t, p) && Last(p) == t
  }

  predicate LengthSorted(ps: seq<Path>)
  {
    forall i, j :: 0 <= i < j < |ps| ==> |ps[i]| <= |ps[j]|
  }

  /** The neighbours in `ns` that `path` does not visit yet, in order. */
  function Fresh(path: Path, ns: seq<NodeId>): seq<NodeId>
  {
    Keep(ns, n => n !in path)
  }

  /** The queue entries that extending `path` by the neighbours `ns` adds,
      in neighbour order: one per neighbour not on the path. */
  function Extensions(path: Path, ns: seq<NodeId>): (r: seq<Path>)
    ensures |r| <= |ns|
    ensures forall i :: 0 <= i < |r| ==>
      |r[i]| == |path| + 1 && r[i][..|path|] == path && r[i][|path|] in ns && r[i][|path|] !in path
    ensures forall n :: n in ns && n !in path ==> path + [n] in r
  {
    if ns == [] then []
    else
      var rest := Extensions(path, ns[1..]);
      assert forall n :: n in ns && n != ns[0] ==> n in ns[1..];
      if ns[0] in path then rest
      else
        assert (path + [ns[0]])[..|path|] == path;
        [path + [ns[0]]] + rest
  }

  lemma FreshCons(path: Path, ns: seq<NodeId>)
    requires ns != []
    ensures Fresh(path, ns) == if ns[0] in path then Fresh(path, ns[1..]) else [ns[0]] + Fresh(path, ns[1..])
  {
  }

  /** The extensions are exactly `path + [n]` for the fresh neighbours `n`,
      in neighbour order. */
  lemma {:induction false} ExtensionsInOrder(path: Path, ns: seq<NodeId>)
    ensures |Extensions(path, ns)| == |Fresh(path, ns)|
    ensures forall i :: 0 <= i < |Extensions(path, ns)| ==> Extensions(path, ns)[i] == path + [Fresh(path, ns)[i]]
  {
    if ns != [] {
      var f, f' := Fresh(path, ns), Fresh(path, ns[1..]);
      var r, rest := Extensions(path, ns), Extensions(path, ns[1..]);
      ExtensionsInOrder(path, ns[1..]);
      FreshCons(path, ns);
      if ns[0] !in path {
        assert r == [path + [ns[0]]] + rest && f == [ns[0]] + f';
        forall i | 0 <= i < |r|
          ensures r[i] == path + [f[i]]
        {
          if i > 0 {
            assert r[i] == rest[i - 1] && f[i] == f'[i - 1];
          }
        }
      }
    }
  }

  /** Distinct neighbours give distinct extensions. */
  lemma {:induction false} ExtensionsDistinct(path: Path, ns: seq<NodeId>)
    requires NoDup(ns)
    ensures NoDup(Extensions(path, ns))
  {
    if ns != [] {
      NoDupTail(ns);
      ExtensionsDistinct(path, ns[1..]);
      var rest := Extensions(path, ns[1..]);
      if ns[0] !in path {
        var e := path + [ns[0]];
        forall j | 0 <= j < |rest|
          ensures rest[j] != e
        {
          assert rest[j][|path|] in ns[1..];
          assert e[|path|] == ns[0];
        }
        NoDupCons(e, rest);
        assert Extensions(path, ns) == [e] + rest;
      }
    }
  }

  // ---------------------------------------------------------------------
  // Termination: a queued path of length `len` can give rise to at most
  // `Weight(m, len)` dequeues on a graph with `m` arcs.

  function Weight(m: nat, len: nat): (w: nat)
    ensures w >= 1
    decreases if len > MaxExpandLength then 0 else MaxExpandLength + 1 - len
  {
    if len > MaxExpandLength then 1 else 1 + m * Weight(m, len + 1)
  }

  function QueueWeight(m: nat, q: seq<Path>): nat
  {
    if q == [] then 0 else Weight(m, |q[0]|) + QueueWeight(m, q[1..])
  }

  lemma {:induction false} QueueWeightAppend(m: nat, a: seq<Path>, b: seq<Path>)
    ensures QueueWeight(m, a + b) == QueueWeight(m, a) + QueueWeight(m, b)
  {
    if a != [] {
      assert (a + b)[1..] == a[1..] + b;
      QueueWeightAppend(m, a[1..], b);
    } else {
      assert a + b == b;
    }
  }

  lemma {:induction false} QueueWeightUniform(m: nat, q: seq<Path>, len: nat)
    requires forall i :: 0 <= i < |q| ==> |q[i]| == len
    ensures QueueWeight(m, q) == |q| * Weight(m, len)
  {
    if q != [] {
      var w := Weight(m, len);
      var tail := q[1..];
      assert forall i :: 0 <= i < |tail| ==> tail[i] == q[i + 1];
      QueueWeightUniform(m, tail, len);
      assert QueueWeight(m, q) == w + QueueWeight(m, tail);
      MulSucc(|tail|, w);
    }
  }

  lemma ExpandDecreases(m: nat, p: Path, rest: seq<Path>, ext: seq<Path>)
    requires |p| <= MaxExpandLength && |ext| <= m
    requires forall i :: 0 <= i < |ext| ==> |ext[i]| == |p| + 1
    ensures QueueWeight(m, rest + ext) < QueueWeight(m, [p] + rest)
  {
    QueueWeightAppend(m, rest, ext);
    QueueWeightUniform(m, ext, |p| + 1);
    assert ([p] + rest)[1..] == rest;
    var w := Weight(m, |p| + 1);
    MulMono(|ext|, m, w);
    assert Weight(m, |p|) == 1 + m * w;
  }

  lemma MulSucc(n: nat, w: nat)
    ensures (n + 1) * w == w + n * w
  {
  }

  lemma MulMono(a: nat, b: nat, w: nat)
    requires a <= b
    ensures a * w <= b * w
  {
    assert b * w == a * w + (b - a) * w;
  }

  // ---------------------------------------------------------------------
  // The search loop

  /** One turn of the `while` loop per call; `found` is `paths`. */
  function Search(g: Graph, t: NodeId, queue: seq<Path>, found: seq<Path>, maxPaths: int): Result<seq<Path>, PathError>
    requires forall i :: 0 <= i < |queue| ==> queue[i] != []
    decreases QueueWeight(|g.arcs|, queue)
  {
    if queue == [] || |found| >= maxPaths then Success(found)
    else
      var path := queue[0];
      var rest := queue[1..];
      assert queue == [path] + rest;
      assert QueueWeight(|g.arcs|, queue) == Weight(|g.arcs|, |path|) + QueueWeight(|g.arcs|, rest);
      if Last(path) == t then Search(g, t, rest, found + [path], maxPaths)
      else if |path| > MaxExpandLength then Search(g, t, rest, found, maxPaths)
      else if !HasNode(g, Last(path)) then Failure(UnknownNode(Last(path)))
      else
        var ext := Extensions(path, OutNeighbors(g, Last(path)));
        TargetsSpec(g.arcs, Last(path));
        ExpandDecreases(|g.arcs|, path, rest, ext);
        Search(g, t, rest + ext, found, maxPaths)
  }

  function FindAlternativePaths(g: Graph, source: NodeId, target: NodeId, maxPaths: int): Result<seq<Path>, PathError>
  {
    Search(g, target, [[source]], [], maxPaths)
  }

  // ---------------------------------------------------------------------
  // The loop invariant

  predicate QueueInv(g: Graph, s: NodeId, t: NodeId, queue: seq<Path>)
  {
    && (forall i :: 0 <= i < |queue| ==> Partial(g, s, t, queue[i]))
    && LengthSorted(queue)
    && (forall i :: 0 <= i < |queue| ==> |queue[i]| <= |queue[0]| + 1)
  }

  predicate FoundInv(g: Graph, s: NodeId, t: NodeId, found: seq<Path>, maxPaths: int)
  {
    && (forall i :: 0 <= i < |found| ==> Complete(g, s, t, found[i]))
    && (|found| <= maxPaths || found == [])
    && LengthSorted(found)
  }

  /** Accepted paths are never longer than queued ones. */
  predicate Behind(found: seq<Path>, queue: seq<Path>)
  {
    forall i, j :: 0 <= i < |found| && 0 <= j < |queue| ==> |found[i]| <= |queue[j]|
  }

  predicate SearchInv(g: Graph, s: NodeId, t: NodeId, queue: seq<Path>, found: seq<Path>, maxPaths: int)
  {
    QueueInv(g, s, t, queue) && FoundInv(g, s, t, found, maxPaths) && Behind(found, queue)
  }

  /** What the result promises: at most `maxPaths` complete paths, shortest first. */
  predicate Answer(g: Graph, s: NodeId, t: NodeId, paths: seq<Path>, maxPaths: int)
  {
    FoundInv(g, s, t, paths, maxPaths)
  }

  /** Short of `maxPaths` results, every complete path is among them. */
  ghost predicate Exhaustive(g: Graph, s: NodeId, t: NodeId, paths: seq<Path>, maxPaths: int)
  {
    |paths| < maxPaths ==> forall p :: Complete(g, s, t, p) ==> p in paths
  }

  lemma NoDupSnoc(p: Path, n: NodeId)
    requires NoDup(p) && n !in p
    ensures NoDup(p + [n])
  {
    var q := p + [n];
    forall i, j | 0 <= i < j < |q|
      ensures q[i] != q[j]
    {
      assert q[i] == p[i];
      if j == |p| {
        assert p[i] in p;
      } else {
        assert q[j] == p[j];
      }
    }
  }

  /** Extending a partial path that does not yet end at `t` keeps it partial. */
  lemma ExtendPartial(g: Graph, s: NodeId, t: NodeId, p: Path, n: NodeId)
    requires Partial(g, s, t, p) && Last(p) != t && |p| <= MaxExpandLength
    requires n !in p && HasEdge(g, Last(p), n)
    ensures Partial(g, s, t, p + [n])
  {
    var q := p + [n];
    NoDupSnoc(p, n);
    assert q[..|q| - 1] == p;
    assert p == p[..|p| - 1] + [Last(p)];
    forall i | 0 <= i < |q| - 1
      ensures HasEdge(g, q[i], q[i + 1])
    {
      if i < |p| - 1 {
        assert q[i] == p[i] && q[i + 1] == p[i + 1];
      }
    }
  }

  lemma ExtensionsPartial(g: Graph, s: NodeId, t: NodeId, p: Path, ext: seq<Path>)
    requires Partial(g, s, t, p) && Last(p) != t && |p| <= MaxExpandLength
    requires ext == Extensions(p, OutNeighbors(g, Last(p)))
    ensures forall i :: 0 <= i < |ext| ==> Partial(g, s, t, ext[i]) && |ext[i]| == |p| + 1
  {
    forall i | 0 <= i < |ext|
      ensures Partial(g, s, t, ext[i])
    {
      var n := ExtensionStep(g, p, ext, i);
      ExtendPartial(g, s, t, p, n);
    }
  }

  lemma SnocSplit<T>(e: seq<T>, k: nat)
    requires |e| == k + 1
    ensures e == e[..k] + [e[k]]
  {
  }

  /** Each extension adds one out-neighbour not yet on the path. */
  lemma ExtensionStep(g: Graph, p: Path, ext: seq<Path>, i: nat) returns (n: NodeId)
    requires p != [] && ext == Extensions(p, OutNeighbors(g, Last(p))) && i < |ext|
    ensures ext[i] == p + [n] && n !in p && HasEdge(g, Last(p), n)
  {
    var e := ext[i];
    n := e[|p|];
    assert |e| == |p| + 1 && e[..|p|] == p;
    SnocSplit(e, |p|);
    TargetsSpec(g.arcs, Last(p));
  }

  /** Accepting the head of the queue keeps the invariant. */
  lemma AcceptStep(g: Graph, s: NodeId, t: NodeId, queue: seq<Path>, found: seq<Path>, maxPaths: int)
    requires SearchInv(g, s, t, queue, found, maxPaths)
    requires queue != [] && |found| < maxPaths && Last(queue[0]) == t
    ensures SearchInv(g, s, t, queue[1..], found + [queue[0]], maxPaths)
  {
    var path, rest, found' := queue[0], queue[1..], found + [queue[0]];
    DropStep(g, s, t, queue, found, maxPaths);
    assert forall i :: 0 <= i < |found| ==> found'[i] == found[i];
    assert found'[|found|] == path;
    assert forall j :: 0 <= j < |rest| ==> rest[j] == queue[j + 1];
  }

  /** Discarding the head of the queue keeps the invariant. */
  lemma DropStep(g: Graph, s: NodeId, t: NodeId, queue: seq<Path>, found: seq<Path>, maxPaths: int)
    requires SearchInv(g, s, t, queue, found, maxPaths) && queue != []
    ensures SearchInv(g, s, t, queue[1..], found, maxPaths)
  {
    var rest := queue[1..];
    assert forall i :: 0 <= i < |rest| ==> rest[i] == queue[i + 1];
    if rest != [] {
      assert |rest[0]| >= |queue[0]|;
    }
  }

  lemma AppendPartial(g: Graph, s: NodeId, t: NodeId, a: seq<Path>, b: seq<Path>)
    requires forall i :: 0 <= i < |a| ==> Partial(g, s, t, a[i])
    requires forall i :: 0 <= i < |b| ==> Partial(g, s, t, b[i])
    ensures forall i :: 0 <= i < |a + b| ==> Partial(g, s, t, (a + b)[i])
  {
    forall i | 0 <= i < |a + b|
      ensures Partial(g, s, t, (a + b)[i])
    {
      if i >= |a| {
        assert (a + b)[i] == b[i - |a|];
      }
    }
  }

  /** Queued paths of `len` or `len + 1` nodes followed by paths of `len + 1`
      nodes stay sorted by length. */
  lemma AppendSorted(a: seq<Path>, b: seq<Path>, len: nat)
    requires LengthSorted(a) && forall i :: 0 <= i < |a| ==> len <= |a[i]| <= len + 1
    requires forall i :: 0 <= i < |b| ==> |b[i]| == len + 1
    ensures LengthSorted(a + b) && forall i :: 0 <= i < |a + b| ==> len <= |(a + b)[i]| <= len + 1
  {
    var c := a + b;
    assert forall i :: |a| <= i < |c| ==> c[i] == b[i - |a|];
    assert forall i :: 0 <= i < |a| ==> c[i] == a[i];
  }

  /** Replacing the head of the queue by its extensions keeps the invariant. */
  lemma ExpandStep(g: Graph, s: NodeId, t: NodeId, queue: seq<Path>, found: seq<Path>, maxPaths: int)
    requires SearchInv(g, s, t, queue, found, maxPaths)
    requires queue != [] && Last(queue[0]) != t && |queue[0]| <= MaxExpandLength
    ensures SearchInv(g, s, t, queue[1..] + Extensions(queue[0], OutNeighbors(g, Last(queue[0]))), found, maxPaths)
  {
    var path, rest := queue[0], queue[1..];
    var len := |path|;
    var ext := Extensions(path, OutNeighbors(g, Last(path)));
    ExtensionsPartial(g, s, t, path, ext);
    DropStep(g, s, t, queue, found, maxPaths);
    assert forall i :: 0 <= i < |rest| ==> rest[i] == queue[i + 1];
    assert forall i :: 0 <= i < |rest| ==> len <= |rest[i]| <= len + 1;
    AppendPartial(g, s, t, rest, ext);
    AppendSorted(rest, ext, len);
  }

  /** One expansion turn: the queue it leaves keeps the invariant, weighs
      less, and the search continues from it with the same outcome. */
  lemma ExpandNext(g: Graph, s: NodeId, t: NodeId, queue: seq<Path>, found: seq<Path>, maxPaths: int)
    returns (next: seq<Path>)
    requires SearchInv(g, s, t, queue, found, maxPaths)
    requires queue != [] && |found| < maxPaths
    requires Last(queue[0]) != t && |queue[0]| <= MaxExpandLength && HasNode(g, Last(queue[0]))
    ensures next == queue[1..] + Extensions(queue[0], OutNeighbors(g, Last(queue[0])))
    ensures SearchInv(g, s, t, next, found, maxPaths)
    ensures forall i :: 0 <= i < |queue| ==> queue[i] != []
    ensures QueueWeight(|g.arcs|, next) < QueueWeight(|g.arcs|, queue)
    ensures Search(g, t, queue, found, maxPaths) == Search(g, t, next, found, maxPaths)
  {
    var path := queue[0];
    var rest := queue[1..];
    var ext := Extensions(path, OutNeighbors(g, Last(path)));
    next := rest + ext;
    ExpandStep(g, s, t, queue, found, maxPaths);
    TargetsSpec(g.arcs, Last(path));
    assert queue == [path] + rest;
    ExpandDecreases(|g.arcs|, path, rest, ext);
  }

  lemma {:induction false} SearchCorrect(g: Graph, s: NodeId, t: NodeId, queue: seq<Path>, found: seq<Path>, maxPaths: int)
    requires SearchInv(g, s, t, queue, found, maxPaths)
    ensures forall i :: 0 <= i < |queue| ==> queue[i] != []
    ensures Search(g, t, queue, found, maxPaths).Success? ==>
      Answer(g, s, t, Search(g, t, queue, found, maxPaths).value, maxPaths)
    decreases QueueWeight(|g.arcs|, queue)
  {
    if queue != [] && |found| < maxPaths {
      var path := queue[0];
      var rest := queue[1..];
      assert queue == [path] + rest;
      if Last(path) == t {
        AcceptStep(g, s, t, queue, found, maxPaths);
        SearchCorrect(g, s, t, rest, found + [path], maxPaths);
      } else if |path| > MaxExpandLength {
        DropStep(g, s, t, queue, found, maxPaths);
        SearchCorrect(g, s, t, rest, found, maxPaths);
      } else if HasNode(g, Last(path)) {
        var next := ExpandNext(g, s, t, queue, found, maxPaths);
        SearchCorrect(g, s, t, next, found, maxPaths);
      }
    }
  }

  /** Every queued path is non-empty and ends at a node of the graph. */
  predicate EndsKnown(g: Graph, queue: seq<Path>)
  {
    forall i :: 0 <= i < |queue| ==> queue[i] != [] && HasNode(g, Last(queue[i]))
  }

  lemma EndsKnownAppend(g: Graph, a: seq<Path>, b: seq<Path>)
    requires EndsKnown(g, a) && EndsKnown(g, b)
    ensures EndsKnown(g, a + b)
  {
    forall i | 0 <= i < |a + b|
      ensures (a + b)[i] != [] && HasNode(g, Last((a + b)[i]))
    {
      if i >= |a| {
        assert (a + b)[i] == b[i - |a|];
      }
    }
  }

  lemma EndsKnownTail(g: Graph, queue: seq<Path>)
    requires EndsKnown(g, queue) && queue != []
    ensures EndsKnown(g, queue[1..])
  {
    assert forall i :: 0 <= i < |queue| - 1 ==> queue[1..][i] == queue[i + 1];
  }

  /** In a valid graph the search never meets an unknown node, so it succeeds
      whenever every queued path ends at a known node. */
  lemma {:induction false} SearchNoFailure(g: Graph, t: NodeId, queue: seq<Path>, found: seq<Path>, maxPaths: int)
    requires Valid(g) && EndsKnown(g, queue)
    ensures Search(g, t, queue, found, maxPaths).Success?
    decreases QueueWeight(|g.arcs|, queue)
  {
    if queue != [] && |found| < maxPaths {
      var path := queue[0];
      var rest := queue[1..];
      assert queue == [path] + rest;
      EndsKnownTail(g, queue);
      if Last(path) == t {
        SearchNoFailure(g, t, rest, found + [path], maxPaths);
      } else if |path| > MaxExpandLength {
        SearchNoFailure(g, t, rest, found, maxPaths);
      } else {
        var next := ExpandShape(g, t, queue, found, maxPaths);
        ExtensionsEndKnown(g, path);
        EndsKnownAppend(g, rest, Extensions(path, OutNeighbors(g, Last(path))));
        SearchNoFailure(g, t, next, found, maxPaths);
      }
    }
  }

  /** In a valid graph every extension ends at a known node. */
  lemma ExtensionsEndKnown(g: Graph, path: Path)
    requires Valid(g) && path != []
    ensures EndsKnown(g, Extensions(path, OutNeighbors(g, Last(path))))
  {
    var ns := OutNeighbors(g, Last(path));
    var ext := Extensions(path, ns);
    TargetsSpec(g.arcs, Last(path));
    forall i | 0 <= i < |ext|
      ensures ext[i] != [] && HasNode(g, Last(ext[i]))
    {
      var e := ext[i];
      assert Last(e) == e[|path|] && e[|path|] in ns;
      var k :| 0 <= k < |g.arcs| && g.arcs[k].source == Last(path) && g.arcs[k].target == Last(e);
    }
  }

  /** The promises of `findAlternativePaths`: at most `maxPaths` simple paths
      from `source` to `target` of at most eleven nodes, in non-decreasing
      length, none twice in a graph without parallel arcs, and all of them
      when fewer than `maxPaths` come back; in a valid graph the only failure
      is expanding an unknown source. */
  lemma FindAlternativePathsSpec(g: Graph, source: NodeId, target: NodeId, maxPaths: int)
    ensures var r := FindAlternativePaths(g, source, target, maxPaths);
      && (r.Success? ==> Answer(g, source, target, r.value, maxPaths))
      && (r.Success? ==> Exhaustive(g, source, target, r.value, maxPaths))
      && (r.Success? && DistinctPairs(g.arcs) ==> NoDup(r.value))
      && (Valid(g) ==> (r.Failure? <==> 1 <= maxPaths && source != target && !HasNode(g, source)))
  {
    var start: Path := [source];
    assert start[..0] == [];
    assert Partial(g, source, target, start);
    SearchCorrect(g, source, target, [start], [], maxPaths);
    if Valid(g) && HasNode(g, source) {
      SearchNoFailure(g, target, [start], [], maxPaths);
    }
    if 1 <= maxPaths && source == target {
      SameEndpoints(g, source, maxPaths);
    }
    forall p | Complete(g, source, target, p)
      ensures var r := FindAlternativePaths(g, source, target, maxPaths);
        r.Success? && |r.value| < maxPaths ==> p in r.value
    {
      FindAlternativePathsComplete(g, source, target, maxPaths, p);
    }
    if DistinctPairs(g.arcs) {
      FindAlternativePathsDistinct(g, source, target, maxPaths);
    }
  }

  /** With the source equal to the target the only path is the one-node path. */
  lemma SameEndpoints(g: Graph, s: NodeId, maxPaths: int)
    requires maxPaths >= 1
    ensures FindAlternativePaths(g, s, s, maxPaths) == Success([[s]])
  {
    var start: Path := [s];
    var queue: seq<Path> := [start];
    assert queue[1..] == [] && Last(queue[0]) == s;
    var found: seq<Path> := [];
    assert found + [start] == [start];
    assert Search(g, s, [], [start], maxPaths) == Success([start]);
    assert Search(g, s, queue, found, maxPaths) == Search(g, s, [], [start], maxPaths);
  }

  /** An expansion turn on any queue of non-empty paths: the next queue holds
      non-empty paths, weighs less, and the search continues from it. */
  lemma ExpandShape(g: Graph, t: NodeId, queue: seq<Path>, found: seq<Path>, maxPaths: int)
    returns (next: seq<Path>)
    requires forall i :: 0 <= i < |queue| ==> queue[i] != []
    requires queue != [] && |found| < maxPaths
    requires Last(queue[0]) != t && |queue[0]| <= MaxExpandLength && HasNode(g, Last(queue[0]))
    ensures next == queue[1..] + Extensions(queue[0], OutNeighbors(g, Last(queue[0])))
    ensures forall i :: 0 <= i < |next| ==> next[i] != []
    ensures QueueWeight(|g.arcs|, next) < QueueWeight(|g.arcs|, queue)
    ensures Search(g, t, queue, found, maxPaths) == Search(g, t, next, found, maxPaths)
  {
    var path := queue[0];
    var rest := queue[1..];
    var ext := Extensions(path, OutNeighbors(g, Last(path)));
    next := rest + ext;
    TargetsSpec(g.arcs, Last(path));
    assert queue == [path] + rest;
    ExpandDecreases(|g.arcs|, path, rest, ext);
    NonEmptyAppend(rest, ext);
  }

  lemma NonEmptyAppend(a: seq<Path>, b: seq<Path>)
    requires forall i :: 0 <= i < |a| ==> a[i] != []
    requires forall i :: 0 <= i < |b| ==> b[i] != []
    ensures forall i :: 0 <= i < |a + b| ==> (a + b)[i] != []
  {
    forall i | 0 <= i < |a + b|
      ensures (a + b)[i] != []
    {
      if i >= |a| {
        assert (a + b)[i] == b[i - |a|];
      }
    }
  }

  /** Dropping the head of a queue of non-empty paths leaves non-empty paths
      and a lighter queue. */
  lemma DropShape(m: nat, queue: seq<Path>)
    requires queue != [] && forall i :: 0 <= i < |queue| ==> queue[i] != []
    ensures forall i :: 0 <= i < |queue[1..]| ==> queue[1..][i] != []
    ensures QueueWeight(m, queue[1..]) < QueueWeight(m, queue)
  {
    assert forall i :: 0 <= i < |queue| - 1 ==> queue[1..][i] == queue[i + 1];
  }

  lemma PrefixOfSnoc(v: seq<Path>, found: seq<Path>, path: Path)
    requires |found| + 1 <= |v| && v[..|found| + 1] == found + [path]
    ensures |found| <= |v| && v[..|found|] == found
  {
    assert v[..|found|] == v[..|found| + 1][..|found|];
  }

  /** The search only ever appends to the accepted paths. */
  lemma {:induction false} SearchExtendsFound(g: Graph, t: NodeId, queue: seq<Path>, found: seq<Path>, maxPaths: int)
    requires forall i :: 0 <= i < |queue| ==> queue[i] != []
    ensures var r := Search(g, t, queue, found, maxPaths);
      r.Success? ==> |found| <= |r.value| && r.value[..|found|] == found
    decreases QueueWeight(|g.arcs|, queue)
  {
    if queue != [] && |found| < maxPaths {
      var path := queue[0];
      var rest := queue[1..];
      DropShape(|g.arcs|, queue);
      if Last(path) == t {
        SearchExtendsFound(g, t, rest, found + [path], maxPaths);
        var r := Search(g, t, rest, found + [path], maxPaths);
        if r.Success? {
          PrefixOfSnoc(r.value, found, path);
        }
      } else if |path| > MaxExpandLength {
        SearchExtendsFound(g, t, rest, found, maxPaths);
      } else if HasNode(g, Last(path)) {
        var next := ExpandShape(g, t, queue, found, maxPaths);
        SearchExtendsFound(g, t, next, found, maxPaths);
      }
    }
  }

  /** While nothing is accepted and the direct path `[s, t]` is queued, the
      first path accepted is `[s, t]`: a shorter queued path cannot end at `t`. */
  lemma {:induction false} DirectPathFirst(g: Graph, s: NodeId, t: NodeId, queue: seq<Path>, maxPaths: int)
    requires SearchInv(g, s, t, queue, [], maxPaths)
    requires maxPaths >= 1 && s != t && [s, t] in queue
    ensures forall i :: 0 <= i < |queue| ==> queue[i] != []
    ensures var r := Search(g, t, queue, [], maxPaths);
      r.Success? ==> r.value != [] && r.value[0] == [s, t]
    decreases QueueWeight(|g.arcs|, queue)
  {
    var path := queue[0];
    var rest := queue[1..];
    var k := HeadNoLonger(g, s, t, queue, maxPaths);
    if Last(path) == t {
      AcceptDirect(g, s, t, queue, maxPaths);
    } else if HasNode(g, Last(path)) {
      var next := ExpandKeepsDirect(g, s, t, queue, maxPaths, k);
      DirectPathFirst(g, s, t, next, maxPaths);
    }
  }

  /** Accepting `[s, t]` at the head makes it the first path of the result. */
  lemma AcceptDirect(g: Graph, s: NodeId, t: NodeId, queue: seq<Path>, maxPaths: int)
    requires SearchInv(g, s, t, queue, [], maxPaths)
    requires maxPaths >= 1 && queue != [] && queue[0] == [s, t]
    ensures forall i :: 0 <= i < |queue| ==> queue[i] != []
    ensures var r := Search(g, t, queue, [], maxPaths);
      r.Success? ==> r.value != [] && r.value[0] == [s, t]
  {
    var path := queue[0];
    var rest := queue[1..];
    var none: seq<Path> := [];
    assert none + [path] == [path];
    assert Last(path) == t;
    assert Search(g, t, queue, none, maxPaths) == Search(g, t, rest, none + [path], maxPaths);
    SearchExtendsFound(g, t, rest, [path], maxPaths);
  }

  /** Expanding a head other than `[s, t]` keeps `[s, t]` queued, keeps the
      invariant, and shrinks the queue's weight. */
  lemma ExpandKeepsDirect(g: Graph, s: NodeId, t: NodeId, queue: seq<Path>, maxPaths: int, k: nat)
    returns (next: seq<Path>)
    requires SearchInv(g, s, t, queue, [], maxPaths)
    requires maxPaths >= 1 && s != t
    requires 0 < k < |queue| && queue[k] == [s, t]
    requires |queue[0]| <= 2 && Last(queue[0]) != t && HasNode(g, Last(queue[0]))
    ensures next == queue[1..] + Extensions(queue[0], OutNeighbors(g, Last(queue[0])))
    ensures SearchInv(g, s, t, next, [], maxPaths) && [s, t] in next
    ensures forall i :: 0 <= i < |queue| ==> queue[i] != []
    ensures QueueWeight(|g.arcs|, next) < QueueWeight(|g.arcs|, queue)
    ensures Search(g, t, queue, [], maxPaths) == Search(g, t, next, [], maxPaths)
  {
    next := ExpandNext(g, s, t, queue, [], maxPaths);
    var rest := queue[1..];
    assert rest[k - 1] == queue[k];
    assert [s, t] in rest;
  }

  /** The head of a queue holding `[s, t]` has at most two nodes, and exactly
      `[s, t]` when it ends at `t`. */
  lemma HeadNoLonger(g: Graph, s: NodeId, t: NodeId, queue: seq<Path>, maxPaths: int) returns (k: nat)
    requires SearchInv(g, s, t, queue, [], maxPaths)
    requires s != t && [s, t] in queue
    ensures k < |queue| && queue[k] == [s, t]
    ensures 1 <= |queue[0]| <= 2
    ensures Last(queue[0]) == t ==> queue[0] == [s, t]
    ensures queue[0] != [s, t] ==> k > 0
  {
    k :| 0 <= k < |queue| && queue[k] == [s, t];
    var path := queue[0];
    assert Partial(g, s, t, path);
    if k > 0 {
      assert |path| <= |queue[k]|;
    }
    if Last(path) == t {
      assert path == [path[0], path[1]];
    }
  }

  /** The search starts from a queue holding `[s]` alone, which meets the
      loop invariant. */
  lemma StartInv(g: Graph, s: NodeId, t: NodeId, maxPaths: int)
    ensures SearchInv(g, s, t, [[s]], [], maxPaths)
  {
    var start: Path := [s];
    assert start[..0] == [];
    assert Partial(g, s, t, start);
  }

  /** The first turn of the loop expands `[s]` when `s` is a known node other
      than the target. */
  lemma FirstStep(g: Graph, s: NodeId, t: NodeId, maxPaths: int)
    requires HasNode(g, s) && s != t && maxPaths >= 1
    ensures Search(g, t, [[s]], [], maxPaths) == Search(g, t, Extensions([s], OutNeighbors(g, s)), [], maxPaths)
  {
    var queue: seq<Path> := [[s]];
    assert queue[1..] + Extensions([s], OutNeighbors(g, s)) == Extensions([s], OutNeighbors(g, s));
  }

  /** The first expansion of the search turns `[s]` into one path per
      out-neighbour of `s`; with the arc `s -> t` present, `[s, t]` is one. */
  lemma FirstExpansion(g: Graph, s: NodeId, t: NodeId, maxPaths: int) returns (ext: seq<Path>)
    requires Valid(g) && HasEdge(g, s, t) && maxPaths >= 1
    ensures SearchInv(g, s, t, ext, [], maxPaths) && [s, t] in ext && s != t
    ensures FindAlternativePaths(g, s, t, maxPaths) == Search(g, t, ext, [], maxPaths)
  {
    var k :| 0 <= k < |g.arcs| && g.arcs[k].source == s && g.arcs[k].target == t;
    assert HasNode(g, s) && s != t;
    ext := Extensions([s], OutNeighbors(g, s));
    StartInv(g, s, t, maxPaths);
    ExpandStep(g, s, t, [[s]], [], maxPaths);
    assert [[s]][1..] + ext == ext;
    TargetsSpec(g.arcs, s);
    assert [s] + [t] == [s, t];
    FirstStep(g, s, t, maxPaths);
  }

  /** When the graph has the arc itself, the direct path is the first
      alternative found: a disrupted arc is still offered as its own detour. */
  lemma DirectEdgeFoundFirst(g: Graph, s: NodeId, t: NodeId, maxPaths: int)
    requires Valid(g) && HasEdge(g, s, t) && maxPaths >= 1
    ensures var r := FindAlternativePaths(g, s, t, maxPaths);
      r.Success? && r.value != [] && r.value[0] == [s, t]
  {
    assert HasNode(g, s);
    FindAlternativePathsSpec(g, s, t, maxPaths);
    var ext := FirstExpansion(g, s, t, maxPaths);
    DirectPathFirst(g, s, t, ext, maxPaths);
  }

  // ---------------------------------------------------------------------
  // Completeness: a search that stops short of `maxPaths` has found every
  // complete path.

  /** Some prefix of `p` is still queued, or `p` has been accepted. */
  predicate Pending(p: Path, queue: seq<Path>, found: seq<Path>)
  {
    p in found || exists k :: 1 <= k <= |p| && p[..k] in queue
  }

  /** A proper prefix of a complete path does not end at the target, is
      short enough to be extended, and is extended by the next node of the
      path, an out-neighbour it does not visit. */
  lemma PrefixFacts(g: Graph, s: NodeId, t: NodeId, p: Path, k: nat)
    requires Complete(g, s, t, p) && 1 <= k <= |p|
    ensures p[..k] != [] && p[..|p|] == p
    ensures Last(p[..k]) == t ==> k == |p|
    ensures k < |p| ==>
      && |p[..k]| <= MaxExpandLength
      && p[..k + 1] == p[..k] + [p[k]]
      && p[k] !in p[..k]
      && HasEdge(g, Last(p[..k]), p[k])
  {
    if k < |p| {
      assert p[..k] == p[..|p| - 1][..k];
      assert Last(p[..k]) == p[k - 1] && p[k - 1] in p[..|p| - 1];
      forall j | 0 <= j < k
        ensures p[..k][j] != p[k]
      {
        assert p[..k][j] == p[j];
      }
    }
  }

  /** Expanding the prefix `p[..k]` of a complete path queues `p[..k + 1]`. */
  lemma ExtendsPrefix(g: Graph, s: NodeId, t: NodeId, p: Path, k: nat)
    requires Complete(g, s, t, p) && 1 <= k < |p|
    ensures p[..k + 1] in Extensions(p[..k], OutNeighbors(g, Last(p[..k])))
  {
    PrefixFacts(g, s, t, p, k);
    TargetsSpec(g.arcs, Last(p[..k]));
  }

  lemma {:induction false} SearchComplete(g: Graph, s: NodeId, t: NodeId, queue: seq<Path>, found: seq<Path>,
                                          maxPaths: int, p: Path)
    requires forall i :: 0 <= i < |queue| ==> queue[i] != []
    requires Complete(g, s, t, p) && Pending(p, queue, found)
    ensures var r := Search(g, t, queue, found, maxPaths);
      r.Success? && |r.value| < maxPaths ==> p in r.value
    decreases QueueWeight(|g.arcs|, queue)
  {
    var r := Search(g, t, queue, found, maxPaths);
    if r.Success? && |r.value| < maxPaths {
      SearchExtendsFound(g, t, queue, found, maxPaths);
      if p in found {
        assert r.value[..|found|] == found;
        assert p in r.value;
      } else if queue != [] && |found| < maxPaths {
        var path := queue[0];
        var rest := queue[1..];
        assert queue == [path] + rest;
        DropShape(|g.arcs|, queue);
        var k :| 1 <= k <= |p| && p[..k] in queue;
        PrefixFacts(g, s, t, p, k);
        var here := path == p[..k];
        if !here {
          assert p[..k] in rest;
        }
        if Last(path) == t {
          assert here ==> path == p;
          SearchComplete(g, s, t, rest, found + [path], maxPaths, p);
        } else if |path| > MaxExpandLength {
          SearchComplete(g, s, t, rest, found, maxPaths, p);
        } else if HasNode(g, Last(path)) {
          var next := ExpandShape(g, t, queue, found, maxPaths);
          if here {
            ExtendsPrefix(g, s, t, p, k);
            assert p[..k + 1] in next;
          } else {
            assert p[..k] in next;
          }
          SearchComplete(g, s, t, next, found, maxPaths, p);
        }
      }
    }
  }

  /** When fewer than `maxPaths` paths come back, every simple path from the
      source to the target of at most eleven nodes is among them: the queue
      ran dry. */
  lemma FindAlternativePathsComplete(g: Graph, source: NodeId, target: NodeId, maxPaths: int, p: Path)
    requires Complete(g, source, target, p)
    ensures var r := FindAlternativePaths(g, source, target, maxPaths);
      r.Success? && |r.value| < maxPaths ==> p in r.value
  {
    var start: seq<Path> := [[source]];
    assert p[..1] == [source] == start[0];
    SearchComplete(g, source, target, start, [], maxPaths, p);
  }

  // ---------------------------------------------------------------------
  // Distinctness: no path is accepted twice.

  predicate ProperPrefix(x: Path, y: Path)
  {
    |x| < |y| && y[..|x|] == x
  }

  /** The queue and the accepted paths hold no repeats and share no path,
      and no queued path is a proper prefix of a queued or accepted one:
      every path has a single parent, which is expanded once. */
  predicate Unrepeated(queue: seq<Path>, found: seq<Path>)
  {
    && NoDup(queue) && NoDup(found)
    && (forall x :: x in queue ==> x !in found)
    && (forall x, y :: x in queue && y in queue + found ==> !ProperPrefix(x, y))
  }

  lemma ProperPrefixTrans(x: Path, y: Path, z: Path)
    requires ProperPrefix(x, y) && ProperPrefix(y, z)
    ensures ProperPrefix(x, z)
  {
    assert z[..|x|] == z[..|y|][..|x|];
  }

  /** A proper prefix of `path + [n]` is `path` or a proper prefix of it. */
  lemma ProperPrefixSnoc(x: Path, path: Path, e: Path)
    requires ProperPrefix(path, e) && |e| == |path| + 1 && ProperPrefix(x, e)
    ensures x == path || ProperPrefix(x, path)
  {
    assert e[..|x|] == e[..|path|][..|x|];
  }

  lemma UnrepeatedDrop(queue: seq<Path>, found: seq<Path>)
    requires Unrepeated(queue, found) && queue != []
    ensures Unrepeated(queue[1..], found)
  {
    NoDupTail(queue);
    assert forall x :: x in queue[1..] ==> x in queue;
  }

  lemma UnrepeatedAccept(queue: seq<Path>, found: seq<Path>)
    requires Unrepeated(queue, found) && queue != []
    ensures Unrepeated(queue[1..], found + [queue[0]])
  {
    var path, rest := queue[0], queue[1..];
    NoDupTail(queue);
    assert forall x :: x in rest ==> x in queue;
    NoDupAppend(found, [path]);
  }

  lemma UnrepeatedExpand(g: Graph, queue: seq<Path>, found: seq<Path>)
    requires Unrepeated(queue, found) && queue != [] && queue[0] != []
    requires DistinctPairs(g.arcs)
    ensures Unrepeated(queue[1..] + Extensions(queue[0], OutNeighbors(g, Last(queue[0]))), found)
  {
    var path, rest := queue[0], queue[1..];
    var ext := Extensions(path, OutNeighbors(g, Last(path)));
    NoDupTail(queue);
    assert forall x :: x in rest ==> x in queue;
    TargetsSpec(g.arcs, Last(path));
    ExtensionsDistinct(path, OutNeighbors(g, Last(path)));
    assert forall e :: e in ext ==> ProperPrefix(path, e);
    NoDupAppend(rest, ext);
    ExpandPrefixFree(queue, found, ext);
  }

  /** After replacing `path` by its one-node extensions, no queued path is a
      proper prefix of a queued or accepted one. */
  lemma ExpandPrefixFree(queue: seq<Path>, found: seq<Path>, ext: seq<Path>)
    requires Unrepeated(queue, found) && queue != []
    requires forall e :: e in ext ==> ProperPrefix(queue[0], e) && |e| == |queue[0]| + 1
    ensures forall x, y :: x in queue[1..] + ext && y in queue[1..] + ext + found ==> !ProperPrefix(x, y)
  {
    var path, rest := queue[0], queue[1..];
    NoDupTail(queue);
    assert forall x :: x in rest ==> x in queue;
    forall x, y | x in rest + ext && y in rest + ext + found
      ensures !ProperPrefix(x, y)
    {
      if ProperPrefix(x, y) {
        if x in ext {
          if y !in ext {
            ProperPrefixTrans(path, x, y);
          }
        } else if y in ext {
          ProperPrefixSnoc(x, path, y);
        }
      }
    }
  }

  lemma {:induction false} SearchDistinct(g: Graph, t: NodeId, queue: seq<Path>, found: seq<Path>, maxPaths: int)
    requires forall i :: 0 <= i < |queue| ==> queue[i] != []
    requires DistinctPairs(g.arcs) && Unrepeated(queue, found)
    ensures var r := Search(g, t, queue, found, maxPaths);
      r.Success? ==> NoDup(r.value)
    decreases QueueWeight(|g.arcs|, queue)
  {
    if queue != [] && |found| < maxPaths {
      var path := queue[0];
      var rest := queue[1..];
      DropShape(|g.arcs|, queue);
      if Last(path) == t {
        UnrepeatedAccept(queue, found);
        SearchDistinct(g, t, rest, found + [path], maxPaths);
      } else if |path| > MaxExpandLength {
        UnrepeatedDrop(queue, found);
        SearchDistinct(g, t, rest, found, maxPaths);
      } else if HasNode(g, Last(path)) {
        var next := ExpandShape(g, t, queue, found, maxPaths);
        UnrepeatedExpand(g, queue, found);
        SearchDistinct(g, t, next, found, maxPaths);
      }
    }
  }

  /** In a graph without parallel arcs no path is returned twice. */
  lemma FindAlternativePathsDistinct(g: Graph, source: NodeId, target: NodeId, maxPaths: int)
    requires DistinctPairs(g.arcs)
    ensures var r := FindAlternativePaths(g, source, target, maxPaths);
      r.Success? ==> NoDup(r.value)
  {
    var start: seq<Path> := [[source]];
    var none: seq<Path> := [];
    assert Unrepeated(start, none);
    SearchDistinct(g, target, start, none, maxPaths);
  }
}
