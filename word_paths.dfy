/**
 Directed paths in the word graph: what a path is, reachability, the weight
 sum reported for a path, and the facts the shortest-path search rests on
 (a set closed under edges cannot be left; a vertex of least tentative
 distance outside the settled set has its true hop distance).
 */
module WordPaths {
  import opened WordGraph

  /** Every consecutive pair of p is an edge. */
  predicate EdgesAlong(adj: Adjacency, p: seq<Word>)
  {
    forall i :: 0 <= i < |p| - 1 ==> HasEdge(adj, p[i], p[i + 1])
  }

  /** A non-empty walk along edges, starting at a vertex. */
  predicate IsPath(adj: Adjacency, p: seq<Word>)
  {
    |p| >= 1 && p[0] in adj && EdgesAlong(adj, p)
  }

  predicate PathBetween(adj: Adjacency, p: seq<Word>, s: Word, t: Word)
  {
    IsPath(adj, p) && p[0] == s && p[|p| - 1] == t
  }

  ghost predicate Reachable(adj: Adjacency, s: Word, t: Word)
  {
    exists p :: PathBetween(adj, p, s, t)
  }

  /** Number of edges a path traverses. */
  function Hops(p: seq<Word>): int
  {
    |p| - 1
  }

  /**
   The sum of the edge multiplicities along p, the value printed as the
   "shortest path length". It is at least the hop count whenever every
   recorded edge has multiplicity at least one.
   */
  function PathWeight(adj: Adjacency, p: seq<Word>): (w: int)
    requires EdgesAlong(adj, p)
    ensures PositiveWeights(adj) ==> w >= Hops(p)
    ensures |p| <= 1 ==> w == 0
    decreases |p|
  {
    if |p| < 2 then 0
    else
      PrefixEdgesAlong(adj, p, |p| - 1);
      assert HasEdge(adj, p[|p| - 2], p[|p| - 1]);
      PathWeight(adj, p[..|p| - 1]) + adj[p[|p| - 2]][p[|p| - 1]]
  }

  /** Every prefix of a walk along edges is one. */
  lemma PrefixEdgesAlong(adj: Adjacency, p: seq<Word>, k: int)
    requires EdgesAlong(adj, p) && 0 <= k <= |p|
    ensures EdgesAlong(adj, p[..k])
  {
    var q := p[..k];
    forall i | 0 <= i < |q| - 1 ensures HasEdge(adj, q[i], q[i + 1]) {
      assert q[i] == p[i] && q[i + 1] == p[i + 1];
    }
  }

  /** Summing from the front: one more edge of the path adds its multiplicity. */
  lemma PathWeightStep(adj: Adjacency, p: seq<Word>, i: int)
    requires EdgesAlong(adj, p) && 0 <= i < |p| - 1
    ensures EdgesAlong(adj, p[..i + 1]) && EdgesAlong(adj, p[..i + 2]) && HasEdge(adj, p[i], p[i + 1])
    ensures PathWeight(adj, p[..i + 2]) == PathWeight(adj, p[..i + 1]) + adj[p[i]][p[i + 1]]
  {
    PrefixEdgesAlong(adj, p, i + 1);
    PrefixEdgesAlong(adj, p, i + 2);
    assert p[..i + 2][..i + 1] == p[..i + 1];
  }

  /** The i-th directed edge a path traverses. */
  function EdgeAt(p: seq<Word>, i: int): (Word, Word)
    requires 0 <= i < |p| - 1
  {
    (p[i], p[i + 1])
  }

  /** The directed edges a path traverses. */
  function PathEdges(p: seq<Word>): set<(Word, Word)>
  {
    set i | 0 <= i < |p| - 1 :: EdgeAt(p, i)
  }

  /** No directed edge is traversed twice. */
  predicate DistinctEdges(p: seq<Word>)
  {
    forall i, j :: 0 <= i < j < |p| - 1 ==> EdgeAt(p, i) != EdgeAt(p, j)
  }

  /** Extending a path by one vertex adds exactly the edge to it. */
  lemma PathEdgesSnoc(p: seq<Word>, x: Word)
    requires |p| >= 1
    ensures PathEdges(p + [x]) == PathEdges(p) + {(p[|p| - 1], x)}
  {
    var q := p + [x];
    forall e | e in PathEdges(q) ensures e in PathEdges(p) + {(p[|p| - 1], x)} {
      var i :| 0 <= i < |q| - 1 && e == EdgeAt(q, i);
      if i < |p| - 1 {
        assert e == EdgeAt(p, i);
      }
    }
    forall e | e in PathEdges(p) + {(p[|p| - 1], x)} ensures e in PathEdges(q) {
      if e in PathEdges(p) {
        var i :| 0 <= i < |p| - 1 && e == EdgeAt(p, i);
        assert e == EdgeAt(q, i);
      } else {
        assert e == EdgeAt(q, |p| - 1);
      }
    }
  }

  /** Extending a path by an edge out of its last vertex gives a path. */
  lemma SnocEdgesAlong(adj: Adjacency, p: seq<Word>, x: Word)
    requires |p| >= 1 && EdgesAlong(adj, p) && HasEdge(adj, p[|p| - 1], x)
    ensures EdgesAlong(adj, p + [x])
  {
    var q := p + [x];
    forall i | 0 <= i < |q| - 1 ensures HasEdge(adj, q[i], q[i + 1]) {
      if i < |p| - 1 {
        assert q[i] == p[i] && q[i + 1] == p[i + 1];
      }
    }
  }

  /** Extending a path by an edge it has not traversed keeps its edges distinct. */
  lemma SnocDistinctEdges(p: seq<Word>, x: Word)
    requires |p| >= 1 && DistinctEdges(p) && (p[|p| - 1], x) !in PathEdges(p)
    ensures DistinctEdges(p + [x])
  {
    var q := p + [x];
    forall i, j | 0 <= i < j < |q| - 1 ensures EdgeAt(q, i) != EdgeAt(q, j) {
      assert EdgeAt(q, i) == EdgeAt(p, i);
      if j < |p| - 1 {
        assert EdgeAt(q, j) == EdgeAt(p, j);
      } else {
        assert EdgeAt(p, i) in PathEdges(p);
      }
    }
  }

  /**
   When every edge has multiplicity one, the weight of a path is its hop
   count. Nothing in the model relies on it: it records how the reported
   "shortest path length" relates to the hop count the search minimises.
   */
  lemma {:induction false} UnitWeightsGiveHops(adj: Adjacency, p: seq<Word>)
    requires EdgesAlong(adj, p)
    requires forall a, b :: a in adj && b in adj[a] ==> adj[a][b] == 1
    ensures PathWeight(adj, p) == if |p| == 0 then 0 else Hops(p)
    decreases |p|
  {
    if |p| >= 2 {
      var p' := p[..|p| - 1];
      PrefixEdgesAlong(adj, p, |p| - 1);
      UnitWeightsGiveHops(adj, p');
      assert HasEdge(adj, p[|p| - 2], p[|p| - 1]);
    }
  }

  /**
   The one-vertex path is the only path of zero hops. CalcShortestPath
   proves its own [word1] case; this states the fact for any path.
   */
  lemma TrivialPath(adj: Adjacency, s: Word, p: seq<Word>)
    requires s in adj
    ensures PathBetween(adj, [s], s, s)
    ensures PathBetween(adj, p, s, s) && |p| <= 1 ==> p == [s]
  {
  }

  /** A prefix of a path is a path to its last vertex. */
  lemma PrefixPath(adj: Adjacency, p: seq<Word>, s: Word, k: int)
    requires IsPath(adj, p) && p[0] == s && 1 <= k <= |p|
    ensures PathBetween(adj, p[..k], s, p[k - 1])
  {
    PrefixEdgesAlong(adj, p, k);
  }

  /** The first vertex of p outside `inside`, for a p that starts inside and ends outside. */
  lemma FirstOutside(p: seq<Word>, inside: set<Word>) returns (k: int)
    requires |p| >= 1 && p[0] in inside && p[|p| - 1] !in inside
    ensures 1 <= k < |p| && p[k] !in inside
    ensures forall j :: 0 <= j < k ==> p[j] in inside
  {
    k := 1;
    while p[k] in inside
      invariant 1 <= k < |p|
      invariant forall j :: 0 <= j < k ==> p[j] in inside
      decreases |p| - k
    {
      k := k + 1;
    }
  }

  /** Every vertex of a path that starts in a set closed under out-edges lies in that set. */
  lemma PathStaysInside(adj: Adjacency, p: seq<Word>, inside: set<Word>)
    requires IsPath(adj, p) && p[0] in inside
    requires forall x, y :: x in inside && HasEdge(adj, x, y) ==> y in inside
    ensures forall i :: 0 <= i < |p| ==> p[i] in inside
  {
    var k := 0;
    while k < |p| - 1
      invariant 0 <= k < |p|
      invariant forall j :: 0 <= j <= k ==> p[j] in inside
    {
      assert HasEdge(adj, p[k], p[k + 1]);
      k := k + 1;
    }
  }

  /**
   A set of vertices that contains s and is closed under out-edges contains
   the end of every path from s; so nothing outside it is reachable from s.
   */
  lemma ClosedSetTraps(adj: Adjacency, s: Word, inside: set<Word>, t: Word)
    requires s in inside && t !in inside
    requires forall x, y :: x in inside && HasEdge(adj, x, y) ==> y in inside
    ensures forall p :: IsPath(adj, p) && p[0] == s ==> p[|p| - 1] in inside
    ensures !Reachable(adj, s, t)
  {
    forall p | IsPath(adj, p) && p[0] == s ensures p[|p| - 1] in inside {
      PathStaysInside(adj, p, inside);
    }
  }

  // State of the best-first search from s: dist holds the distances found
  // so far, prev the predecessor links, queue the vertices waiting to be
  // polled, and the ghost set done the vertices polled so far.

  /** Every reached vertex other than s hangs off a polled vertex by an edge, one hop further. */
  ghost predicate Linked(adj: Adjacency, s: Word, dist: map<Word, nat>, prev: map<Word, Word>, done: set<Word>)
  {
    && dist.Keys <= adj.Keys && done <= dist.Keys
    && s in dist && dist[s] == 0 && s !in prev
    && (forall v :: v in dist && v != s ==> v in prev)
    // Triggered on prev[v] alone: a trigger on `v in dist` would fire again on prev[v], which is in dist too.
    && forall v {:trigger prev[v]} :: v in dist && v != s && v in prev ==>
         prev[v] in done && HasEdge(adj, prev[v], v) && dist[v] == dist[prev[v]] + 1
  }

  /** Every reached, unpolled vertex is queued; no polled vertex is farther than a queued one. */
  ghost predicate Frontier(dist: map<Word, nat>, done: set<Word>, queue: seq<Word>)
  {
    && (forall w :: w in queue ==> w in dist)
    && (forall w :: w in dist && w !in done ==> w in queue)
    && (forall x, w :: x in done && x in dist && w in queue ==> dist[x] <= dist[w])
  }

  /** Every edge out of `from` has been relaxed: its target is reached, at most one hop further. */
  ghost predicate Relaxed(adj: Adjacency, dist: map<Word, nat>, from: set<Word>)
  {
    forall x, y :: x in from && x in dist && HasEdge(adj, x, y) ==> y in dist && dist[y] <= dist[x] + 1
  }

  /** Every polled vertex has its true hop distance: no path from s to it is shorter. */
  ghost predicate Exact(adj: Adjacency, s: Word, dist: map<Word, nat>, done: set<Word>)
  {
    forall x, p :: x in done && x in dist && PathBetween(adj, p, s, x) ==> dist[x] <= Hops(p)
  }

  /**
   The step that makes the best-first search correct: when every polled
   vertex has its true hop distance, every edge out of a polled vertex has
   been relaxed and every reached but unpolled vertex is queued, a queued
   vertex u of least distance has its true hop distance too.
   */
  lemma FrontierMinimumIsFinal(adj: Adjacency, s: Word, u: Word, dist: map<Word, nat>,
                               done: set<Word>, queue: seq<Word>)
    requires s in done && u !in done && done <= dist.Keys
    requires Frontier(dist, done, queue) && Relaxed(adj, dist, done) && Exact(adj, s, dist, done)
    requires u in queue && forall w :: w in queue ==> dist[u] <= dist[w]
    ensures forall p :: PathBetween(adj, p, s, u) ==> dist[u] <= Hops(p)
  {
    forall p | PathBetween(adj, p, s, u) ensures dist[u] <= Hops(p) {
      var k := FirstOutside(p, done);
      var x, w := p[k - 1], p[k];
      PrefixPath(adj, p, s, k);
      assert dist[x] <= k - 1;
      assert HasEdge(adj, x, w);
      assert w in queue;
    }
  }

  /**
   The state of RelaxEdges part-way through the out-edges of u, with `rest`
   still to be scanned: the search state is intact, distances have only gone
   down, polled ones not at all, and every scanned neighbour is at most one
   hop beyond u.
   */
  ghost predicate Scanning(adj: Adjacency, s: Word, u: Word, dist: map<Word, nat>, queue: seq<Word>,
                           done: set<Word>, wasRelaxed: bool,
                           dist': map<Word, nat>, prev': map<Word, Word>, queue': seq<Word>, rest: set<Word>)
  {
    && Closed(adj) && u in adj && u in done && rest <= adj[u].Keys
    && Linked(adj, s, dist', prev', done) && Frontier(dist', done, queue')
    && (forall v :: v in dist ==> v in dist' && dist'[v] <= dist[v])
    && (forall x :: x in done ==> x in dist && dist'[x] == dist[x])
    && (forall x :: x in done ==> dist'[x] <= dist'[u])
    && (forall y :: y in adj[u] && y !in rest ==> y in dist' && dist'[y] <= dist'[u] + 1)
    && (wasRelaxed ==> queue' == queue && forall y :: HasEdge(adj, u, y) ==> y in dist && dist[y] <= dist[u] + 1)
  }
}
