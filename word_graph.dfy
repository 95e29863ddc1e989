/**
 The word-adjacency graph as a value: a map from each vertex (a word) to the
 map from its out-neighbours to the multiplicity of that directed edge, and
 the two updates the graph object performs on it (insert a vertex, count one
 more occurrence of an edge). The build loop's result is specified here by
 counting adjacent token pairs.
 */
module WordGraph {

  type Word = string

  /** vertex -> (neighbour -> number of times the pair was seen) */
  type Adjacency = map<Word, map<Word, int>>

  datatype Option<T> = None | Some(value: T)

  predicate HasEdge(adj: Adjacency, a: Word, b: Word)
  {
    a in adj && b in adj[a]
  }

  /** The recorded multiplicity of a -> b, 0 when there is no such edge. */
  function Weight(adj: Adjacency, a: Word, b: Word): int
  {
    if HasEdge(adj, a, b) then adj[a][b] else 0
  }

  /** Every neighbour is itself a vertex. */
  predicate Closed(adj: Adjacency)
  {
    forall a, b :: a in adj && b in adj[a] ==> b in adj
  }

  /** Every recorded edge has been seen at least once. */
  predicate PositiveWeights(adj: Adjacency)
  {
    forall a, b :: a in adj && b in adj[a] ==> adj[a][b] >= 1
  }

  predicate WellFormed(adj: Adjacency)
  {
    Closed(adj) && PositiveWeights(adj)
  }

  /** The set of directed edges of the graph. */
  function Edges(adj: Adjacency): (es: set<(Word, Word)>)
    ensures forall a, b :: (a, b) in es <==> HasEdge(adj, a, b)
  {
    set a, b | a in adj && b in adj[a] :: (a, b)
  }

  /** No element of s occurs twice. */
  predicate Distinct(s: seq<Word>)
  {
    forall i, j :: 0 <= i < j < |s| ==> s[i] != s[j]
  }

  /** b is a bridge word from w1 to w2: both w1 -> b and b -> w2 are edges. */
  predicate IsBridge(adj: Adjacency, w1: Word, b: Word, w2: Word)
  {
    HasEdge(adj, w1, b) && HasEdge(adj, b, w2)
  }

  /** All bridge words from w1 to w2 (empty when either word is not a vertex). */
  function BridgeSet(adj: Adjacency, w1: Word, w2: Word): (bs: set<Word>)
    ensures forall b :: b in bs <==> IsBridge(adj, w1, b, w2)
    ensures w1 !in adj || w2 !in adj ==> Closed(adj) ==> bs == {}
  {
    if w1 in adj then set b | b in adj[w1] && HasEdge(adj, b, w2) else {}
  }

  /** The graph after `addVertex(v)`: `putIfAbsent(v, empty map)`. */
  function AddVertexTo(adj: Adjacency, v: Word): (r: Adjacency)
    ensures r.Keys == adj.Keys + {v}
    ensures forall a :: a in adj ==> r[a] == adj[a]
    ensures v !in adj ==> r[v] == map[]
    ensures forall a, b :: Weight(r, a, b) == Weight(adj, a, b)
  {
    if v in adj then adj else adj[v := map[]]
  }

  /**
   The graph after `addEdge(from, to)`: the multiplicity of from -> to goes
   up by one (from 0 when absent), nothing else changes. The source
   dereferences the neighbour map of `from` without a check, so `from` must
   already be a vertex.
   */
  function AddEdgeTo(adj: Adjacency, from: Word, to: Word): (r: Adjacency)
    requires from in adj
    ensures r.Keys == adj.Keys
    ensures r[from].Keys == adj[from].Keys + {to}
    ensures forall a :: a in adj && a != from ==> r[a] == adj[a]
    ensures Weight(r, from, to) == Weight(adj, from, to) + 1
    ensures forall a, b :: (a, b) != (from, to) ==> Weight(r, a, b) == Weight(adj, a, b)
  {
    adj[from := adj[from][to := Weight(adj, from, to) + 1]]
  }

  lemma AddVertexIdempotent(adj: Adjacency, v: Word)
    ensures AddVertexTo(AddVertexTo(adj, v), v) == AddVertexTo(adj, v)
    ensures v in adj ==> AddVertexTo(adj, v) == adj
  {
  }

  /** Adding a vertex keeps the graph well formed. */
  lemma AddVertexKeepsWellFormed(adj: Adjacency, v: Word)
    requires WellFormed(adj)
    ensures WellFormed(AddVertexTo(adj, v))
  {
    var r := AddVertexTo(adj, v);
    forall a, b | a in r && b in r[a] ensures b in r && r[a][b] >= 1 {
      assert a in adj && r[a] == adj[a];
    }
  }

  /** Adding an edge between two vertices keeps the graph well formed. */
  lemma AddEdgeKeepsWellFormed(adj: Adjacency, from: Word, to: Word)
    requires WellFormed(adj) && from in adj && to in adj
    ensures WellFormed(AddEdgeTo(adj, from, to))
  {
    var r := AddEdgeTo(adj, from, to);
    forall a, b | a in r && b in r[a]
      ensures b in r && r[a][b] >= 1
    {
      if a == from && b == to {
        assert r[a][b] == Weight(adj, from, to) + 1;
        assert Weight(adj, from, to) >= 0;
      } else {
        assert Weight(r, a, b) == Weight(adj, a, b);
        assert HasEdge(adj, a, b);
      }
    }
  }

  /** `addEdge(from, to)` performed k times in a row. */
  function AddEdgeTimes(adj: Adjacency, from: Word, to: Word, k: nat): (r: Adjacency)
    requires from in adj
    ensures from in r
    decreases k
  {
    if k == 0 then adj else AddEdgeTo(AddEdgeTimes(adj, from, to, k - 1), from, to)
  }

  /** Inserting the same ordered pair k times adds exactly k to its weight and touches nothing else. */
  lemma {:induction false} AddEdgeTimesCounts(adj: Adjacency, from: Word, to: Word, k: nat)
    requires from in adj
    ensures AddEdgeTimes(adj, from, to, k).Keys == adj.Keys
    ensures Weight(AddEdgeTimes(adj, from, to, k), from, to) == Weight(adj, from, to) + k
    ensures forall a, b :: (a, b) != (from, to) ==>
              Weight(AddEdgeTimes(adj, from, to, k), a, b) == Weight(adj, a, b)
    decreases k
  {
    if k > 0 {
      AddEdgeTimesCounts(adj, from, to, k - 1);
    }
  }

  /** Token pair i, i + 1 takes part in the build: both tokens are non-empty. */
  predicate CountedPair(w: seq<Word>, i: int)
    requires 0 <= i < |w| - 1
  {
    w[i] != "" && w[i + 1] != ""
  }

  /** Number of indices i with w[i] == a, w[i + 1] == b, both non-empty. */
  function PairCount(w: seq<Word>, a: Word, b: Word): nat
    decreases |w|
  {
    if |w| < 2 then 0
    else
      var i := |w| - 2;
      PairCount(w[..|w| - 1], a, b)
        + (if CountedPair(w, i) && w[i] == a && w[i + 1] == b then 1 else 0)
  }

  /** The words that take part in some counted pair. */
  function Vocabulary(w: seq<Word>): set<Word>
    decreases |w|
  {
    if |w| < 2 then {}
    else
      var i := |w| - 2;
      Vocabulary(w[..|w| - 1]) + (if CountedPair(w, i) then {w[i], w[i + 1]} else {})
  }

  /** One iteration of the build loop on the pair (w1, w2). */
  function BuildPair(adj: Adjacency, w1: Word, w2: Word): Adjacency
  {
    if w1 != "" && w2 != "" then AddEdgeTo(AddVertexTo(AddVertexTo(adj, w1), w2), w1, w2) else adj
  }

  /**
   The build loop's invariant: after the pairs of the token prefix `pre` the
   graph is well formed, its vertices are the vocabulary of `pre` and each
   weight counts the pair's occurrences in `pre`. One more iteration, on the
   pair (w1, w2) that ends the longer prefix `post`, keeps it for `post`.
   */
  lemma BuildPairKeepsCounts(adj: Adjacency, pre: seq<Word>, post: seq<Word>, w1: Word, w2: Word)
    requires |post| >= 2 && pre == post[..|post| - 1] && w1 == post[|post| - 2] && w2 == post[|post| - 1]
    requires WellFormed(adj) && adj.Keys == Vocabulary(pre)
    requires forall a, b :: Weight(adj, a, b) == PairCount(pre, a, b)
    ensures WellFormed(BuildPair(adj, w1, w2))
    ensures BuildPair(adj, w1, w2).Keys == Vocabulary(post)
    ensures forall a, b :: Weight(BuildPair(adj, w1, w2), a, b) == PairCount(post, a, b)
  {
    var counted := CountedPair(post, |post| - 2);
    assert counted <==> w1 != "" && w2 != "";
    var next := BuildPair(adj, w1, w2);
    if counted {
      AddVertexKeepsWellFormed(adj, w1);
      AddVertexKeepsWellFormed(AddVertexTo(adj, w1), w2);
      AddEdgeKeepsWellFormed(AddVertexTo(AddVertexTo(adj, w1), w2), w1, w2);
    }
    assert next.Keys == Vocabulary(post) by {
      assert Vocabulary(post) == Vocabulary(pre) + (if counted then {w1, w2} else {});
    }
    forall a, b ensures Weight(next, a, b) == PairCount(post, a, b) {
      PairCountStep(pre, post, a, b);
    }
  }

  /** The last token pair of post adds one to the count of its own pair, if it is counted, and nothing else. */
  lemma PairCountStep(pre: seq<Word>, post: seq<Word>, a: Word, b: Word)
    requires |post| >= 2 && pre == post[..|post| - 1]
    ensures PairCount(post, a, b) ==
              PairCount(pre, a, b)
              + (if CountedPair(post, |post| - 2) && post[|post| - 2] == a && post[|post| - 1] == b then 1 else 0)
  {
  }

  /** PairCount counts something exactly when the pair occurs at some index. */
  lemma {:induction false} PairCountPositive(w: seq<Word>, a: Word, b: Word)
    ensures PairCount(w, a, b) > 0 <==>
            exists i :: 0 <= i < |w| - 1 && CountedPair(w, i) && w[i] == a && w[i + 1] == b
    decreases |w|
  {
    if |w| >= 2 {
      var w' := w[..|w| - 1];
      PairCountPositive(w', a, b);
      if PairCount(w', a, b) > 0 {
        var i :| 0 <= i < |w'| - 1 && CountedPair(w', i) && w'[i] == a && w'[i + 1] == b;
        assert CountedPair(w, i) && w[i] == a && w[i + 1] == b;
      }
      if exists i :: 0 <= i < |w| - 1 && CountedPair(w, i) && w[i] == a && w[i + 1] == b {
        var i :| 0 <= i < |w| - 1 && CountedPair(w, i) && w[i] == a && w[i + 1] == b;
        if i < |w| - 2 {
          assert CountedPair(w', i) && w'[i] == a && w'[i + 1] == b;
        }
      }
    }
  }

  /** A word is in the vocabulary exactly when it is one end of some counted pair. */
  lemma {:induction false} VocabularyMembers(w: seq<Word>, v: Word)
    ensures v in Vocabulary(w) <==>
            exists i :: 0 <= i < |w| - 1 && CountedPair(w, i) && (w[i] == v || w[i + 1] == v)
    decreases |w|
  {
    if |w| >= 2 {
      var w' := w[..|w| - 1];
      VocabularyMembers(w', v);
      if v in Vocabulary(w') {
        var i :| 0 <= i < |w'| - 1 && CountedPair(w', i) && (w'[i] == v || w'[i + 1] == v);
        assert CountedPair(w, i) && (w[i] == v || w[i + 1] == v);
      }
      if exists i :: 0 <= i < |w| - 1 && CountedPair(w, i) && (w[i] == v || w[i + 1] == v) {
        var i :| 0 <= i < |w| - 1 && CountedPair(w, i) && (w[i] == v || w[i + 1] == v);
        if i < |w| - 2 {
          assert CountedPair(w', i) && (w'[i] == v || w'[i + 1] == v);
        }
      }
    }
  }
}
