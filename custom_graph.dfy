/**
 The graph object of the word-adjacency program: the adjacency map as a
 field that addVertex and addEdge update in place, the loop that builds it
 from a token sequence, and the four queries that read it (bridge words,
 bridge-word text augmentation, shortest path by hop count, random walk).

 Random draws are supplied by the caller: choose(k, n) is the k-th
 `nextInt(n)` of the query, and stop(m) is the user's answer after the m-th
 step of a walk.
 */
module CustomGraphs {
  import opened WordGraph
  import opened WordPaths
  import opened TextAugment

  /** "No bridge words from word1 to word2!", or the bridge words found. */
  datatype BridgeResult = NoBridge | Bridges(words: seq<Word>)

  /** "No path from word1 to word2", or the vertices of the path found. */
  datatype PathResult = NoPath | Path(vertices: seq<Word>)

  /** Why a random walk ended. */
  datatype WalkEnd =
    | DeadEnd                  // the current vertex has no out-neighbours
    | RepeatedEdge(next: Word) // the drawn edge current -> next was already walked
    | Stopped                  // the user answered "stop"

  datatype WalkResult = Walk(path: seq<Word>, end: WalkEnd)

  /** Every draw choose(k, n) with n > 0 lies in [0, n), like `Random.nextInt(n)`. */
  ghost predicate InRange(choose: (nat, nat) -> nat)
  {
    forall k: nat, n: nat :: 0 < n ==> choose(k, n) < n
  }

  /** v has no out-neighbours (its neighbour map is missing or empty). */
  predicate NoOutEdges(adj: Adjacency, v: Word)
  {
    v !in adj || |adj[v]| == 0
  }

  /** The keys of a map as a list, like `new ArrayList<>(map.keySet())`. */
  method ListKeys(keys: set<Word>) returns (xs: seq<Word>)
    ensures Distinct(xs)
    ensures forall x :: x in xs <==> x in keys
    ensures |xs| == |keys|
  {
    xs := [];
    var rest := keys;
    while rest != {}
      invariant rest <= keys
      invariant Distinct(xs)
      invariant forall x :: x in xs <==> x in keys && x !in rest
      invariant |xs| + |rest| == |keys|
      decreases rest
    {
      var x :| x in rest;
      xs := xs + [x];
      rest := rest - {x};
    }
  }

  /**
   Index of the first element of least distance: the queue's poll. Ties go
   to the element queued earliest.
   */
  method MinIndex(queue: seq<Word>, dist: map<Word, nat>) returns (m: nat)
    requires queue != []
    requires forall w :: w in queue ==> w in dist
    ensures m < |queue|
    ensures forall j :: 0 <= j < |queue| ==> dist[queue[m]] <= dist[queue[j]]
    ensures forall j :: 0 <= j < m ==> dist[queue[m]] < dist[queue[j]]
  {
    m := 0;
    var i := 1;
    while i < |queue|
      invariant 0 <= m < i <= |queue|
      invariant forall j :: 0 <= j < i ==> dist[queue[m]] <= dist[queue[j]]
      invariant forall j :: 0 <= j < m ==> dist[queue[m]] < dist[queue[j]]
    {
      if dist[queue[i]] < dist[queue[m]] {
        m := i;
      }
      i := i + 1;
    }
  }

  /**
   Rebuilds the path by following predecessors back from t until a vertex
   without one, which is s. Each predecessor link is an edge one hop closer
   to s, so the result is a path from s to t of dist[t] hops.
   */
  method TracePath(adj: Adjacency, dist: map<Word, nat>, prev: map<Word, Word>, s: Word, t: Word)
    returns (path: seq<Word>)
    requires s in adj && s in dist && dist[s] == 0 && s !in prev && t in dist
    requires forall v :: v in dist && v != s ==>
               v in prev && prev[v] in dist && HasEdge(adj, prev[v], v) && dist[v] == dist[prev[v]] + 1
    ensures PathBetween(adj, path, s, t)
    ensures |path| == dist[t] + 1
  {
    path := [];
    var vertex: Option<Word> := Some(t);
    while vertex.Some?
      invariant vertex.Some? ==> vertex.value in dist
      invariant path == [] ==> vertex == Some(t)
      invariant path != [] ==>
                  && path[|path| - 1] == t && path[0] in dist && EdgesAlong(adj, path)
                  && |path| - 1 + dist[path[0]] == dist[t]
                  && (vertex.Some? ==> path[0] in prev && prev[path[0]] == vertex.value)
                  && (vertex.None? ==> path[0] !in prev)
      decreases if vertex.Some? then dist[vertex.value] + 1 else 0
    {
      var v := vertex.value;
      path := [v] + path;
      vertex := if v in prev then Some(prev[v]) else None;
    }
  }

  /**
   The search state right after u has been polled: done is the set polled
   before, the queue no longer holds this entry of u, every polled vertex
   (u included) has its true hop distance and none is farther than u, and the
   out-edges of the vertices polled before have been relaxed.
   */
  ghost predicate Polled(adj: Adjacency, s: Word, dist: map<Word, nat>, prev: map<Word, Word>, queue: seq<Word>,
                         done: set<Word>, u: Word, wasDone: bool)
  {
    && Closed(adj) && u in adj && s in done + {u}
    && Linked(adj, s, dist, prev, done + {u}) && Frontier(dist, done + {u}, queue)
    && Relaxed(adj, dist, done) && Exact(adj, s, dist, done + {u})
    && (forall x :: x in done + {u} ==> dist[x] <= dist[u])
    && (wasDone ==> u in done)
  }

  /**
   Relaxes every out-edge of the polled vertex u, in the neighbour map's
   iteration order: a neighbour whose recorded distance exceeds dist[u] + 1
   gets that distance, u as predecessor, and is queued. Distances only ever
   decrease, and those of polled vertices do not change.
   */
  method RelaxEdges(adj: Adjacency, s: Word, u: Word, dist: map<Word, nat>, prev: map<Word, Word>,
                    queue: seq<Word>, ghost done: set<Word>, ghost wasRelaxed: bool)
    returns (dist': map<Word, nat>, prev': map<Word, Word>, queue': seq<Word>)
    requires Polled(adj, s, dist, prev, queue, done, u, wasRelaxed)
    ensures Linked(adj, s, dist', prev', done + {u}) && Frontier(dist', done + {u}, queue')
    ensures forall y :: HasEdge(adj, u, y) ==> y in dist' && dist'[y] <= dist'[u] + 1
    ensures forall v :: v in dist ==> v in dist' && dist'[v] <= dist[v]
    ensures forall x :: x in done + {u} ==> dist'[x] == dist[x]
    ensures wasRelaxed ==> queue' == queue
  {
    dist', prev', queue' := dist, prev, queue;
    var rest := adj[u].Keys;
    ScanStarts(adj, s, u, dist, prev, queue, done, wasRelaxed);
    while rest != {}
      invariant Scanning(adj, s, u, dist, queue, done + {u}, wasRelaxed, dist', prev', queue', rest)
      decreases rest
    {
      var y :| y in rest;
      dist', prev', queue' := RelaxNeighbour(adj, s, u, y, dist', prev', queue', dist, queue, done + {u}, wasRelaxed, rest);
      rest := rest - {y};
    }
    ScanEnds(adj, s, u, dist, queue, done + {u}, wasRelaxed, dist', prev', queue');
  }

  /**
   One iteration of the scan: the neighbour y of u gets distance
   dist[u] + 1, predecessor u and a place in the queue when it is unreached
   or farther than that, and is left alone otherwise.
   */
  method RelaxNeighbour(adj: Adjacency, s: Word, u: Word, y: Word,
                        dist: map<Word, nat>, prev: map<Word, Word>, queue: seq<Word>,
                        ghost dist0: map<Word, nat>, ghost queue0: seq<Word>, ghost done: set<Word>,
                        ghost wasRelaxed: bool, ghost rest: set<Word>)
    returns (dist': map<Word, nat>, prev': map<Word, Word>, queue': seq<Word>)
    requires Scanning(adj, s, u, dist0, queue0, done, wasRelaxed, dist, prev, queue, rest) && y in rest
    ensures Scanning(adj, s, u, dist0, queue0, done, wasRelaxed, dist', prev', queue', rest - {y})
    ensures if y !in dist || dist[u] + 1 < dist[y]
            then dist' == dist[y := dist[u] + 1] && prev' == prev[y := u] && queue' == queue + [y]
            else dist' == dist && prev' == prev && queue' == queue
  {
    var alt := dist[u] + 1;
    if y !in dist || alt < dist[y] {
      ScanRelaxes(adj, s, u, dist0, queue0, done, wasRelaxed, dist, prev, queue, rest, y);
      dist', prev', queue' := dist[y := alt], prev[y := u], queue + [y];
    } else {
      ScanSkips(adj, s, u, dist0, queue0, done, wasRelaxed, dist, prev, queue, rest, y);
      dist', prev', queue' := dist, prev, queue;
    }
  }

  /** Before any out-edge of the freshly polled u is scanned, the scan's invariant holds. */
  lemma ScanStarts(adj: Adjacency, s: Word, u: Word, dist: map<Word, nat>, prev: map<Word, Word>, queue: seq<Word>,
                   done: set<Word>, wasRelaxed: bool)
    requires Polled(adj, s, dist, prev, queue, done, u, wasRelaxed)
    ensures Scanning(adj, s, u, dist, queue, done + {u}, wasRelaxed, dist, prev, queue, adj[u].Keys)
  {
  }

  /** Once no out-edge of u is left to scan, every one of them has been relaxed. */
  lemma ScanEnds(adj: Adjacency, s: Word, u: Word, dist: map<Word, nat>, queue: seq<Word>,
                 done: set<Word>, wasRelaxed: bool, dist': map<Word, nat>, prev': map<Word, Word>, queue': seq<Word>)
    requires Scanning(adj, s, u, dist, queue, done, wasRelaxed, dist', prev', queue', {})
    ensures Linked(adj, s, dist', prev', done) && Frontier(dist', done, queue')
    ensures forall y :: HasEdge(adj, u, y) ==> y in dist' && dist'[y] <= dist'[u] + 1
    ensures forall v :: v in dist ==> v in dist' && dist'[v] <= dist[v]
    ensures forall x :: x in done ==> dist'[x] == dist[x]
    ensures wasRelaxed ==> queue' == queue
  {
  }

  /** Relaxing the scanned neighbour y to dist'[u] + 1 keeps the scan's invariant. */
  lemma ScanRelaxes(adj: Adjacency, s: Word, u: Word, dist: map<Word, nat>, queue: seq<Word>,
                    done: set<Word>, wasRelaxed: bool,
                    dist': map<Word, nat>, prev': map<Word, Word>, queue': seq<Word>, rest: set<Word>, y: Word)
    requires Scanning(adj, s, u, dist, queue, done, wasRelaxed, dist', prev', queue', rest)
    requires y in rest && (y !in dist' || dist'[u] + 1 < dist'[y])
    ensures Scanning(adj, s, u, dist, queue, done, wasRelaxed,
                     dist'[y := dist'[u] + 1], prev'[y := u], queue' + [y], rest - {y})
  {
    RelaxKeepsSearchState(adj, s, u, y, dist', prev', queue', done);
  }

  /** Leaving alone a scanned neighbour that is already close enough keeps the scan's invariant. */
  lemma ScanSkips(adj: Adjacency, s: Word, u: Word, dist: map<Word, nat>, queue: seq<Word>,
                  done: set<Word>, wasRelaxed: bool,
                  dist': map<Word, nat>, prev': map<Word, Word>, queue': seq<Word>, rest: set<Word>, y: Word)
    requires Scanning(adj, s, u, dist, queue, done, wasRelaxed, dist', prev', queue', rest)
    requires y in rest && y in dist' && dist'[y] <= dist'[u] + 1
    ensures Scanning(adj, s, u, dist, queue, done, wasRelaxed, dist', prev', queue', rest - {y})
  {
  }

  /**
   Once every out-edge of the polled vertex u has been relaxed, with
   distances only lowered and those of polled vertices unchanged, the search
   invariant holds again with u among the polled vertices.
   */
  lemma ScanKeepsSearching(adj: Adjacency, s: Word, t: Word, u: Word, dist: map<Word, nat>, prev: map<Word, Word>,
                           queue: seq<Word>, done: set<Word>, wasDone: bool,
                           dist': map<Word, nat>, prev': map<Word, Word>, queue': seq<Word>)
    requires Polled(adj, s, dist, prev, queue, done, u, wasDone) && t != u && t !in done
    requires Linked(adj, s, dist', prev', done + {u}) && Frontier(dist', done + {u}, queue')
    requires forall y :: HasEdge(adj, u, y) ==> y in dist' && dist'[y] <= dist'[u] + 1
    requires forall v :: v in dist ==> v in dist' && dist'[v] <= dist[v]
    requires forall x :: x in done + {u} ==> dist'[x] == dist[x]
    ensures Searching(adj, s, t, dist', prev', queue', done + {u})
  {
    var settled := done + {u};
    forall x, p | x in settled && x in dist' && PathBetween(adj, p, s, x) ensures dist'[x] <= Hops(p) {
      assert dist'[x] == dist[x];
    }
    forall x, y | x in settled && x in dist' && HasEdge(adj, x, y) ensures y in dist' && dist'[y] <= dist'[x] + 1 {
      if x != u {
        assert x in done;
      }
    }
  }

  /**
   The path traced back from a polled target is a shortest one: its length
   is one more than the target's exact hop distance.
   */
  lemma SettledTargetPath(adj: Adjacency, s: Word, t: Word, dist: map<Word, nat>, done: set<Word>,
                          path: seq<Word>)
    requires Exact(adj, s, dist, done) && t in done && t in dist && s in dist && dist[s] == 0
    requires PathBetween(adj, path, s, t) && |path| == dist[t] + 1
    ensures Reachable(adj, s, t)
    ensures forall p :: PathBetween(adj, p, s, t) ==> |path| <= |p|
    ensures s == t ==> path == [s]
  {
    if s == t {
      assert PathBetween(adj, [s], s, t);
    }
  }

  /** Giving neighbour y of the polled vertex u the distance dist[u] + 1 keeps the search state. */
  lemma RelaxKeepsSearchState(adj: Adjacency, s: Word, u: Word, y: Word, dist: map<Word, nat>,
                              prev: map<Word, Word>, queue: seq<Word>, done: set<Word>)
    requires Closed(adj) && HasEdge(adj, u, y) && u in done
    requires Linked(adj, s, dist, prev, done) && Frontier(dist, done, queue)
    requires forall x :: x in done ==> dist[x] <= dist[u]
    requires y !in dist || dist[u] + 1 < dist[y]
    ensures y !in done && y != s
    ensures Linked(adj, s, dist[y := dist[u] + 1], prev[y := u], done)
    ensures Frontier(dist[y := dist[u] + 1], done, queue + [y])
  {
    var dist', prev' := dist[y := dist[u] + 1], prev[y := u];
    assert y !in done && y != s;
    forall v | v in dist' && v != s && v in prev'
      ensures prev'[v] in done && HasEdge(adj, prev'[v], v) && dist'[v] == dist'[prev'[v]] + 1
    {
      if v != y {
        assert v in prev && prev'[v] == prev[v] && prev[v] in done;
      }
    }
    forall x, w | x in done && x in dist' && w in queue + [y] ensures dist'[x] <= dist'[w] {
      assert x != y && dist'[x] == dist[x];
    }
  }

  /** The queue with its i-th element taken out (what `poll` does to it). */
  function RemoveAt(q: seq<Word>, i: nat): (r: seq<Word>)
    requires i < |q|
    ensures |r| == |q| - 1
    ensures forall w :: w in r ==> w in q
    ensures forall w :: w in q && w != q[i] ==> w in r
  {
    var r := q[..i] + q[i + 1..];
    assert forall k :: 0 <= k < |q| && k != i ==> q[k] == r[if k < i then k else k - 1];
    r
  }

  /** The invariant of the search loop of CalcShortestPath, from s towards t. */
  ghost predicate Searching(adj: Adjacency, s: Word, t: Word, dist: map<Word, nat>, prev: map<Word, Word>,
                            queue: seq<Word>, done: set<Word>)
  {
    && Closed(adj)
    && Linked(adj, s, dist, prev, done) && Frontier(dist, done, queue)
    && Relaxed(adj, dist, done) && Exact(adj, s, dist, done)
    && t !in done
    && (done == {} ==> queue == [s])
    && (done != {} ==> s in done)
  }

  /**
   Polling a queued vertex u of least distance settles it: with u added to
   the polled set and taken off the queue, the search state holds, u has its
   true hop distance, and either u is newly polled (fewer vertices left) or
   it was polled before and every edge out of it is already relaxed.
   */
  lemma SettleMinimum(adj: Adjacency, s: Word, t: Word, dist: map<Word, nat>, prev: map<Word, Word>,
                      queue: seq<Word>, done: set<Word>, i: nat)
    requires Searching(adj, s, t, dist, prev, queue, done)
    requires i < |queue| && forall j :: 0 <= j < |queue| ==> dist[queue[i]] <= dist[queue[j]]
    ensures Polled(adj, s, dist, prev, RemoveAt(queue, i), done, queue[i], queue[i] in done)
    ensures t !in done
    ensures queue[i] in done ==> done + {queue[i]} == done
    ensures queue[i] !in done ==> |adj.Keys - (done + {queue[i]})| < |adj.Keys - done|
  {
    var u := queue[i];
    PollKeepsLinked(adj, s, dist, prev, done, u);
    PollKeepsFrontier(dist, done, queue, i);
    PollKeepsExact(adj, s, dist, done, queue, i);
    FewerUnpolled(adj, done, u);
  }

  /** Marking a reached vertex polled keeps the predecessor links. */
  lemma PollKeepsLinked(adj: Adjacency, s: Word, dist: map<Word, nat>, prev: map<Word, Word>, done: set<Word>, u: Word)
    requires Linked(adj, s, dist, prev, done) && u in dist
    ensures u in adj && Linked(adj, s, dist, prev, done + {u})
  {
  }

  /** Polling a vertex not polled before leaves fewer vertices unpolled. */
  lemma FewerUnpolled(adj: Adjacency, done: set<Word>, u: Word)
    requires u in adj
    ensures u !in done ==> |adj.Keys - (done + {u})| < |adj.Keys - done|
  {
    if u !in done {
      assert adj.Keys - (done + {u}) == (adj.Keys - done) - {u};
    }
  }

  /** A queued vertex of least distance has its true hop distance, so polling it keeps Exact. */
  lemma PollKeepsExact(adj: Adjacency, s: Word, dist: map<Word, nat>, done: set<Word>, queue: seq<Word>, i: nat)
    requires done <= dist.Keys && s in dist && dist[s] == 0
    requires Frontier(dist, done, queue) && Relaxed(adj, dist, done) && Exact(adj, s, dist, done)
    requires done == {} ==> queue == [s]
    requires done != {} ==> s in done
    requires i < |queue| && forall j :: 0 <= j < |queue| ==> dist[queue[i]] <= dist[queue[j]]
    ensures Exact(adj, s, dist, done + {queue[i]})
  {
    var u := queue[i];
    if u !in done {
      if done == {} {
        assert u == s;
      } else {
        FrontierMinimumIsFinal(adj, s, u, dist, done, queue);
      }
    }
  }

  /** Taking a queued vertex of least distance off the queue and marking it polled keeps the frontier. */
  lemma PollKeepsFrontier(dist: map<Word, nat>, done: set<Word>, queue: seq<Word>, i: nat)
    requires Frontier(dist, done, queue) && done <= dist.Keys
    requires i < |queue| && forall j :: 0 <= j < |queue| ==> dist[queue[i]] <= dist[queue[j]]
    ensures Frontier(dist, done + {queue[i]}, RemoveAt(queue, i))
    ensures forall x :: x in done + {queue[i]} ==> dist[x] <= dist[queue[i]]
  {
    var u := queue[i];
    forall x, w | x in done + {u} && x in dist && w in RemoveAt(queue, i) ensures dist[x] <= dist[w] {
      var j :| 0 <= j < |queue| && queue[j] == w;
    }
  }

  /** The stop signal was not given after any of the first n steps. */
  predicate NoStopUpTo(stop: nat -> bool, n: int)
  {
    forall m :: 1 <= m <= n ==> !stop(m)
  }

  /**
   An out-neighbour of v picked by the choice oracle from the list of v's
   neighbour keys (`neighborList.get(random.nextInt(size))`); k numbers the
   draw.
   */
  method DrawNeighbour(adj: Adjacency, v: Word, choose: (nat, nat) -> nat, k: nat) returns (next: Word)
    requires v in adj && |adj[v]| > 0 && InRange(choose)
    ensures HasEdge(adj, v, next)
  {
    var neighborList := ListKeys(adj[v].Keys);
    next := neighborList[choose(k, |neighborList|)];
  }

  /**
   The state of a random walk from start: a path along edges whose edges are
   pairwise distinct and are exactly the recorded visited edges.
   */
  predicate Walking(adj: Adjacency, start: Word, path: seq<Word>, visited: set<(Word, Word)>)
  {
    && |path| >= 1 && path[0] == start
    && IsPath(adj, path) && DistinctEdges(path)
    && visited == PathEdges(path) && visited <= Edges(adj)
    && |visited| == |path| - 1
  }

  /** A walk never traverses more steps than the graph has edges. */
  lemma WalkWithinEdges(adj: Adjacency, start: Word, path: seq<Word>, visited: set<(Word, Word)>)
    requires Walking(adj, start, path, visited)
    ensures |path| - 1 <= |Edges(adj)|
  {
    var es := Edges(adj);
    assert es == visited + (es - visited);
  }

  /**
   Taking an edge out of the walk's last vertex that it has not visited
   keeps the walk's state.
   */
  lemma WalkStep(adj: Adjacency, start: Word, path: seq<Word>, visited: set<(Word, Word)>, next: Word)
    requires Walking(adj, start, path, visited)
    requires HasEdge(adj, path[|path| - 1], next) && (path[|path| - 1], next) !in visited
    ensures Walking(adj, start, path + [next], visited + {(path[|path| - 1], next)})
  {
    PathEdgesSnoc(path, next);
    SnocEdgesAlong(adj, path, next);
    SnocDistinctEdges(path, next);
  }

  /** The state at the head of the walk's loop: a walk whose every step was followed by "go on". */
  predicate Walked(adj: Adjacency, start: Word, stop: nat -> bool, path: seq<Word>, visited: set<(Word, Word)>)
  {
    Walking(adj, start, path, visited) && NoStopUpTo(stop, |path| - 1)
  }

  /**
   One step of the walk along an unvisited edge out of its last vertex: the
   walk either ends there, stopped, or goes on from the new vertex; either
   way it has now taken no more steps than the graph has edges.
   */
  lemma WalkAdvances(adj: Adjacency, start: Word, stop: nat -> bool, path: seq<Word>, visited: set<(Word, Word)>,
                     next: Word)
    requires Walked(adj, start, stop, path, visited)
    requires HasEdge(adj, path[|path| - 1], next) && (path[|path| - 1], next) !in visited
    ensures |path| <= |Edges(adj)|
    ensures stop(|path|) ==> WalkOutcome(adj, start, stop, Walk(path + [next], Stopped))
    ensures !stop(|path|) ==>
              Walked(adj, start, stop, path + [next], visited + {(path[|path| - 1], next)})
  {
    var path', visited' := path + [next], visited + {(path[|path| - 1], next)};
    WalkStep(adj, start, path, visited, next);
    WalkWithinEdges(adj, start, path', visited');
    assert |path'| - 1 == |path|;
    if !stop(|path|) {
      assert NoStopUpTo(stop, |path|) by {
        forall m | 1 <= m <= |path| ensures !stop(m) {
          if m < |path| {
            assert NoStopUpTo(stop, |path| - 1);
          }
        }
      }
    }
  }

  /** A walk that cannot go on from its last vertex ends there, without the stop signal. */
  lemma WalkHalts(adj: Adjacency, start: Word, stop: nat -> bool, path: seq<Word>, visited: set<(Word, Word)>,
                  end: WalkEnd)
    requires Walked(adj, start, stop, path, visited) && end != Stopped
    requires end == DeadEnd ==> NoOutEdges(adj, path[|path| - 1])
    requires end.RepeatedEdge? ==> HasEdge(adj, path[|path| - 1], end.next) && (path[|path| - 1], end.next) in visited
    ensures WalkOutcome(adj, start, stop, Walk(path, end))
  {
    WalkWithinEdges(adj, start, path, visited);
  }

  /**
   What the random walk promises about its result r: it starts at start,
   follows edges, never repeats an edge (so it has at most as many steps as
   the graph has edges), and ends for one of the three reasons, the stop
   signal having been refused after every earlier step.
   */
  predicate WalkOutcome(adj: Adjacency, start: Word, stop: nat -> bool, r: WalkResult)
  {
    && |r.path| >= 1 && r.path[0] == start
    && IsPath(adj, r.path)
    && DistinctEdges(r.path)
    && |r.path| - 1 <= |Edges(adj)|
    && (r.end == DeadEnd ==> NoOutEdges(adj, r.path[|r.path| - 1]))
    && (r.end.RepeatedEdge? ==>
          HasEdge(adj, r.path[|r.path| - 1], r.end.next) && (r.path[|r.path| - 1], r.end.next) in PathEdges(r.path))
    && (r.end == Stopped ==> |r.path| >= 2 && stop(|r.path| - 1))
    && NoStopUpTo(stop, |r.path| - 2)
    && (r.end != Stopped ==> NoStopUpTo(stop, |r.path| - 1))
  }

  /**
   A walk from start: at each step it draws an out-neighbour of the current
   vertex, ends at a dead end or on an edge walked before, and otherwise
   records the edge, extends the path and asks whether to stop.
   */
  method WalkFrom(adj: Adjacency, start: Word, choose: (nat, nat) -> nat, stop: nat -> bool) returns (r: WalkResult)
    requires start in adj
    requires InRange(choose)
    ensures WalkOutcome(adj, start, stop, r)
  {
    var path := [start];
    var visited: set<(Word, Word)> := {};
    var current := start;
    while true
      invariant Walked(adj, start, stop, path, visited) && current == path[|path| - 1]
      decreases |Edges(adj)| - |path|
    {
      if current !in adj || |adj[current]| == 0 {
        WalkHalts(adj, start, stop, path, visited, DeadEnd);
        return Walk(path, DeadEnd);
      }
      var next := DrawNeighbour(adj, current, choose, |visited|);
      if (current, next) in visited {
        WalkHalts(adj, start, stop, path, visited, RepeatedEdge(next));
        return Walk(path, RepeatedEdge(next));
      }
      WalkAdvances(adj, start, stop, path, visited, next);
      var steps := |path|;
      visited := visited + {(current, next)};
      path := path + [next];
      if stop(steps) {
        return Walk(path, Stopped);
      }
      current := next;
    }
  }

  class CustomGraph {
    var adjacency: Adjacency

    constructor ()
      ensures adjacency == map[]
    {
      adjacency := map[];
    }

    method AddVertex(v: Word)
      modifies this
      ensures adjacency == AddVertexTo(old(adjacency), v)
      ensures v in old(adjacency) ==> adjacency == old(adjacency)
    {
      if v !in adjacency {
        adjacency := adjacency[v := map[]];
      }
    }

    method AddEdge(from: Word, to: Word)
      requires from in adjacency
      modifies this
      ensures adjacency == AddEdgeTo(old(adjacency), from, to)
      ensures Weight(adjacency, from, to) == Weight(old(adjacency), from, to) + 1
    {
      var neighbors := adjacency[from];
      var count := if to in neighbors then neighbors[to] else 0;
      adjacency := adjacency[from := neighbors[to := count + 1]];
    }

    /**
     The bridge words from word1 to word2, each exactly once, found by
     scanning the out-neighbours of word1. NoBridge when either word is not
     a vertex or there is no bridge word.
     */
    method QueryBridgeWords(word1: Word, word2: Word) returns (r: BridgeResult)
      requires Closed(adjacency)
      ensures r.NoBridge? <==>
                word1 !in adjacency || word2 !in adjacency || forall b :: !IsBridge(adjacency, word1, b, word2)
      ensures r.NoBridge? <==> BridgeSet(adjacency, word1, word2) == {}
      ensures r.Bridges? ==> Distinct(r.words)
      ensures r.Bridges? ==> forall b :: b in r.words <==> IsBridge(adjacency, word1, b, word2)
    {
      if word1 !in adjacency || word2 !in adjacency {
        return NoBridge;
      }
      var found: seq<Word> := [];
      var rest := adjacency[word1].Keys;
      while rest != {}
        invariant rest <= adjacency[word1].Keys
        invariant Distinct(found)
        invariant forall b :: b in found <==> b !in rest && IsBridge(adjacency, word1, b, word2)
        decreases rest
      {
        var b :| b in rest;
        rest := rest - {b};
        if word2 in adjacency[b] {
          found := found + [b];
        }
      }
      if found == [] {
        return NoBridge;
      }
      assert IsBridge(adjacency, word1, found[0], word2);
      return Bridges(found);
    }

    /**
     Walks the adjacent token pairs, emitting each token and, when the pair
     has bridge words, one of them drawn by choose. The last token is
     emitted unconditionally; an empty token array has no last token and
     fails there (None). Lookups use the tokens as they are.
     */
    method GenerateNewText(tokens: seq<Word>, choose: (nat, nat) -> nat) returns (r: Option<seq<Word>>)
      requires Closed(adjacency)
      requires InRange(choose)
      ensures r.None? <==> tokens == []
      ensures r.Some? ==> exists ins :: ValidInsertions(adjacency, tokens, ins) && r.value == Augmented(tokens, ins)
      ensures |tokens| == 1 ==> r == Some(tokens)
    {
      if tokens == [] {
        return None;
      }
      var out: seq<Word> := [];
      ghost var ins: seq<Option<Word>> := [];
      var i := 0;
      while i < |tokens| - 1
        invariant i == |ins| && ValidChoices(adjacency, tokens, ins)
        invariant out == Weave(tokens, ins)
      {
        var word1, word2 := tokens[i], tokens[i + 1];
        out := out + [word1];
        var bridges := QueryBridgeWords(word1, word2);
        var inserted: Option<Word> := None;
        if bridges.Bridges? {
          var b := bridges.words[choose(i, |bridges.words|)];
          out := out + [b];
          inserted := Some(b);
        }
        ChoiceStep(adjacency, tokens, ins, inserted);
        WeaveStep(tokens, ins, inserted);
        ins := ins + [inserted];
        i := i + 1;
      }
      FinishAugmented(adjacency, tokens, ins, out);
      out := out + [tokens[|tokens| - 1]];
      return Some(out);
    }

    /**
     Best-first search from word1 with unit edge costs. dist holds the
     distances found so far (a vertex without an entry is at
     Integer.MAX_VALUE), prev the predecessor links (no entry is null), and
     queue is polled for an element of least distance. When word2 is polled
     its path is traced back through prev.
     */
    method CalcShortestPath(word1: Word, word2: Word) returns (r: PathResult)
      requires Closed(adjacency)
      ensures r.NoPath? <==> !(word1 in adjacency && word2 in adjacency && Reachable(adjacency, word1, word2))
      ensures r.Path? ==> PathBetween(adjacency, r.vertices, word1, word2)
      ensures r.Path? ==> forall p :: PathBetween(adjacency, p, word1, word2) ==> |r.vertices| <= |p|
      ensures word1 == word2 && word1 in adjacency ==> r == Path([word1])
    {
      var adj := adjacency;
      if word1 !in adj || word2 !in adj {
        return NoPath;
      }
      var s, t := word1, word2;
      var dist: map<Word, nat> := map[s := 0];
      var prev: map<Word, Word> := map[];
      var queue: seq<Word> := [s];
      ghost var done: set<Word> := {};
      while queue != []
        invariant Searching(adj, s, t, dist, prev, queue, done)
        decreases |adj.Keys - done|, |queue|
      {
        var i := MinIndex(queue, dist);
        var u := queue[i];
        ghost var wasDone := u in done;
        SettleMinimum(adj, s, t, dist, prev, queue, done, i);
        queue := RemoveAt(queue, i);

        if u == t {
          var path := TracePath(adj, dist, prev, s, t);
          SettledTargetPath(adj, s, t, dist, done + {u}, path);
          return Path(path);
        }

        var dist', prev', queue' := RelaxEdges(adj, s, u, dist, prev, queue, done, wasDone);
        ScanKeepsSearching(adj, s, t, u, dist, prev, queue, done, wasDone, dist', prev', queue');
        dist, prev, queue, done := dist', prev', queue', done + {u};
      }
      ClosedSetTraps(adj, s, done, t);
      return NoPath;
    }

    /**
     The random walk over this graph from start (see WalkFrom).
     */
    method RandomWalk(start: Word, choose: (nat, nat) -> nat, stop: nat -> bool) returns (r: WalkResult)
      requires start in adjacency
      requires InRange(choose)
      ensures WalkOutcome(adjacency, start, stop, r)
    {
      r := WalkFrom(adjacency, start, choose, stop);
    }

    /**
     The shortest path from word1 to word2 as it is highlighted, with the
     length printed beside it: the sum of the multiplicities of the edges
     along the path, which is at least its hop count.
     */
    method ShortestPathLength(word1: Word, word2: Word) returns (r: PathResult, length: int)
      requires Closed(adjacency)
      ensures r.NoPath? <==> !(word1 in adjacency && word2 in adjacency && Reachable(adjacency, word1, word2))
      ensures r.Path? ==> PathBetween(adjacency, r.vertices, word1, word2)
      ensures r.Path? ==> forall p :: PathBetween(adjacency, p, word1, word2) ==> |r.vertices| <= |p|
      ensures word1 == word2 && word1 in adjacency ==> r == Path([word1])
      ensures r.Path? ==> length == PathWeight(adjacency, r.vertices)
      ensures r.Path? && PositiveWeights(adjacency) ==> length >= |r.vertices| - 1
      ensures r.NoPath? ==> length == 0
    {
      r := CalcShortestPath(word1, word2);
      length := 0;
      if r.Path? {
        length := SumWeights(adjacency, r.vertices);
      }
    }
  }

  /**
   The "shortest path length" reported for a path: the multiplicities of
   its edges, summed from the first edge to the last.
   */
  method SumWeights(adj: Adjacency, p: seq<Word>) returns (w: int)
    requires EdgesAlong(adj, p)
    ensures w == PathWeight(adj, p)
  {
    w := 0;
    if |p| == 0 {
      return;
    }
    var i := 0;
    while i < |p| - 1
      invariant 0 <= i < |p|
      invariant EdgesAlong(adj, p[..i + 1]) && w == PathWeight(adj, p[..i + 1])
    {
      PathWeightStep(adj, p, i);
      w := w + adj[p[i]][p[i + 1]];
      i := i + 1;
    }
    assert p[..i + 1] == p;
  }

  /**
   The build loop: for each adjacent token pair with both tokens non-empty,
   add both as vertices and count the edge between them.
   */
  method BuildGraph(words: seq<Word>) returns (g: CustomGraph)
    ensures fresh(g)
    ensures WellFormed(g.adjacency)
    ensures g.adjacency.Keys == Vocabulary(words)
    ensures forall a, b :: Weight(g.adjacency, a, b) == PairCount(words, a, b)
  {
    g := new CustomGraph();
    var i := 0;
    while i < |words| - 1
      invariant 0 <= i && (|words| == 0 ==> i == 0) && (|words| > 0 ==> i < |words|)
      invariant WellFormed(g.adjacency)
      invariant g.adjacency.Keys == Vocabulary(words[..if |words| == 0 then 0 else i + 1])
      invariant forall a, b :: Weight(g.adjacency, a, b) == PairCount(words[..if |words| == 0 then 0 else i + 1], a, b)
    {
      var word1, word2 := words[i], words[i + 1];
      assert words[..i + 2][..i + 1] == words[..i + 1];
      BuildPairKeepsCounts(g.adjacency, words[..i + 1], words[..i + 2], word1, word2);
      ghost var next := BuildPair(g.adjacency, word1, word2);
      if word1 != "" && word2 != "" {
        g.AddVertex(word1);
        g.AddVertex(word2);
        g.AddEdge(word1, word2);
      }
      assert g.adjacency == next;
      i := i + 1;
    }
    assert words[..if |words| == 0 then 0 else i + 1] == words;
  }
}
