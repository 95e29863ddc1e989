# Word-adjacency graph: a verified model

This project is a Dafny model of the graph object of the sof_lab1 text-graph program (`CustomGraph`), with proofs about it. The program reads a text and turns its word sequence into a directed graph. Each word is a vertex. Each ordered pair of adjacent words is an edge, whose weight counts how often the pair occurs. The graph then answers four queries:

- **bridge words**: the words `b` with edges `word1 -> b -> word2`;
- **text augmentation**: a new text with one bridge word inserted between each adjacent pair of input tokens that has any;
- **shortest path**: a path by hop count, from a best-first search with unit edge costs, with the sum of its edge weights reported beside it;
- **random walk**: a walk that stops at a dead end, at the first repeated edge, or when the user asks it to.

The model has four modules:

- `WordGraph` (`word_graph.dfy`): the adjacency map as a value (`map<Word, map<Word, int>>`); the two updates made to it (`AddVertexTo`, `AddEdgeTo`); bridge words; and the specification of the build loop, which counts adjacent token pairs (`PairCount`, `Vocabulary`).
- `WordPaths` (`word_paths.dfy`): paths, reachability, the path-weight sum, the edges a path traverses, and the facts the search rests on. These are the search state (predecessor links, frontier, exact distances, and the invariant of the scan over one vertex's out-edges), the cut argument (a set closed under out-edges cannot be left), and the step showing that a queued vertex of least distance has its true hop distance.
- `TextAugment` (`text_augment.dfy`): the shape of an augmented text. Every token appears in order, each followed by at most one inserted word, and the last token ends the text.
- `CustomGraphs` (`custom_graph.dfy`): the class `CustomGraph`. Its field `adjacency` is updated in place by `AddVertex` and `AddEdge`; its query methods are written with the source's loops and proved against the functions above. The module also holds the build loop (`BuildGraph`), the search's relaxation loop (`RelaxEdges`) and the walk loop (`WalkFrom`).

Random draws are parameters of the model:

- `choose(k, n)` stands for the k-th `Random.nextInt(n)` of a query. It is only assumed to land in `[0, n)` (`InRange`).
- `stop(m)` is the user's answer after step m of a walk.

Iteration over a hash map's keys is modelled as picking any remaining key (`:|`), so every result is proved for every iteration order.

Four behaviours of the code that the model keeps as they are:

- Augmentation looks up tokens exactly as given, so the lookup is case-sensitive even though the graph's words are lower-cased.
- An empty token array does not give an empty text. It fails at the final `words[words.length - 1]` (`src/CustomGraph.java:77`), which the model returns as `None`. This happens for whitespace-only input.
- The walk asks about stopping right after each step, inside the same iteration.
- The build loop skips every pair that has an empty token.

## Model

| member | source | states |
|---|---|---|
| WordGraph.AddVertexTo | src/CustomGraph.java:18-20 | the vertex set grows by v; existing neighbour maps and every weight are unchanged; a new v gets an empty neighbour map |
| WordGraph.AddVertexIdempotent | src/CustomGraph.java:18-20 | adding a vertex twice is the same as adding it once; adding a present vertex changes nothing |
| WordGraph.AddVertexKeepsWellFormed | src/CustomGraph.java:18-20 | adding a vertex keeps every neighbour a vertex and every weight at least 1 |
| WordGraph.AddEdgeTo | src/CustomGraph.java:22-25 | the weight of from -> to rises by one (from 0 when absent); every other weight, the vertex set and every other neighbour map are unchanged |
| WordGraph.AddEdgeKeepsWellFormed | src/CustomGraph.java:22-25 | an edge between two vertices keeps every neighbour a vertex and every weight at least 1 |
| WordGraph.AddEdgeTimesCounts | src/CustomGraph.java:22-25 | inserting the same ordered pair k times adds exactly k to its weight and changes no other weight and no vertex |
| WordGraph.BridgeSet | src/CustomGraph.java:37-55 | b is a member exactly when w1 -> b and b -> w2 are edges; in a closed graph the set is empty when either word is not a vertex |
| WordGraph.BuildPairKeepsCounts | src/CustomGraph.java:346-354 | one iteration of the build loop keeps its invariant: the graph stays well formed, its vertices are the words of counted pairs so far, and each weight is the number of occurrences of its pair so far |
| WordGraph.PairCountPositive | src/CustomGraph.java:346-354 | a pair has positive count exactly when it occurs at some index with both tokens non-empty, so the built graph has an edge exactly for such pairs |
| WordGraph.VocabularyMembers | src/CustomGraph.java:346-354 | a word is a vertex of the built graph exactly when it is one end of a pair of adjacent non-empty tokens |
| WordPaths.PathWeight | src/CustomGraph.java:302-307 | the summed edge weights of a path: 0 for a path without edges, and at least its hop count when every weight is at least 1 |
| WordPaths.PathWeightStep | src/CustomGraph.java:303-307 | summing from the front, one more edge of the path adds its weight to the sum |
| WordPaths.UnitWeightsGiveHops | src/CustomGraph.java:302-307 | when every edge has weight 1, a path's weight sum is its hop count |
| WordPaths.TrivialPath | src/CustomGraph.java:95-111 | [s] is a path from s to s, and the only one with no edge |
| WordPaths.PathStaysInside | src/CustomGraph.java:114-122 | a path that starts in a set closed under out-edges never leaves it |
| WordPaths.ClosedSetTraps | src/CustomGraph.java:100-125 | if the set of polled vertices contains s, is closed under out-edges and misses t, then t is not reachable from s, so NoPath is correct |
| WordPaths.FrontierMinimumIsFinal | src/CustomGraph.java:100-101 | a queued vertex of least distance, when every polled vertex is exact and relaxed, has a distance no longer than any path to it |
| WordPaths.PathEdgesSnoc | src/CustomGraph.java:154-161 | extending a path by one vertex adds exactly the edge into that vertex to its set of edges |
| WordPaths.SnocEdgesAlong | src/CustomGraph.java:152-161 | extending a path by an out-neighbour of its last vertex gives a path |
| WordPaths.SnocDistinctEdges | src/CustomGraph.java:156-161 | extending a path by an edge it has not traversed keeps its edges pairwise distinct |
| TextAugment.ChoiceStep | src/CustomGraph.java:66-73 | a pair gets a word exactly when it has bridge words, and the word is one of them; this extends a valid run of choices |
| TextAugment.WeaveStep | src/CustomGraph.java:61-74 | one loop iteration appends the current token and then the inserted word, if any |
| TextAugment.FinishAugmented | src/CustomGraph.java:76-79 | appending the last token after all pairs gives the augmented text, and a one-token input comes back unchanged |
| TextAugment.WeaveLength | src/CustomGraph.java:61-74 | the loop's output has one token per pair plus one word per insertion |
| TextAugment.WeavePrefix | src/CustomGraph.java:61-74 | the output after the first j pairs is a prefix of the final output |
| TextAugment.WovenAt | src/CustomGraph.java:61-74 | token j lands after the j earlier tokens and their insertions, and its inserted word follows it immediately |
| TextAugment.PositionStep | src/CustomGraph.java:64-72 | consecutive tokens land one place apart, or two when a word was inserted between them |
| TextAugment.LastTokenAt | src/CustomGraph.java:76-77 | the last token is the final element; the length is the token count plus the number of insertions |
| TextAugment.AugmentedLayout | src/CustomGraph.java:57-80 | layout of the result: its length, every token at its position in the original order, and each inserted word right after the token before it |
| TextAugment.WeaveWithoutInsertions | src/CustomGraph.java:61-74 | with no insertions, the loop's output after the first k pairs is exactly the first k tokens |
| TextAugment.UnchangedWithoutBridges | src/CustomGraph.java:57-80 | when no adjacent pair has a bridge word, the text comes back unchanged |
| CustomGraphs.ListKeys | src/CustomGraph.java:152 | the key list holds each key of the map exactly once |
| CustomGraphs.MinIndex | src/CustomGraph.java:97-101 | the polled entry has the least distance in the queue and is the first such entry |
| CustomGraphs.TracePath | src/CustomGraph.java:103-111 | following predecessors back from t gives a path from s to t with dist[t] hops |
| CustomGraphs.SettledTargetPath | src/CustomGraph.java:103-111 | the traced path to a polled target is no longer than any path from s to t, and it is [s] when s == t |
| CustomGraphs.RemoveAt | src/CustomGraph.java:101 | the queue after a poll is one element shorter and keeps every other element |
| CustomGraphs.SettleMinimum | src/CustomGraph.java:100-101 | polling a queued vertex of least distance gives it its true hop distance and keeps the search state; either it is newly polled or all its out-edges were already relaxed |
| CustomGraphs.PollKeepsLinked | src/CustomGraph.java:101 | marking a reached vertex polled keeps every predecessor link an edge to a polled vertex one hop closer |
| CustomGraphs.PollKeepsFrontier | src/CustomGraph.java:101 | after the poll, every reached and unpolled vertex is still queued, and no polled vertex is farther than a queued one |
| CustomGraphs.PollKeepsExact | src/CustomGraph.java:101 | after the poll, every polled vertex, the new one included, has its true hop distance |
| CustomGraphs.FewerUnpolled | src/CustomGraph.java:100-101 | polling a vertex not polled before leaves fewer unpolled vertices, so the search terminates |
| CustomGraphs.RelaxEdges | src/CustomGraph.java:114-122 | after scanning u's out-edges every neighbour is reached at most one hop beyond u; distances only decrease; polled distances are unchanged; the predecessor links and frontier are kept |
| CustomGraphs.RelaxNeighbour | src/CustomGraph.java:116-121 | one iteration of the scan keeps its invariant; the neighbour gets distance dist[u] + 1, predecessor u and a queue entry exactly when it is unreached or farther, and nothing changes otherwise |
| CustomGraphs.ScanStarts | src/CustomGraph.java:114-115 | the scan's invariant holds before the first out-edge of u |
| CustomGraphs.ScanRelaxes | src/CustomGraph.java:116-120 | lowering a neighbour to dist[u] + 1 with u as predecessor and queueing it keeps the scan's invariant |
| CustomGraphs.ScanSkips | src/CustomGraph.java:116-117 | leaving a neighbour that is already close enough keeps the scan's invariant |
| CustomGraphs.ScanEnds | src/CustomGraph.java:115-122 | once the scan is done, every out-edge of u is relaxed |
| CustomGraphs.RelaxKeepsSearchState | src/CustomGraph.java:116-120 | giving neighbour y of a polled u the distance dist[u] + 1 keeps the predecessor links and the frontier |
| CustomGraphs.ScanKeepsSearching | src/CustomGraph.java:100-122 | after the poll and relaxation of u, the search loop's invariant holds with u among the polled vertices |
| CustomGraphs.DrawNeighbour | src/CustomGraph.java:152-153 | the drawn vertex is an out-neighbour of the current vertex |
| CustomGraphs.WalkWithinEdges | src/CustomGraph.java:156-161 | a walk with pairwise distinct edges has no more steps than the graph has edges |
| CustomGraphs.WalkStep | src/CustomGraph.java:154-161 | recording an unvisited edge and appending its target keeps the path along edges, its edges distinct, and the visited set equal to its edges |
| CustomGraphs.WalkAdvances | src/CustomGraph.java:154-170 | after a step the walk either ends stopped or goes on with no stop refused; either way it has not outrun the edge count |
| CustomGraphs.WalkHalts | src/CustomGraph.java:146-159 | a walk that meets a dead end or a visited edge ends there, without a stop signal, and its result keeps every promise of the walk |
| CustomGraphs.WalkFrom | src/CustomGraph.java:142-171 | the walk starts at start, follows edges, never repeats an edge, has at most as many steps as there are edges, and ends at a dead end, on a repeated edge or on the first stop signal |
| CustomGraphs.SumWeights | src/CustomGraph.java:302-307 | the loop's sum equals the path's weight sum PathWeight |
| CustomGraphs.BuildGraph | src/CustomGraph.java:334-354 | the built graph is well formed; its vertices are the words of pairs of adjacent non-empty tokens; each weight is the number of occurrences of its pair |
| CustomGraphs.CustomGraph.constructor | src/CustomGraph.java:14-16 | a new graph is empty |
| CustomGraphs.CustomGraph.AddVertex | src/CustomGraph.java:18-20 | the new adjacency is AddVertexTo of the old one, unchanged when v was present |
| CustomGraphs.CustomGraph.AddEdge | src/CustomGraph.java:22-25 | the new adjacency is AddEdgeTo of the old one: the edge's weight rises by one |
| CustomGraphs.CustomGraph.QueryBridgeWords | src/CustomGraph.java:37-55 | NoBridge exactly when a word is missing or there is no bridge word; otherwise the list holds every bridge word exactly once and nothing else |
| CustomGraphs.CustomGraph.GenerateNewText | src/CustomGraph.java:57-80 | fails exactly on an empty token array; otherwise the result is the tokens in order, each pair with a bridge word getting one between its tokens and no other pair getting one; one token comes back unchanged |
| CustomGraphs.CustomGraph.CalcShortestPath | src/CustomGraph.java:82-126 | NoPath exactly when a word is missing or word2 is unreachable from word1; otherwise a path from word1 to word2 no longer than any other; [word1] when the words are equal |
| CustomGraphs.CustomGraph.RandomWalk | src/CustomGraph.java:128-171 | the same promises as WalkFrom, over the graph's adjacency |
| CustomGraphs.CustomGraph.ShortestPathLength | src/CustomGraph.java:293-308 | NoPath exactly when a word is missing or word2 is unreachable; otherwise the path is no longer than any path from word1 to word2 ([word1] when the words are equal), and the reported length is its weight sum, at least its hop count; the length is 0 when there is no path |

## Left out

- printGraph (`src/CustomGraph.java:27-35`) and both showDirectedGraph methods' drawing (`src/CustomGraph.java:183-300`, 310-313) are console and GUI output. ShortestPathLength keeps only the length computation.
- readFile (`src/CustomGraph.java:315-332`), the file path in main, and the regex cleaning and lower-casing are file I/O and text processing. BuildGraph takes the token sequence, and GenerateNewText takes the tokens that `split("\\s+")` would give.
- Console messages, the joining of results into strings (`" "`, `" -> "`, the "No bridge words…" and "No path…" messages), and the random_walk.txt file (`src/CustomGraph.java:173-179`) are I/O. Results are datatypes instead.
  - Splitting the bridge-word string and the path string back into words is the identity on these lists, because graph words hold letters only.
- The walk's random start (`src/CustomGraph.java:137-141`) and the "graph is empty" message are left out; RandomWalk takes any vertex as `start`. The drawn start depends on the hash-set order and on `Random`.
- The uniform distribution of `Random.nextInt` is not modelled: `choose` may return any in-range value, so only facts that hold for every draw are proved.
- The distance table's `Integer.MAX_VALUE` entries are modelled as missing keys. 32-bit overflow of weights, distances and the weight sum is not modelled: Dafny integers are unbounded, and no count can reach 2^31 without the text having that many words.
- The `PriorityQueue` is modelled as a list polled at the first entry of least distance. With unit costs, the distance of a queued vertex never decreases after it is queued, so the heap order stays valid and both poll an entry of least distance.
- The walk's visited-edge set holds the key `current + "->" + next` as a string. The model uses the pair `(current, next)`, which is the same key because graph words contain no `-` or `>`.
- CustomGraphs.CustomGraph.QueryBridgeWords, GenerateNewText, CalcShortestPath and ShortestPathLength require every neighbour to be a vertex (`Closed`), which every built graph satisfies. The source dereferences a neighbour's neighbour map (`src/CustomGraph.java:45`, reached from augmentation through line 66) or a neighbour's distance (line 117) and would fail otherwise.
- CustomGraphs.CustomGraph.AddEdge requires `from` to be a vertex already, as the source dereferences its neighbour map.
- CustomGraphs.CustomGraph.GenerateNewText: states that some valid choice per pair produces the text, not which bridge word `choose(i, n)` selects, because the order of the bridge-word list follows hash-map iteration.
- CustomGraphs.CustomGraph.CalcShortestPath: states that the path is a shortest one, not which one among equally short paths, because the tie-break depends on hash-map iteration order.
- CustomGraphs.CustomGraph.RandomWalk: states the path's shape and why it ended, not which neighbour each draw picks, for the same reason.
