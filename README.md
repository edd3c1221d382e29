# Articulation points of an undirected multigraph

This is a model in Dafny of the core of `grafosBiconexoApp`. The program
finds the articulation points (cut vertices) of an undirected, weighted
multigraph. The model has three parts:

- **The graph (`Grafo`)**, in `graph.dfy`. It has `V` vertices, an edge
  counter `A` and one adjacency list of edge records (`Aresta`) per
  vertex.
  - `addAresta` puts a record at the front of the list of its first
    endpoint, and its mirror (endpoints swapped, same weight) at the front
    of the other endpoint's list.
  - The queries are `grau`, `existeArestaEntre`, `getVizinhos`, `arestas`,
    `arestasUnicas` and `arestasAdjacentes`.
  - `decrementarArestas` lowers the counter, never below zero.
  - The lists are proved about as values in separate modules:
    - `Adjacency`: the shape of the lists, mirroring, and the sum of
      degrees.
    - `EdgeQueries`: the listing of `arestas()` and the two filters built
      on it.
    - `Loading`: the edge-list constructor, reading from a sequence of
      integers that stands for the input stream.
- **Edge removal** of the visualiser (`GrafoBiconexoApp.removerAresta`),
  in `app.dfy`, with the list functions in `removal.dfy`. It validates
  both vertices, removes the first matching record in each direction, in
  place, then decrements the counter.
- **The articulation-point search (`AlgoritmoBiconexo`)**, in
  `biconnected.dfy`. It is a class over the arrays `pre`, `low` and
  `articulacao` and the counter `cont`, with the recursive `dfs`.
  - Its contract is stated on snapshots of those arrays, in `lowlink.dfy`.
    The step lemmas, one per statement group of `dfs`, are in
    `lowlink_steps.dfy`. What a caller learns from a finished search is in
    `lowlink_facts.dfy` and `lowlink_roots.dfy`. The marks on two small
    graphs, loaded from their integers, are in `small_graphs.dfy`.
  - The search tree, which the Java code keeps only in its call stack, is
    the ghost sequence `parent`.
  - When the constructor returns, every vertex is visited and *finished*:
    - its mark follows the articulation rule (a root with more than one
      child; a non-root with a child whose `low` is at least the vertex's
      own number);
    - every neighbour is visited;
    - `low` is the least of its own number, its children's `low`, and the
      numbers of its non-parent neighbours.
  - The roots are also kept apart: the outer loop starts a search only
    from a vertex no earlier search reached, so no vertex numbered before a
    root has a neighbour numbered at or after it. Hence both ends of every
    edge lie in the same tree.

Edge records are modelled as the datatype `Edge(v1, v2, weight)`. The
class `Aresta` is not part of this model, so the model takes it that:

- `umVertice()` is `v1`;
- `outroVertice(x)` is the opposite endpoint;
- the `double` weight is only ever copied.

Java exceptions are error values of a `Result`/`Outcome` datatype:
`IndexOutOfBounds`, `IllegalArgument`, and `NoSuchElement` for a token
stream that runs out.

## Model

| member | source | states |
|---|---|---|
| Graphs.Graph.Init | src/grafosbiconexos/Grafo.java:44-54 | a graph with `V == n`, `A == 0` and every list empty; it is well formed, mirrored, and its degrees sum to `2*A` |
| Graphs.Graph.Create | src/grafosbiconexos/Grafo.java:44-54 | the error `IllegalArgument` exactly when `n < 0`; otherwise a fresh empty graph as `Init` describes |
| Graphs.Graph.FromTokens | src/grafosbiconexos/Grafo.java:56-68 | fails exactly when `Load` fails, with the same error; otherwise `V` and `A` are the two counts read, the lists are `Load`'s, and the graph is valid, mirrored and balanced |
| Graphs.Graph.AddEdgesRead | src/grafosbiconexos/Grafo.java:62-67 | the read loop adds the `count` edges of weight 0 that `AddAll` describes, raises `A` by `count`, and keeps validity, mirroring and balance; it fails as `AddAll` does |
| Graphs.Graph.AddEdgeRead | src/grafosbiconexos/Grafo.java:63-66 | one turn of the read loop: it fails iff fewer than two integers are left or either is not a vertex, exactly as the first step of `AddAll` does; otherwise the lists become `AddEdgeLists` of the edge between the two integers read, with weight 0, `A` rises by 1, and validity, mirroring and balance are kept |
| Loading.Load | src/grafosbiconexos/Grafo.java:56-68 | an empty stream gives `NoSuchElement`; a result means two non-negative counts were read and there is one list per announced vertex |
| Loading.LoadSucceeds | src/grafosbiconexos/Grafo.java:56-68 | loading succeeds iff both counts are non-negative and there are that many pairs of valid endpoints; the result is well formed, mirrored with weights, its degrees sum to twice the edge count, and every record has weight 0 |
| Loading.LoadErrors | src/grafosbiconexos/Grafo.java:56-61 | an empty stream gives `NoSuchElement`; a negative vertex or edge count gives `IllegalArgument`; too few endpoints give an error |
| Loading.AddAllSucceeds | src/grafosbiconexos/Grafo.java:62-67 | adding the edges read succeeds iff every endpoint read is a vertex; the number of lists does not change |
| Loading.AddAll | src/grafosbiconexos/Grafo.java:62-67 | a result keeps one list per vertex; the only errors are `NoSuchElement` (stream runs out) and `IndexOutOfBounds` (endpoint not a vertex) |
| Loading.AddAllShape | src/grafosbiconexos/Grafo.java:62-67 | adding the edges read keeps the lists well formed and raises the degree sum by twice the edge count |
| Loading.AddAllMirrored | src/grafosbiconexos/Grafo.java:62-67 | adding the edges read keeps the records mirrored, weights included |
| Loading.AddAllZeroWeights | src/grafosbiconexos/Grafo.java:65-66 | every edge read gets weight 0, so lists whose records all weigh 0 keep that |
| Loading.AddAllKeeps | src/grafosbiconexos/Grafo.java:62-67 | adding the edges read keeps the lists well formed and mirrored with weights, and raises the degree sum by twice the edge count |
| Graphs.Graph.CheckVertex | src/grafosbiconexos/Grafo.java:82-85 | `Done` iff `0 <= v < V`; otherwise `IndexOutOfBounds` |
| Graphs.Graph.AddEdge | src/grafosbiconexos/Grafo.java:87-96 | with either endpoint outside `[0, V)`: `IndexOutOfBounds`, nothing changed; otherwise the lists become `AddEdgeLists` and `A` rises by 1; mirroring and balance are kept |
| Adjacency.AddEdgeLists | src/grafosbiconexos/Grafo.java:92-94 | the record goes to index 0 of the first endpoint's list and its mirror to index 0 of the other's (both in one list for a self-loop); every other list is unchanged |
| Adjacency.AddEdgeWellFormed | src/grafosbiconexos/Grafo.java:92-94 | every record in list `x` still starts at `x` and ends at a vertex |
| Adjacency.AddEdgeWeights | src/grafosbiconexos/Grafo.java:92-94 | the weight goes in front of the weights from `v1` to `v2` and in front of those from `v2` to `v1` (twice in front of the self-loop weights for a self-loop); all other weights stay |
| Adjacency.AddEdgeMirrored | src/grafosbiconexos/Grafo.java:92-94 | the weights of the records from `a` to `b` stay equal, in order, to those from `b` to `a`, and self-loop weights stay in adjacent equal pairs, because the mirror copies the weight |
| Adjacency.MirroredCounts | src/grafosbiconexos/Grafo.java:92-94 | mirrored weights give as many records one way as the other, and an even number of self-loop records |
| Adjacency.AddEdgeSumDegrees | src/grafosbiconexos/Grafo.java:92-95 | the sum of degrees rises by exactly 2, self-loops included, matching `A++` |
| Adjacency.EmptyLists | src/grafosbiconexos/Grafo.java:50-53 | the `n` empty lists are well formed and mirrored (no weights anywhere), with degree sum 0 |
| Adjacency.HasEdgeSymmetric | src/grafosbiconexos/Grafo.java:92-94 | in mirrored lists an edge from `p` to `q` is also one from `q` to `p` |
| Adjacency.CountPositive | src/grafosbiconexos/Grafo.java:132-136 | a list has a record ending at `d` iff its count of such records is positive |
| Graphs.Graph.Adjacency | src/grafosbiconexos/Grafo.java:99-102 | the list of `v`, each record starting at `v`; `IndexOutOfBounds` for a non-vertex |
| Graphs.Graph.Degree | src/grafosbiconexos/Grafo.java:104-107 | the length of the list of `v`, at most `2*A` in a balanced graph; `IndexOutOfBounds` for a non-vertex |
| Graphs.DegreeBounded | src/grafosbiconexos/Grafo.java:104-107 | one degree is at most the sum of all degrees |
| Graphs.Graph.Edges | src/grafosbiconexos/Grafo.java:109-127 | the result is `AllEdges`, whose contents are every other self-loop record once plus every record towards a higher vertex twice |
| EdgeQueries.ScanList | src/grafosbiconexos/Grafo.java:113-124 | one pass over a list never shortens the listing, and its only error is `IndexOutOfBounds` from the insertion |
| EdgeQueries.ScanFrom | src/grafosbiconexos/Grafo.java:111-125 | the passes from vertex `v` on never shorten the listing, and their only error is `IndexOutOfBounds` |
| EdgeQueries.AllEdges | src/grafosbiconexos/Grafo.java:109-127 | `arestas()` fails only with `IndexOutOfBounds` |
| EdgeQueries.AllEdgesContent | src/grafosbiconexos/Grafo.java:109-127 | when the listing succeeds, it holds as a multiset each self-loop record kept (every other one) and each upward record twice |
| EdgeQueries.ScanListContent | src/grafosbiconexos/Grafo.java:113-124 | the inner loop adds to the listing, as a multiset, the upward records twice and every other self-loop record |
| EdgeQueries.ScanFromContent | src/grafosbiconexos/Grafo.java:111-125 | the outer loop from vertex `v` on adds, as a multiset, the kept records of every vertex from `v` up |
| EdgeQueries.InsertTwiceContent | src/grafosbiconexos/Grafo.java:115-116 | appending a record and inserting it again at index `v` adds two copies to the multiset |
| EdgeQueries.AllEdgesDoublesAnEdge | src/grafosbiconexos/Grafo.java:114-116 | the single edge 0-1 is listed twice |
| EdgeQueries.AllEdgesFailsOnLateEdge | src/grafosbiconexos/Grafo.java:116 | with one edge 2-3 on four vertices, the insertion at index 2 into a list of length 1 fails with `IndexOutOfBounds` |
| Graphs.Graph.HasEdgeBetween | src/grafosbiconexos/Grafo.java:129-138 | `IndexOutOfBounds` iff a vertex is invalid; otherwise true iff some record of `v1` ends at `v2`, which in a mirrored graph is symmetric |
| Graphs.Graph.UniqueEdges | src/grafosbiconexos/Grafo.java:141-157 | fails as `arestas()` does; otherwise `Dedup` of its listing |
| Graphs.Graph.KeepFirstOfEachPair | src/grafosbiconexos/Grafo.java:142-156 | the loop over the listing computes `Dedup` |
| Graphs.Graph.ContainsPair | src/grafosbiconexos/Grafo.java:144-151 | the flag is true iff a kept entry joins the same two endpoints |
| EdgeQueries.DedupProperties | src/grafosbiconexos/Grafo.java:141-157 | each kept entry is from the listing; no two kept entries join the same endpoints; every listed pair is represented |
| EdgeQueries.Dedup | src/grafosbiconexos/Grafo.java:141-157 | `arestasUnicas()` keeps no more entries than the listing has |
| EdgeQueries.DedupIsFirsts | src/grafosbiconexos/Grafo.java:141-157 | the kept entries are exactly the entries with no earlier entry joining the same endpoints, in the order of the listing |
| EdgeQueries.KeptPairIsEarlier | src/grafosbiconexos/Grafo.java:144-151 | the search of the kept entries finds the pair of entry `n` iff some earlier entry of the listing joins the same endpoints |
| EdgeQueries.DedupKeepsFirstWeight | src/grafosbiconexos/Grafo.java:143-154 | of two records of edge 0-1 with weights 1.0 and 2.0, the first is kept |
| EdgeQueries.DedupStep | src/grafosbiconexos/Grafo.java:152-154 | adding an entry whose pair is not yet kept preserves those three properties |
| Graphs.Graph.AdjacentEdges | src/grafosbiconexos/Grafo.java:159-172 | fails as `arestas()` does; otherwise `AdjacentTo` of its listing |
| EdgeQueries.AdjacentTo | src/grafosbiconexos/Grafo.java:159-172 | an entry is kept iff it is listed, does not join the same endpoints as `e`, and shares an endpoint with `e`; each such entry keeps its number of copies and every other entry has none; no longer than the listing |
| Graphs.Graph.Neighbors | src/grafosbiconexos/Grafo.java:174-184 | one opposite endpoint per record, in list order, so as many as the degree; a vertex appears iff an edge joins it to `v`; `IndexOutOfBounds` for a non-vertex |
| Graphs.Graph.DecrementEdges | src/grafosbiconexos/Grafo.java:200-206 | `A` drops by 1 when positive and otherwise stays 0; the lists do not change |
| App.GraphApp.CheckVertex | src/javafxapplication2/GrafoBiconexoApp.java:124-128 | `Done` iff `0 <= v < V`; otherwise `IllegalArgument` |
| App.GraphApp.RemoveFirstOccurrence | src/javafxapplication2/GrafoBiconexoApp.java:114-122 | only the list of `o` changes, and it becomes `RemoveFirst` of it |
| EdgeRemoval.RemoveFirst | src/javafxapplication2/GrafoBiconexoApp.java:116-121 | the records left all still have `o` as an endpoint; the exact result is stated by `RemoveFirstShape` |
| EdgeRemoval.FirstMatch | src/javafxapplication2/GrafoBiconexoApp.java:116-117 | the lowest index whose record points at `d`, or the length when none does |
| EdgeRemoval.RemoveFirstShape | src/javafxapplication2/GrafoBiconexoApp.java:116-121 | with no match the list is unchanged; otherwise exactly the first match is gone and the other records keep their order |
| EdgeRemoval.RemoveFirstWeights | src/javafxapplication2/GrafoBiconexoApp.java:116-121 | the first of the weights towards `d` leaves, if there is one; the weights towards every other vertex stay |
| EdgeRemoval.DropFirstWeight | src/javafxapplication2/GrafoBiconexoApp.java:117-118 | taking out a record towards `d` that no earlier record matches takes its weight off the front of the weights towards `d`, and changes no other weights |
| EdgeRemoval.RemoveFirstCount | src/javafxapplication2/GrafoBiconexoApp.java:116-121 | the count towards `d` drops by one if any record pointed at `d`; counts towards other vertices stay |
| App.GraphApp.RemoveEdge | src/javafxapplication2/GrafoBiconexoApp.java:103-112 | `IllegalArgument` with nothing changed iff a vertex is invalid; otherwise the lists become `RemoveEdgeLists`, `A` drops by 1 unless 0, mirroring is kept, and balance holds iff an edge joined the two vertices or `A` was 0 |
| EdgeRemoval.RemoveEdgeLists | src/javafxapplication2/GrafoBiconexoApp.java:107-108 | only the lists of `p` and `q` change |
| EdgeRemoval.RemoveEdgeWellFormed | src/javafxapplication2/GrafoBiconexoApp.java:107-108 | the lists stay well formed |
| EdgeRemoval.RemoveEdgeCountAt | src/javafxapplication2/GrafoBiconexoApp.java:107-108 | in a mirrored graph with an edge `p`-`q`, one record leaves each direction (two from one list for a self-loop); nothing else changes |
| EdgeRemoval.RemoveSelfLoopLength | src/javafxapplication2/GrafoBiconexoApp.java:107-108 | removing a self-loop takes two records from one list |
| EdgeRemoval.RemoveEdgeSumDegrees | src/javafxapplication2/GrafoBiconexoApp.java:107-108 | in a mirrored graph the sum of degrees drops by 2 iff an edge joined `p` and `q`, and otherwise stays |
| EdgeRemoval.RemoveEdgeWeightsAt | src/javafxapplication2/GrafoBiconexoApp.java:107-108 | with an edge `p`-`q`, the first weight from `p` to `q` and the first from `q` to `p` leave (the first two self-loop weights when `p == q`); no other weights change |
| EdgeRemoval.RemoveEdgeMirrored | src/javafxapplication2/GrafoBiconexoApp.java:107-108 | mirroring with weights is kept: the two first matches remove the same weight from both directions |
| EdgeRemoval.AddThenRemove | src/javafxapplication2/GrafoBiconexoApp.java:107-108 | removing the edge just added restores every list exactly, self-loops included |
| Biconnected.ArticulationFinder.constructor | src/grafosbiconexos/AlgoritmoBiconexo.java:24-39 | when it returns every vertex is visited and finished, the roots are kept apart (no vertex numbered before a root has a neighbour numbered at or after it), and `cont == V`; the graph is unchanged |
| Biconnected.ArticulationFinder.FillUnvisited | src/grafosbiconexos/AlgoritmoBiconexo.java:30-33 | every entry is set to -1 |
| Biconnected.ArticulationFinder.SearchAll | src/grafosbiconexos/AlgoritmoBiconexo.java:36-38 | searching from each still-unvisited vertex in order leaves the search complete with the roots kept apart |
| Biconnected.ArticulationFinder.SearchFrom | src/grafosbiconexos/AlgoritmoBiconexo.java:37-38 | `dfs(G, v, v)` on an unvisited `v` leaves `v` visited, keeps every earlier visit, leaves every visited vertex finished, and keeps the roots apart |
| Biconnected.ArticulationFinder.Dfs | src/grafosbiconexos/AlgoritmoBiconexo.java:42-72 | `v` gets the next number and parent `u`, and is finished; vertices visited earlier keep their entries; every other vertex the call visits is finished and is not a root: its parent is a different vertex, also visited by the call; the invariant is kept |
| Biconnected.ArticulationFinder.Enter | src/grafosbiconexos/AlgoritmoBiconexo.java:43-45 | numbering `v` with `cont`, setting `low[v]` to it and recording the parent `u` establishes the loop invariant with no records covered and no children |
| Biconnected.ArticulationFinder.Leave | src/grafosbiconexos/AlgoritmoBiconexo.java:69-71 | after the loop, marking a root with more than one child finishes `v`, which keeps the number it was given |
| Biconnected.ArticulationFinder.TakeLow | src/grafosbiconexos/AlgoritmoBiconexo.java:57-62 | `low[v]` becomes the lesser of `low[v]` and `low[w]`, and a non-root `v` is marked when `low[w] >= pre[v]`; nothing else changes |
| Biconnected.ArticulationFinder.FollowRecord | src/grafosbiconexos/AlgoritmoBiconexo.java:48-67 | one turn of the loop keeps the loop invariant, with `low[v]` now covering one more record |
| Biconnected.ArticulationFinder.VisitChild | src/grafosbiconexos/AlgoritmoBiconexo.java:52-63 | the recursive call, then `low[v] := min(low[v], low[w])` and the non-root mark, keep the loop invariant with one more child |
| Biconnected.ArticulationFinder.IsArticulation | src/grafosbiconexos/AlgoritmoBiconexo.java:75 | defined iff `v` is a vertex; then true iff the articulation rule holds for `v` in the search tree |
| LowLinkSteps.InitialInv | src/grafosbiconexos/AlgoritmoBiconexo.java:29-33 | with every entry -1 the invariant holds with the counter at 0 |
| LowLinkSteps.LoopStart | src/grafosbiconexos/AlgoritmoBiconexo.java:43-45 | numbering `v` and setting `low[v] := pre[v]` establishes the loop invariant with no records covered |
| LowLinkSteps.LoopVisited | src/grafosbiconexos/AlgoritmoBiconexo.java:64-66 | a visited neighbour other than the parent lowers `low[v]` to its number; the parent changes nothing |
| LowLinkSteps.LoopChild | src/grafosbiconexos/AlgoritmoBiconexo.java:52-62 | after the child's call, lowering `low[v]` to `low[w]` and marking a non-root `v` keeps the loop invariant |
| LowLinkSteps.ChildLow | src/grafosbiconexos/AlgoritmoBiconexo.java:57 | the new `low[v]` is still the least over its children and the records covered |
| LowLinkSteps.ChildMark | src/grafosbiconexos/AlgoritmoBiconexo.java:59-62 | the mark of a non-root `v` agrees with "some child `w` has `low[w] >= pre[v]`" |
| LowLinkSteps.ChildCountStep | src/grafosbiconexos/AlgoritmoBiconexo.java:53 | a new child of `v` raises its child count, which `filhos` tracks, by one |
| LowLinkSteps.LoopEnd | src/grafosbiconexos/AlgoritmoBiconexo.java:69-71 | after the loop, marking a root with more than one child finishes `v` |
| LowLinkSteps.OuterStep | src/grafosbiconexos/AlgoritmoBiconexo.java:36-38 | after a search from a new root, every visited vertex is finished |
| LowLinkSteps.SearchComplete | src/grafosbiconexos/AlgoritmoBiconexo.java:36-38 | once all vertices are visited and finished, the counter equals the number of vertices |
| LowLink.NeighbourIsEdge | src/grafosbiconexos/AlgoritmoBiconexo.java:48-49 | a vertex `b` is a neighbour of `a` in the search iff `HasEdge(ls, a, b)`, the relation `existeArestaEntre` tests |
| LowLinkFacts.Numbering | src/grafosbiconexos/AlgoritmoBiconexo.java:44-45 | after the search `pre` is a bijection from the vertices onto `0 .. V-1`, and `0 <= low[v] <= pre[v]` |
| LowLinkFacts.LeafNotArticulation | src/grafosbiconexos/AlgoritmoBiconexo.java:61-71 | a vertex without children in the search tree is not marked |
| LowLinkFacts.NumberingOf | src/grafosbiconexos/AlgoritmoBiconexo.java:44 | distinct numbers below `n` on all `n` vertices use every number of `0 .. n-1` |
| LowLinkFacts.NoEdgesNoArticulation | src/grafosbiconexos/AlgoritmoBiconexo.java:42-72 | in a graph without edges no vertex is marked |
| LowLinkRoots.GivenSize | src/grafosbiconexos/AlgoritmoBiconexo.java:44 | with distinct numbers, as many numbers are given as vertices are visited |
| LowLinkRoots.NewNumbersAbove | src/grafosbiconexos/AlgoritmoBiconexo.java:44 | once `c` numbers are given, a vertex numbered later gets a number of at least `c` |
| LowLinkRoots.RootsStep | src/grafosbiconexos/AlgoritmoBiconexo.java:35-38 | a search from an unvisited `v`, started when every visited vertex is finished, keeps the roots apart |
| LowLinkRoots.RootOf | src/grafosbiconexos/AlgoritmoBiconexo.java:36-38 | following parents from `y` ends at a root numbered no later than `y` |
| LowLinkRoots.ApartEdge | src/grafosbiconexos/AlgoritmoBiconexo.java:36-38 | a neighbour of a vertex numbered before a root is itself numbered before that root |
| LowLinkRoots.RootOfLast | src/grafosbiconexos/AlgoritmoBiconexo.java:36-38 | the root of `y` is the last root numbered no later than `y` |
| LowLinkRoots.SameRootUpward | src/grafosbiconexos/AlgoritmoBiconexo.java:36-54 | along a record towards a vertex numbered later, the root stays the same |
| LowLinkRoots.SameRoot | src/grafosbiconexos/AlgoritmoBiconexo.java:36-54 | the two ends of every edge have the same root, so each search tree is a union of connected components |
| LowLinkRoots.RootHasChild | src/grafosbiconexos/AlgoritmoBiconexo.java:52-54 | the root of a non-root vertex `y` has a child numbered no later than `y` |
| LowLinkRoots.ChildCountAtMostOne | src/grafosbiconexos/AlgoritmoBiconexo.java:53 | when only `w` can be a child of `x`, `x` has at most one child |
| LowLinkRoots.ChildCountTwo | src/grafosbiconexos/AlgoritmoBiconexo.java:53 | two distinct children give a child count of at least 2 |
| LowLinkRoots.ParentRecord | src/grafosbiconexos/AlgoritmoBiconexo.java:48-54 | in mirrored lists a non-root vertex has a record ending at its parent |
| LowLinkRoots.PendantNotArticulation | src/grafosbiconexos/AlgoritmoBiconexo.java:42-72 | a vertex all of whose records end at one vertex is never marked |
| LowLinkRoots.PendantChildLow | src/grafosbiconexos/AlgoritmoBiconexo.java:42-66 | a non-root child hanging from its parent alone has `low` equal to its own number, above its parent's |
| LowLinkRoots.RootWithTwoPendants | src/grafosbiconexos/AlgoritmoBiconexo.java:52-54 | a root with two neighbours hanging from it alone has at least two children |
| LowLinkRoots.PendantIsChild | src/grafosbiconexos/AlgoritmoBiconexo.java:52-54 | a vertex hanging from a non-root `c` alone, and not the parent of `c`, is a child of `c` |
| LowLinkRoots.TwoPendantsArticulation | src/grafosbiconexos/AlgoritmoBiconexo.java:42-72 | a vertex with two distinct neighbours that hang from it alone is always marked |
| SmallGraphs.PathLoads | src/grafosbiconexos/Grafo.java:56-68 | the integers `3 2 0 1 1 2` load as the lists of the path 0-1-2, which are mirrored |
| SmallGraphs.PathMarks | src/grafosbiconexos/AlgoritmoBiconexo.java:24-72 | on the path 0-1-2 a completed search marks exactly vertex 1 |
| SmallGraphs.StarLoads | src/grafosbiconexos/Grafo.java:56-68 | the integers `4 3 0 1 0 2 0 3` load as the lists of the star with centre 0 and leaves 1, 2, 3, which are mirrored |
| SmallGraphs.StarMarks | src/grafosbiconexos/AlgoritmoBiconexo.java:24-72 | on that star a completed search marks exactly the centre |
| SmallGraphs.PathArticulations | src/grafosbiconexos/AlgoritmoBiconexo.java:24-75 | loading the path and running the constructor on it leaves the marks `false, true, false` |
| SmallGraphs.StarArticulations | src/grafosbiconexos/AlgoritmoBiconexo.java:24-75 | loading the star and running the constructor on it leaves the marks `true, false, false, false` |
| LowLink.ChildCountPlusOne | src/grafosbiconexos/AlgoritmoBiconexo.java:53 | a new child raises the count of children by exactly one |
| LowLink.UnvisitedUpdate | src/grafosbiconexos/AlgoritmoBiconexo.java:44 | numbering an unvisited vertex lowers the count of unvisited vertices by one |

## Left out

- The JavaFX window: `start`, drawing, layout, click handling, `init` and
  `main`. These are user interface and resource loading.
- `toString`, the console output of both `main` methods, and the warning
  printed by `decrementarArestas`. They only produce output.
- The `In` reader. `Graphs.Graph.FromTokens` reads a sequence of integers
  that stands for the stream; a stream that runs out is `NoSuchElement`.
- The no-argument constructor `Grafo()`, which always throws.
- `V()` and `A()`: the model reads the fields directly.
- Java's 32-bit `int` overflow of `A` and `cont`: counters are unbounded.
- Aliasing: `adj(v)` returns the live list, which the window mutates.
  Here the graph's lists are values in an array, and the removal replaces
  an entry of that array.
- Biconnected.ArticulationFinder.Dfs: `dfs` is split into `Enter`, the
  loop turns `FollowRecord`, `VisitChild` and `TakeLow`, and `Leave`, to
  keep each proof small. Likewise
  one turn of the constructor's outer loop is `SearchFrom`, and one turn
  of the read loop of `Grafo(In in)` is `Graphs.Graph.AddEdgeRead`. The
  search tree `parent` is ghost.
- App.GraphApp.RemoveEdge: when no edge joins the two vertices and `A` is
  positive, the counter is still decremented. The contract states that
  balance is then lost rather than keeping it.
- Biconnected.ArticulationFinder.IsArticulation: the contract ties the
  mark to the articulation rule over the search tree, with `low` as the
  least number over each subtree and its non-tree edges, on a state where
  the roots are kept apart (each tree is a union of connected components).
  - It does not state, for every graph, that a vertex is marked iff
    removing it disconnects its component. That needs the depth-first
    property of the tree (every non-tree edge joins an ancestor and a
    descendant), which the invariant does not carry. What is proved in
    general: a vertex whose edges all lead to one vertex is never marked,
    and a vertex with two such pendant neighbours always is.
  - So the exact marks are proved for the path 0-1-2 and the star with
    centre 0 and leaves 1, 2, 3, but not for the path 0-1-2-3, whose
    middle vertices each have only one pendant neighbour, nor for the
    4-cycle of the commented example in `main`, which has none.
- Biconnected.ArticulationFinder.constructor: for the same reason its
  contract does not fix the marks of every graph. It rules out a state
  where two vertices joined by an edge lie in different trees, but not
  every search tree that is not depth-first. On graphs beyond the two
  above, the marks it allows may differ from the articulation points.
