/**
 * The marks a completed search leaves on two small graphs: the path
 * 0-1-2, where only the middle vertex is an articulation point, and the
 * star with centre 0 and leaves 1, 2, 3, where only the centre is. Each
 * graph is the one the edge-list constructor builds from its integers.
 */
module SmallGraphs {
  import opened Errors
  import opened Edges
  import opened Adjacency
  import opened Loading
  import opened LowLink
  import opened LowLinkRoots
  import opened Graphs
  import opened Biconnected

  /** The lists of the path 0-1-2, as loaded from `PathTokens()`. */
  function PathLists(): Lists {
    [[Edge(0, 1, 0.0)], [Edge(1, 2, 0.0), Edge(1, 0, 0.0)], [Edge(2, 1, 0.0)]]
  }

  /** Three vertices, two edges: 0-1 and 1-2. */
  function PathTokens(): seq<int> {
    [3, 2, 0, 1, 1, 2]
  }

  lemma PathLoads()
    ensures Load(PathTokens()) == Ok(PathLists())
    ensures Mirrored(PathLists())
  {
    var ls0 := EmptyLists(3);
    assert ls0 == [[], [], []];
    var ls1 := AddEdgeLists(ls0, Edge(0, 1, 0.0));
    assert ls1[0] == [Edge(0, 1, 0.0)] && ls1[1] == [Edge(1, 0, 0.0)] && ls1[2] == [];
    var ls2 := AddEdgeLists(ls1, Edge(1, 2, 0.0));
    assert ls2[0] == [Edge(0, 1, 0.0)] && ls2[1] == [Edge(1, 2, 0.0), Edge(1, 0, 0.0)] && ls2[2] == [Edge(2, 1, 0.0)];
    assert ls2 == PathLists();
    assert PathTokens()[2..] == [0, 1, 1, 2];
    assert [0, 1, 1, 2][2..] == [1, 2];
    assert [1, 2][2..] == [];
    LoadSucceeds(PathTokens());
  }

  /** On the path 0-1-2 exactly the middle vertex is marked. */
  lemma PathMarks(s: Snapshot)
    requires Classified(PathLists(), s) && RootsApart(PathLists(), s)
    ensures s.art == [false, true, false]
  {
    var ls := PathLists();
    PathLoads();
    PendantNotArticulation(ls, s, 0, 1);
    PendantNotArticulation(ls, s, 2, 1);
    TwoPendantsArticulation(ls, s, 1, 0, 2);
  }

  /** The lists of the star with centre 0 and leaves 1, 2, 3, as loaded from `StarTokens()`. */
  function StarLists(): Lists {
    [[Edge(0, 3, 0.0), Edge(0, 2, 0.0), Edge(0, 1, 0.0)], [Edge(1, 0, 0.0)], [Edge(2, 0, 0.0)], [Edge(3, 0, 0.0)]]
  }

  /** Four vertices, three edges: 0-1, 0-2 and 0-3. */
  function StarTokens(): seq<int> {
    [4, 3, 0, 1, 0, 2, 0, 3]
  }

  lemma StarLoads()
    ensures Load(StarTokens()) == Ok(StarLists())
    ensures Mirrored(StarLists())
  {
    var ls0 := EmptyLists(4);
    assert ls0 == [[], [], [], []];
    var ls1 := AddEdgeLists(ls0, Edge(0, 1, 0.0));
    assert ls1[0] == [Edge(0, 1, 0.0)] && ls1[1] == [Edge(1, 0, 0.0)] && ls1[2] == [] && ls1[3] == [];
    var ls2 := AddEdgeLists(ls1, Edge(0, 2, 0.0));
    assert ls2[0] == [Edge(0, 2, 0.0), Edge(0, 1, 0.0)] && ls2[2] == [Edge(2, 0, 0.0)];
    var ls3 := AddEdgeLists(ls2, Edge(0, 3, 0.0));
    assert ls3[0] == [Edge(0, 3, 0.0), Edge(0, 2, 0.0), Edge(0, 1, 0.0)] && ls3[3] == [Edge(3, 0, 0.0)];
    assert ls3[1] == [Edge(1, 0, 0.0)] && ls3[2] == [Edge(2, 0, 0.0)];
    assert ls3 == StarLists();
    assert StarTokens()[2..] == [0, 1, 0, 2, 0, 3];
    assert [0, 1, 0, 2, 0, 3][2..] == [0, 2, 0, 3];
    assert [0, 2, 0, 3][2..] == [0, 3];
    assert [0, 3][2..] == [];
    LoadSucceeds(StarTokens());
  }

  /** On the star exactly the centre is marked. */
  lemma StarMarks(s: Snapshot)
    requires Classified(StarLists(), s) && RootsApart(StarLists(), s)
    ensures s.art == [true, false, false, false]
  {
    var ls := StarLists();
    StarLoads();
    PendantNotArticulation(ls, s, 1, 0);
    PendantNotArticulation(ls, s, 2, 0);
    PendantNotArticulation(ls, s, 3, 0);
    TwoPendantsArticulation(ls, s, 0, 1, 2);
  }

  /** Loading the path and running the search on it marks exactly vertex 1. */
  method PathArticulations() returns (marks: seq<bool>)
    ensures marks == [false, true, false]
  {
    var loaded := Graph.FromTokens(PathTokens());
    PathLoads();
    var finder := new ArticulationFinder(loaded.value);
    PathMarks(finder.State());
    marks := finder.art[..];
  }

  /** Loading the star and running the search on it marks exactly its centre. */
  method StarArticulations() returns (marks: seq<bool>)
    ensures marks == [true, false, false, false]
  {
    var loaded := Graph.FromTokens(StarTokens());
    StarLoads();
    var finder := new ArticulationFinder(loaded.value);
    StarMarks(finder.State());
    marks := finder.art[..];
  }
}
