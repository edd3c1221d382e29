/**
 * The edge removal of the visualiser (`GrafoBiconexoApp`): the window
 * holds a graph and removes an edge from it in place, list by list, then
 * lowers the edge counter. Drawing is not part of this model.
 */
module App {
  import opened Errors
  import opened Edges
  import opened Adjacency
  import opened EdgeRemoval
  import opened Graphs

  class GraphApp {
    const graph: Graph

    constructor (g: Graph)
      ensures graph == g
    {
      graph := g;
    }

    /** `validaVertice(v)` of the window: `v` names a vertex of the graph, or the error raised for it. */
    function CheckVertex(v: int): (o: Outcome)
      reads this, graph
      ensures o == Done <==> 0 <= v < graph.V
      ensures o != Done ==> o == Failed(IllegalArgument)
    {
      if v < 0 || v >= graph.V then Failed(IllegalArgument) else Done
    }

    /**
     * `removePrimeiraOcorrencia(o, d)`: the first record of `o` whose
     * opposite endpoint is `d` leaves the list of `o`; every other list,
     * and the counter, stay as they were.
     */
    method RemoveFirstOccurrence(o: int, d: int)
      requires graph.Valid() && 0 <= o < graph.V
      modifies graph.adj
      ensures graph.Valid()
      ensures graph.adj[..] == old(graph.adj[..])[o := RemoveFirst(old(graph.adj[o]), o, d)]
    {
      var list := graph.adj[o];
      assert AllTouch(list, o);
      var i := 0;
      while i < |list|
        invariant 0 <= i <= |list|
        invariant graph.adj[..] == old(graph.adj[..])
        invariant forall j :: 0 <= j < i ==> list[j].Other(o) != d
      {
        if list[i].Other(o) == d {
          assert i == FirstMatch(list, o, d);
          graph.adj[o] := list[..i] + list[i + 1..];
          break;
        }
        i := i + 1;
      }
      RemoveFirstKeepsRecords(list, o, d, graph.V);
      ghost var before := old(graph.adj[..]);
      assert graph.adj[..] == before[o := RemoveFirst(before[o], o, d)];
    }

    /**
     * `removerAresta(v1, v2)`: with both vertices valid, one record is
     * removed each way (two from the same list for a self-loop) and the
     * counter goes down by one unless it is already zero; otherwise nothing
     * changes. The lists stay mirrored. The counter stays balanced when an
     * edge joined the two vertices (or the counter was zero); when none did
     * and the counter was positive, it falls out of step with the lists.
     */
    method RemoveEdge(v1: int, v2: int) returns (result: Outcome)
      requires graph.Valid()
      modifies graph, graph.adj
      ensures graph.Valid()
      ensures result.Failed? <==> !(0 <= v1 < graph.V && 0 <= v2 < graph.V)
      ensures result.Failed? ==>
        result.error == IllegalArgument && graph.adj[..] == old(graph.adj[..]) && graph.A == old(graph.A)
      ensures result == Done ==> graph.adj[..] == RemoveEdgeLists(old(graph.adj[..]), v1, v2)
      ensures result == Done ==> graph.A == if old(graph.A) > 0 then old(graph.A) - 1 else 0
      ensures old(graph.EdgesMirrored()) ==> graph.EdgesMirrored()
      ensures result == Done && old(graph.EdgesMirrored()) && old(graph.Balanced()) ==>
        (graph.Balanced() <==> HasEdge(old(graph.adj[..]), v1, v2) || old(graph.A) == 0)
    {
      var check := CheckVertex(v1);
      if check.Failed? {
        return check;
      }
      check := CheckVertex(v2);
      if check.Failed? {
        return check;
      }
      ghost var before := graph.adj[..];
      RemoveFirstOccurrence(v1, v2);
      RemoveFirstOccurrence(v2, v1);
      assert graph.adj[..] == RemoveEdgeLists(before, v1, v2);
      if Mirrored(before) {
        RemoveEdgeMirrored(before, v1, v2);
        RemoveEdgeSumDegrees(before, v1, v2);
      }
      graph.DecrementEdges();
      return Done;
    }
  }
}
