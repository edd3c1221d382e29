/**
 * The graph (`Grafo`): `V` vertices, a counter `A` of edges and one
 * adjacency list per vertex, held in an array whose entries the methods
 * replace. Every property of the lists is proved on their values, in
 * `Adjacency`, `EdgeRemoval`, `EdgeQueries` and `Loading`.
 */
module Graphs {
  import opened Errors
  import opened Edges
  import opened Adjacency
  import opened EdgeQueries
  import opened Loading

  class Graph {
    const V: int
    var A: int
    const adj: array<seq<Edge>>

    /** The shape every graph keeps: one list per vertex, each record starting at its own vertex. */
    ghost predicate Valid()
      reads this, adj
    {
      V >= 0 && adj.Length == V && A >= 0 && WellFormed(adj[..], V)
    }

    /** Every edge is stored as a pair of mirrored records. */
    ghost predicate EdgesMirrored()
      reads this, adj
    {
      Mirrored(adj[..])
    }

    /** The counter `A` agrees with the lists: the degrees add up to twice its value. */
    ghost predicate Balanced()
      reads this, adj
    {
      SumDegrees(adj[..]) == 2 * A
    }

    /** `Grafo(int V)` for a non-negative `V`: every list empty, no edges. */
    constructor Init(n: nat)
      ensures V == n && A == 0 && adj[..] == EmptyLists(n)
      ensures Valid() && EdgesMirrored() && Balanced()
      ensures fresh(adj)
    {
      V := n;
      A := 0;
      var lists := new seq<Edge>[n];
      var v := 0;
      while v < n
        invariant 0 <= v <= n
        invariant forall x :: 0 <= x < v ==> lists[x] == []
      {
        lists[v] := [];
        v := v + 1;
      }
      adj := lists;
      assert lists[..] == EmptyLists(n);
    }

    /** `Grafo(int V)`: a negative number of vertices is refused. */
    static method Create(n: int) returns (r: Result<Graph>)
      ensures r.Err? <==> n < 0
      ensures r.Err? ==> r.error == IllegalArgument
      ensures r.Ok? ==> fresh(r.value) && fresh(r.value.adj)
      ensures r.Ok? ==> r.value.V == n && r.value.A == 0 && r.value.adj[..] == EmptyLists(n)
      ensures r.Ok? ==> r.value.Valid() && r.value.EdgesMirrored() && r.value.Balanced()
    {
      if n < 0 {
        return Err(IllegalArgument);
      }
      var g := new Graph.Init(n);
      return Ok(g);
    }

    /**
     * `Grafo(In in)`: reads the number of vertices and of edges, then adds
     * one edge of weight 0 per pair of endpoints. The graph built has the
     * lists `Load` describes and counts each edge read; on a malformed
     * stream the error is the one `Load` meets first.
     */
    static method FromTokens(tokens: seq<int>) returns (r: Result<Graph>)
      ensures r.Err? <==> Load(tokens).Err?
      ensures r.Err? ==> r.error == Load(tokens).error
      ensures r.Ok? ==> fresh(r.value) && fresh(r.value.adj)
      ensures r.Ok? ==> r.value.adj[..] == Load(tokens).value
      ensures r.Ok? ==> r.value.V == tokens[0] && r.value.A == tokens[1]
      ensures r.Ok? ==> r.value.Valid() && r.value.EdgesMirrored() && r.value.Balanced()
    {
      if |tokens| < 1 {
        return Err(NoSuchElement);
      }
      var created := Create(tokens[0]);
      if created.Err? {
        return Err(created.error);
      }
      var g := created.value;
      if |tokens| < 2 {
        return Err(NoSuchElement);
      }
      var count := tokens[1];
      if count < 0 {
        return Err(IllegalArgument);
      }
      var added := g.AddEdgesRead(tokens, count);
      if added.Failed? {
        return Err(added.error);
      }
      return Ok(g);
    }

    /**
     * The loop of `Grafo(In in)`: reads `count` pairs of endpoints from
     * `tokens`, after the two counts, adding one edge of weight 0 per pair.
     */
    method AddEdgesRead(tokens: seq<int>, count: nat) returns (o: Outcome)
      requires Valid() && EdgesMirrored() && Balanced() && |tokens| >= 2
      modifies this, adj
      ensures Valid() && EdgesMirrored() && Balanced()
      ensures o.Failed? <==> AddAll(old(adj[..]), tokens[2..], count).Err?
      ensures o.Failed? ==> o.error == AddAll(old(adj[..]), tokens[2..], count).error
      ensures o == Done ==> adj[..] == AddAll(old(adj[..]), tokens[2..], count).value && A == old(A) + count
    {
      ghost var goal := AddAll(adj[..], tokens[2..], count);
      var i, at := 0, 2;
      while i < count
        invariant 0 <= i <= count && at == 2 + 2 * i && at <= |tokens|
        invariant Valid() && EdgesMirrored() && Balanced()
        invariant A == old(A) + i
        invariant goal == AddAll(old(adj[..]), tokens[2..], count)
        invariant goal == AddAll(adj[..], tokens[at..], count - i)
        decreases count - i
      {
        ghost var before := adj[..];
        var added := AddEdgeRead(tokens, at, count - i, before);
        if added.Failed? {
          assert goal == Err(added.error);
          return added;
        }
        assert goal == AddAll(adj[..], tokens[at + 2..], count - i - 1);
        i, at := i + 1, at + 2;
      }
      return Done;
    }

    /**
     * One turn of the loop of `Grafo(In in)`: reads the two endpoints at
     * `tokens[at]` and `tokens[at + 1]` and adds an edge of weight 0
     * between them; the outcome is the first step of `AddAll` over the
     * integers from `at` on.
     */
    method AddEdgeRead(tokens: seq<int>, at: nat, ghost count: nat, ghost before: Lists) returns (o: Outcome)
      requires Valid() && EdgesMirrored() && Balanced() && at <= |tokens| && count > 0
      requires before == adj[..]
      modifies this, adj
      ensures Valid() && EdgesMirrored() && Balanced()
      ensures o.Failed? <==> at + 2 > |tokens| || !(0 <= tokens[at] < V && 0 <= tokens[at + 1] < V)
      ensures o.Failed? ==> AddAll(before, tokens[at..], count) == Err(o.error)
      ensures o == Done ==> at + 2 <= |tokens| && A == old(A) + 1
      ensures o == Done ==> adj[..] == AddEdgeLists(before, Edge(tokens[at], tokens[at + 1], 0.0))
      ensures o == Done ==>
        AddAll(before, tokens[at..], count) == AddAll(adj[..], tokens[at + 2..], count - 1)
    {
      ghost var rest := tokens[at..];
      AddAllStep(before, rest, count);
      if at + 1 >= |tokens| {
        return Failed(NoSuchElement);
      }
      var v1 := tokens[at];
      var v2 := tokens[at + 1];
      assert rest[0] == v1 && rest[1] == v2 && rest[2..] == tokens[at + 2..];
      o := AddEdge(Edge(v1, v2, 0.0));
      if o.Failed? {
        return;
      }
      assert adj[..] == AddEdgeLists(before, Edge(v1, v2, 0.0));
    }

    /** `validaVertice(v)`: `v` names a vertex, or the error raised for it. */
    function CheckVertex(v: int): (o: Outcome)
      reads this
      ensures o == Done <==> 0 <= v < V
      ensures o != Done ==> o == Failed(IndexOutOfBounds)
    {
      if v < 0 || v >= V then Failed(IndexOutOfBounds) else Done
    }

    /**
     * `addAresta(e)`: with both endpoints valid, the record goes to the front
     * of the list of its first endpoint and its mirror to the front of the
     * list of the other, and one more edge is counted; otherwise nothing
     * changes. Mirroring and the balance of the counter are kept.
     */
    method AddEdge(e: Edge) returns (o: Outcome)
      requires Valid()
      modifies this, adj
      ensures Valid()
      ensures o.Failed? <==> !(0 <= e.v1 < V && 0 <= e.v2 < V)
      ensures o.Failed? ==> o.error == IndexOutOfBounds && adj[..] == old(adj[..]) && A == old(A)
      ensures o == Done ==> adj[..] == AddEdgeLists(old(adj[..]), e) && A == old(A) + 1
      ensures old(EdgesMirrored()) ==> EdgesMirrored()
      ensures old(Balanced()) ==> Balanced()
    {
      var v1 := e.Either();
      var v2 := e.Other(v1);
      var check := CheckVertex(v1);
      if check.Failed? {
        return check;
      }
      check := CheckVertex(v2);
      if check.Failed? {
        return check;
      }
      ghost var before := adj[..];
      adj[v1] := [e] + adj[v1];
      adj[v2] := [e.Mirror()] + adj[v2];
      A := A + 1;
      assert adj[..] == AddEdgeLists(before, e);
      AddEdgeWellFormed(before, V, e);
      if Mirrored(before) {
        AddEdgeMirrored(before, e);
      }
      AddEdgeSumDegrees(before, e);
      return Done;
    }

    /** `adj(v)`: the list of `v`, whose records all start at `v`; an error for a non-vertex. */
    function Adjacency(v: int): (r: Result<seq<Edge>>)
      reads this, adj
      requires Valid()
      ensures r.Ok? <==> 0 <= v < V
      ensures r.Err? ==> r.error == IndexOutOfBounds
      ensures r.Ok? ==> r.value == adj[v] && forall i :: 0 <= i < |r.value| ==> r.value[i].v1 == v
    {
      if CheckVertex(v).Failed? then Err(IndexOutOfBounds) else Ok(adj[v])
    }

    /**
     * `grau(v)`: the number of records of `v`, counting a self-loop twice;
     * in a balanced graph the degrees add up to twice the edges.
     */
    function Degree(v: int): (r: Result<nat>)
      reads this, adj
      requires Valid()
      ensures r.Ok? <==> 0 <= v < V
      ensures r.Err? ==> r.error == IndexOutOfBounds
      ensures r.Ok? ==> r.value == |adj[v]|
      ensures r.Ok? && Balanced() ==> r.value <= 2 * A
    {
      if CheckVertex(v).Failed? then Err(IndexOutOfBounds)
      else
        DegreeBounded(adj[..], v);
        Ok(|adj[v]|)
    }

    /**
     * `existeArestaEntre(v1, v2)`: true exactly when some record of `v1`
     * points at `v2`; in a mirrored graph the answer does not depend on the
     * order of the two vertices.
     */
    method HasEdgeBetween(v1: int, v2: int) returns (r: Result<bool>)
      requires Valid()
      ensures r.Err? <==> !(0 <= v1 < V && 0 <= v2 < V)
      ensures r.Err? ==> r.error == IndexOutOfBounds
      ensures r.Ok? ==> (r.value <==> exists i :: 0 <= i < |adj[v1]| && adj[v1][i].v2 == v2)
      ensures r.Ok? ==> (r.value <==> HasEdge(adj[..], v1, v2))
      ensures r.Ok? && EdgesMirrored() ==> (r.value <==> HasEdge(adj[..], v2, v1))
    {
      var check := CheckVertex(v1);
      if check.Failed? {
        return Err(check.error);
      }
      check := CheckVertex(v2);
      if check.Failed? {
        return Err(check.error);
      }
      CountPositive(adj[v1], v2);
      if EdgesMirrored() {
        HasEdgeSymmetric(adj[..], v1, v2);
      }
      var s := adj[v1];
      var i := 0;
      while i < |s|
        invariant 0 <= i <= |s|
        invariant forall j :: 0 <= j < i ==> s[j].v2 != v2
      {
        if s[i].Other(v1) == v2 {
          return Ok(true);
        }
        i := i + 1;
      }
      return Ok(false);
    }

    /**
     * `getVizinhos(v)`: the endpoint opposite to `v` of each record of `v`,
     * in list order; a vertex appears exactly when some edge joins it to `v`.
     */
    method Neighbors(v: int) returns (r: Result<seq<int>>)
      requires Valid()
      ensures r.Err? <==> !(0 <= v < V)
      ensures r.Err? ==> r.error == IndexOutOfBounds
      ensures r.Ok? ==> |r.value| == |adj[v]| && forall i :: 0 <= i < |r.value| ==> r.value[i] == adj[v][i].v2
      ensures r.Ok? ==> forall w :: w in r.value <==> 0 <= w < V && HasEdge(adj[..], v, w)
    {
      var list := Adjacency(v);
      if list.Err? {
        return Err(list.error);
      }
      var s := list.value;
      var neighbors: seq<int> := [];
      var i := 0;
      while i < |s|
        invariant 0 <= i <= |s|
        invariant |neighbors| == i && forall j :: 0 <= j < i ==> neighbors[j] == s[j].v2
      {
        // The far endpoint: `v2` when the record starts at `v`, else `v1`.
        neighbors := neighbors + [s[i].Other(v)];
        i := i + 1;
      }
      forall w ensures w in neighbors <==> 0 <= w < V && HasEdge(adj[..], v, w) {
        CountPositive(s, w);
        if w in neighbors {
          var j :| 0 <= j < |neighbors| && neighbors[j] == w;
          assert s[j].v2 == w;
        }
        if 0 <= w < V && HasEdge(adj[..], v, w) {
          var j :| 0 <= j < |s| && s[j].v2 == w;
          assert neighbors[j] == w;
        }
      }
      return Ok(neighbors);
    }

    /**
     * `arestas()`: the listing `AllEdges` describes. When it succeeds it
     * holds each record towards a higher vertex twice and every other
     * self-loop record once.
     */
    method Edges() returns (r: Result<seq<Edge>>)
      requires Valid()
      ensures r == AllEdges(adj[..])
      ensures r.Ok? ==>
        multiset(r.value) == multiset(ListedFrom(adj[..], 0)) + multiset(UpwardFrom(adj[..], 0))
    {
      AllEdgesContent(adj[..]);
      var list: seq<Edge> := [];
      var v := 0;
      while v < V
        invariant 0 <= v <= V
        invariant ScanFrom(adj[..], v, list) == AllEdges(adj[..])
      {
        var s := adj[v];
        assert AllTouch(s, v);
        ghost var start := list;
        var selfLoops := 0;
        var j := 0;
        while j < |s|
          invariant 0 <= j <= |s|
          invariant ScanList(v, s[j..], list, selfLoops) == ScanList(v, s, start, 0)
        {
          var a := s[j];
          assert s[j..][0] == a && s[j..][1..] == s[j + 1..];
          if a.Other(v) > v {
            list := list + [a];
            if v > |list| {
              return Err(IndexOutOfBounds);
            }
            list := list[..v] + [a] + list[v..];
          } else if a.Other(v) == v {
            if selfLoops % 2 == 0 {
              list := list + [a];
            }
            selfLoops := selfLoops + 1;
          }
          j := j + 1;
        }
        assert s[j..] == [];
        v := v + 1;
      }
      return Ok(list);
    }

    /**
     * `arestasUnicas()`: the listing of `arestas()` with every entry dropped
     * whose endpoints an entry kept earlier already joins.
     */
    method UniqueEdges() returns (r: Result<seq<Edge>>)
      requires Valid()
      ensures r.Err? <==> AllEdges(adj[..]).Err?
      ensures r.Err? ==> r.error == AllEdges(adj[..]).error
      ensures r.Ok? ==> r.value == Dedup(AllEdges(adj[..]).value)
    {
      var listing := Edges();
      if listing.Err? {
        return Err(listing.error);
      }
      var unique := KeepFirstOfEachPair(listing.value);
      return Ok(unique);
    }

    /** The loops of `arestasUnicas()` over a listing `es`. */
    static method KeepFirstOfEachPair(es: seq<Edge>) returns (unique: seq<Edge>)
      ensures unique == Dedup(es)
    {
      unique := [];
      var i := 0;
      while i < |es|
        invariant 0 <= i <= |es|
        invariant unique == Dedup(es[..i])
      {
        var e := es[i];
        var present := ContainsPair(unique, e);
        DedupExtend(es, i);
        if !present {
          unique := unique + [e];
        }
        i := i + 1;
      }
      assert es[..i] == es;
    }

    /** The inner loop of `arestasUnicas()`: does an entry of `unique` join the endpoints of `e`? */
    static method ContainsPair(unique: seq<Edge>, e: Edge) returns (present: bool)
      ensures present <==> HasPair(unique, e)
    {
      present := false;
      var k := 0;
      while k < |unique|
        invariant 0 <= k <= |unique|
        invariant forall j :: 0 <= j < k ==> !unique[j].SamePair(e)
      {
        if unique[k].SamePair(e) {
          present := true;
          break;
        }
        k := k + 1;
      }
    }

    /**
     * `arestasAdjacentes(e)`: the entries of the listing of `arestas()`
     * that share an endpoint with `e` without joining the same two
     * endpoints, in listing order.
     */
    method AdjacentEdges(e: Edge) returns (r: Result<seq<Edge>>)
      requires Valid()
      ensures r.Err? <==> AllEdges(adj[..]).Err?
      ensures r.Err? ==> r.error == AllEdges(adj[..]).error
      ensures r.Ok? ==> r.value == AdjacentTo(AllEdges(adj[..]).value, e)
    {
      var listing := Edges();
      if listing.Err? {
        return Err(listing.error);
      }
      var es := listing.value;
      var adjacent: seq<Edge> := [];
      var i := 0;
      while i < |es|
        invariant 0 <= i <= |es|
        invariant adjacent == AdjacentTo(es[..i], e)
      {
        var a := es[i];
        AdjacentExtend(es, i, e);
        i := i + 1;
        if a.SamePair(e) {
          continue;
        }
        if a.SharesEndpoint(e) {
          adjacent := adjacent + [a];
        }
      }
      assert es[..i] == es;
      return Ok(adjacent);
    }

    /** `decrementarArestas()`: one edge fewer, never below zero; the lists do not change. */
    method DecrementEdges()
      requires Valid()
      modifies this
      ensures Valid()
      ensures A == if old(A) > 0 then old(A) - 1 else old(A)
    {
      if A > 0 {
        A := A - 1;
      }
    }
  }

  /** A single degree is at most the sum of all degrees. */
  lemma {:induction false} DegreeBounded(ls: Lists, v: int)
    requires 0 <= v < |ls|
    ensures |ls[v]| <= SumDegrees(ls)
    decreases |ls|
  {
    if v < |ls| - 1 {
      DegreeBounded(ls[..|ls| - 1], v);
    }
  }
}
