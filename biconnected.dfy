/**
 * The articulation points of a graph (`AlgoritmoBiconexo`): the
 * constructor numbers every vertex in depth-first order and computes, for
 * each, the least number reachable from its subtree (`low`), marking the
 * articulation points as the search returns. The search tree the Java
 * code leaves implicit in its call stack is kept here as the ghost
 * sequence `parent`.
 */
module Biconnected {
  import opened Errors
  import opened Edges
  import opened Adjacency
  import opened Graphs
  import opened LowLink
  import opened LowLinkSteps
  import opened LowLinkRoots

  class ArticulationFinder {
    const low: array<int>
    const pre: array<int>
    var cont: int
    const art: array<bool>
    /** The search tree: -1 for unvisited, the vertex itself for a root, else the vertex whose call visited it. */
    ghost var parent: seq<int>
    /** The adjacency lists of the graph searched. */
    ghost const lists: Lists

    /** The arrays and the search tree as one value. */
    ghost function State(): Snapshot
      reads this, pre, low, art
    {
      Snapshot(pre[..], low[..], art[..], parent)
    }

    /**
     * The search is complete: every vertex visited and finished, no edge
     * between the trees of two roots, `cont` equal to the number of vertices.
     */
    ghost predicate Valid()
      reads this, pre, low, art
    {
      pre != low && Classified(lists, State()) && RootsApart(lists, State()) && cont == |lists|
    }

    /**
     * Between two searches of the constructor's loop: the invariant holds,
     * every visited vertex is finished, and the roots are kept apart.
     */
    ghost predicate Between()
      reads this, pre, low, art
    {
      pre != low && Inv(lists, State(), cont) && AllFinished(lists, State()) && RootsApart(lists, State())
    }

    /** `pre[x] := value`, and how the snapshot changes with it. */
    method SetPre(x: int, value: int)
      requires 0 <= x < pre.Length && pre != low
      modifies pre
      ensures State() == old(State()).(pre := old(State()).pre[x := value])
    {
      pre[x] := value;
    }

    /** `low[x] := value`, and how the snapshot changes with it. */
    method SetLow(x: int, value: int)
      requires 0 <= x < low.Length && pre != low
      modifies low
      ensures State() == old(State()).(low := old(State()).low[x := value])
    {
      low[x] := value;
    }

    /** `articulacao[x] = true`, and how the snapshot changes with it. */
    method Mark(x: int)
      requires 0 <= x < art.Length
      modifies art
      ensures State() == old(State()).(art := old(State()).art[x := true])
    {
      art[x] := true;
    }

    /** One of the constructor's first two loops: every entry of `a` set to -1. */
    static method FillUnvisited(a: array<int>)
      modifies a
      ensures a[..] == seq(a.Length, _ => -1)
    {
      var v := 0;
      while v < a.Length
        invariant 0 <= v <= a.Length
        invariant forall x :: 0 <= x < v ==> a[x] == -1
      {
        a[v] := -1;
        v := v + 1;
      }
    }

    /**
     * `AlgoritmoBiconexo(G)`: both arrays filled with -1, then a search
     * from every vertex still unvisited, in increasing order. The graph is
     * only read.
     */
    constructor (g: Graph)
      requires g.Valid()
      ensures lists == g.adj[..] && Valid()
      ensures unchanged(g) && unchanged(g.adj)
    {
      var n := g.V;
      low := new int[n];
      pre := new int[n];
      art := new bool[n](_ => false);
      lists := g.adj[..];
      cont := 0;
      parent := seq(n, _ => -1);
      new;
      FillUnvisited(low);
      FillUnvisited(pre);
      assert art[..] == seq(n, _ => false);
      assert State() == Unsearched(n);
      InitialInv(lists);
      assert Between();
      SearchAll(g);
    }

    /** The constructor's last loop: a search from every vertex still unvisited, in increasing order. */
    method SearchAll(g: Graph)
      requires g.Valid() && g.adj[..] == lists && Between()
      modifies this, pre, low, art
      ensures Valid()
    {
      var v := 0;
      while v < g.V
        invariant 0 <= v <= g.V == |lists|
        invariant Between()
        invariant forall x :: 0 <= x < v ==> pre[x] != -1
      {
        if pre[v] == -1 {
          SearchFrom(g, v);
        }
        v := v + 1;
      }
      SearchComplete(lists, State(), cont);
    }

    /**
     * One turn of that loop for an unvisited `v`: `dfs(G, v, v)` makes `v`
     * a root, and afterwards `v` and every vertex before it are visited and
     * every visited vertex is finished.
     */
    method SearchFrom(g: Graph, v: int)
      requires g.Valid() && g.adj[..] == lists && Between()
      requires 0 <= v < |lists| && pre[v] == -1
      modifies this, pre, low, art
      ensures Between()
      ensures pre[v] != -1
      ensures forall x :: 0 <= x < |lists| && old(pre[x]) != -1 ==> pre[x] != -1
    {
      ghost var s := State();
      ghost var c := cont;
      Dfs(g, v, v);
      OuterStep(lists, s, c, State(), v);
      RootsStep(lists, s, c, State(), cont, v);
      forall x | 0 <= x < |lists| && s.pre[x] != -1 ensures pre[x] != -1 {
        assert Kept(s, State(), x);
      }
    }

    /**
     * `dfs(G, u, v)`, with `u` the parent of `v` (or `v` itself for a
     * root): `v` gets the next number, every record of `v` is followed in
     * order, and the call returns with `v` and every vertex it visited
     * finished, the vertices visited before untouched.
     */
    method Dfs(g: Graph, u: int, v: int)
      requires g.Valid() && g.adj[..] == lists && pre != low
      requires Inv(lists, State(), cont) && 0 <= v < |lists| && pre[v] == -1
      requires u == v || (0 <= u < |lists| && pre[u] != -1 && IsNeighbour(lists, u, v))
      modifies this, pre, low, art
      ensures Inv(lists, State(), cont) && Grew(lists, old(State()), State(), u, v)
      ensures pre[v] == old(cont)
      decreases |lists| - cont, 0
    {
      ghost var s0 := State();
      ghost var c0 := cont;
      var children := 0;
      Enter(u, v);
      var edges := g.adj[v];
      var j := 0;
      while j < |edges|
        invariant edges == lists[v] && 0 <= j <= |edges|
        invariant LoopInv(lists, s0, c0, State(), cont, u, v, j, children)
      {
        children := FollowRecord(g, u, v, j, children, s0, c0);
        j := j + 1;
      }
      Leave(u, v, children, s0, c0);
    }

    /** The start of `dfs(G, u, v)`: `v` gets the next number, which is also its `low`, and the parent `u`. */
    method Enter(u: int, v: int)
      requires pre != low && Inv(lists, State(), cont) && 0 <= v < |lists| && pre[v] == -1
      requires u == v || (0 <= u < |lists| && pre[u] != -1 && IsNeighbour(lists, u, v))
      modifies this, pre, low
      ensures LoopInv(lists, old(State()), old(cont), State(), cont, u, v, 0, 0)
      ensures cont == old(cont) + 1
    {
      ghost var s0 := State();
      ghost var c0 := cont;
      SetPre(v, cont);
      cont := cont + 1;
      SetLow(v, pre[v]);
      parent := parent[v := u];
      assert State() == Start(s0, c0, u, v);
      LoopStart(lists, s0, c0, u, v);
    }

    /** The end of `dfs(G, u, v)`: a root with more than one child is marked, and `v` is finished. */
    method Leave(u: int, v: int, children: int, ghost s0: Snapshot, ghost c0: int)
      requires pre != low && 0 <= v < |lists| && LoopInv(lists, s0, c0, State(), cont, u, v, |lists[v]|, children)
      modifies art
      ensures Inv(lists, State(), cont) && Grew(lists, s0, State(), u, v) && pre[v] == c0
    {
      ghost var s := State();
      if u == v && children > 1 {
        Mark(v);
      } else {
        UpdateSame(s.art, v);
      }
      UpdateSame(s.low, v);
      LoopEnd(lists, s0, c0, s, cont, u, v, children);
    }

    /**
     * One turn of the loop of `dfs(G, u, v)`, for the record `j` of `v`
     * with far endpoint `w`: an unvisited `w` is searched from `v` and
     * counted as a child, then lowers `low[v]` to `low[w]` and marks a
     * non-root `v` when `low[w]` does not reach above `pre[v]`; a visited
     * `w` other than `u` lowers `low[v]` to `pre[w]`.
     */
    method FollowRecord(g: Graph, u: int, v: int, j: int, children: int, ghost s0: Snapshot, ghost c0: int)
      returns (more: int)
      requires g.Valid() && g.adj[..] == lists && pre != low
      requires LoopInv(lists, s0, c0, State(), cont, u, v, j, children) && j < |lists[v]|
      modifies this, pre, low, art
      ensures LoopInv(lists, s0, c0, State(), cont, u, v, j + 1, more)
      decreases |lists| - cont, 2
    {
      var w := g.adj[v][j].v2;
      ghost var s := State();
      ghost var c := cont;
      if pre[w] == -1 {
        VisitChild(g, u, v, j, children, s0, c0);
        more := children + 1;
      } else if w != u {
        SetLow(v, Min(low[v], pre[w]));
        UpdateSame(s.art, v);
        LoopVisited(lists, s0, c0, s, c, u, v, j, children);
        more := children;
      } else {
        LoopVisited(lists, s0, c0, s, c, u, v, j, children);
        more := children;
      }
    }

    /**
     * The record `j` of `v` leads to an unvisited `w`: `dfs(G, v, w)`, then
     * `low[v]` lowered to `low[w]`, and a non-root `v` marked when `low[w]`
     * does not reach above `pre[v]`.
     */
    method VisitChild(g: Graph, u: int, v: int, j: int, children: int, ghost s0: Snapshot, ghost c0: int)
      requires g.Valid() && g.adj[..] == lists && pre != low
      requires LoopInv(lists, s0, c0, State(), cont, u, v, j, children) && j < |lists[v]|
      requires pre[lists[v][j].v2] == -1
      modifies this, pre, low, art
      ensures LoopInv(lists, s0, c0, State(), cont, u, v, j + 1, children + 1)
      decreases |lists| - cont, 1
    {
      var w := g.adj[v][j].v2;
      ghost var s := State();
      ghost var c := cont;
      Dfs(g, v, w);
      ghost var s1 := State();
      TakeLow(u, v, w);
      LoopChild(lists, s0, c0, s, c, u, v, j, children, s1, cont);
    }

    /**
     * After the call for the child `w` of `v`: `low[v]` lowered to `low[w]`,
     * and a non-root `v` marked when `low[w]` does not reach above `pre[v]`.
     */
    method TakeLow(u: int, v: int, w: int)
      requires pre != low && 0 <= v < low.Length && 0 <= w < low.Length && low.Length == pre.Length == art.Length
      modifies low, art
      ensures State() == Adjust(old(State()), v, Min(old(low[v]), old(low[w])),
                                if old(low[w]) >= old(pre[v]) && u != v then true else old(art[v]))
    {
      ghost var s1 := State();
      SetLow(v, Min(low[v], low[w]));
      if low[w] >= pre[v] && u != v {
        Mark(v);
      } else {
        UpdateSame(s1.art, v);
      }
    }

    /**
     * `ehArticulacao(v)`: the mark of `v`, which follows the articulation
     * rule over the search tree; a vertex outside the array is an error.
     */
    function IsArticulation(v: int): (r: Result<bool>)
      requires Valid()
      reads this, pre, low, art
      ensures r.Ok? <==> 0 <= v < |lists|
      ensures r.Ok? ==> (r.value <==> ArtRule(State(), v))
    {
      if 0 <= v < art.Length then
        assert Finished(lists, State(), v);
        Ok(art[v])
      else Err(IndexOutOfBounds)
    }
  }

  /** Writing back the value already there changes nothing. */
  lemma UpdateSame<T>(a: seq<T>, v: int)
    requires 0 <= v < |a|
    ensures a[v := a[v]] == a
  {
  }
}
