/**
 * The depth-first search of `AlgoritmoBiconexo` as values: a snapshot of
 * its arrays (`pre`, `low`, `articulacao`) together with the search tree
 * it has built (`parent`), what every snapshot satisfies, what a finished
 * vertex satisfies, and one lemma per step of `dfs`.
 *
 * `parent[x]` is -1 while `x` is unvisited, `x` itself for a vertex where a
 * search started, and otherwise the vertex whose call visited `x`.
 */
module LowLink {
  import opened Edges
  import opened Adjacency

  datatype Snapshot = Snapshot(pre: seq<int>, low: seq<int>, art: seq<bool>, parent: seq<int>)

  function Min(a: int, b: int): (m: int)
    ensures m <= a && m <= b && (m == a || m == b)
  {
    if a <= b then a else b
  }

  ghost predicate Sized(s: Snapshot, n: int) {
    |s.pre| == n && |s.low| == n && |s.art| == n && |s.parent| == n
  }

  /** `y` was visited by the call for `x`: a child of `x` in the search tree. */
  predicate IsChild(s: Snapshot, x: int, y: int) {
    0 <= y < |s.parent| && s.parent[y] == x && y != x
  }

  /** The number of children of `x` (the counter `filhos` of the call for `x`). */
  function ChildCount(parent: seq<int>, x: int): (r: nat)
    ensures r <= |parent|
  {
    if parent == [] then 0
    else ChildCount(parent[..|parent| - 1], x) + (if parent[|parent| - 1] == x && |parent| - 1 != x then 1 else 0)
  }

  /** The number of vertices not yet visited (`pre` still -1). */
  function Unvisited(pre: seq<int>): (r: nat)
    ensures r <= |pre|
  {
    if pre == [] then 0 else Unvisited(pre[..|pre| - 1]) + (if pre[|pre| - 1] == -1 then 1 else 0)
  }

  /** Some record of `a` ends at `b`. */
  ghost predicate IsNeighbour(ls: Lists, a: int, b: int) {
    0 <= a < |ls| && exists i :: 0 <= i < |ls[a]| && ls[a][i].v2 == b
  }

  /** Being a neighbour is having an edge in the sense of `Adjacency.HasEdge`. */
  lemma NeighbourIsEdge(ls: Lists, a: int, b: int)
    requires 0 <= a < |ls|
    ensures IsNeighbour(ls, a, b) <==> HasEdge(ls, a, b)
  {
    CountPositive(ls[a], b);
  }

  /**
   * The numbers given so far are below `c`, and `c` plus the number of
   * unvisited vertices is the number of vertices.
   */
  ghost predicate Numbered(pre: seq<int>, c: int) {
    && 0 <= c && c + Unvisited(pre) == |pre|
    && forall x :: 0 <= x < |pre| ==> -1 <= pre[x] < c
  }

  /** An unvisited vertex has `low` -1, is not marked and has no parent. */
  ghost predicate Blank(s: Snapshot)
    requires Sized(s, |s.pre|)
  {
    && (forall x :: 0 <= x < |s.pre| && s.pre[x] == -1 ==> s.low[x] == -1 && !s.art[x])
    && (forall y {:trigger s.parent[y]} :: 0 <= y < |s.pre| && s.pre[y] == -1 ==> s.parent[y] == -1)
  }

  /** No two vertices share a number. */
  ghost predicate Distinct(pre: seq<int>) {
    forall x, y :: 0 <= x < |pre| && 0 <= y < |pre| && x != y && pre[x] != -1 ==> pre[x] != pre[y]
  }

  /** A visited vertex has a `low` between 0 and its own number. */
  ghost predicate LowBelow(s: Snapshot)
    requires Sized(s, |s.pre|)
  {
    forall x :: 0 <= x < |s.pre| && s.pre[x] != -1 ==> 0 <= s.low[x] <= s.pre[x]
  }

  /**
   * A visited vertex has a visited parent; unless it is a root (its own
   * parent), the parent was numbered earlier and is joined to it by an edge.
   */
  ghost predicate Tree(ls: Lists, s: Snapshot)
    requires Sized(s, |ls|)
  {
    forall y {:trigger s.parent[y]} :: 0 <= y < |ls| && s.pre[y] != -1 ==>
      && 0 <= s.parent[y] < |ls| && s.pre[s.parent[y]] != -1
      && (s.parent[y] != y ==> s.pre[s.parent[y]] < s.pre[y] && IsNeighbour(ls, s.parent[y], y))
  }

  /**
   * Each root starts a tree of its own: every vertex numbered before a root
   * has all its neighbours numbered before that root too, so no edge joins
   * a root's tree to the vertices searched before it.
   */
  ghost predicate RootsApart(ls: Lists, s: Snapshot)
    requires WellFormed(ls, |ls|) && Sized(s, |ls|)
  {
    forall r, x, i {:trigger s.parent[r], ls[x][i]} ::
      0 <= r < |ls| && s.parent[r] == r && 0 <= x < |ls| && s.pre[x] != -1 && s.pre[x] < s.pre[r] && 0 <= i < |ls[x]| ==>
        s.pre[ls[x][i].v2] != -1 && s.pre[ls[x][i].v2] < s.pre[r]
  }

  /** What holds between any two steps of the search, with `c` the next preorder number. */
  ghost predicate Inv(ls: Lists, s: Snapshot, c: int) {
    && WellFormed(ls, |ls|) && Sized(s, |ls|) && Numbered(s.pre, c) && Distinct(s.pre)
    && Blank(s) && LowBelow(s) && Tree(ls, s)
  }

  /**
   * The articulation rule: a root is an articulation point when it has more
   * than one child; any other vertex when some child's `low` does not
   * reach above the vertex's own number.
   */
  ghost predicate ArtRule(s: Snapshot, x: int)
    requires Sized(s, |s.pre|) && 0 <= x < |s.pre|
  {
    if s.parent[x] == x then ChildCount(s.parent, x) > 1
    else exists y :: IsChild(s, x, y) && s.low[y] >= s.pre[x]
  }

  /** The endpoints of the first `j` records of `x` are all visited. */
  ghost predicate VisitedUpTo(ls: Lists, s: Snapshot, x: int, j: int)
    requires WellFormed(ls, |ls|) && Sized(s, |ls|) && 0 <= x < |ls| && 0 <= j <= |ls[x]|
  {
    forall i :: 0 <= i < j ==> s.pre[ls[x][i].v2] != -1
  }

  /**
   * `low[x]` is the least of `pre[x]`, the `low` of the children of `x`, and
   * `pre[w]` for the endpoints `w` of the first `j` records of `x` other than
   * its parent.
   */
  ghost predicate LowUpTo(ls: Lists, s: Snapshot, x: int, j: int)
    requires WellFormed(ls, |ls|) && Sized(s, |ls|) && 0 <= x < |ls| && 0 <= j <= |ls[x]|
  {
    && s.low[x] <= s.pre[x]
    && (forall y {:trigger IsChild(s, x, y)} :: IsChild(s, x, y) ==> s.low[x] <= s.low[y])
    && (forall i {:trigger ls[x][i]} :: 0 <= i < j && ls[x][i].v2 != s.parent[x] ==> s.low[x] <= s.pre[ls[x][i].v2])
    && (|| s.low[x] == s.pre[x]
        || (exists y :: IsChild(s, x, y) && s.low[x] == s.low[y])
        || (exists i :: 0 <= i < j && ls[x][i].v2 != s.parent[x] && s.low[x] == s.pre[ls[x][i].v2]))
  }

  /** A vertex whose call has returned: marked by the rule, neighbours visited, `low` the least over all its records. */
  ghost predicate Finished(ls: Lists, s: Snapshot, x: int)
    requires WellFormed(ls, |ls|) && Sized(s, |ls|) && 0 <= x < |ls|
  {
    s.art[x] == ArtRule(s, x) && VisitedUpTo(ls, s, x, |ls[x]|) && LowUpTo(ls, s, x, |ls[x]|)
  }

  /** The entries of `x` are the same in both snapshots. */
  ghost predicate Kept(s0: Snapshot, s1: Snapshot, x: int)
    requires 0 <= x < |s0.pre| && Sized(s0, |s0.pre|) && Sized(s1, |s0.pre|)
  {
    s1.pre[x] == s0.pre[x] && s1.low[x] == s0.low[x] && s1.art[x] == s0.art[x] && s1.parent[x] == s0.parent[x]
  }

  /** Every vertex visited in `s0` keeps its entries in `s1`. */
  ghost predicate KeptVisited(s0: Snapshot, s1: Snapshot)
    requires Sized(s0, |s0.pre|) && Sized(s1, |s0.pre|)
  {
    forall x {:trigger Kept(s0, s1, x)} :: 0 <= x < |s0.pre| && s0.pre[x] != -1 ==> Kept(s0, s1, x)
  }

  /** Every vertex other than `v` visited between `s0` and `s1` is finished in `s1`. */
  ghost predicate FinishedNew(ls: Lists, s0: Snapshot, s1: Snapshot, v: int)
    requires WellFormed(ls, |ls|) && Sized(s0, |ls|) && Sized(s1, |ls|)
  {
    forall x {:trigger Finished(ls, s1, x)} :: 0 <= x < |ls| && s0.pre[x] == -1 && s1.pre[x] != -1 && x != v ==>
      Finished(ls, s1, x)
  }

  /**
   * Every vertex other than `v` visited between `s0` and `s1` is not a
   * root: its parent is another vertex, one that was unvisited in `s0`.
   */
  ghost predicate ParentsNew(s0: Snapshot, s1: Snapshot, v: int)
    requires Sized(s0, |s0.pre|) && Sized(s1, |s0.pre|)
  {
    forall y {:trigger s1.parent[y]} :: 0 <= y < |s0.pre| && s0.pre[y] == -1 && s1.pre[y] != -1 && y != v ==>
      0 <= s1.parent[y] < |s0.pre| && s0.pre[s1.parent[y]] == -1 && s1.parent[y] != y
  }

  /** The mark of `v`, whose parent is `u`, as its children so far set it: only a non-root is marked this way. */
  ghost predicate MarkedByChildren(s: Snapshot, u: int, v: int)
    requires Sized(s, |s.pre|) && 0 <= v < |s.pre|
  {
    s.art[v] == (u != v && exists y :: IsChild(s, v, y) && s.low[y] >= s.pre[v])
  }

  /**
   * What the call `dfs(u, v)` does, from `s0` to `s1`: `v` is visited with
   * parent `u` and finished; every vertex visited before keeps its entries;
   * every other vertex the call visits is finished, and its parent is also
   * visited by the call.
   */
  ghost predicate Grew(ls: Lists, s0: Snapshot, s1: Snapshot, u: int, v: int)
    requires WellFormed(ls, |ls|) && Sized(s0, |ls|) && Sized(s1, |ls|) && 0 <= v < |ls|
  {
    && s1.pre[v] != -1 && s1.parent[v] == u && Finished(ls, s1, v)
    && KeptVisited(s0, s1) && FinishedNew(ls, s0, s1, v) && ParentsNew(s0, s1, v)
  }

  /**
   * The state inside the loop of the call `dfs(u, v)` that started from
   * `s0` and gave `v` the number `c0`, after `j` records of `v`: the
   * invariant, the frame since the start, the vertices visited so far by
   * the call other than `v` finished, `children` counting the children of
   * `v`, the mark of `v` set by its children so far, and `low[v]` taken
   * over the first `j` records.
   */
  ghost predicate LoopInv(ls: Lists, s0: Snapshot, c0: int, s: Snapshot, c: int, u: int, v: int, j: int, children: int) {
    && Inv(ls, s, c) && Sized(s0, |ls|) && 0 <= v < |ls| && 0 <= j <= |ls[v]|
    && (u == v || (0 <= u < |ls| && s0.pre[u] != -1))
    && s0.pre[v] == -1 && s.pre[v] == c0 && c0 >= 0 && s.parent[v] == u
    && KeptVisited(s0, s) && FinishedNew(ls, s0, s, v) && ParentsNew(s0, s, v)
    && children == ChildCount(s.parent, v)
    && MarkedByChildren(s, u, v)
    && VisitedUpTo(ls, s, v, j)
    && LowUpTo(ls, s, v, j)
  }

  /** The state before any search: every vertex unvisited, with `low` -1, unmarked and without a parent. */
  function Unsearched(n: nat): Snapshot {
    Snapshot(seq(n, _ => -1), seq(n, _ => -1), seq(n, _ => false), seq(n, _ => -1))
  }

  /** The first steps of `dfs(u, v)`: `v` gets the number `c` as `pre` and as `low`, and parent `u`. */
  function Start(s: Snapshot, c: int, u: int, v: int): Snapshot
    requires 0 <= v < |s.pre| && v < |s.low| && v < |s.parent|
  {
    Snapshot(s.pre[v := c], s.low[v := c], s.art, s.parent[v := u])
  }

  /** `s` with `low[v]` set to `lo` and the mark of `v` set to `a`. */
  function Adjust(s: Snapshot, v: int, lo: int, a: bool): Snapshot
    requires 0 <= v < |s.low| && v < |s.art|
  {
    s.(low := s.low[v := lo], art := s.art[v := a])
  }

  /** Every visited vertex is finished. */
  ghost predicate AllFinished(ls: Lists, s: Snapshot)
    requires WellFormed(ls, |ls|) && Sized(s, |ls|)
  {
    forall x {:trigger Finished(ls, s, x)} :: 0 <= x < |ls| && s.pre[x] != -1 ==> Finished(ls, s, x)
  }

  /**
   * The outcome of the whole search: every vertex visited and finished.
   * (Then the numbers are `0 .. n - 1`, each once.)
   */
  ghost predicate Classified(ls: Lists, s: Snapshot) {
    && Inv(ls, s, |ls|)
    && (forall x :: 0 <= x < |ls| ==> s.pre[x] != -1)
    && (forall x {:trigger Finished(ls, s, x)} :: 0 <= x < |ls| ==> Finished(ls, s, x))
  }

  // ---------------------------------------------------------------- counting

  lemma {:induction false} ChildCountSame(p: seq<int>, q: seq<int>, x: int)
    requires |p| == |q|
    requires forall y :: 0 <= y < |p| ==> ((p[y] == x && y != x) <==> (q[y] == x && y != x))
    ensures ChildCount(p, x) == ChildCount(q, x)
  {
    if p != [] {
      ChildCountSame(p[..|p| - 1], q[..|q| - 1], x);
    }
  }

  lemma {:induction false} ChildCountPlusOne(p: seq<int>, q: seq<int>, x: int, w: int)
    requires |p| == |q| && 0 <= w < |p| && w != x && p[w] != x && q[w] == x
    requires forall y :: 0 <= y < |p| && y != w ==> ((p[y] == x && y != x) <==> (q[y] == x && y != x))
    ensures ChildCount(q, x) == ChildCount(p, x) + 1
  {
    if w == |p| - 1 {
      ChildCountSame(p[..|p| - 1], q[..|q| - 1], x);
    } else {
      ChildCountPlusOne(p[..|p| - 1], q[..|q| - 1], x, w);
    }
  }

  lemma {:induction false} ChildCountZero(p: seq<int>, x: int)
    requires forall y :: 0 <= y < |p| && y != x ==> p[y] != x
    ensures ChildCount(p, x) == 0
  {
    if p != [] {
      ChildCountZero(p[..|p| - 1], x);
    }
  }

  lemma {:induction false} ChildCountPositive(p: seq<int>, x: int, y: int)
    requires 0 <= y < |p| && p[y] == x && y != x
    ensures ChildCount(p, x) > 0
  {
    if y < |p| - 1 {
      ChildCountPositive(p[..|p| - 1], x, y);
    }
  }

  lemma {:induction false} UnvisitedUpdate(pre: seq<int>, v: int, c: int)
    requires 0 <= v < |pre| && pre[v] == -1 && c != -1
    ensures Unvisited(pre[v := c]) == Unvisited(pre) - 1
  {
    var last := |pre| - 1;
    if v < last {
      assert pre[v := c][..last] == pre[..last][v := c];
      UnvisitedUpdate(pre[..last], v, c);
    } else {
      assert pre[v := c][..last] == pre[..last];
    }
  }

  lemma {:induction false} UnvisitedPositive(pre: seq<int>, v: int)
    requires 0 <= v < |pre| && pre[v] == -1
    ensures Unvisited(pre) > 0
  {
    if v < |pre| - 1 {
      UnvisitedPositive(pre[..|pre| - 1], v);
    }
  }

  lemma {:induction false} UnvisitedAll(pre: seq<int>)
    requires forall x :: 0 <= x < |pre| ==> pre[x] == -1
    ensures Unvisited(pre) == |pre|
  {
    if pre != [] {
      UnvisitedAll(pre[..|pre| - 1]);
    }
  }

  lemma {:induction false} UnvisitedNone(pre: seq<int>)
    requires forall x :: 0 <= x < |pre| ==> pre[x] != -1
    ensures Unvisited(pre) == 0
  {
    if pre != [] {
      UnvisitedNone(pre[..|pre| - 1]);
    }
  }
}
