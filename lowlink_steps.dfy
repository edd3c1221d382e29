/**
 * One lemma per step of `dfs` and of the loop in the constructor of
 * `AlgoritmoBiconexo`, each taking the snapshot before the step to the
 * snapshot after it. Each is put together from small lemmas, one per part
 * of the state the step touches.
 */
module LowLinkSteps {
  import opened Edges
  import opened Adjacency
  import opened LowLink

  // ------------------------------------------------------------------ frames

  /**
   * A finished vertex stays finished when its own entries, its children,
   * their `low` and the numbers of its neighbours are unchanged.
   */
  lemma FinishedFrame(ls: Lists, s: Snapshot, t: Snapshot, x: int)
    requires WellFormed(ls, |ls|) && Sized(s, |ls|) && Sized(t, |ls|) && 0 <= x < |ls|
    requires Finished(ls, s, x) && Kept(s, t, x)
    requires forall y :: 0 <= y < |ls| ==> (IsChild(t, x, y) <==> IsChild(s, x, y))
    requires forall y :: IsChild(s, x, y) ==> t.low[y] == s.low[y]
    requires forall i :: 0 <= i < |ls[x]| ==> t.pre[ls[x][i].v2] == s.pre[ls[x][i].v2]
    ensures Finished(ls, t, x)
  {
    forall y | 0 <= y < |ls| ensures (s.parent[y] == x && y != x) <==> (t.parent[y] == x && y != x) {
      assert IsChild(t, x, y) <==> IsChild(s, x, y);
    }
    ChildCountSame(s.parent, t.parent, x);
    if s.parent[x] != x {
      if ArtRule(s, x) {
        var y :| IsChild(s, x, y) && s.low[y] >= s.pre[x];
        assert IsChild(t, x, y);
      }
      if ArtRule(t, x) {
        var y :| IsChild(t, x, y) && t.low[y] >= t.pre[x];
        assert IsChild(s, x, y);
      }
    }
    forall y | IsChild(t, x, y) ensures t.low[x] <= t.low[y] {
      assert IsChild(s, x, y);
    }
    if exists y :: IsChild(s, x, y) && s.low[x] == s.low[y] {
      var y :| IsChild(s, x, y) && s.low[x] == s.low[y];
      assert IsChild(t, x, y) && t.low[x] == t.low[y];
    }
    if exists i :: 0 <= i < |ls[x]| && ls[x][i].v2 != s.parent[x] && s.low[x] == s.pre[ls[x][i].v2] {
      var i :| 0 <= i < |ls[x]| && ls[x][i].v2 != s.parent[x] && s.low[x] == s.pre[ls[x][i].v2];
      assert t.low[x] == t.pre[ls[x][i].v2];
    }
  }

  /** No vertex has an unvisited vertex as its parent. */
  lemma NoChildOfUnvisited(ls: Lists, s: Snapshot, v: int)
    requires Sized(s, |ls|) && Blank(s) && Tree(ls, s) && 0 <= v < |ls| && s.pre[v] == -1
    ensures forall y :: 0 <= y < |ls| ==> s.parent[y] != v
  {
    forall y | 0 <= y < |ls| ensures s.parent[y] != v {
      if s.pre[y] != -1 && s.parent[y] == v {
        assert false;
      }
    }
  }

  /**
   * After the call `dfs(u, w)` from `s` to `s1`, the children of a vertex
   * visited in `s` are those it had, plus `w` for `u`.
   */
  lemma ChildSets(ls: Lists, s: Snapshot, c: int, s1: Snapshot, u: int, w: int)
    requires Inv(ls, s, c) && Sized(s1, |ls|) && Blank(s1) && 0 <= w < |ls| && s.pre[w] == -1
    requires Grew(ls, s, s1, u, w)
    ensures forall x, y :: 0 <= x < |ls| && s.pre[x] != -1 && 0 <= y < |ls| ==>
      (IsChild(s1, x, y) <==> IsChild(s, x, y) || (x == u && y == w && u != w))
  {
    forall x, y | 0 <= x < |ls| && s.pre[x] != -1 && 0 <= y < |ls|
      ensures IsChild(s1, x, y) <==> IsChild(s, x, y) || (x == u && y == w && u != w)
    {
      if s.pre[y] != -1 {
        assert Kept(s, s1, y);
      } else if s1.pre[y] != -1 && y != w {
        assert s.pre[s1.parent[y]] == -1;
      } else {
        assert s.parent[y] == -1;
        assert s1.pre[y] == -1 ==> s1.parent[y] == -1;
      }
    }
  }

  // ---------------------------------------------- changing `low[v]` and its mark

  /** Setting `low[v]` between 0 and `pre[v]` and setting the mark of a visited `v` keeps the invariant. */
  lemma AdjustInv(ls: Lists, s: Snapshot, c: int, v: int, lo: int, a: bool)
    requires Inv(ls, s, c) && 0 <= v < |ls| && s.pre[v] != -1 && 0 <= lo <= s.pre[v]
    ensures Inv(ls, Adjust(s, v, lo, a), c)
  {
  }

  /** Changing the entries of a vertex unvisited in `s0` keeps the entries of those visited in `s0`. */
  lemma AdjustKept(s0: Snapshot, s: Snapshot, v: int, lo: int, a: bool)
    requires Sized(s0, |s0.pre|) && Sized(s, |s0.pre|) && 0 <= v < |s0.pre| && s0.pre[v] == -1
    requires KeptVisited(s0, s)
    ensures KeptVisited(s0, Adjust(s, v, lo, a))
  {
    var t := Adjust(s, v, lo, a);
    forall x | 0 <= x < |s0.pre| && s0.pre[x] != -1 ensures Kept(s0, t, x) {
      assert Kept(s0, s, x);
    }
  }

  /**
   * Changing `low[v]` and the mark of `v` keeps finished the vertices
   * visited since `s0`: `v` is none of their children, since its parent
   * is `v` itself or was visited in `s0`.
   */
  lemma AdjustFinished(ls: Lists, s0: Snapshot, s: Snapshot, u: int, v: int, lo: int, a: bool)
    requires WellFormed(ls, |ls|) && Sized(s0, |ls|) && Sized(s, |ls|) && 0 <= v < |ls| && s0.pre[v] == -1
    requires s.parent[v] == u && (u == v || (0 <= u < |ls| && s0.pre[u] != -1))
    requires FinishedNew(ls, s0, s, v)
    ensures FinishedNew(ls, s0, Adjust(s, v, lo, a), v)
  {
    var t := Adjust(s, v, lo, a);
    forall x | 0 <= x < |ls| && s0.pre[x] == -1 && t.pre[x] != -1 && x != v
      ensures Finished(ls, t, x)
    {
      assert Finished(ls, s, x);
      assert !IsChild(s, x, v);
      FinishedFrame(ls, s, t, x);
    }
  }

  /** Changing `low[v]` and the mark of `v` leaves the parents as they were. */
  lemma AdjustParents(s0: Snapshot, s: Snapshot, v: int, lo: int, a: bool)
    requires Sized(s0, |s0.pre|) && Sized(s, |s0.pre|) && 0 <= v < |s0.pre|
    requires ParentsNew(s0, s, v)
    ensures ParentsNew(s0, Adjust(s, v, lo, a), v)
  {
  }

  /** Moving only `low[v]` keeps the mark of `v` as its children set it. */
  lemma AdjustMark(s: Snapshot, u: int, v: int, lo: int)
    requires Sized(s, |s.pre|) && 0 <= v < |s.pre| && MarkedByChildren(s, u, v)
    ensures MarkedByChildren(Adjust(s, v, lo, s.art[v]), u, v)
  {
    var t := Adjust(s, v, lo, s.art[v]);
    if exists y :: IsChild(s, v, y) && s.low[y] >= s.pre[v] {
      var y :| IsChild(s, v, y) && s.low[y] >= s.pre[v];
      assert IsChild(t, v, y) && t.low[y] >= t.pre[v];
    }
    if exists y :: IsChild(t, v, y) && t.low[y] >= t.pre[v] {
      var y :| IsChild(t, v, y) && t.low[y] >= t.pre[v];
      assert IsChild(s, v, y) && s.low[y] >= s.pre[v];
    }
  }

  // ----------------------------------------------------------- before search

  /** Before any search the invariant holds with the counter at 0, and no vertex is visited. */
  lemma InitialInv(ls: Lists)
    requires WellFormed(ls, |ls|)
    ensures Inv(ls, Unsearched(|ls|), 0) && AllFinished(ls, Unsearched(|ls|))
  {
    UnvisitedAll(Unsearched(|ls|).pre);
  }

  // ------------------------------------------------------------ start of dfs

  lemma StartNumbered(pre: seq<int>, c: int, v: int)
    requires Numbered(pre, c) && 0 <= v < |pre| && pre[v] == -1
    ensures Numbered(pre[v := c], c + 1)
  {
    UnvisitedUpdate(pre, v, c);
  }

  lemma StartDistinct(pre: seq<int>, c: int, v: int)
    requires Numbered(pre, c) && Distinct(pre) && 0 <= v < |pre| && pre[v] == -1
    ensures Distinct(pre[v := c])
  {
  }

  lemma StartTree(ls: Lists, s0: Snapshot, c0: int, u: int, v: int)
    requires Sized(s0, |ls|) && Tree(ls, s0) && 0 <= v < |ls| && s0.pre[v] == -1
    requires forall x :: 0 <= x < |ls| ==> -1 <= s0.pre[x] < c0
    requires u == v || (0 <= u < |ls| && s0.pre[u] != -1 && IsNeighbour(ls, u, v))
    ensures Tree(ls, Start(s0, c0, u, v))
  {
  }

  /** Numbering `v` with `c0`, giving it `low` `c0` and parent `u` keeps the invariant. */
  lemma StartInv(ls: Lists, s0: Snapshot, c0: int, u: int, v: int)
    requires Inv(ls, s0, c0) && 0 <= v < |ls| && s0.pre[v] == -1
    requires u == v || (0 <= u < |ls| && s0.pre[u] != -1 && IsNeighbour(ls, u, v))
    ensures Inv(ls, Start(s0, c0, u, v), c0 + 1)
  {
    StartNumbered(s0.pre, c0, v);
    StartDistinct(s0.pre, c0, v);
    StartTree(ls, s0, c0, u, v);
  }

  /** Right after `v` is numbered, the vertices visited before keep their entries, and no other vertex is new. */
  lemma StartFrame(ls: Lists, s0: Snapshot, c0: int, u: int, v: int)
    requires WellFormed(ls, |ls|) && Sized(s0, |ls|) && 0 <= v < |ls| && s0.pre[v] == -1
    ensures KeptVisited(s0, Start(s0, c0, u, v))
    ensures FinishedNew(ls, s0, Start(s0, c0, u, v), v)
    ensures ParentsNew(s0, Start(s0, c0, u, v), v)
  {
    var s := Start(s0, c0, u, v);
    forall x | 0 <= x < |ls| && s0.pre[x] != -1 ensures Kept(s0, s, x) {
    }
  }

  /** Right after `v` is numbered it has no children, no mark and `low` equal to its number. */
  lemma StartChildless(ls: Lists, s0: Snapshot, c0: int, u: int, v: int)
    requires Inv(ls, s0, c0) && 0 <= v < |ls| && s0.pre[v] == -1
    ensures var s := Start(s0, c0, u, v);
      && (forall y :: !IsChild(s, v, y))
      && ChildCount(s.parent, v) == 0
      && MarkedByChildren(s, u, v)
      && LowUpTo(ls, s, v, 0)
  {
    var s := Start(s0, c0, u, v);
    NoChildOfUnvisited(ls, s0, v);
    ChildCountZero(s.parent, v);
  }

  /** The first step of `dfs(u, v)`: `v` gets the next number, `low[v]` that number, and parent `u`. */
  lemma LoopStart(ls: Lists, s0: Snapshot, c0: int, u: int, v: int)
    requires Inv(ls, s0, c0) && 0 <= v < |ls| && s0.pre[v] == -1
    requires u == v || (0 <= u < |ls| && s0.pre[u] != -1 && IsNeighbour(ls, u, v))
    ensures LoopInv(ls, s0, c0, Start(s0, c0, u, v), c0 + 1, u, v, 0, 0)
  {
    StartInv(ls, s0, c0, u, v);
    StartFrame(ls, s0, c0, u, v);
    StartChildless(ls, s0, c0, u, v);
  }

  // ------------------------------------------- a record towards a visited vertex

  /**
   * `low[v]` over one more record, whose far endpoint `w` is visited and is
   * not the parent: the lesser of the old `low[v]` and `pre[w]`.
   */
  lemma VisitedLow(ls: Lists, s: Snapshot, u: int, v: int, j: int)
    requires WellFormed(ls, |ls|) && Sized(s, |ls|) && 0 <= v < |ls| && 0 <= j < |ls[v]|
    requires s.parent[v] == u && ls[v][j].v2 != u && s.pre[ls[v][j].v2] != -1
    requires VisitedUpTo(ls, s, v, j) && LowUpTo(ls, s, v, j)
    ensures var t := Adjust(s, v, Min(s.low[v], s.pre[ls[v][j].v2]), s.art[v]);
      VisitedUpTo(ls, t, v, j + 1) && LowUpTo(ls, t, v, j + 1)
  {
    var w := ls[v][j].v2;
    var lo := Min(s.low[v], s.pre[w]);
    var t := Adjust(s, v, lo, s.art[v]);
    forall y | IsChild(t, v, y) ensures t.low[v] <= t.low[y] {
      assert IsChild(s, v, y);
    }
    if lo == s.low[v] {
      if exists y :: IsChild(s, v, y) && s.low[v] == s.low[y] {
        var y :| IsChild(s, v, y) && s.low[v] == s.low[y];
        assert IsChild(t, v, y) && t.low[v] == t.low[y];
      }
      if exists i :: 0 <= i < j && ls[v][i].v2 != s.parent[v] && s.low[v] == s.pre[ls[v][i].v2] {
        var i :| 0 <= i < j && ls[v][i].v2 != s.parent[v] && s.low[v] == s.pre[ls[v][i].v2];
        assert t.low[v] == t.pre[ls[v][i].v2];
      }
    } else {
      assert t.low[v] == t.pre[ls[v][j].v2];
    }
  }

  /** A record towards the parent leaves `low[v]` as it was. */
  lemma VisitedParent(ls: Lists, s: Snapshot, u: int, v: int, j: int)
    requires WellFormed(ls, |ls|) && Sized(s, |ls|) && 0 <= v < |ls| && 0 <= j < |ls[v]|
    requires s.parent[v] == u && ls[v][j].v2 == u && s.pre[u] != -1
    requires VisitedUpTo(ls, s, v, j) && LowUpTo(ls, s, v, j)
    ensures VisitedUpTo(ls, s, v, j + 1) && LowUpTo(ls, s, v, j + 1)
  {
    if exists i :: 0 <= i < j && ls[v][i].v2 != s.parent[v] && s.low[v] == s.pre[ls[v][i].v2] {
      var i :| 0 <= i < j && ls[v][i].v2 != s.parent[v] && s.low[v] == s.pre[ls[v][i].v2];
      assert 0 <= i < j + 1;
    }
  }

  /**
   * A record of `v` towards an already visited `w`: unless `w` is the
   * parent `u`, `low[v]` becomes the lesser of itself and `pre[w]`.
   */
  lemma LoopVisited(ls: Lists, s0: Snapshot, c0: int, s: Snapshot, c: int, u: int, v: int, j: int, children: int)
    requires LoopInv(ls, s0, c0, s, c, u, v, j, children) && j < |ls[v]| && s.pre[ls[v][j].v2] != -1
    ensures var w := ls[v][j].v2;
      LoopInv(ls, s0, c0, if w != u then Adjust(s, v, Min(s.low[v], s.pre[w]), s.art[v]) else s, c, u, v, j + 1, children)
  {
    var w := ls[v][j].v2;
    if w != u {
      var lo := Min(s.low[v], s.pre[w]);
      AdjustInv(ls, s, c, v, lo, s.art[v]);
      AdjustKept(s0, s, v, lo, s.art[v]);
      AdjustFinished(ls, s0, s, u, v, lo, s.art[v]);
      AdjustParents(s0, s, v, lo, s.art[v]);
      AdjustMark(s, u, v, lo);
      VisitedLow(ls, s, u, v, j);
    } else {
      VisitedParent(ls, s, u, v, j);
    }
  }

  // ---------------------------------------- a record towards an unvisited vertex

  /** Entries kept from `s0` to `s` and from `s` to `s1` are kept from `s0` to `s1`. */
  lemma KeptCompose(s0: Snapshot, s: Snapshot, s1: Snapshot)
    requires Sized(s0, |s0.pre|) && Sized(s, |s0.pre|) && Sized(s1, |s0.pre|)
    requires KeptVisited(s0, s) && KeptVisited(s, s1)
    ensures KeptVisited(s0, s1)
  {
    forall x | 0 <= x < |s0.pre| && s0.pre[x] != -1 ensures Kept(s0, s1, x) {
      assert Kept(s0, s, x);
      assert Kept(s, s1, x);
    }
  }

  /**
   * After `dfs(v, w)` from `s` to `s1`, a vertex visited since `s0` (other
   * than `v`) has a parent unvisited in `s0`: `w` has `v`, those visited
   * by the call have parents visited by it.
   */
  lemma ParentsCompose(s0: Snapshot, s: Snapshot, s1: Snapshot, v: int, w: int)
    requires Sized(s0, |s0.pre|) && Sized(s, |s0.pre|) && Sized(s1, |s0.pre|)
    requires 0 <= v < |s0.pre| && 0 <= w < |s0.pre| && v != w && s0.pre[v] == -1 && s1.parent[w] == v
    requires KeptVisited(s0, s) && ParentsNew(s0, s, v) && KeptVisited(s, s1) && ParentsNew(s, s1, w)
    ensures ParentsNew(s0, s1, v)
  {
    forall y | 0 <= y < |s0.pre| && s0.pre[y] == -1 && s1.pre[y] != -1 && y != v
      ensures 0 <= s1.parent[y] < |s0.pre| && s0.pre[s1.parent[y]] == -1 && s1.parent[y] != y
    {
      if s.pre[y] != -1 {
        assert Kept(s, s1, y);
      } else if y != w {
        var p := s1.parent[y];
        assert s0.pre[p] != -1 ==> Kept(s0, s, p);
      }
    }
  }

  /**
   * After `dfs(v, w)` from `s` to `s1`, every vertex other than `v` visited
   * since `s0` is finished: those visited before the call keep their
   * entries, children and neighbours' numbers; the call finished the others.
   */
  lemma FinishedCompose(ls: Lists, s0: Snapshot, s: Snapshot, c: int, s1: Snapshot, v: int, w: int)
    requires Inv(ls, s, c) && Sized(s0, |ls|) && Sized(s1, |ls|) && Blank(s1) && 0 <= v < |ls| && 0 <= w < |ls|
    requires s.pre[v] != -1 && s.pre[w] == -1
    requires FinishedNew(ls, s0, s, v) && Grew(ls, s, s1, v, w)
    ensures FinishedNew(ls, s0, s1, v)
  {
    ChildSets(ls, s, c, s1, v, w);
    forall x | 0 <= x < |ls| && s0.pre[x] == -1 && s1.pre[x] != -1 && x != v
      ensures Finished(ls, s1, x)
    {
      if s.pre[x] != -1 {
        assert Finished(ls, s, x);
        assert Kept(s, s1, x);
        forall y | IsChild(s, x, y) ensures s1.low[y] == s.low[y] {
          assert Kept(s, s1, y);
        }
        forall i | 0 <= i < |ls[x]| ensures s1.pre[ls[x][i].v2] == s.pre[ls[x][i].v2] {
          assert Kept(s, s1, ls[x][i].v2);
        }
        FinishedFrame(ls, s, s1, x);
      } else if x != w {
        assert Finished(ls, s1, x);
      }
    }
  }

  /** The call `dfs(v, w)` gives `v` one more child. */
  lemma ChildCountStep(ls: Lists, s: Snapshot, c: int, s1: Snapshot, v: int, w: int)
    requires Inv(ls, s, c) && Sized(s1, |ls|) && Blank(s1) && 0 <= v < |ls| && 0 <= w < |ls|
    requires s.pre[v] != -1 && s.pre[w] == -1 && Grew(ls, s, s1, v, w)
    ensures ChildCount(s1.parent, v) == ChildCount(s.parent, v) + 1
  {
    ChildSets(ls, s, c, s1, v, w);
    assert s.parent[w] == -1;
    forall y | 0 <= y < |ls| && y != w
      ensures (s.parent[y] == v && y != v) <==> (s1.parent[y] == v && y != v)
    {
      assert IsChild(s1, v, y) <==> IsChild(s, v, y);
    }
    ChildCountPlusOne(s.parent, s1.parent, v, w);
  }

  /**
   * After `dfs(v, w)`: the mark of a non-root `v` is set when `low[w]` does
   * not reach above `pre[v]`, and otherwise stays as the earlier children set it.
   */
  lemma ChildMark(ls: Lists, s: Snapshot, c: int, s1: Snapshot, u: int, v: int, w: int, lo: int)
    requires Inv(ls, s, c) && Sized(s1, |ls|) && Blank(s1) && 0 <= v < |ls| && 0 <= w < |ls|
    requires s.pre[v] != -1 && s.pre[w] == -1 && Grew(ls, s, s1, v, w) && MarkedByChildren(s, u, v)
    ensures var marked := if s1.low[w] >= s1.pre[v] && u != v then true else s1.art[v];
      MarkedByChildren(Adjust(s1, v, lo, marked), u, v)
  {
    var marked := if s1.low[w] >= s1.pre[v] && u != v then true else s1.art[v];
    var t := Adjust(s1, v, lo, marked);
    ChildSets(ls, s, c, s1, v, w);
    assert Kept(s, s1, v);
    assert IsChild(t, v, w);
    if exists y :: IsChild(s, v, y) && s.low[y] >= s.pre[v] {
      var y :| IsChild(s, v, y) && s.low[y] >= s.pre[v];
      assert Kept(s, s1, y);
      assert IsChild(t, v, y) && t.low[y] >= t.pre[v];
    }
    if exists y :: IsChild(t, v, y) && t.low[y] >= t.pre[v] {
      var y :| IsChild(t, v, y) && t.low[y] >= t.pre[v];
      if y != w {
        assert IsChild(s, v, y);
        assert Kept(s, s1, y);
      }
    }
  }

  /**
   * `low[v]` over one more record, whose far endpoint `w` the call
   * `dfs(v, w)` has just visited: the lesser of the old `low[v]` and `low[w]`.
   */
  lemma ChildLow(ls: Lists, s: Snapshot, c: int, s1: Snapshot, v: int, j: int, a: bool)
    requires Inv(ls, s, c) && Sized(s1, |ls|) && Blank(s1) && 0 <= v < |ls| && 0 <= j < |ls[v]|
    requires s.pre[v] != -1 && s.pre[ls[v][j].v2] == -1 && Grew(ls, s, s1, v, ls[v][j].v2)
    requires VisitedUpTo(ls, s, v, j) && LowUpTo(ls, s, v, j)
    ensures var w := ls[v][j].v2;
      var t := Adjust(s1, v, Min(s1.low[v], s1.low[w]), a);
      VisitedUpTo(ls, t, v, j + 1) && LowUpTo(ls, t, v, j + 1)
  {
    var w := ls[v][j].v2;
    var lo := Min(s1.low[v], s1.low[w]);
    var t := Adjust(s1, v, lo, a);
    ChildSets(ls, s, c, s1, v, w);
    assert Kept(s, s1, v);
    assert s.parent[v] != w;
    forall i | 0 <= i < j ensures t.pre[ls[v][i].v2] == s.pre[ls[v][i].v2] {
      assert Kept(s, s1, ls[v][i].v2);
    }
    forall y | IsChild(t, v, y) ensures t.low[v] <= t.low[y] {
      if y != w {
        assert IsChild(s, v, y);
        assert Kept(s, s1, y);
      }
    }
    if lo == s.low[v] {
      if exists y :: IsChild(s, v, y) && s.low[v] == s.low[y] {
        var y :| IsChild(s, v, y) && s.low[v] == s.low[y];
        assert Kept(s, s1, y);
        assert IsChild(t, v, y) && t.low[v] == t.low[y];
      }
      if exists i :: 0 <= i < j && ls[v][i].v2 != s.parent[v] && s.low[v] == s.pre[ls[v][i].v2] {
        var i :| 0 <= i < j && ls[v][i].v2 != s.parent[v] && s.low[v] == s.pre[ls[v][i].v2];
        assert t.low[v] == t.pre[ls[v][i].v2];
      }
    } else {
      assert IsChild(t, v, w) && t.low[v] == t.low[w];
    }
  }

  /**
   * A record of `v` towards an unvisited `w`: after `dfs(v, w)` has taken
   * `s` to `s1`, `w` is one more child, `low[v]` becomes the lesser of
   * itself and `low[w]`, and a non-root `v` is marked when `low[w]` does
   * not reach above `pre[v]`.
   */
  lemma LoopChild(ls: Lists, s0: Snapshot, c0: int, s: Snapshot, c: int, u: int, v: int, j: int, children: int,
                  s1: Snapshot, c1: int)
    requires LoopInv(ls, s0, c0, s, c, u, v, j, children) && j < |ls[v]|
    requires s.pre[ls[v][j].v2] == -1 && Inv(ls, s1, c1) && Grew(ls, s, s1, v, ls[v][j].v2)
    ensures var w := ls[v][j].v2;
      var marked := if s1.low[w] >= s1.pre[v] && u != v then true else s1.art[v];
      LoopInv(ls, s0, c0, Adjust(s1, v, Min(s1.low[v], s1.low[w]), marked), c1, u, v, j + 1, children + 1)
  {
    var w := ls[v][j].v2;
    var marked := if s1.low[w] >= s1.pre[v] && u != v then true else s1.art[v];
    var lo := Min(s1.low[v], s1.low[w]);
    assert Kept(s, s1, v);
    AdjustInv(ls, s1, c1, v, lo, marked);
    KeptCompose(s0, s, s1);
    AdjustKept(s0, s1, v, lo, marked);
    FinishedCompose(ls, s0, s, c, s1, v, w);
    AdjustFinished(ls, s0, s1, u, v, lo, marked);
    ParentsCompose(s0, s, s1, v, w);
    AdjustParents(s0, s1, v, lo, marked);
    ChildCountStep(ls, s, c, s1, v, w);
    ChildMark(ls, s, c, s1, u, v, w, lo);
    ChildLow(ls, s, c, s1, v, j, marked);
  }

  // -------------------------------------------------------------- end of dfs

  /** With all records of `v` seen, a root with more than one child marked, `v` is finished. */
  lemma EndFinished(ls: Lists, s: Snapshot, u: int, v: int, children: int)
    requires WellFormed(ls, |ls|) && Sized(s, |ls|) && 0 <= v < |ls| && s.parent[v] == u
    requires children == ChildCount(s.parent, v) && MarkedByChildren(s, u, v)
    requires VisitedUpTo(ls, s, v, |ls[v]|) && LowUpTo(ls, s, v, |ls[v]|)
    ensures Finished(ls, Adjust(s, v, s.low[v], if u == v && children > 1 then true else s.art[v]), v)
  {
    var t := Adjust(s, v, s.low[v], if u == v && children > 1 then true else s.art[v]);
    assert t.low == s.low;
    if u != v {
      if ArtRule(s, v) {
        var y :| IsChild(s, v, y) && s.low[y] >= s.pre[v];
        assert IsChild(t, v, y);
      }
      if ArtRule(t, v) {
        var y :| IsChild(t, v, y) && t.low[y] >= t.pre[v];
        assert IsChild(s, v, y);
      }
    }
    forall y | IsChild(t, v, y) ensures t.low[v] <= t.low[y] {
      assert IsChild(s, v, y);
    }
    if exists y :: IsChild(s, v, y) && s.low[v] == s.low[y] {
      var y :| IsChild(s, v, y) && s.low[v] == s.low[y];
      assert IsChild(t, v, y);
    }
  }

  /**
   * The end of `dfs(u, v)`: a root with more than one child is marked; then
   * `v` is finished and the call as a whole satisfies `Grew`.
   */
  lemma LoopEnd(ls: Lists, s0: Snapshot, c0: int, s: Snapshot, c: int, u: int, v: int, children: int)
    requires 0 <= v < |ls| && LoopInv(ls, s0, c0, s, c, u, v, |ls[v]|, children)
    ensures var t := Adjust(s, v, s.low[v], if u == v && children > 1 then true else s.art[v]);
      Inv(ls, t, c) && Grew(ls, s0, t, u, v) && t.pre[v] == c0
  {
    var a := if u == v && children > 1 then true else s.art[v];
    AdjustInv(ls, s, c, v, s.low[v], a);
    AdjustKept(s0, s, v, s.low[v], a);
    AdjustFinished(ls, s0, s, u, v, s.low[v], a);
    AdjustParents(s0, s, v, s.low[v], a);
    EndFinished(ls, s, u, v, children);
  }

  // -------------------------------------------------- the constructor's loop

  /**
   * One turn of the constructor's loop: after `dfs(v, v)` from `s` to `s1`,
   * the vertices finished before stay finished, and so every visited vertex
   * is finished.
   */
  lemma OuterStep(ls: Lists, s: Snapshot, c: int, s1: Snapshot, v: int)
    requires Inv(ls, s, c) && Sized(s1, |ls|) && Blank(s1) && 0 <= v < |ls| && s.pre[v] == -1
    requires AllFinished(ls, s) && Grew(ls, s, s1, v, v)
    ensures AllFinished(ls, s1)
  {
    ChildSets(ls, s, c, s1, v, v);
    forall x | 0 <= x < |ls| && s1.pre[x] != -1
      ensures Finished(ls, s1, x)
    {
      if s.pre[x] != -1 {
        assert Finished(ls, s, x);
        assert Kept(s, s1, x);
        forall y | IsChild(s, x, y) ensures s1.low[y] == s.low[y] {
          assert Kept(s, s1, y);
        }
        forall i | 0 <= i < |ls[x]| ensures s1.pre[ls[x][i].v2] == s.pre[ls[x][i].v2] {
          assert Kept(s, s1, ls[x][i].v2);
        }
        FinishedFrame(ls, s, s1, x);
      } else if x != v {
        assert Finished(ls, s1, x);
      }
    }
  }

  /** Once every vertex is visited and finished, the counter has reached the number of vertices. */
  lemma SearchComplete(ls: Lists, s: Snapshot, c: int)
    requires Inv(ls, s, c) && AllFinished(ls, s)
    requires forall x :: 0 <= x < |ls| ==> s.pre[x] != -1
    ensures Classified(ls, s) && c == |ls|
  {
    UnvisitedNone(s.pre);
    forall x | 0 <= x < |ls| ensures Finished(ls, s, x) {
      assert s.pre[x] != -1;
    }
  }
}
