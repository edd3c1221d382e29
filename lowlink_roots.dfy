/**
 * Why the roots of the search are the starts of the connected components:
 * the constructor's loop calls `dfs(v, v)` only on a vertex that no earlier
 * search reached, and every vertex visited before it is finished, so all
 * its neighbours were visited before it too.
 */
module LowLinkRoots {
  import opened Adjacency
  import opened LowLink
  import opened LowLinkFacts
  import opened Edges

  /** The numbers given to the visited vertices. */
  ghost function Given(pre: seq<int>): set<int> {
    set x | 0 <= x < |pre| && pre[x] != -1 :: pre[x]
  }

  /** Distinct numbers: as many numbers given as vertices visited. */
  lemma {:induction false} GivenSize(pre: seq<int>)
    requires Distinct(pre)
    ensures |Given(pre)| == |pre| - Unvisited(pre)
  {
    if pre != [] {
      var k := |pre| - 1;
      var init := pre[..k];
      assert Distinct(init) by {
        forall x, y | 0 <= x < k && 0 <= y < k && x != y && init[x] != -1 ensures init[x] != init[y] {
          assert init[x] == pre[x] && init[y] == pre[y];
        }
      }
      GivenSize(init);
      if pre[k] == -1 {
        assert Given(pre) == Given(init);
      } else {
        assert Given(pre) == Given(init) + {pre[k]};
        assert pre[k] !in Given(init);
      }
    }
  }

  /**
   * With `c0` numbers given before, distinct numbers afterwards, and the
   * earlier numbers kept, every vertex numbered since has a number of at
   * least `c0`.
   */
  lemma NewNumbersAbove(p0: seq<int>, c0: int, p1: seq<int>)
    requires Numbered(p0, c0) && Distinct(p0) && Distinct(p1) && |p1| == |p0|
    requires forall x :: 0 <= x < |p0| && p0[x] != -1 ==> p1[x] == p0[x]
    requires forall x :: 0 <= x < |p1| ==> -1 <= p1[x]
    ensures forall x :: 0 <= x < |p0| && p0[x] == -1 && p1[x] != -1 ==> p1[x] >= c0
  {
    GivenSize(p0);
    SubsetFull(Given(p0), Below(c0));
    forall x | 0 <= x < |p0| && p0[x] == -1 && p1[x] != -1 ensures p1[x] >= c0 {
      forall y | 0 <= y < |p0| && p0[y] != -1 ensures p0[y] != p1[x] {
        assert p1[y] == p0[y];
      }
      assert p1[x] !in Given(p0);
    }
  }

  /**
   * A search from a new root `v`, numbered `c`, started when every visited
   * vertex was finished, keeps the roots apart: `v` is no neighbour of
   * anything visited before it, and the call makes no other root.
   */
  lemma RootsStep(ls: Lists, s: Snapshot, c: int, s1: Snapshot, c1: int, v: int)
    requires Inv(ls, s, c) && Inv(ls, s1, c1) && 0 <= v < |ls| && s.pre[v] == -1 && s1.pre[v] == c
    requires AllFinished(ls, s) && RootsApart(ls, s) && Grew(ls, s, s1, v, v)
    ensures RootsApart(ls, s1)
  {
    forall x | 0 <= x < |ls| && s.pre[x] != -1 ensures s1.pre[x] == s.pre[x] {
      assert Kept(s, s1, x);
    }
    NewNumbersAbove(s.pre, c, s1.pre);
    forall r, x, i | 0 <= r < |ls| && s1.parent[r] == r && 0 <= x < |ls| && s1.pre[x] != -1 && s1.pre[x] < s1.pre[r] && 0 <= i < |ls[x]|
      ensures s1.pre[ls[x][i].v2] != -1 && s1.pre[ls[x][i].v2] < s1.pre[r]
    {
      var w := ls[x][i].v2;
      if r != v {
        assert s.pre[r] != -1;
        assert Kept(s, s1, r);
      }
      assert s.pre[x] != -1;
      assert Finished(ls, s, x);
      assert s.pre[w] != -1;
      assert Kept(s, s1, w);
    }
  }

  // ------------------------------------------------ trees and components

  /** The root of the search tree holding `y`, found by following parents. */
  ghost function RootOf(ls: Lists, s: Snapshot, y: int): (r: int)
    requires Classified(ls, s) && 0 <= y < |ls|
    ensures 0 <= r < |ls| && s.parent[r] == r && s.pre[r] <= s.pre[y]
    decreases s.pre[y]
  {
    assert s.pre[y] != -1;
    if s.parent[y] == y then y else RootOf(ls, s, s.parent[y])
  }

  /** A record from a vertex numbered before a root ends at a vertex numbered before that root. */
  lemma ApartEdge(ls: Lists, s: Snapshot, r: int, x: int, w: int)
    requires Classified(ls, s) && RootsApart(ls, s)
    requires 0 <= r < |ls| && s.parent[r] == r && 0 <= x < |ls| && s.pre[x] < s.pre[r]
    requires IsNeighbour(ls, x, w)
    ensures s.pre[w] < s.pre[r]
  {
    assert s.pre[x] != -1;
    var i :| 0 <= i < |ls[x]| && ls[x][i].v2 == w;
  }

  /** The root of `y` is the last root numbered no later than `y`. */
  lemma {:induction false} RootOfLast(ls: Lists, s: Snapshot, y: int, r: int)
    requires Classified(ls, s) && RootsApart(ls, s) && 0 <= y < |ls|
    requires 0 <= r < |ls| && s.parent[r] == r && s.pre[r] <= s.pre[y]
    ensures s.pre[r] <= s.pre[RootOf(ls, s, y)]
    decreases s.pre[y]
  {
    assert s.pre[y] != -1;
    if s.parent[y] != y {
      var p := s.parent[y];
      if s.pre[r] <= s.pre[p] {
        RootOfLast(ls, s, p, r);
      } else {
        ApartEdge(ls, s, r, p, y);
        assert false;
      }
    }
  }

  /** Along a record towards a vertex numbered later, the root stays the same. */
  lemma SameRootUpward(ls: Lists, s: Snapshot, x: int, w: int)
    requires Classified(ls, s) && RootsApart(ls, s) && 0 <= x < |ls| && 0 <= w < |ls|
    requires IsNeighbour(ls, x, w) && s.pre[x] < s.pre[w]
    ensures RootOf(ls, s, x) == RootOf(ls, s, w)
  {
    var rx, rw := RootOf(ls, s, x), RootOf(ls, s, w);
    if s.pre[x] < s.pre[rw] {
      ApartEdge(ls, s, rw, x, w);
      assert false;
    }
    RootOfLast(ls, s, x, rw);
    RootOfLast(ls, s, w, rx);
    assert s.pre[rx] == s.pre[rw];
  }

  /**
   * Each search tree is a union of connected components: the two ends of
   * every edge have the same root.
   */
  lemma SameRoot(ls: Lists, s: Snapshot, x: int, w: int)
    requires Classified(ls, s) && RootsApart(ls, s) && Mirrored(ls) && 0 <= x < |ls|
    requires IsNeighbour(ls, x, w)
    ensures 0 <= w < |ls| && RootOf(ls, s, x) == RootOf(ls, s, w)
  {
    var i :| 0 <= i < |ls[x]| && ls[x][i].v2 == w;
    if s.pre[x] < s.pre[w] {
      SameRootUpward(ls, s, x, w);
    } else if s.pre[w] < s.pre[x] {
      NeighbourIsEdge(ls, x, w);
      HasEdgeSymmetric(ls, x, w);
      NeighbourIsEdge(ls, w, x);
      SameRootUpward(ls, s, w, x);
    } else {
      assert x == w;
    }
  }

  /** A root that is the root of some other vertex has a child. */
  lemma {:induction false} RootHasChild(ls: Lists, s: Snapshot, y: int)
    requires Classified(ls, s) && 0 <= y < |ls| && s.parent[y] != y
    ensures exists z :: IsChild(s, RootOf(ls, s, y), z) && s.pre[z] <= s.pre[y]
    decreases s.pre[y]
  {
    assert s.pre[y] != -1;
    var p := s.parent[y];
    if s.parent[p] != p {
      RootHasChild(ls, s, p);
    } else {
      assert RootOf(ls, s, y) == p;
      assert IsChild(s, p, y);
    }
  }

  // ----------------------------------------------- counting children

  lemma {:induction false} ChildCountAtMostOne(p: seq<int>, x: int, w: int)
    requires forall y :: 0 <= y < |p| && y != x && p[y] == x ==> y == w
    ensures ChildCount(p, x) <= 1
  {
    if p != [] {
      var k := |p| - 1;
      if p[k] == x && k != x {
        ChildCountZero(p[..k], x);
      } else {
        ChildCountAtMostOne(p[..k], x, w);
      }
    }
  }

  lemma {:induction false} ChildCountTwo(p: seq<int>, x: int, a: int, b: int)
    requires 0 <= a < b < |p| && p[a] == x && p[b] == x && a != x && b != x
    ensures ChildCount(p, x) >= 2
  {
    var k := |p| - 1;
    if b < k {
      ChildCountTwo(p[..k], x, a, b);
    } else {
      ChildCountPositive(p[..k], x, a);
    }
  }

  // --------------------------------------------------- pendant vertices

  /** Every record of `x` ends at `w`: `x` hangs from `w` alone. */
  predicate HangsFrom(ls: Lists, x: int, w: int)
    requires 0 <= x < |ls|
  {
    forall i :: 0 <= i < |ls[x]| ==> ls[x][i].v2 == w
  }

  /** A non-root vertex is the endpoint of one of its own records: its parent. */
  lemma ParentRecord(ls: Lists, s: Snapshot, x: int)
    requires Classified(ls, s) && Mirrored(ls) && 0 <= x < |ls| && s.parent[x] != x
    ensures IsNeighbour(ls, x, s.parent[x])
  {
    assert s.pre[x] != -1;
    var p := s.parent[x];
    NeighbourIsEdge(ls, p, x);
    HasEdgeSymmetric(ls, p, x);
    NeighbourIsEdge(ls, x, p);
  }

  /**
   * A vertex all of whose edges lead to one vertex `w` is never marked:
   * as a root it has at most the child `w`, otherwise `w` is its parent
   * and it has no child at all.
   */
  lemma PendantNotArticulation(ls: Lists, s: Snapshot, x: int, w: int)
    requires Classified(ls, s) && Mirrored(ls) && 0 <= x < |ls| && HangsFrom(ls, x, w)
    ensures !s.art[x]
  {
    assert Finished(ls, s, x);
    forall y | 0 <= y < |ls| && y != x && s.parent[y] == x ensures y == w {
      assert s.pre[y] != -1;
      assert IsNeighbour(ls, x, y);
    }
    if s.parent[x] == x {
      ChildCountAtMostOne(s.parent, x, w);
    } else {
      ParentRecord(ls, s, x);
      assert s.parent[x] == w && s.pre[w] < s.pre[x];
      assert forall y :: 0 <= y < |ls| ==> !IsChild(s, x, y);
      LeafNotArticulation(ls, s, x);
    }
  }

  /** A non-root vertex `b` hanging from its parent `c` is a child of `c` whose `low` is its own number. */
  lemma PendantChildLow(ls: Lists, s: Snapshot, c: int, b: int)
    requires Classified(ls, s) && 0 <= b < |ls| && HangsFrom(ls, b, c) && s.parent[b] == c && c != b
    ensures IsChild(s, c, b) && s.low[b] == s.pre[b] > s.pre[c]
  {
    assert s.pre[b] != -1 && s.pre[c] < s.pre[b];
    assert Finished(ls, s, b);
    assert forall y :: 0 <= y < |ls| ==> !IsChild(s, b, y);
  }

  /** Two vertices hanging from a root `c` alone are both its children. */
  lemma RootWithTwoPendants(ls: Lists, s: Snapshot, c: int, a: int, b: int)
    requires Classified(ls, s) && RootsApart(ls, s) && Mirrored(ls)
    requires 0 <= a < |ls| && 0 <= b < |ls| && 0 <= c < |ls| && a != b && a != c && b != c && s.parent[c] == c
    requires |ls[a]| > 0 && HangsFrom(ls, a, c) && |ls[b]| > 0 && HangsFrom(ls, b, c)
    ensures ChildCount(s.parent, c) >= 2
  {
    assert IsNeighbour(ls, a, ls[a][0].v2) && IsNeighbour(ls, b, ls[b][0].v2);
    SameRoot(ls, s, a, c);
    SameRoot(ls, s, b, c);
    ParentRecord(ls, s, a);
    ParentRecord(ls, s, b);
    if a < b { ChildCountTwo(s.parent, c, a, b); } else { ChildCountTwo(s.parent, c, b, a); }
  }

  /** A vertex `d` hanging from a non-root `c` alone, and not the parent of `c`, is a child of `c`. */
  lemma PendantIsChild(ls: Lists, s: Snapshot, c: int, d: int)
    requires Classified(ls, s) && RootsApart(ls, s) && Mirrored(ls)
    requires 0 <= c < |ls| && 0 <= d < |ls| && c != d && s.parent[c] != c && s.parent[c] != d
    requires |ls[d]| > 0 && HangsFrom(ls, d, c)
    ensures s.parent[d] == c
  {
    assert IsNeighbour(ls, d, ls[d][0].v2);
    SameRoot(ls, s, d, c);
    if s.parent[d] == d {
      RootHasChild(ls, s, c);
      assert false;
    }
    ParentRecord(ls, s, d);
  }

  /**
   * A vertex `c` with two neighbours `a` and `b` that hang from it alone is
   * always marked: removing `c` cuts `a` off from `b`. As a root, `c` has
   * both as children; otherwise one of them is not its parent, and that
   * one is a child whose `low` does not reach above `c`.
   */
  lemma TwoPendantsArticulation(ls: Lists, s: Snapshot, c: int, a: int, b: int)
    requires Classified(ls, s) && RootsApart(ls, s) && Mirrored(ls)
    requires 0 <= a < |ls| && 0 <= b < |ls| && 0 <= c < |ls| && a != b && a != c && b != c
    requires |ls[a]| > 0 && HangsFrom(ls, a, c) && |ls[b]| > 0 && HangsFrom(ls, b, c)
    ensures s.art[c]
  {
    assert Finished(ls, s, c);
    if s.parent[c] == c {
      RootWithTwoPendants(ls, s, c, a, b);
    } else {
      var d := if s.parent[c] == a then b else a;
      PendantIsChild(ls, s, c, d);
      PendantChildLow(ls, s, c, d);
    }
  }
}
