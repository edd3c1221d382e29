/**
 * What a completed search tells a client of `AlgoritmoBiconexo`: the
 * preorder numbers are a numbering of the vertices, `low` lies between 0
 * and the vertex's own number, and the marks follow from the shape of the
 * search tree (a vertex without children, and so every vertex of a graph
 * without edges, is never an articulation point).
 */
module LowLinkFacts {
  import opened Adjacency
  import opened LowLink

  /** The numbers of the first `k` vertices. */
  ghost function Numbers(pre: seq<int>, k: nat): set<int>
    requires k <= |pre|
  {
    set x | 0 <= x < k :: pre[x]
  }

  /** The numbers `0 .. n - 1`. */
  ghost function Below(n: nat): (r: set<int>)
    ensures forall i :: i in r <==> 0 <= i < n
    ensures |r| == n
  {
    if n == 0 then {} else Below(n - 1) + {n - 1}
  }

  /** Distinct vertices with distinct numbers give as many numbers as vertices. */
  lemma {:induction false} NumbersSize(pre: seq<int>, k: nat)
    requires k <= |pre| && Distinct(pre)
    requires forall x :: 0 <= x < |pre| ==> pre[x] != -1
    ensures |Numbers(pre, k)| == k
  {
    if k > 0 {
      NumbersSize(pre, k - 1);
      assert Numbers(pre, k) == Numbers(pre, k - 1) + {pre[k - 1]};
      assert pre[k - 1] !in Numbers(pre, k - 1);
    }
  }

  /** A subset as large as its superset is the whole superset. */
  lemma SubsetFull(a: set<int>, b: set<int>)
    requires a <= b && |a| == |b|
    ensures a == b
  {
    assert |b - a| == 0;
    assert b - a == {};
  }

  /**
   * After the whole search `pre` is a numbering of the `n` vertices: every
   * number lies in `0 .. n - 1`, no two vertices share one, and every one
   * of `0 .. n - 1` is used; `low` lies between 0 and the vertex's own number.
   */
  lemma Numbering(ls: Lists, s: Snapshot)
    requires Classified(ls, s)
    ensures forall x :: 0 <= x < |ls| ==> 0 <= s.pre[x] < |ls| && 0 <= s.low[x] <= s.pre[x]
    ensures forall x, y :: 0 <= x < |ls| && 0 <= y < |ls| && s.pre[x] == s.pre[y] ==> x == y
    ensures Numbers(s.pre, |ls|) == Below(|ls|)
  {
    assert Numbered(s.pre, |ls|) && Distinct(s.pre) && LowBelow(s);
    NumberingOf(s.pre);
  }

  /** Distinct numbers below `n` on all `n` vertices use every number of `0 .. n - 1`. */
  lemma NumberingOf(pre: seq<int>)
    requires Numbered(pre, |pre|) && Distinct(pre) && forall x :: 0 <= x < |pre| ==> pre[x] != -1
    ensures Numbers(pre, |pre|) == Below(|pre|)
  {
    NumbersSize(pre, |pre|);
    SubsetFull(Numbers(pre, |pre|), Below(|pre|));
  }

  /** A vertex whose call found no unvisited neighbour, a leaf of the search tree, is never marked. */
  lemma LeafNotArticulation(ls: Lists, s: Snapshot, x: int)
    requires Classified(ls, s) && 0 <= x < |ls|
    requires forall y :: 0 <= y < |ls| ==> !IsChild(s, x, y)
    ensures !s.art[x]
  {
    assert Finished(ls, s, x);
    forall y | 0 <= y < |s.parent| && y != x
      ensures s.parent[y] != x
    {
      assert !IsChild(s, x, y);
    }
    ChildCountZero(s.parent, x);
  }

  /** In a graph without edges every vertex is a root without children, so none is marked. */
  lemma NoEdgesNoArticulation(ls: Lists, s: Snapshot)
    requires Classified(ls, s)
    requires forall x :: 0 <= x < |ls| ==> ls[x] == []
    ensures forall x :: 0 <= x < |ls| ==> !s.art[x]
  {
    forall x | 0 <= x < |ls|
      ensures !s.art[x]
    {
      forall y | 0 <= y < |ls|
        ensures !IsChild(s, x, y)
      {
        assert s.pre[y] != -1;
        assert s.parent[y] != y ==> IsNeighbour(ls, s.parent[y], y);
      }
      LeafNotArticulation(ls, s, x);
    }
  }
}
