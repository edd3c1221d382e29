/**
 * The adjacency structure of the graph as a value: one sequence of edge
 * records per vertex, most recently added first. The class `Graph` keeps
 * these sequences in an array; everything proved here is about the values
 * it holds before and after each operation.
 */
module Adjacency {
  import opened Edges

  type Lists = seq<seq<Edge>>

  /** Every record in the list of `x` starts at `x` and ends at a vertex in `[0, n)`. */
  ghost predicate WellFormed(ls: Lists, n: int) {
    && |ls| == n
    && forall x, i :: 0 <= x < n && 0 <= i < |ls[x]| ==> ls[x][i].v1 == x && 0 <= ls[x][i].v2 < n
  }

  /** Every record of `s` has `o` as an endpoint, so `Other(o)` is defined on all of them. */
  predicate AllTouch(s: seq<Edge>, o: int) {
    forall i :: 0 <= i < |s| ==> s[i].Touches(o)
  }

  /** The number of records in `s` that end at `d`. */
  function Count(s: seq<Edge>, d: int): (c: nat)
    ensures c <= |s|
  {
    if s == [] then 0 else (if s[0].v2 == d then 1 else 0) + Count(s[1..], d)
  }

  lemma {:induction false} CountPositive(s: seq<Edge>, d: int)
    ensures Count(s, d) > 0 <==> exists i :: 0 <= i < |s| && s[i].v2 == d
  {
    if s != [] {
      CountPositive(s[1..], d);
      if Count(s[1..], d) > 0 {
        var i :| 0 <= i < |s[1..]| && s[1..][i].v2 == d;
        assert s[i + 1].v2 == d;
      }
      if exists i :: 0 <= i < |s| && s[i].v2 == d {
        var i :| 0 <= i < |s| && s[i].v2 == d;
        if i > 0 { assert s[1..][i - 1].v2 == d; }
      }
    }
  }

  /** Some record of `p` ends at `q`: the pair has at least one edge. */
  ghost predicate HasEdge(ls: Lists, p: int, q: int)
    requires 0 <= p < |ls|
  {
    Count(ls[p], q) > 0
  }

  /** The weights of the records of `s` that end at `d`, in list order. */
  function Weights(s: seq<Edge>, d: int): (ws: seq<Weight>)
    ensures |ws| == Count(s, d)
  {
    if s == [] then [] else (if s[0].v2 == d then [s[0].weight] else []) + Weights(s[1..], d)
  }

  /** A sequence of weights made of adjacent equal pairs. */
  predicate InPairs(ws: seq<Weight>) {
    ws == [] || (|ws| >= 2 && ws[0] == ws[1] && InPairs(ws[2..]))
  }

  /**
   * Every edge is stored as two mirrored records of the same weight: between
   * distinct vertices the records one way carry the same weights, in the same
   * order, as the records the other way, and a vertex holds its self-loop
   * records in adjacent pairs of equal weight.
   */
  ghost predicate Mirrored(ls: Lists) {
    forall a, b {:trigger Weights(ls[a], b)} :: 0 <= a < |ls| && 0 <= b < |ls| ==>
      if a == b then InPairs(Weights(ls[a], a)) else Weights(ls[a], b) == Weights(ls[b], a)
  }

  /** Mirroring as counts only: as many records one way as the other, self-loop records even. */
  ghost predicate CountsMirrored(ls: Lists) {
    forall a, b {:trigger Count(ls[a], b)} :: 0 <= a < |ls| && 0 <= b < |ls| ==>
      if a == b then Count(ls[a], a) % 2 == 0 else Count(ls[a], b) == Count(ls[b], a)
  }

  lemma {:induction false} InPairsEven(ws: seq<Weight>)
    requires InPairs(ws)
    ensures |ws| % 2 == 0
  {
    if ws != [] {
      InPairsEven(ws[2..]);
    }
  }

  /** In mirrored lists an edge from `p` to `q` is an edge from `q` to `p`. */
  lemma HasEdgeSymmetric(ls: Lists, p: int, q: int)
    requires Mirrored(ls) && 0 <= p < |ls| && 0 <= q < |ls|
    ensures HasEdge(ls, p, q) <==> HasEdge(ls, q, p)
  {
    MirroredCounts(ls);
    assert Count(ls[p], q) > 0 <==> Count(ls[q], p) > 0;
  }

  /** Mirrored weights give mirrored counts. */
  lemma MirroredCounts(ls: Lists)
    requires Mirrored(ls)
    ensures CountsMirrored(ls)
  {
    forall a, b | 0 <= a < |ls| && 0 <= b < |ls|
      ensures if a == b then Count(ls[a], a) % 2 == 0 else Count(ls[a], b) == Count(ls[b], a)
    {
      if a == b {
        InPairsEven(Weights(ls[a], a));
      } else {
        assert |Weights(ls[a], b)| == |Weights(ls[b], a)|;
      }
    }
  }

  /** The sum of the degrees (list lengths) of all vertices. */
  function SumDegrees(ls: Lists): (r: nat)
    ensures ls == [] ==> r == 0
  {
    if ls == [] then 0 else SumDegrees(ls[..|ls| - 1]) + |ls[|ls| - 1]|
  }

  lemma {:induction false} SumDegreesUpdate(ls: Lists, i: int, s: seq<Edge>)
    requires 0 <= i < |ls|
    ensures SumDegrees(ls[i := s]) == SumDegrees(ls) - |ls[i]| + |s|
  {
    var last := |ls| - 1;
    if i < last {
      assert ls[i := s][..last] == ls[..last][i := s];
      SumDegreesUpdate(ls[..last], i, s);
    } else {
      assert ls[i := s][..last] == ls[..last];
    }
  }

  /** The lists of a graph with `n` vertices and no edges. */
  function EmptyLists(n: nat): (ls: Lists)
    ensures WellFormed(ls, n) && Mirrored(ls) && SumDegrees(ls) == 0
  {
    var ls := seq(n, _ => []);
    assert forall a, b :: 0 <= a < n && 0 <= b < n ==> Weights(ls[a], b) == [];
    EmptySum(ls);
    ls
  }

  lemma {:induction false} EmptySum(ls: Lists)
    requires forall x :: 0 <= x < |ls| ==> ls[x] == []
    ensures SumDegrees(ls) == 0
  {
    if ls != [] {
      EmptySum(ls[..|ls| - 1]);
    }
  }

  /**
   * `addAresta(e)`: the record goes to the front of the list of `e.v1`, then
   * its mirror to the front of the list of `e.v2` (for a self-loop both land
   * in the same list, the mirror first).
   */
  function AddEdgeLists(ls: Lists, e: Edge): (r: Lists)
    requires 0 <= e.v1 < |ls| && 0 <= e.v2 < |ls|
    ensures |r| == |ls|
    ensures e.v1 != e.v2 ==> r[e.v1] == [e] + ls[e.v1] && r[e.v2] == [e.Mirror()] + ls[e.v2]
    ensures e.v1 == e.v2 ==> r[e.v1] == [e.Mirror(), e] + ls[e.v1]
    ensures forall x :: 0 <= x < |ls| && x != e.v1 && x != e.v2 ==> r[x] == ls[x]
  {
    var first := ls[e.v1 := [e] + ls[e.v1]];
    first[e.v2 := [e.Mirror()] + first[e.v2]]
  }

  lemma CountCons(x: Edge, s: seq<Edge>, d: int)
    ensures Count([x] + s, d) == (if x.v2 == d then 1 else 0) + Count(s, d)
  {
    assert ([x] + s)[1..] == s;
  }

  /** Adding an edge keeps every record starting at its own vertex. */
  lemma AddEdgeWellFormed(ls: Lists, n: int, e: Edge)
    requires WellFormed(ls, n) && 0 <= e.v1 < n && 0 <= e.v2 < n
    ensures WellFormed(AddEdgeLists(ls, e), n)
  {
    var r: Lists := AddEdgeLists(ls, e);
    forall x: int, i: int | 0 <= x < n && 0 <= i < |r[x]|
      ensures r[x][i].v1 == x && 0 <= r[x][i].v2 < n
    {
      if x == e.v1 && x == e.v2 {
        if i >= 2 { assert r[x][i] == ls[x][i - 2]; }
      } else if x == e.v1 || x == e.v2 {
        if i >= 1 { assert r[x][i] == ls[x][i - 1]; }
      }
    }
  }

  lemma WeightsCons(x: Edge, s: seq<Edge>, d: int)
    ensures Weights([x] + s, d) == (if x.v2 == d then [x.weight] else []) + Weights(s, d)
  {
    assert ([x] + s)[1..] == s;
  }

  /**
   * Adding an edge of weight `w` between `p` and `q` puts `w` in front of
   * the weights from `p` to `q` and in front of those from `q` to `p` (twice
   * in front of the self-loop weights of `p` when `p == q`); no other
   * weights change.
   */
  lemma AddEdgeWeights(ls: Lists, e: Edge, x: int, d: int)
    requires 0 <= e.v1 < |ls| && 0 <= e.v2 < |ls| && 0 <= x < |ls|
    ensures Weights(AddEdgeLists(ls, e)[x], d) ==
      (if x == e.v2 && d == e.v1 then [e.weight] else []) + (if x == e.v1 && d == e.v2 then [e.weight] else [])
        + Weights(ls[x], d)
  {
    var p, q := e.v1, e.v2;
    if p == q && x == p {
      assert [e.Mirror(), e] + ls[x] == [e.Mirror()] + ([e] + ls[x]);
      WeightsCons(e.Mirror(), [e] + ls[x], d);
      WeightsCons(e, ls[x], d);
    } else if x == p {
      WeightsCons(e, ls[x], d);
    } else if x == q {
      WeightsCons(e.Mirror(), ls[x], d);
    }
  }

  /** Adding an edge keeps the records mirrored, weights included, self-loops and parallel edges too. */
  lemma AddEdgeMirrored(ls: Lists, e: Edge)
    requires Mirrored(ls) && 0 <= e.v1 < |ls| && 0 <= e.v2 < |ls|
    ensures Mirrored(AddEdgeLists(ls, e))
  {
    var r: Lists := AddEdgeLists(ls, e);
    forall a, b | 0 <= a < |ls| && 0 <= b < |ls|
      ensures if a == b then InPairs(Weights(r[a], a)) else Weights(r[a], b) == Weights(r[b], a)
    {
      AddEdgeWeights(ls, e, a, b);
      AddEdgeWeights(ls, e, b, a);
      if a == b {
        var ws := Weights(ls[a], a);
        assert InPairs(ws);
        if a == e.v1 && a == e.v2 {
          var added := [e.weight] + [e.weight] + ws;
          assert added[2..] == ws && added[0] == added[1];
          assert InPairs(added);
        } else {
          assert Weights(r[a], a) == ws;
        }
      }
    }
  }

  /** Adding an edge adds exactly two records: the degree sum grows by two. */
  lemma AddEdgeSumDegrees(ls: Lists, e: Edge)
    requires 0 <= e.v1 < |ls| && 0 <= e.v2 < |ls|
    ensures SumDegrees(AddEdgeLists(ls, e)) == SumDegrees(ls) + 2
  {
    var first := ls[e.v1 := [e] + ls[e.v1]];
    SumDegreesUpdate(ls, e.v1, [e] + ls[e.v1]);
    SumDegreesUpdate(first, e.v2, [e.Mirror()] + first[e.v2]);
  }
}
