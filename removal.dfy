/**
 * Edge removal as the visualiser performs it (`removerAresta` and
 * `removePrimeiraOcorrencia`), on the adjacency lists as values.
 */
module EdgeRemoval {
  import opened Edges
  import opened Adjacency

  /** The index of the first record whose endpoint opposite to `o` is `d`, or `|s|` if none is. */
  function FirstMatch(s: seq<Edge>, o: int, d: int): (k: nat)
    requires AllTouch(s, o)
    ensures k <= |s|
    ensures forall j :: 0 <= j < k ==> s[j].Other(o) != d
    ensures k < |s| ==> s[k].Other(o) == d
  {
    if s == [] then 0
    else if s[0].Other(o) == d then 0
    else 1 + FirstMatch(s[1..], o, d)
  }

  /**
   * `removePrimeiraOcorrencia(o, d)`: drop the first record of `s` that points
   * at `d`, keeping the others in order; `s` itself when no record does.
   */
  function RemoveFirst(s: seq<Edge>, o: int, d: int): (r: seq<Edge>)
    requires AllTouch(s, o)
    ensures AllTouch(r, o)
  {
    var k := FirstMatch(s, o, d);
    if k < |s| then s[..k] + s[k + 1..] else s
  }

  /**
   * Only the lowest-index record pointing at `d` leaves, the others keep
   * their order, and nothing changes when no record points at `d`.
   */
  lemma RemoveFirstShape(s: seq<Edge>, o: int, d: int)
    requires AllTouch(s, o)
    ensures FirstMatch(s, o, d) == |s| ==> RemoveFirst(s, o, d) == s
    ensures FirstMatch(s, o, d) < |s| ==> |RemoveFirst(s, o, d)| == |s| - 1
    ensures forall i :: 0 <= i < |RemoveFirst(s, o, d)| ==>
      RemoveFirst(s, o, d)[i] == if i < FirstMatch(s, o, d) then s[i] else s[i + 1]
  {
  }

  lemma {:induction false} CountAppend(a: seq<Edge>, b: seq<Edge>, d: int)
    ensures Count(a + b, d) == Count(a, d) + Count(b, d)
  {
    if a != [] {
      assert (a + b)[1..] == a[1..] + b;
      CountAppend(a[1..], b, d);
    } else {
      assert a + b == b;
    }
  }

  /**
   * In a list whose records all start at `o`, removing the first record that
   * points at `d` takes away one record towards `d` when there is one and
   * leaves the counts towards every other vertex alone.
   */
  lemma RemoveFirstCount(s: seq<Edge>, o: int, d: int, b: int)
    requires forall i :: 0 <= i < |s| ==> s[i].v1 == o
    ensures Count(RemoveFirst(s, o, d), b) == Count(s, b) - (if b == d && Count(s, d) > 0 then 1 else 0)
    ensures |RemoveFirst(s, o, d)| == |s| - (if Count(s, d) > 0 then 1 else 0)
  {
    var k := FirstMatch(s, o, d);
    CountPositive(s, d);
    if k < |s| {
      assert s == s[..k] + [s[k]] + s[k + 1..];
      CountAppend(s[..k] + [s[k]], s[k + 1..], b);
      CountAppend(s[..k], [s[k]], b);
      CountAppend(s[..k], s[k + 1..], b);
    } else {
      assert forall i :: 0 <= i < |s| ==> s[i].v2 != d;
    }
  }

  /**
   * `removerAresta(p, q)` on the lists: the first record of `p` pointing at
   * `q`, then the first record of `q` pointing at `p` (the same list again
   * when `p == q`).
   */
  function RemoveEdgeLists(ls: Lists, p: int, q: int): (r: Lists)
    requires WellFormed(ls, |ls|) && 0 <= p < |ls| && 0 <= q < |ls|
    ensures |r| == |ls|
    ensures forall x :: 0 <= x < |ls| && x != p && x != q ==> r[x] == ls[x]
  {
    var first := ls[p := RemoveFirst(ls[p], p, q)];
    first[q := RemoveFirst(first[q], q, p)]
  }

  /** Removal keeps every record starting at its own vertex. */
  lemma RemoveEdgeWellFormed(ls: Lists, p: int, q: int)
    requires WellFormed(ls, |ls|) && 0 <= p < |ls| && 0 <= q < |ls|
    ensures WellFormed(RemoveEdgeLists(ls, p, q), |ls|)
  {
    var s1 := RemoveFirst(ls[p], p, q);
    RemoveFirstKeepsRecords(ls[p], p, q, |ls|);
    var first := ls[p := s1];
    RemoveFirstKeepsRecords(first[q], q, p, |ls|);
  }

  /** The records left after a removal start at `o` and end in `[0, n)` when all records did. */
  lemma RemoveFirstKeepsRecords(s: seq<Edge>, o: int, d: int, n: int)
    requires forall i :: 0 <= i < |s| ==> s[i].v1 == o && 0 <= s[i].v2 < n
    ensures forall i :: 0 <= i < |RemoveFirst(s, o, d)| ==>
      RemoveFirst(s, o, d)[i].v1 == o && 0 <= RemoveFirst(s, o, d)[i].v2 < n
  {
    RemoveFirstShape(s, o, d);
  }

  /**
   * Removal of `(p, q)` from mirrored lists takes one record towards `q` out
   * of the list of `p` and one towards `p` out of the list of `q` (two out of
   * the list of `p` for a self-loop) when the edge exists, and changes no
   * count when it does not.
   */
  lemma RemoveEdgeCountAt(ls: Lists, p: int, q: int, x: int, d: int)
    requires WellFormed(ls, |ls|) && Mirrored(ls) && 0 <= p < |ls| && 0 <= q < |ls| && 0 <= x < |ls|
    ensures Count(RemoveEdgeLists(ls, p, q)[x], d) ==
      Count(ls[x], d) - (if HasEdge(ls, p, q) && ((x == p && d == q) || (x == q && d == p)) then (if p == q then 2 else 1) else 0)
  {
    MirroredCounts(ls);
    var s1 := RemoveFirst(ls[p], p, q);
    var first := ls[p := s1];
    RemoveFirstKeepsRecords(ls[p], p, q, |ls|);
    var s2 := RemoveFirst(first[q], q, p);
    assert RemoveEdgeLists(ls, p, q) == first[q := s2];
    if x == p && p == q {
      RemoveFirstCount(ls[p], p, p, d);
      RemoveFirstCount(ls[p], p, p, p);
      assert Count(ls[p], p) % 2 == 0;
      RemoveFirstCount(s1, p, p, d);
    } else if x == p {
      RemoveFirstCount(ls[p], p, q, d);
    } else if x == q {
      RemoveFirstCount(ls[q], q, p, d);
      assert Count(ls[q], p) == Count(ls[p], q);
    }
  }

  /** Removing a self-loop from a list that holds its self-loop records in pairs drops two records or none. */
  lemma RemoveSelfLoopLength(s: seq<Edge>, p: int)
    requires forall i :: 0 <= i < |s| ==> s[i].v1 == p
    requires Count(s, p) % 2 == 0
    ensures |RemoveFirst(RemoveFirst(s, p, p), p, p)| == |s| - (if Count(s, p) > 0 then 2 else 0)
  {
    var s1 := RemoveFirst(s, p, p);
    RemoveFirstCount(s, p, p, p);
    RemoveFirstShape(s, p, p);
    RemoveFirstCount(s1, p, p, p);
  }

  /** Removal takes two records out of the lists when the edge exists, none otherwise. */
  lemma RemoveEdgeSumDegrees(ls: Lists, p: int, q: int)
    requires WellFormed(ls, |ls|) && Mirrored(ls) && 0 <= p < |ls| && 0 <= q < |ls|
    ensures SumDegrees(RemoveEdgeLists(ls, p, q)) == SumDegrees(ls) - (if HasEdge(ls, p, q) then 2 else 0)
  {
    MirroredCounts(ls);
    var c := Count(ls[p], q);
    var s1 := RemoveFirst(ls[p], p, q);
    var first := ls[p := s1];
    RemoveFirstKeepsRecords(ls[p], p, q, |ls|);
    var s2 := RemoveFirst(first[q], q, p);
    assert RemoveEdgeLists(ls, p, q) == first[q := s2];
    RemoveFirstCount(ls[p], p, q, q);
    assert |s1| == |ls[p]| - (if c > 0 then 1 else 0);
    SumDegreesUpdate(ls, p, s1);
    SumDegreesUpdate(first, q, s2);
    if p == q {
      assert c % 2 == 0;
      assert first[q] == s1;
      RemoveSelfLoopLength(ls[p], p);
    } else {
      assert Count(ls[q], p) == c;
      RemoveFirstCount(ls[q], q, p, p);
      assert |s2| == |ls[q]| - (if c > 0 then 1 else 0);
    }
  }

  lemma {:induction false} WeightsAppend(a: seq<Edge>, b: seq<Edge>, d: int)
    ensures Weights(a + b, d) == Weights(a, d) + Weights(b, d)
  {
    if a != [] {
      assert (a + b)[1..] == a[1..] + b;
      WeightsAppend(a[1..], b, d);
    } else {
      assert a + b == b;
    }
  }

  /**
   * In a list whose records all start at `o`, removing the first record that
   * points at `d` drops the first of the weights towards `d`, when there is
   * one, and leaves the weights towards every other vertex alone.
   */
  lemma RemoveFirstWeights(s: seq<Edge>, o: int, d: int, b: int)
    requires forall i :: 0 <= i < |s| ==> s[i].v1 == o
    ensures Weights(RemoveFirst(s, o, d), b) ==
      if b == d && Count(s, d) > 0 then Weights(s, b)[1..] else Weights(s, b)
  {
    var k := FirstMatch(s, o, d);
    CountPositive(s, d);
    if k < |s| {
      assert s == s[..k] + [s[k]] + s[k + 1..];
      DropFirstWeight(s[..k], s[k], s[k + 1..], d, b);
      assert RemoveFirst(s, o, d) == s[..k] + s[k + 1..];
    } else {
      assert forall i :: 0 <= i < |s| ==> s[i].v2 != d;
    }
  }

  /** Dropping a record towards `d` that no earlier record matches drops the first weight towards `d`. */
  lemma DropFirstWeight(before: seq<Edge>, x: Edge, after: seq<Edge>, d: int, b: int)
    requires forall i :: 0 <= i < |before| ==> before[i].v2 != d
    requires x.v2 == d
    ensures Weights(before + [x] + after, b) ==
      (if b == d then [x.weight] else []) + Weights(before + after, b)
  {
    var wb, wx, wa := Weights(before, b), Weights([x], b), Weights(after, b);
    assert wx == if b == d then [x.weight] else [] by {
      assert [x][1..] == [];
    }
    WeightsAppend(before + [x], after, b);
    WeightsAppend(before, [x], b);
    WeightsAppend(before, after, b);
    if b == d {
      CountPositive(before, d);
      assert wb == [];
      assert wb + wx + wa == [x.weight] + (wb + wa);
    } else {
      assert wb + wx + wa == wb + wa;
    }
  }

  /**
   * Removal of `(p, q)` from mirrored lists drops the first weight from `p`
   * to `q` and the first from `q` to `p` (the first two self-loop weights of
   * `p` when `p == q`) when the edge exists; no other weights change.
   */
  lemma RemoveEdgeWeightsAt(ls: Lists, p: int, q: int, x: int, d: int)
    requires WellFormed(ls, |ls|) && Mirrored(ls) && 0 <= p < |ls| && 0 <= q < |ls| && 0 <= x < |ls|
    ensures Weights(RemoveEdgeLists(ls, p, q)[x], d) ==
      if HasEdge(ls, p, q) && ((x == p && d == q) || (x == q && d == p)) then
        (if p == q then Weights(ls[x], d)[2..] else Weights(ls[x], d)[1..])
      else Weights(ls[x], d)
  {
    MirroredCounts(ls);
    var s1 := RemoveFirst(ls[p], p, q);
    var first := ls[p := s1];
    RemoveFirstKeepsRecords(ls[p], p, q, |ls|);
    var s2 := RemoveFirst(first[q], q, p);
    assert RemoveEdgeLists(ls, p, q) == first[q := s2];
    if x == p && p == q {
      RemoveFirstWeights(ls[p], p, p, d);
      RemoveFirstCount(ls[p], p, p, p);
      assert Count(ls[p], p) % 2 == 0;
      RemoveFirstWeights(s1, p, p, d);
      if d == p && Count(ls[p], p) > 0 {
        assert Weights(ls[p], p)[1..][1..] == Weights(ls[p], p)[2..];
      }
    } else if x == p {
      RemoveFirstWeights(ls[p], p, q, d);
    } else if x == q {
      RemoveFirstWeights(ls[q], q, p, d);
      assert Count(ls[q], p) == Count(ls[p], q);
    }
  }

  /** Removal keeps the records mirrored, weights included. */
  lemma RemoveEdgeMirrored(ls: Lists, p: int, q: int)
    requires WellFormed(ls, |ls|) && Mirrored(ls) && 0 <= p < |ls| && 0 <= q < |ls|
    ensures Mirrored(RemoveEdgeLists(ls, p, q))
  {
    var r := RemoveEdgeLists(ls, p, q);
    forall a, b | 0 <= a < |r| && 0 <= b < |r|
      ensures if a == b then InPairs(Weights(r[a], a)) else Weights(r[a], b) == Weights(r[b], a)
    {
      RemoveEdgeWeightsAt(ls, p, q, a, b);
      RemoveEdgeWeightsAt(ls, p, q, b, a);
      if a == b {
        var ws := Weights(ls[a], a);
        assert InPairs(ws);
        if HasEdge(ls, p, q) && a == p && a == q {
          assert ws != [];
          assert Weights(r[a], a) == ws[2..];
        } else {
          assert Weights(r[a], a) == ws;
        }
      }
    }
  }

  /**
   * Adding an edge and then removing it between the same endpoints gives
   * back exactly the lists before the addition, self-loops included: the new
   * records sit at the front, so they are the first ones found.
   */
  lemma AddThenRemove(ls: Lists, e: Edge)
    requires WellFormed(ls, |ls|) && 0 <= e.v1 < |ls| && 0 <= e.v2 < |ls|
    ensures WellFormed(AddEdgeLists(ls, e), |ls|)
    ensures RemoveEdgeLists(AddEdgeLists(ls, e), e.v1, e.v2) == ls
  {
    var p, q := e.v1, e.v2;
    var added := AddEdgeLists(ls, e);
    AddEdgeWellFormed(ls, |ls|, e);
    var s1 := RemoveFirst(added[p], p, q);
    var first := added[p := s1];
    var s2 := RemoveFirst(first[q], q, p);
    if p == q {
      assert added[p] == [e.Mirror()] + ([e] + ls[p]);
      assert s1 == [e] + ls[p];
      assert s2 == ls[p];
    } else {
      assert s1 == ls[p];
      assert s2 == ls[q];
    }
    assert first[q := s2] == ls;
  }
}
