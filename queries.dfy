/**
 * The read-only queries that list edges (`arestas`, `arestasUnicas`,
 * `arestasAdjacentes`), as functions of the adjacency lists. The methods of
 * `Graph` compute them with loops and are proved to return these values.
 */
module EdgeQueries {
  import opened Errors
  import opened Edges
  import opened Adjacency

  /**
   * One pass of `arestas()` over the list `s` of vertex `v`, continuing a
   * listing `acc` with `loops` self-loop records of `v` already seen. A
   * record towards a higher vertex is appended and then inserted a second
   * time at index `v`, which fails when `v` exceeds the length of the
   * listing; a self-loop record is kept on every other occurrence; a record
   * towards a lower vertex is skipped.
   */
  function ScanList(v: nat, s: seq<Edge>, acc: seq<Edge>, loops: nat): (r: Result<seq<Edge>>)
    requires AllTouch(s, v)
    ensures r.Err? ==> r.error == IndexOutOfBounds
    ensures r.Ok? ==> |r.value| >= |acc|
    decreases |s|
  {
    if s == [] then Ok(acc)
    else
      var a := s[0];
      if a.Other(v) > v then
        var appended := acc + [a];
        if v > |appended| then Err(IndexOutOfBounds)
        else ScanList(v, s[1..], appended[..v] + [a] + appended[v..], loops)
      else if a.Other(v) == v then
        ScanList(v, s[1..], if loops % 2 == 0 then acc + [a] else acc, loops + 1)
      else ScanList(v, s[1..], acc, loops)
  }

  /** `arestas()` from vertex `v` on, continuing the listing `acc`. */
  function ScanFrom(ls: Lists, v: nat, acc: seq<Edge>): (r: Result<seq<Edge>>)
    requires WellFormed(ls, |ls|) && v <= |ls|
    ensures r.Err? ==> r.error == IndexOutOfBounds
    ensures r.Ok? ==> |r.value| >= |acc|
    decreases |ls| - v
  {
    if v == |ls| then Ok(acc)
    else
      match ScanList(v, ls[v], acc, 0)
      case Err(e) => Err(e)
      case Ok(next) => ScanFrom(ls, v + 1, next)
  }

  /** The result of `arestas()` on the lists `ls`. */
  function AllEdges(ls: Lists): (r: Result<seq<Edge>>)
    requires WellFormed(ls, |ls|)
    ensures r.Err? ==> r.error == IndexOutOfBounds
  {
    ScanFrom(ls, 0, [])
  }

  /**
   * The listing of one vertex without the second insertion: each record
   * towards a higher vertex once, and every other self-loop record.
   */
  function ListedIn(v: nat, s: seq<Edge>, loops: nat): seq<Edge>
    requires AllTouch(s, v)
    decreases |s|
  {
    if s == [] then []
    else
      var a := s[0];
      var here := if a.Other(v) > v || (a.Other(v) == v && loops % 2 == 0) then [a] else [];
      here + ListedIn(v, s[1..], if a.Other(v) == v then loops + 1 else loops)
  }

  /** The records of `s` that point to a vertex higher than `v`. */
  function UpwardIn(v: nat, s: seq<Edge>): seq<Edge>
    requires AllTouch(s, v)
    decreases |s|
  {
    if s == [] then []
    else (if s[0].Other(v) > v then [s[0]] else []) + UpwardIn(v, s[1..])
  }

  /** The listing without second insertions, from vertex `v` on. */
  function ListedFrom(ls: Lists, v: nat): seq<Edge>
    requires WellFormed(ls, |ls|) && v <= |ls|
    decreases |ls| - v
  {
    if v == |ls| then [] else ListedIn(v, ls[v], 0) + ListedFrom(ls, v + 1)
  }

  /** The records towards a higher vertex, from vertex `v` on. */
  function UpwardFrom(ls: Lists, v: nat): seq<Edge>
    requires WellFormed(ls, |ls|) && v <= |ls|
    decreases |ls| - v
  {
    if v == |ls| then [] else UpwardIn(v, ls[v]) + UpwardFrom(ls, v + 1)
  }

  /** Appending `a` and inserting it again at index `v` adds two copies of `a`. */
  lemma InsertTwiceContent(acc: seq<Edge>, a: Edge, v: nat)
    requires v <= |acc| + 1
    ensures multiset((acc + [a])[..v] + [a] + (acc + [a])[v..]) == multiset(acc) + multiset([a]) + multiset([a])
  {
    var appended := acc + [a];
    assert appended == appended[..v] + appended[v..];
    calc {
      multiset(appended[..v] + [a] + appended[v..]);
      multiset(appended[..v]) + multiset([a]) + multiset(appended[v..]);
      multiset(appended[..v] + appended[v..]) + multiset([a]);
      multiset(acc) + multiset([a]) + multiset([a]);
    }
  }

  lemma {:induction false} ScanListContent(v: nat, s: seq<Edge>, acc: seq<Edge>, loops: nat)
    requires AllTouch(s, v)
    ensures ScanList(v, s, acc, loops).Ok? ==>
      multiset(ScanList(v, s, acc, loops).value) ==
        multiset(acc) + multiset(ListedIn(v, s, loops)) + multiset(UpwardIn(v, s))
    decreases |s|
  {
    if s != [] {
      var a := s[0];
      if a.Other(v) > v {
        if v <= |acc| + 1 {
          var next := (acc + [a])[..v] + [a] + (acc + [a])[v..];
          ScanListContent(v, s[1..], next, loops);
          UpwardStepContent(v, s, acc, loops);
        }
      } else if a.Other(v) == v {
        ScanListContent(v, s[1..], if loops % 2 == 0 then acc + [a] else acc, loops + 1);
        SelfLoopStepContent(v, s, acc, loops);
      } else {
        ScanListContent(v, s[1..], acc, loops);
        assert ListedIn(v, s, loops) == ListedIn(v, s[1..], loops);
        assert UpwardIn(v, s) == UpwardIn(v, s[1..]);
      }
    }
  }

  /** The content equation for a record towards a higher vertex, given it for the rest of the list. */
  lemma UpwardStepContent(v: nat, s: seq<Edge>, acc: seq<Edge>, loops: nat)
    requires AllTouch(s, v) && s != [] && s[0].Other(v) > v && v <= |acc| + 1
    requires var next := (acc + [s[0]])[..v] + [s[0]] + (acc + [s[0]])[v..];
      ScanList(v, s[1..], next, loops).Ok? ==>
        multiset(ScanList(v, s[1..], next, loops).value) ==
          multiset(next) + multiset(ListedIn(v, s[1..], loops)) + multiset(UpwardIn(v, s[1..]))
    ensures ScanList(v, s, acc, loops).Ok? ==>
      multiset(ScanList(v, s, acc, loops).value) ==
        multiset(acc) + multiset(ListedIn(v, s, loops)) + multiset(UpwardIn(v, s))
  {
    var a, rest := s[0], s[1..];
    var listed, upward := ListedIn(v, rest, loops), UpwardIn(v, rest);
    var next := (acc + [a])[..v] + [a] + (acc + [a])[v..];
    var result := ScanList(v, s, acc, loops);
    assert ListedIn(v, s, loops) == [a] + listed;
    assert UpwardIn(v, s) == [a] + upward;
    assert result == ScanList(v, rest, next, loops);
    if result.Ok? {
      InsertTwiceContent(acc, a, v);
      calc {
        multiset(result.value);
        multiset(next) + multiset(listed) + multiset(upward);
        multiset(acc) + (multiset([a]) + multiset(listed)) + (multiset([a]) + multiset(upward));
        multiset(acc) + multiset([a] + listed) + multiset([a] + upward);
      }
    }
  }

  /** The content equation for a self-loop record, given it for the rest of the list. */
  lemma SelfLoopStepContent(v: nat, s: seq<Edge>, acc: seq<Edge>, loops: nat)
    requires AllTouch(s, v) && s != [] && s[0].Other(v) == v
    requires var next := if loops % 2 == 0 then acc + [s[0]] else acc;
      ScanList(v, s[1..], next, loops + 1).Ok? ==>
        multiset(ScanList(v, s[1..], next, loops + 1).value) ==
          multiset(next) + multiset(ListedIn(v, s[1..], loops + 1)) + multiset(UpwardIn(v, s[1..]))
    ensures ScanList(v, s, acc, loops).Ok? ==>
      multiset(ScanList(v, s, acc, loops).value) ==
        multiset(acc) + multiset(ListedIn(v, s, loops)) + multiset(UpwardIn(v, s))
  {
    var a, rest := s[0], s[1..];
    var listed, upward := ListedIn(v, rest, loops + 1), UpwardIn(v, rest);
    var here: seq<Edge> := if loops % 2 == 0 then [a] else [];
    var result := ScanList(v, s, acc, loops);
    assert ListedIn(v, s, loops) == here + listed;
    assert UpwardIn(v, s) == upward;
    assert acc + here == if loops % 2 == 0 then acc + [a] else acc;
    assert result == ScanList(v, rest, acc + here, loops + 1);
    if result.Ok? {
      calc {
        multiset(result.value);
        multiset(acc + here) + multiset(listed) + multiset(upward);
        multiset(acc) + (multiset(here) + multiset(listed)) + multiset(upward);
        multiset(acc) + multiset(here + listed) + multiset(upward);
      }
    }
  }

  lemma {:induction false} ScanFromContent(ls: Lists, v: nat, acc: seq<Edge>)
    requires WellFormed(ls, |ls|) && v <= |ls|
    ensures ScanFrom(ls, v, acc).Ok? ==>
      multiset(ScanFrom(ls, v, acc).value) ==
        multiset(acc) + multiset(ListedFrom(ls, v)) + multiset(UpwardFrom(ls, v))
    decreases |ls| - v
  {
    if v < |ls| {
      ScanListContent(v, ls[v], acc, 0);
      var step := ScanList(v, ls[v], acc, 0);
      if step.Ok? {
        ScanFromContent(ls, v + 1, step.value);
      }
    }
  }

  /**
   * When `arestas()` succeeds, it reports the edges of the usual listing
   * (each edge once from its lower endpoint, every other self-loop record)
   * and, in addition, a second copy of every edge between distinct
   * vertices; only the order differs.
   */
  lemma AllEdgesContent(ls: Lists)
    requires WellFormed(ls, |ls|)
    ensures AllEdges(ls).Ok? ==>
      multiset(AllEdges(ls).value) == multiset(ListedFrom(ls, 0)) + multiset(UpwardFrom(ls, 0))
  {
    ScanFromContent(ls, 0, []);
  }

  /** With the single edge `0 - 1`, `arestas()` lists that edge twice. */
  lemma AllEdgesDoublesAnEdge(w: Weight)
    ensures WellFormed(AddEdgeLists(EmptyLists(2), Edge(0, 1, w)), 2)
    ensures AllEdges(AddEdgeLists(EmptyLists(2), Edge(0, 1, w))) == Ok([Edge(0, 1, w), Edge(0, 1, w)])
  {
    var e := Edge(0, 1, w);
    var ls := AddEdgeLists(EmptyLists(2), e);
    AddEdgeWellFormed(EmptyLists(2), 2, e);
    assert ls[0] == [e] && ls[1] == [e.Mirror()];
    assert [e][..0] + [e] + [e][0..] == [e, e];
    assert ScanList(0, ls[0], [], 0) == ScanList(0, [], [e, e], 0);
    assert ScanList(1, ls[1], [e, e], 0) == Ok([e, e]);
    assert ScanFrom(ls, 2, [e, e]) == Ok([e, e]);
    assert ScanFrom(ls, 1, [e, e]) == Ok([e, e]);
    assert ScanFrom(ls, 0, []) == Ok([e, e]);
  }

  /**
   * With four vertices and the single edge `2 - 3`, `arestas()` throws: at
   * vertex 2 the listing holds one record and the insertion index is 2.
   */
  lemma AllEdgesFailsOnLateEdge(w: Weight)
    ensures WellFormed(AddEdgeLists(EmptyLists(4), Edge(2, 3, w)), 4)
    ensures AllEdges(AddEdgeLists(EmptyLists(4), Edge(2, 3, w))) == Err(IndexOutOfBounds)
  {
    var e := Edge(2, 3, w);
    var ls := AddEdgeLists(EmptyLists(4), e);
    AddEdgeWellFormed(EmptyLists(4), 4, e);
    assert ls[0] == [] && ls[1] == [] && ls[2] == [e] && ls[3] == [e.Mirror()];
    assert ScanList(2, ls[2], [], 0) == Err(IndexOutOfBounds);
    assert ScanFrom(ls, 2, []) == Err(IndexOutOfBounds);
    assert ScanFrom(ls, 1, []) == Err(IndexOutOfBounds);
  }

  /** Some entry of `acc` joins the same endpoints as `e`. */
  predicate HasPair(acc: seq<Edge>, e: Edge) {
    exists i :: 0 <= i < |acc| && acc[i].SamePair(e)
  }

  /**
   * `arestasUnicas()` on the listing `es`: an entry is kept unless an entry
   * already kept joins the same endpoints.
   */
  function Dedup(es: seq<Edge>): (r: seq<Edge>)
    ensures |r| <= |es|
  {
    if es == [] then []
    else
      var kept := Dedup(es[..|es| - 1]);
      var e := es[|es| - 1];
      if HasPair(kept, e) then kept else kept + [e]
  }

  /**
   * What `Dedup` keeps: entries of `es` only, no two of them joining the
   * same endpoints, and for every entry of `es` one joining its endpoints.
   */
  lemma {:induction false} DedupProperties(es: seq<Edge>)
    ensures forall i :: 0 <= i < |Dedup(es)| ==> Dedup(es)[i] in es
    ensures forall i, j :: 0 <= i < j < |Dedup(es)| ==> !Dedup(es)[i].SamePair(Dedup(es)[j])
    ensures forall k :: 0 <= k < |es| ==> HasPair(Dedup(es), es[k])
  {
    if es != [] {
      DedupProperties(es[..|es| - 1]);
      DedupStep(es, Dedup(es[..|es| - 1]), Dedup(es));
    }
  }

  /** No entry before index `k` joins the same endpoints as entry `k`. */
  predicate FirstOfPair(es: seq<Edge>, k: int)
    requires 0 <= k < |es|
  {
    forall j :: 0 <= j < k ==> !es[j].SamePair(es[k])
  }

  /**
   * The entries of `es` that are the first of their pair of endpoints, in
   * the order of the listing.
   */
  function Firsts(es: seq<Edge>): (r: seq<Edge>)
    ensures |r| <= |es|
  {
    if es == [] then []
    else Firsts(es[..|es| - 1]) + (if FirstOfPair(es, |es| - 1) then [es[|es| - 1]] else [])
  }

  /**
   * `arestasUnicas()` keeps, of each pair of endpoints, the entry met first,
   * and keeps the entries in the order of the listing.
   */
  lemma {:induction false} DedupIsFirsts(es: seq<Edge>)
    ensures Dedup(es) == Firsts(es)
  {
    if es != [] {
      var n := |es| - 1;
      var kept := Dedup(es[..n]);
      DedupIsFirsts(es[..n]);
      KeptPairIsEarlier(es, n);
      assert Dedup(es) == if HasPair(kept, es[n]) then kept else kept + [es[n]];
      assert Firsts(es) == Firsts(es[..n]) + (if FirstOfPair(es, n) then [es[n]] else []);
    }
  }

  /** The entries kept before index `n` join the endpoints of entry `n` exactly when an earlier entry does. */
  lemma KeptPairIsEarlier(es: seq<Edge>, n: int)
    requires 0 <= n < |es|
    ensures HasPair(Dedup(es[..n]), es[n]) <==> !FirstOfPair(es, n)
  {
    var prefix := es[..n];
    DedupProperties(prefix);
    PairAmongKept(prefix, Dedup(prefix), es[n]);
    assert forall j :: 0 <= j < n ==> es[j] == prefix[j];
  }

  /**
   * Entries drawn from `prefix` that cover every pair of it join the
   * endpoints of `e` exactly when some entry of `prefix` does.
   */
  lemma PairAmongKept(prefix: seq<Edge>, kept: seq<Edge>, e: Edge)
    requires forall i :: 0 <= i < |kept| ==> kept[i] in prefix
    requires forall k :: 0 <= k < |prefix| ==> HasPair(kept, prefix[k])
    ensures HasPair(kept, e) <==> exists j :: 0 <= j < |prefix| && prefix[j].SamePair(e)
  {
    if HasPair(kept, e) {
      KeptPairInPrefix(prefix, kept, e);
    }
    if j :| 0 <= j < |prefix| && prefix[j].SamePair(e) {
      PrefixPairKept(prefix, kept, e, j);
    }
  }

  /** A kept entry joining the endpoints of `e` is an entry of `prefix`. */
  lemma KeptPairInPrefix(prefix: seq<Edge>, kept: seq<Edge>, e: Edge)
    requires forall i :: 0 <= i < |kept| ==> kept[i] in prefix
    requires HasPair(kept, e)
    ensures exists j :: 0 <= j < |prefix| && prefix[j].SamePair(e)
  {
    var i :| 0 <= i < |kept| && kept[i].SamePair(e);
    var j :| 0 <= j < |prefix| && prefix[j] == kept[i];
    assert prefix[j].SamePair(e);
  }

  /** An entry of `prefix` joining the endpoints of `e` has its pair among the kept entries. */
  lemma PrefixPairKept(prefix: seq<Edge>, kept: seq<Edge>, e: Edge, j: int)
    requires 0 <= j < |prefix| && prefix[j].SamePair(e)
    requires HasPair(kept, prefix[j])
    ensures HasPair(kept, e)
  {
    var i :| 0 <= i < |kept| && kept[i].SamePair(prefix[j]);
    assert kept[i].SamePair(e);
  }

  /** Of two records of the edge `0 - 1` with different weights, the first one is kept. */
  lemma DedupKeepsFirstWeight()
    ensures Dedup([Edge(0, 1, 1.0), Edge(0, 1, 2.0)]) == [Edge(0, 1, 1.0)]
  {
    var es := [Edge(0, 1, 1.0), Edge(0, 1, 2.0)];
    assert es[..1] == [Edge(0, 1, 1.0)] && es[..1][..0] == [];
    assert Dedup(es[..1]) == [Edge(0, 1, 1.0)];
    assert HasPair([Edge(0, 1, 1.0)], Edge(0, 1, 2.0)) by {
      assert [Edge(0, 1, 1.0)][0].SamePair(Edge(0, 1, 2.0));
    }
  }

  /** `Dedup` over one more entry of the listing. */
  lemma DedupExtend(es: seq<Edge>, i: int)
    requires 0 <= i < |es|
    ensures Dedup(es[..i + 1]) ==
      if HasPair(Dedup(es[..i]), es[i]) then Dedup(es[..i]) else Dedup(es[..i]) + [es[i]]
  {
    assert es[..i + 1][..i] == es[..i];
  }

  /** Appending an entry keeps every pair already present and adds its own. */
  lemma HasPairGrows(acc: seq<Edge>, x: Edge)
    ensures forall e :: HasPair(acc, e) ==> HasPair(acc + [x], e)
    ensures HasPair(acc + [x], x)
  {
    assert (acc + [x])[|acc|] == x;
    forall e | HasPair(acc, e) ensures HasPair(acc + [x], e) {
      var i :| 0 <= i < |acc| && acc[i].SamePair(e);
      assert (acc + [x])[i] == acc[i];
    }
  }

  /** One step of `Dedup`: the three properties carry over to the next entry. */
  lemma DedupStep(es: seq<Edge>, kept: seq<Edge>, r: seq<Edge>)
    requires es != []
    requires forall i :: 0 <= i < |kept| ==> kept[i] in es[..|es| - 1]
    requires forall i, j :: 0 <= i < j < |kept| ==> !kept[i].SamePair(kept[j])
    requires forall k :: 0 <= k < |es| - 1 ==> HasPair(kept, es[k])
    requires r == if HasPair(kept, es[|es| - 1]) then kept else kept + [es[|es| - 1]]
    ensures forall i :: 0 <= i < |r| ==> r[i] in es
    ensures forall i, j :: 0 <= i < j < |r| ==> !r[i].SamePair(r[j])
    ensures forall k :: 0 <= k < |es| ==> HasPair(r, es[k])
  {
    StepFromListing(es, kept, r);
    StepDistinct(kept, es[|es| - 1], r);
    StepCovers(es, kept, r);
  }

  /** The entry kept by a step comes from the listing, like those kept before. */
  lemma StepFromListing(es: seq<Edge>, kept: seq<Edge>, r: seq<Edge>)
    requires es != []
    requires forall i :: 0 <= i < |kept| ==> kept[i] in es[..|es| - 1]
    requires r == kept || r == kept + [es[|es| - 1]]
    ensures forall i :: 0 <= i < |r| ==> r[i] in es
  {
    var prefix := es[..|es| - 1];
    assert es == prefix + [es[|es| - 1]];
    forall i | 0 <= i < |r| ensures r[i] in es {
      if i < |kept| {
        assert r[i] == kept[i] && kept[i] in prefix;
      }
    }
  }

  /** A step adds an entry only when no kept entry joins its endpoints. */
  lemma StepDistinct(kept: seq<Edge>, e: Edge, r: seq<Edge>)
    requires forall i, j :: 0 <= i < j < |kept| ==> !kept[i].SamePair(kept[j])
    requires r == if HasPair(kept, e) then kept else kept + [e]
    ensures forall i, j :: 0 <= i < j < |r| ==> !r[i].SamePair(r[j])
  {
    if !HasPair(kept, e) {
      forall i, j | 0 <= i < j < |r| ensures !r[i].SamePair(r[j]) {
        if j == |kept| {
          assert !kept[i].SamePair(e);
        } else {
          assert r[i] == kept[i] && r[j] == kept[j];
        }
      }
    }
  }

  /** After a step, the pair of every entry read so far is kept. */
  lemma StepCovers(es: seq<Edge>, kept: seq<Edge>, r: seq<Edge>)
    requires es != []
    requires forall k :: 0 <= k < |es| - 1 ==> HasPair(kept, es[k])
    requires r == if HasPair(kept, es[|es| - 1]) then kept else kept + [es[|es| - 1]]
    ensures forall k :: 0 <= k < |es| ==> HasPair(r, es[k])
  {
    HasPairGrows(kept, es[|es| - 1]);
  }

  /** `AdjacentTo` over one more entry of the listing. */
  lemma AdjacentExtend(es: seq<Edge>, i: int, e: Edge)
    requires 0 <= i < |es|
    ensures AdjacentTo(es[..i + 1], e) ==
      if es[i].SamePair(e) || !es[i].SharesEndpoint(e) then AdjacentTo(es[..i], e)
      else AdjacentTo(es[..i], e) + [es[i]]
  {
    assert es[..i + 1][..i] == es[..i];
  }

  /**
   * `arestasAdjacentes(e)` on the listing `es`: the entries that share an
   * endpoint with `e` but do not join the same two endpoints, in order.
   */
  function AdjacentTo(es: seq<Edge>, e: Edge): (r: seq<Edge>)
    ensures |r| <= |es|
    ensures forall x :: x in r <==> x in es && !x.SamePair(e) && x.SharesEndpoint(e)
    ensures forall x :: multiset(r)[x] == if !x.SamePair(e) && x.SharesEndpoint(e) then multiset(es)[x] else 0
  {
    if es == [] then []
    else
      var rest := AdjacentTo(es[..|es| - 1], e);
      var a := es[|es| - 1];
      assert es == es[..|es| - 1] + [a];
      if a.SamePair(e) then rest
      else if a.SharesEndpoint(e) then rest + [a]
      else rest
  }
}
