/**
 * Building a graph from a stream of integers (`Grafo(In in)`): the number of
 * vertices, the number of edges, then two endpoints per edge, each edge
 * added with weight 0 in the order read. The stream is a sequence of
 * already-parsed integers; running out of integers is `NoSuchElement`.
 */
module Loading {
  import opened Errors
  import opened Edges
  import opened Adjacency

  /** Add `count` edges whose endpoints are read from `rest`, two at a time. */
  function AddAll(ls: Lists, rest: seq<int>, count: nat): (r: Result<Lists>)
    ensures r.Ok? ==> |r.value| == |ls|
    ensures r.Err? ==> r.error == NoSuchElement || r.error == IndexOutOfBounds
    decreases count
  {
    if count == 0 then Ok(ls)
    else if |rest| < 2 then Err(NoSuchElement)
    else if !(0 <= rest[0] < |ls|) || !(0 <= rest[1] < |ls|) then Err(IndexOutOfBounds)
    else AddAll(AddEdgeLists(ls, Edge(rest[0], rest[1], 0.0)), rest[2..], count - 1)
  }

  /** One edge read: the error for a missing or invalid endpoint, or the lists with that edge added. */
  lemma AddAllStep(ls: Lists, rest: seq<int>, count: nat)
    requires count > 0
    ensures |rest| < 2 ==> AddAll(ls, rest, count) == Err(NoSuchElement)
    ensures |rest| >= 2 && !(0 <= rest[0] < |ls| && 0 <= rest[1] < |ls|) ==>
      AddAll(ls, rest, count) == Err(IndexOutOfBounds)
    ensures |rest| >= 2 && 0 <= rest[0] < |ls| && 0 <= rest[1] < |ls| ==>
      AddAll(ls, rest, count) == AddAll(AddEdgeLists(ls, Edge(rest[0], rest[1], 0.0)), rest[2..], count - 1)
  {
  }

  /** The lists the stream `tokens` describes, or the first error met while reading it. */
  function Load(tokens: seq<int>): (r: Result<Lists>)
    ensures r.Ok? ==> |tokens| >= 2 && tokens[0] >= 0 && tokens[1] >= 0 && |r.value| == tokens[0]
    ensures |tokens| < 1 ==> r == Err(NoSuchElement)
  {
    if |tokens| < 1 then Err(NoSuchElement)
    else if tokens[0] < 0 then Err(IllegalArgument)
    else if |tokens| < 2 then Err(NoSuchElement)
    else if tokens[1] < 0 then Err(IllegalArgument)
    else AddAll(EmptyLists(tokens[0]), tokens[2..], tokens[1])
  }

  /** The first `2 * count` integers of `rest` exist and are all vertices of a graph with `n` vertices. */
  predicate EndpointsFit(rest: seq<int>, n: int, count: nat) {
    2 * count <= |rest| && forall i :: 0 <= i < 2 * count ==> 0 <= rest[i] < n
  }

  /** The endpoints fit for `count` edges exactly when the first two do and those after them fit for `count - 1`. */
  lemma EndpointsFitStep(rest: seq<int>, n: int, count: nat)
    requires count > 0 && |rest| >= 2
    ensures EndpointsFit(rest, n, count) <==>
      0 <= rest[0] < n && 0 <= rest[1] < n && EndpointsFit(rest[2..], n, count - 1)
  {
    if 0 <= rest[0] < n && 0 <= rest[1] < n && EndpointsFit(rest[2..], n, count - 1) {
      forall i | 0 <= i < 2 * count ensures 0 <= rest[i] < n {
        if i >= 2 { assert rest[i] == rest[2..][i - 2]; }
      }
    }
    if EndpointsFit(rest, n, count) {
      forall i | 0 <= i < 2 * (count - 1) ensures 0 <= rest[2..][i] < n {
        assert rest[2..][i] == rest[i + 2];
      }
    }
  }

  /** Adding edges fails exactly when an endpoint is missing or out of range, and keeps the number of vertices. */
  lemma {:induction false} AddAllSucceeds(ls: Lists, rest: seq<int>, count: nat)
    ensures AddAll(ls, rest, count).Ok? <==> EndpointsFit(rest, |ls|, count)
    ensures AddAll(ls, rest, count).Ok? ==> |AddAll(ls, rest, count).value| == |ls|
    decreases count
  {
    if count > 0 && |rest| >= 2 {
      EndpointsFitStep(rest, |ls|, count);
      if 0 <= rest[0] < |ls| && 0 <= rest[1] < |ls| {
        AddAllSucceeds(AddEdgeLists(ls, Edge(rest[0], rest[1], 0.0)), rest[2..], count - 1);
      }
    }
  }

  /** Adding edges keeps the lists well formed, and the degrees grow by two per edge. */
  lemma {:induction false} AddAllShape(ls: Lists, rest: seq<int>, count: nat)
    requires WellFormed(ls, |ls|)
    ensures AddAll(ls, rest, count).Ok? ==>
      var r := AddAll(ls, rest, count).value;
      WellFormed(r, |ls|) && SumDegrees(r) == SumDegrees(ls) + 2 * count
    decreases count
  {
    if count > 0 && |rest| >= 2 && 0 <= rest[0] < |ls| && 0 <= rest[1] < |ls| {
      var e := Edge(rest[0], rest[1], 0.0);
      AddEdgeWellFormed(ls, |ls|, e);
      AddEdgeSumDegrees(ls, e);
      AddAllShape(AddEdgeLists(ls, e), rest[2..], count - 1);
    }
  }

  /** Adding edges keeps the records mirrored, weights included. */
  lemma {:induction false} AddAllMirrored(ls: Lists, rest: seq<int>, count: nat)
    requires Mirrored(ls)
    ensures AddAll(ls, rest, count).Ok? ==> Mirrored(AddAll(ls, rest, count).value)
    decreases count
  {
    if count > 0 && |rest| >= 2 && 0 <= rest[0] < |ls| && 0 <= rest[1] < |ls| {
      var e := Edge(rest[0], rest[1], 0.0);
      AddEdgeMirrored(ls, e);
      AddAllMirrored(AddEdgeLists(ls, e), rest[2..], count - 1);
    }
  }

  /** Every record has weight 0. */
  ghost predicate ZeroWeights(ls: Lists) {
    forall x, i :: 0 <= x < |ls| && 0 <= i < |ls[x]| ==> ls[x][i].weight == 0.0
  }

  /** The edges read all have weight 0, so lists whose records all weigh 0 keep that. */
  lemma {:induction false} AddAllZeroWeights(ls: Lists, rest: seq<int>, count: nat)
    requires ZeroWeights(ls)
    ensures AddAll(ls, rest, count).Ok? ==> ZeroWeights(AddAll(ls, rest, count).value)
    decreases count
  {
    if count > 0 && |rest| >= 2 && 0 <= rest[0] < |ls| && 0 <= rest[1] < |ls| {
      var e := Edge(rest[0], rest[1], 0.0);
      var r: Lists := AddEdgeLists(ls, e);
      forall x: int, i: int | 0 <= x < |r| && 0 <= i < |r[x]|
        ensures r[x][i].weight == 0.0
      {
        if x == e.v1 && x == e.v2 {
          if i >= 2 { assert r[x][i] == ls[x][i - 2]; }
        } else if x == e.v1 || x == e.v2 {
          if i >= 1 { assert r[x][i] == ls[x][i - 1]; }
        }
      }
      AddAllZeroWeights(r, rest[2..], count - 1);
    }
  }

  /**
   * Adding edges keeps the lists well formed and mirrored, and the degrees
   * grow by two per edge.
   */
  lemma AddAllKeeps(ls: Lists, rest: seq<int>, count: nat)
    requires WellFormed(ls, |ls|) && Mirrored(ls)
    ensures AddAll(ls, rest, count).Ok? ==>
      var r := AddAll(ls, rest, count).value;
      WellFormed(r, |ls|) && Mirrored(r) && SumDegrees(r) == SumDegrees(ls) + 2 * count
  {
    AddAllShape(ls, rest, count);
    AddAllMirrored(ls, rest, count);
  }

  /**
   * Loading succeeds exactly when the stream holds a non-negative vertex
   * count, a non-negative edge count and that many pairs of valid
   * endpoints; the graph built then has as many vertices as announced, is
   * well formed and mirrored, its degrees add up to twice the edges, and
   * every record has weight 0.
   */
  lemma LoadSucceeds(tokens: seq<int>)
    ensures Load(tokens).Ok? <==>
      |tokens| >= 2 && tokens[0] >= 0 && tokens[1] >= 0 && EndpointsFit(tokens[2..], tokens[0], tokens[1])
    ensures Load(tokens).Ok? ==>
      var r := Load(tokens).value;
      WellFormed(r, tokens[0]) && Mirrored(r) && SumDegrees(r) == 2 * tokens[1]
    ensures Load(tokens).Ok? ==>
      var r := Load(tokens).value;
      forall x, i :: 0 <= x < |r| && 0 <= i < |r[x]| ==> r[x][i].weight == 0.0
  {
    if |tokens| >= 2 && tokens[0] >= 0 && tokens[1] >= 0 {
      AddAllSucceeds(EmptyLists(tokens[0]), tokens[2..], tokens[1]);
      AddAllKeeps(EmptyLists(tokens[0]), tokens[2..], tokens[1]);
      AddAllZeroWeights(EmptyLists(tokens[0]), tokens[2..], tokens[1]);
    }
  }

  /** The error raised for a malformed stream, in the order the reads happen. */
  lemma LoadErrors(tokens: seq<int>)
    ensures |tokens| == 0 ==> Load(tokens) == Err(NoSuchElement)
    ensures |tokens| >= 1 && tokens[0] < 0 ==> Load(tokens) == Err(IllegalArgument)
    ensures |tokens| >= 2 && tokens[0] >= 0 && tokens[1] < 0 ==> Load(tokens) == Err(IllegalArgument)
    ensures |tokens| >= 2 && tokens[0] >= 0 && tokens[1] >= 0 && |tokens| < 2 + 2 * tokens[1] ==>
      Load(tokens).Err?
  {
    if |tokens| >= 2 && tokens[0] >= 0 && tokens[1] >= 0 && |tokens| < 2 + 2 * tokens[1] {
      LoadSucceeds(tokens);
    }
  }
}
