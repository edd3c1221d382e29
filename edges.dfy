/**
 * An edge record of the graph (the `Aresta` class). Its source is not part
 * of this model; the model takes it that `umVertice()` is the first endpoint,
 * that `outroVertice(x)` is the endpoint opposite to `x`, and that the weight
 * is a value that is only ever copied.
 */
module Edges {

  /** The weight is a Java `double` on which nothing is ever computed. */
  type Weight = real

  datatype Edge = Edge(v1: int, v2: int, weight: Weight) {

    /** `umVertice()`: one of the endpoints, the first. */
    function Either(): (r: int)
      ensures Touches(r)
    {
      v1
    }

    /** `x` is one of the two endpoints. */
    predicate Touches(x: int) {
      x == v1 || x == v2
    }

    /** `outroVertice(x)`: the endpoint opposite to `x`; defined for endpoints only. */
    function Other(x: int): (r: int)
      requires Touches(x)
      ensures (x == v1 && r == v2) || (x == v2 && r == v1)
    {
      if x == v1 then v2 else v1
    }

    /** The record stored at the other endpoint: endpoints swapped, same weight. */
    function Mirror(): (r: Edge)
      ensures r.v1 == v2 && r.v2 == v1 && r.weight == weight
    {
      Edge(v2, v1, weight)
    }

    /** Two records join the same unordered pair of endpoints (weights ignored). */
    predicate SamePair(other: Edge) {
      (v1 == other.v1 && v2 == other.v2) || (v1 == other.v2 && v2 == other.v1)
    }

    /** Two records have at least one endpoint in common. */
    predicate SharesEndpoint(other: Edge) {
      v1 == other.v1 || v1 == other.v2 || v2 == other.v1 || v2 == other.v2
    }
  }
}
