/** Half-edge index arithmetic.

    Triangles are stored as consecutive triples in a flat vertex sequence:
    half-edge `e` belongs to triangle `e / 3` and runs from vertex `e` to the
    vertex of the next half-edge in counter-clockwise order.
 */
module Edges {

  /** The first half-edge of the triangle that holds `e`. */
  function TriangleFirstEdge(e: nat): (r: nat)
    ensures r % 3 == 0 && r <= e < r + 3
    ensures r / 3 == e / 3
  {
    e - e % 3
  }

  /** The next half-edge in counter-clockwise order within the same triangle. */
  function NextEdge(e: nat): (r: nat)
    ensures r / 3 == e / 3 && r != e
    ensures TriangleFirstEdge(r) == TriangleFirstEdge(e)
  {
    if e % 3 == 2 then e - 2 else e + 1
  }

  /** The previous half-edge in counter-clockwise order within the same triangle. */
  function PrevEdge(e: nat): (r: nat)
    ensures r / 3 == e / 3 && r != e
    ensures TriangleFirstEdge(r) == TriangleFirstEdge(e)
    ensures NextEdge(r) == e
  {
    if e % 3 == 0 then e + 2 else e - 1
  }

  /** `PrevEdge` undoes `NextEdge`. */
  lemma PrevNext(e: nat)
    ensures PrevEdge(NextEdge(e)) == e
  {
  }

  /** Three steps around a triangle come back to the starting half-edge, and
      the three half-edges visited are pairwise distinct. */
  lemma NextThrice(e: nat)
    ensures NextEdge(NextEdge(NextEdge(e))) == e
    ensures NextEdge(NextEdge(e)) != e
    ensures NextEdge(NextEdge(e)) == PrevEdge(e)
  {
  }

  /** Every edge of a triangle lies below the end of a vertex sequence whose
      length is a multiple of three. */
  lemma EdgesInRange(e: nat, len: nat)
    requires len % 3 == 0 && e < len
    ensures NextEdge(e) < len && PrevEdge(e) < len
    ensures TriangleFirstEdge(e) + 2 < len
  {
  }

  /** The three half-edges of a triangle share their first edge. */
  lemma FirstEdgeOfTriangle(t: nat)
    requires t % 3 == 0
    ensures TriangleFirstEdge(t) == t
    ensures TriangleFirstEdge(t + 1) == t && TriangleFirstEdge(t + 2) == t
  {
  }

  /** The modular form used by the flip code, `e0 + (e + 1) % 3` and
      `e0 + (e + 2) % 3` with `e0 = e - e % 3`, is the same arithmetic. */
  lemma ModularForm(e: nat)
    ensures NextEdge(e) == TriangleFirstEdge(e) + (e + 1) % 3
    ensures PrevEdge(e) == TriangleFirstEdge(e) + (e + 2) % 3
  {
  }
}
