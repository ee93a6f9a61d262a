/** The doubly connected edge list of triangles (`TrianglesDCEL`).

    `vertices[e]` is the point half-edge `e` starts from; `halfedges[e]` is
    its twin in the adjacent triangle, if any. `halfedges` is allocated once
    at full capacity while `vertices` grows by three per triangle. The
    point-to-edge map is built lazily by `InitRevmap`.
 */
module Dcel {
  import opened OptionIndexes
  import opened Edges

  /** `t` is the last position in `vs` that holds point `p`. */
  ghost predicate IsLastOccurrence(vs: seq<nat>, p: nat, t: nat)
  {
    t < |vs| && vs[t] == p && forall j :: t < j < |vs| ==> vs[j] != p
  }

  /** The loop of `init_revmap`: for every half-edge in order, record it as
      the half-edge of the point it starts from, in a table indexed by point
      and as long as `vertices`. A point index outside the table panics
      (`None`). */
  method BuildRevmap(vertices: seq<nat>) returns (revmap: Option<seq<nat>>)
    ensures revmap.None? <==> exists t :: 0 <= t < |vertices| && vertices[t] >= |vertices|
    ensures revmap.Some? ==> |revmap.value| == |vertices|
    ensures revmap.Some? ==>
      forall p :: 0 <= p < |revmap.value| && p in vertices ==> IsLastOccurrence(vertices, p, revmap.value[p])
    ensures revmap.Some? ==>
      forall p :: 0 <= p < |revmap.value| && p !in vertices ==> revmap.value[p] == 0
  {
    var table: seq<nat> := seq(|vertices|, _ => 0);
    for t := 0 to |vertices|
      invariant |table| == |vertices|
      invariant forall j :: 0 <= j < t ==> vertices[j] < |vertices|
      invariant forall p :: 0 <= p < |table| && p in vertices[..t] ==> IsLastOccurrence(vertices[..t], p, table[p])
      invariant forall p :: 0 <= p < |table| && p !in vertices[..t] ==> table[p] == 0
    {
      if vertices[t] >= |table| {
        return None;
      }
      assert vertices[..t + 1] == vertices[..t] + [vertices[t]];
      table := table[vertices[t] := t];
    }
    assert vertices[..|vertices|] == vertices;
    revmap := Some(table);
  }

  class TrianglesDCEL {
    var vertices: seq<nat>
    var halfedges: seq<Option<nat>>
    var pointsToTriangles: Option<seq<nat>>

    /** `with_capacity`: room for `cap` triangles, no twins, no point map. */
    constructor WithCapacity(cap: nat)
      ensures vertices == [] && |halfedges| == 3 * cap
      ensures forall e :: 0 <= e < |halfedges| ==> halfedges[e] == None
      ensures pointsToTriangles == None
    {
      vertices := [];
      halfedges := seq(3 * cap, _ => None);
      pointsToTriangles := None;
    }

    /** Every recorded twin is an edge of a stored triangle, and every stored
        half-edge has a twin slot. */
    ghost predicate WellLinked()
      reads this
    {
      |vertices| % 3 == 0 && |vertices| <= |halfedges| &&
      forall e :: 0 <= e < |vertices| && halfedges[e].Some? ==> halfedges[e].value < |vertices|
    }

    /** Twins are symmetric and run in opposite directions: the twin of
        `a -> b` is `b -> a`. */
    ghost predicate OppositeTwins()
      reads this
    {
      WellLinked() &&
      forall e :: 0 <= e < |vertices| && halfedges[e].Some? ==>
        halfedges[halfedges[e].value] == Some(e) &&
        vertices[halfedges[e].value] == vertices[NextEdge(e)] &&
        vertices[NextEdge(halfedges[e].value)] == vertices[e]
    }

    /** `num_triangles`. */
    function NumTriangles(): (r: nat)
      reads this
      ensures 3 * r <= |vertices| < 3 * r + 3
    {
      |vertices| / 3
    }

    /** `add_triangle`: appends the three points and returns the first new
        half-edge; twins and the point map are left as they were. */
    method AddTriangle(a: nat, b: nat, c: nat) returns (t: nat)
      modifies this
      ensures t == |old(vertices)|
      ensures vertices == old(vertices) + [a, b, c]
      ensures NumTriangles() == old(NumTriangles()) + 1
      ensures halfedges == old(halfedges) && pointsToTriangles == old(pointsToTriangles)
    {
      t := |vertices|;
      vertices := vertices + [a, b, c];
    }

    /** `triangle_edges`: the half-edges met walking around the triangle from `t`. */
    function TriangleEdges(t: nat): (r: seq<nat>)
      ensures |r| == 3 && r[0] == t
      ensures forall i :: 0 <= i < 3 ==> r[i] / 3 == t / 3
      ensures r[0] != r[1] && r[1] != r[2] && r[2] != r[0]
      ensures NextEdge(r[2]) == t
    {
      NextThrice(t);
      [t, NextEdge(t), NextEdge(NextEdge(t))]
    }

    /** `triangle_points`: the points of the triangle, starting from the
        vertex of `t`. */
    function TrianglePoints(t: nat): (r: seq<nat>)
      reads this
      requires TriangleFirstEdge(t) + 2 < |vertices|
      ensures |r| == 3 && r[0] == vertices[t]
      ensures var f := TriangleFirstEdge(t);
        r == vertices[t..f + 3] + vertices[f..t]
      ensures var f := TriangleFirstEdge(t);
        multiset(r) == multiset(vertices[f..f + 3])
    {
      var es := TriangleEdges(t);
      var f := TriangleFirstEdge(t);
      var r := [vertices[es[0]], vertices[es[1]], vertices[es[2]]];
      assert vertices[f..f + 3] == vertices[f..t] + vertices[t..f + 3];
      assert r == vertices[t..f + 3] + vertices[f..t] by {
        if t == f {
          assert es == [f, f + 1, f + 2];
        } else if t == f + 1 {
          assert es == [f + 1, f + 2, f];
        } else {
          assert es == [f + 2, f, f + 1];
        }
      }
      r
    }

    /** Viewing a triangle from its second or third half-edge rotates its
        points cyclically. */
    lemma TrianglePointsRotate(t: nat)
      requires t % 3 == 0 && t + 2 < |vertices|
      ensures TrianglePoints(t + 1) == [vertices[t + 1], vertices[t + 2], vertices[t]]
      ensures TrianglePoints(t + 2) == [vertices[t + 2], vertices[t], vertices[t + 1]]
      ensures TrianglePoints(t) == [vertices[t], vertices[t + 1], vertices[t + 2]]
    {
      FirstEdgeOfTriangle(t);
    }

    /** `twin`: the opposite half-edge in the adjacent triangle, if any. In a
        linked triangulation it is an edge back from the end of `e` to its
        start, whose own twin is `e`. */
    function Twin(e: nat): (r: Option<nat>)
      reads this
      requires e < |halfedges|
      ensures OppositeTwins() && e < |vertices| && r.Some? ==>
        r.value < |vertices| && halfedges[r.value] == Some(e) &&
        vertices[r.value] == vertices[NextEdge(e)] && vertices[NextEdge(r.value)] == vertices[e]
    {
      halfedges[e]
    }

    /** `edge_endpoint`: the point a half-edge runs to. */
    function EdgeEndpoint(e: nat): (r: nat)
      reads this
      requires TriangleFirstEdge(e) + 2 < |vertices|
      ensures r == TrianglePoints(e)[1]
    {
      vertices[NextEdge(e)]
    }

    /** `link`: makes `a` and `b` each other's twin. */
    method Link(a: nat, b: nat)
      requires a < |halfedges| && b < |halfedges|
      modifies this
      ensures |halfedges| == |old(halfedges)|
      ensures Twin(a) == Some(b) && Twin(b) == Some(a)
      ensures halfedges == old(halfedges)[a := Some(b)][b := Some(a)]
      ensures vertices == old(vertices) && pointsToTriangles == old(pointsToTriangles)
    {
      halfedges := halfedges[a := Some(b)];
      halfedges := halfedges[b := Some(a)];
    }

    /** `unlink`: clears the twin of `a` only (its former twin still points
        back at `a`). */
    method Unlink(a: nat)
      requires a < |halfedges|
      modifies this
      ensures |halfedges| == |old(halfedges)|
      ensures Twin(a) == None
      ensures halfedges == old(halfedges)[a := None]
      ensures vertices == old(vertices) && pointsToTriangles == old(pointsToTriangles)
    {
      halfedges := halfedges[a := None];
    }

    /** `link_option`: `Link` for a twin, `Unlink` for none. */
    method LinkOption(a: nat, b: Option<nat>)
      requires a < |halfedges| && (b.Some? ==> b.value < |halfedges|)
      modifies this
      ensures b.Some? ==> halfedges == old(halfedges)[a := b][b.value := Some(a)]
      ensures b.None? ==> halfedges == old(halfedges)[a := None]
      ensures vertices == old(vertices) && pointsToTriangles == old(pointsToTriangles)
    {
      if b.Some? {
        Link(a, b.value);
      } else {
        Unlink(a);
      }
    }

    /** `init_revmap`: builds the point-to-half-edge map once; a later call
        changes nothing. `panicked` when a point index is not below
        `|vertices|`, which indexes the map out of range; nothing changes
        then. */
    method InitRevmap() returns (panicked: bool)
      modifies this
      ensures vertices == old(vertices) && halfedges == old(halfedges)
      ensures old(pointsToTriangles).Some? ==> !panicked && pointsToTriangles == old(pointsToTriangles)
      ensures panicked <==>
        old(pointsToTriangles).None? && exists t :: 0 <= t < |vertices| && vertices[t] >= |vertices|
      ensures panicked ==> pointsToTriangles == old(pointsToTriangles)
      ensures !panicked ==> pointsToTriangles.Some?
      ensures old(pointsToTriangles).None? && !panicked ==>
        |pointsToTriangles.value| == |vertices| &&
        (forall p :: 0 <= p < |vertices| && p in vertices ==> IsLastOccurrence(vertices, p, pointsToTriangles.value[p])) &&
        (forall p :: 0 <= p < |vertices| && p !in vertices ==> pointsToTriangles.value[p] == 0)
    {
      if pointsToTriangles.Some? {
        return false;
      }
      var revmap := BuildRevmap(vertices);
      if revmap.None? {
        return true;
      }
      pointsToTriangles := revmap;
      panicked := false;
    }

    /** The half-edge `triangles_around_point` starts from, or `None` where
        the source panics: the map was never built, or `p` is outside it. */
    function RevmapStart(p: nat): (r: Option<nat>)
      reads this
      ensures r.None? <==> pointsToTriangles.None? || p >= |pointsToTriangles.value|
      ensures r.Some? ==> r.value == pointsToTriangles.value[p]
    {
      match pointsToTriangles
      case None => None
      case Some(revmap) => if p < |revmap| then Some(revmap[p]) else None
    }
  }

  /** `TrianglesAroundPoint`: walks the half-edges leaving point `p`, first
      turning through twins of each edge, then, on reaching the hull, turning
      the other way from the start. */
  class AroundPoint {
    const dcel: TrianglesDCEL
    ghost const point: nat
    const start: nat
    var current: Option<nat>
    var backward: bool

    /** Every half-edge still to be yielded starts at `point`. */
    ghost predicate Valid()
      reads this, dcel
    {
      dcel.OppositeTwins() &&
      start < |dcel.vertices| && dcel.vertices[start] == point &&
      (current.Some? ==> current.value < |dcel.vertices| && dcel.vertices[current.value] == point)
    }

    /** `triangles_around_point`, which requires the point map. */
    constructor (dcel: TrianglesDCEL, p: nat)
      requires dcel.RevmapStart(p).Some?
      ensures this.dcel == dcel && point == p
      ensures start == dcel.RevmapStart(p).value
      ensures current == Some(start) && !backward
      ensures dcel.OppositeTwins() && start < |dcel.vertices| && dcel.vertices[start] == p ==> Valid()
    {
      this.dcel := dcel;
      point := p;
      start := dcel.RevmapStart(p).value;
      current := Some(dcel.RevmapStart(p).value);
      backward := false;
    }

    /** The walk ends on coming back to `start`. */
    function EndAtStart(e: Option<nat>): Option<nat>
    {
      if e == Some(start) then None else e
    }

    /** `Iterator::next`: yields the current half-edge, which starts at the
        point, and moves on; once exhausted it stays exhausted. Going
        forwards it turns through the twin of the yielded edge; at the hull
        it turns backwards from the twin of the edge before `start`; going
        backwards it turns through the twin of the edge before the yielded
        one. */
    method Next() returns (r: Option<nat>)
      requires Valid()
      modifies this
      ensures Valid()
      ensures r == old(current)
      ensures r.Some? ==> r.value < |dcel.vertices| && dcel.vertices[r.value] == point
      ensures old(current).None? ==> current.None? && backward == old(backward)
      ensures current != Some(start)
      ensures r.Some? && old(backward) ==>
        backward && current == EndAtStart(dcel.Twin(PrevEdge(r.value)))
      ensures r.Some? && !old(backward) && dcel.Twin(r.value).Some? ==>
        !backward && current == EndAtStart(Some(NextEdge(dcel.Twin(r.value).value)))
      ensures r.Some? && !old(backward) && dcel.Twin(r.value).None? ==>
        backward && current == EndAtStart(dcel.Twin(PrevEdge(start)))
    {
      if current.None? {
        return None;
      }
      var result := current.value;
      EdgesInRange(result, |dcel.vertices|);
      if backward {
        current := dcel.Twin(PrevEdge(result));
        if current == Some(start) {
          current := None;
        }
      } else {
        current := match dcel.Twin(result) case Some(t) => Some(NextEdge(t)) case None => None;
        if current.None? {
          EdgesInRange(start, |dcel.vertices|);
          current := dcel.Twin(PrevEdge(start));
          backward := true;
        }
        if current == Some(start) {
          current := None;
        }
      }
      r := Some(result);
    }
  }

  /** Two triangles `0 1 2` and `2 1 3` sharing the edge between points 1
      and 2: the fan around point 1, which lies on the hull, is its last
      half-edge `1 -> 3` and then, turning backwards, `1 -> 2`; then the
      iterator is exhausted. */
  method HullFanExample() returns (a: Option<nat>, b: Option<nat>, c: Option<nat>)
    ensures a == Some(4) && b == Some(1) && c == None
  {
    var dcel := new TrianglesDCEL.WithCapacity(2);
    var t0 := dcel.AddTriangle(0, 1, 2);
    var t1 := dcel.AddTriangle(2, 1, 3);
    dcel.Link(1, 3);
    var panicked := dcel.InitRevmap();
    assert dcel.vertices == [0, 1, 2, 2, 1, 3];
    assert dcel.halfedges == [None, Some(3), None, Some(1), None, None];
    assert dcel.vertices[4] == 1 && 1 in dcel.vertices;
    assert IsLastOccurrence(dcel.vertices, 1, dcel.pointsToTriangles.value[1]);
    assert dcel.RevmapStart(1) == Some(4);
    var fan := new AroundPoint(dcel, 1);
    a := fan.Next();
    b := fan.Next();
    c := fan.Next();
  }

  /** A fresh DCEL with the capacity of `with_capacity(6)`, one triangle and a
      built point map: the fan around its first point starts at half-edge 0. */
  method RevmapExample() returns (first: Option<nat>)
    ensures first == Some(0)
  {
    var dcel := new TrianglesDCEL.WithCapacity(6);
    var t := dcel.AddTriangle(0, 1, 2);
    var panicked := dcel.InitRevmap();
    first := dcel.RevmapStart(0);
  }
}
