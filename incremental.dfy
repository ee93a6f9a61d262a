/** The earlier incremental triangulator: a convex hull kept as a vector of
    points, triangles that know their neighbours, and a table from each
    edge's sorted end points to the triangles on either side of it.
    Coordinates stand for the source's non-NaN floats; only their order and
    equality matter here, and the orientation and area tests are abstract. */
module Incremental {
  import opened OptionIndexes

  datatype Point = Point(x: int, y: int)

  datatype Triangle = Triangle(p0: Point, p1: Point, p2: Point)

  /** `Point::sort` as written: the pair stays when `a.y < b.y`, or when the
      `y` are equal and `a.x < a.y`; otherwise it is swapped. */
  function Sort(a: Point, b: Point): (r: (Point, Point))
    ensures r == (a, b) || r == (b, a)
    ensures r.0.y <= r.1.y
  {
    if a.y < b.y then (a, b)
    else if a.y == b.y && a.x < a.y then (a, b)
    else (b, a)
  }

  /** Under `Sort`, the key of an edge depends on the order of its ends. */
  lemma SortNotCanonical()
    ensures Sort(Point(3, 5), Point(1, 5)) == (Point(3, 5), Point(1, 5))
    ensures Sort(Point(1, 5), Point(3, 5)) == (Point(1, 5), Point(3, 5))
  {
  }

  /** `Point::sort` breaking ties on `a.x < b.x`: the pair in increasing
      `(y, x)` order. */
  function EdgeKey(a: Point, b: Point): (r: (Point, Point))
    ensures r == (a, b) || r == (b, a)
    ensures Ordered(r)
  {
    if a.y < b.y then (a, b)
    else if a.y == b.y && a.x < b.x then (a, b)
    else (b, a)
  }

  /** `k` is in increasing `(y, x)` order. */
  predicate Ordered(k: (Point, Point))
  {
    k.0.y < k.1.y || (k.0.y == k.1.y && k.0.x <= k.1.x)
  }

  /** Both orders of an edge's ends give the same key. */
  lemma EdgeKeyCanonical(a: Point, b: Point)
    ensures EdgeKey(a, b) == EdgeKey(b, a)
  {
  }

  /** No point occurs twice. */
  ghost predicate DistinctPoints(s: seq<Point>)
  {
    forall i, j :: 0 <= i < |s| && 0 <= j < |s| && s[i] == s[j] ==> i == j
  }

  /** `i, i + 1, ..., j - 1`. */
  function Range(i: nat, j: nat): (r: seq<nat>)
    requires i <= j
    ensures |r| == j - i && forall t :: 0 <= t < |r| ==> r[t] == i + t
  {
    seq(j - i, t => i + t)
  }

  ghost predicate Increasing(s: seq<nat>)
  {
    forall i, j :: 0 <= i < j < |s| ==> s[i] < s[j]
  }

  /** The triangle `add_point` tests for hull edge `i`: its two ends and the
      new point. */
  function EdgeTriangle(pts: seq<Point>, i: nat, p: Point): Triangle
    requires i < |pts|
  {
    Triangle(pts[i], pts[if i + 1 == |pts| then 0 else i + 1], p)
  }

  /** The edge after edge `i` of an `n`-gon, as `add_point` finds it with
      `(i + 1) % n`. */
  lemma NextEdge(i: nat, n: nat)
    requires i < n
    ensures (i + 1) % n == if i + 1 == n then 0 else i + 1
  {
  }

  /** The hull edges among `0 .. k` whose triangle with `p` passes `outside`
      (in the source: neither right-handed nor of zero area), in order. */
  function VisibleEdges(pts: seq<Point>, p: Point, outside: Triangle -> bool, k: nat): (r: seq<nat>)
    requires k <= |pts|
    ensures Increasing(r)
    ensures forall t :: 0 <= t < |r| ==> r[t] < k && outside(EdgeTriangle(pts, r[t], p))
  {
    if k == 0 then []
    else
      var r := VisibleEdges(pts, p, outside, k - 1);
      if outside(EdgeTriangle(pts, k - 1, p)) then r + [k - 1] else r
  }

  /** `VisibleEdges` misses no edge: every edge below `k` whose triangle
      passes `outside` is among them. */
  lemma {:induction false} VisibleEdgesComplete(pts: seq<Point>, p: Point, outside: Triangle -> bool, k: nat, i: nat)
    requires k <= |pts| && i < k && outside(EdgeTriangle(pts, i, p))
    ensures i in VisibleEdges(pts, p, outside, k)
  {
    if i < k - 1 {
      VisibleEdgesComplete(pts, p, outside, k - 1, i);
    }
  }

  /** The position `t` of the last gap in `vis`, where `vis[t]` does not
      follow `vis[t - 1]`; nothing when `vis` is one contiguous run. */
  function LastGap(vis: seq<nat>): (r: Option<nat>)
    ensures r.Some? ==> 1 <= r.value < |vis| && vis[r.value - 1] + 1 != vis[r.value]
    ensures r.Some? ==> forall u :: r.value < u < |vis| ==> vis[u - 1] + 1 == vis[u]
    ensures r.None? ==> forall u :: 1 <= u < |vis| ==> vis[u - 1] + 1 == vis[u]
  {
    if |vis| < 2 then None
    else if vis[|vis| - 2] + 1 != vis[|vis| - 1] then Some(|vis| - 1)
    else LastGap(vis[..|vis| - 1])
  }

  /** The hull `add_point` leaves, given its visible edges `vis`: unchanged
      when there are none; with one run `s ..= e`, the points strictly inside
      it replaced by `p`; with a gap ending a run at `js - 1` and starting
      the next at `je`, `p` followed by the points `js ..= je`. */
  function HullAfter(pts: seq<Point>, p: Point, vis: seq<nat>): seq<Point>
    requires Increasing(vis) && forall t :: 0 <= t < |vis| ==> vis[t] < |pts|
  {
    if vis == [] then pts
    else match LastGap(vis)
      case None => pts[..vis[0] + 1] + [p] + pts[vis[|vis| - 1] + 1..]
      case Some(t) => [p] + pts[vis[t - 1] + 1..vis[t] + 1]
  }

  /** Hull point `j` is dropped when both of its edges are visible. */
  ghost predicate Dropped(vis: seq<nat>, j: nat, n: nat)
    requires 0 < n
  {
    j in vis && (if j == 0 then n - 1 else j - 1) in vis
  }

  /** One run of visible edges `s ..= e`, short of the whole hull: `p`
      replaces the points strictly inside the run, and a point stays exactly
      when one of its edges is hidden. */
  lemma ContiguousRun(pts: seq<Point>, p: Point, s: nat, e: nat)
    requires s <= e < |pts| && !(s == 0 && e == |pts| - 1)
    ensures HullAfter(pts, p, Range(s, e + 1)) == pts[..s + 1] + [p] + pts[e + 1..]
    ensures |HullAfter(pts, p, Range(s, e + 1))| == |pts| - (e - s) + 1
    ensures DistinctPoints(pts) && p !in pts ==>
      forall j :: 0 <= j < |pts| ==> (pts[j] in HullAfter(pts, p, Range(s, e + 1)) <==> !Dropped(Range(s, e + 1), j, |pts|))
  {
    var vis := Range(s, e + 1);
    var r := pts[..s + 1] + [p] + pts[e + 1..];
    assert LastGap(vis).None?;
    if DistinctPoints(pts) && p !in pts {
      forall j | 0 <= j < |pts|
        ensures pts[j] in r <==> !Dropped(vis, j, |pts|)
      {
        KeptOrDropped(pts, p, s, e, j);
      }
    }
  }

  lemma KeptOrDropped(pts: seq<Point>, p: Point, s: nat, e: nat, j: nat)
    requires s <= e < |pts| && !(s == 0 && e == |pts| - 1) && j < |pts|
    requires DistinctPoints(pts) && p !in pts
    ensures pts[j] in pts[..s + 1] + [p] + pts[e + 1..] <==> !Dropped(Range(s, e + 1), j, |pts|)
  {
    var vis := Range(s, e + 1);
    var r := pts[..s + 1] + [p] + pts[e + 1..];
    assert j in vis <==> s <= j <= e by {
      if s <= j <= e { assert vis[j - s] == j; }
    }
    var pj := if j == 0 then |pts| - 1 else j - 1;
    assert pj in vis <==> s <= pj <= e by {
      if s <= pj <= e { assert vis[pj - s] == pj; }
    }
    if j <= s {
      assert r[j] == pts[j];
    } else if e < j {
      assert r[j - e + s + 1] == pts[j];
    } else {
      forall t | 0 <= t < |r|
        ensures r[t] != pts[j]
      {
        if t <= s {
          assert r[t] == pts[t];
        } else if t > s + 1 {
          assert r[t] == pts[e + t - s - 1];
        }
      }
    }
  }

  /** Visible edges `0 ..= a` and `b .. |pts|`, wrapping round the end of
      the vector: the hull becomes `p` followed by the points `a + 1 ..= b`,
      and a point stays exactly when one of its edges is hidden. */
  lemma WrappedRun(pts: seq<Point>, p: Point, a: nat, b: nat)
    requires a + 1 < b < |pts|
    ensures HullAfter(pts, p, Range(0, a + 1) + Range(b, |pts|)) == [p] + pts[a + 1..b + 1]
    ensures DistinctPoints(pts) && p !in pts ==>
      forall j :: 0 <= j < |pts| ==>
        (pts[j] in HullAfter(pts, p, Range(0, a + 1) + Range(b, |pts|)) <==> !Dropped(Range(0, a + 1) + Range(b, |pts|), j, |pts|))
  {
    var vis := Range(0, a + 1) + Range(b, |pts|);
    WrappedGap(a, b, |pts|);
    var r := HullAfter(pts, p, vis);
    assert r == [p] + pts[a + 1..b + 1];
    if DistinctPoints(pts) && p !in pts {
      forall j | 0 <= j < |pts|
        ensures pts[j] in r <==> !Dropped(vis, j, |pts|)
      {
        WrappedKept(pts, p, a, b, j);
      }
    }
  }

  /** The visible edges of a wrapped run are increasing, in range, and have
      their one gap between `a` and `b`. */
  lemma WrappedGap(a: nat, b: nat, n: nat)
    requires a + 1 < b < n
    ensures var vis := Range(0, a + 1) + Range(b, n);
      Increasing(vis) && (forall t :: 0 <= t < |vis| ==> vis[t] < n) &&
      LastGap(vis) == Some(a + 1) && vis[a] == a && vis[a + 1] == b
  {
    var vis := Range(0, a + 1) + Range(b, n);
    WrappedForm(a, b, n);
    assert vis[a] + 1 != vis[a + 1];
    var g := LastGap(vis);
    if g.None? {
      assert false;
    } else if g.value < a + 1 {
      assert false;
    } else if g.value > a + 1 {
      assert false;
    }
  }

  /** The wrapped run's visible edges, element by element. */
  lemma WrappedForm(a: nat, b: nat, n: nat)
    requires a + 1 < b < n
    ensures var vis := Range(0, a + 1) + Range(b, n);
      |vis| == a + 1 + n - b &&
      forall t :: 0 <= t < |vis| ==> vis[t] == if t <= a then t else b + t - a - 1
  {
  }

  lemma WrappedKept(pts: seq<Point>, p: Point, a: nat, b: nat, j: nat)
    requires a + 1 < b < |pts| && j < |pts|
    requires DistinctPoints(pts) && p !in pts
    ensures pts[j] in [p] + pts[a + 1..b + 1] <==> !Dropped(Range(0, a + 1) + Range(b, |pts|), j, |pts|)
  {
    var vis := Range(0, a + 1) + Range(b, |pts|);
    var r := [p] + pts[a + 1..b + 1];
    assert forall t :: 0 <= t < |vis| ==> vis[t] == if t <= a then t else b + t - a - 1;
    assert j in vis <==> j <= a || b <= j by {
      if j <= a { assert vis[j] == j; }
      else if b <= j { assert vis[j - b + a + 1] == j; }
    }
    var pj := if j == 0 then |pts| - 1 else j - 1;
    assert pj in vis <==> pj <= a || b <= pj by {
      if pj <= a { assert vis[pj] == pj; }
      else if b <= pj { assert vis[pj - b + a + 1] == pj; }
    }
    if a + 1 <= j <= b {
      assert r[j - a] == pts[j];
    } else {
      forall t | 0 < t < |r|
        ensures r[t] != pts[j]
      {
        assert r[t] == pts[a + t];
      }
    }
  }

  /** What the scan of `add_point` has gathered once it has met the visible
      edges `vis`: the callback's triangles, the first and last visible
      edge, and the last gap. */
  ghost predicate Scanned(pts: seq<Point>, p: Point, vis: seq<nat>, calls: seq<Triangle>,
                          start: Option<nat>, jumpStart: Option<nat>, jumpEnd: Option<nat>, end: Option<nat>)
  {
    (forall t :: 0 <= t < |vis| ==> vis[t] < |pts|) &&
    |calls| == |vis| && (forall t :: 0 <= t < |vis| ==> calls[t] == EdgeTriangle(pts, vis[t], p)) &&
    (vis == [] <==> start.None?) && (vis == [] <==> end.None?) &&
    (vis != [] ==> start == Some(vis[0]) && end == Some(vis[|vis| - 1])) &&
    (LastGap(vis).None? <==> jumpStart.None?) && (LastGap(vis).None? <==> jumpEnd.None?) &&
    (LastGap(vis).Some? ==> jumpStart == Some(vis[LastGap(vis).value - 1] + 1) && jumpEnd == Some(vis[LastGap(vis).value]))
  }

  /** A new last element `i` opens a gap exactly when it does not follow the
      old last one. */
  lemma LastGapAppend(vis: seq<nat>, i: nat)
    ensures vis != [] && vis[|vis| - 1] + 1 != i ==> LastGap(vis + [i]) == Some(|vis|)
    ensures !(vis != [] && vis[|vis| - 1] + 1 != i) ==> LastGap(vis + [i]) == LastGap(vis)
  {
    assert (vis + [i])[..|vis|] == vis;
  }

  /** Meeting visible edge `i` updates the scan as the loop body does. */
  lemma ScanVisible(pts: seq<Point>, p: Point, vis: seq<nat>, calls: seq<Triangle>,
                    start: Option<nat>, jumpStart: Option<nat>, jumpEnd: Option<nat>, end: Option<nat>, i: nat)
    requires Scanned(pts, p, vis, calls, start, jumpStart, jumpEnd, end) && i < |pts|
    ensures var gap := end.Some? && end.value + 1 != i;
      Scanned(pts, p, vis + [i], calls + [EdgeTriangle(pts, i, p)], if start.None? then Some(i) else start,
              if gap then Some(end.value + 1) else jumpStart, if gap then Some(i) else jumpEnd, Some(i))
  {
    LastGapAppend(vis, i);
    var vis', calls' := vis + [i], calls + [EdgeTriangle(pts, i, p)];
    forall t | 0 <= t < |vis'|
      ensures vis'[t] < |pts| && calls'[t] == EdgeTriangle(pts, vis'[t], p)
    {
      if t < |vis| {
        assert vis'[t] == vis[t] && calls'[t] == calls[t];
      }
    }
  }

  /** Once every edge is scanned, the hull `add_point` leaves follows from
      the first and last visible edge and the last gap. */
  lemma ScanResult(pts: seq<Point>, p: Point, vis: seq<nat>, calls: seq<Triangle>,
                   start: Option<nat>, jumpStart: Option<nat>, jumpEnd: Option<nat>, end: Option<nat>)
    requires Scanned(pts, p, vis, calls, start, jumpStart, jumpEnd, end) && Increasing(vis)
    ensures start.None? ==> jumpStart.None? && HullAfter(pts, p, vis) == pts
    ensures start.Some? && jumpStart.None? ==>
      end.Some? && start.value <= end.value < |pts| &&
      HullAfter(pts, p, vis) == pts[..start.value + 1] + [p] + pts[end.value + 1..]
    ensures jumpStart.Some? ==>
      start.Some? && end.Some? && start.value != end.value && jumpEnd.Some? &&
      jumpStart.value <= jumpEnd.value < |pts| &&
      HullAfter(pts, p, vis) == [p] + pts[jumpStart.value..jumpEnd.value + 1]
  {
    if vis != [] && |vis| > 1 {
      assert vis[0] < vis[|vis| - 1];
    }
  }

  /** The scan of `add_point` over the edges of `pts`: the triangles handed
      to the callback, the first and last visible edge, and the last gap
      (`jump_start`, `jump_end`). */
  method Scan(pts: seq<Point>, p: Point, outside: Triangle -> bool)
    returns (calls: seq<Triangle>, start: Option<nat>, jumpStart: Option<nat>, jumpEnd: Option<nat>, end: Option<nat>)
    ensures Scanned(pts, p, VisibleEdges(pts, p, outside, |pts|), calls, start, jumpStart, jumpEnd, end)
  {
    start, jumpStart, jumpEnd, end := None, None, None, None;
    calls := [];
    ghost var vis: seq<nat> := [];
    var i := 0;
    while i < |pts|
      invariant i <= |pts| && vis == VisibleEdges(pts, p, outside, i)
      invariant Scanned(pts, p, vis, calls, start, jumpStart, jumpEnd, end)
    {
      NextEdge(i, |pts|);
      var triangle := Triangle(pts[i], pts[(i + 1) % |pts|], p);
      assert triangle == EdgeTriangle(pts, i, p);
      if outside(triangle) {
        assert VisibleEdges(pts, p, outside, i + 1) == vis + [i];
        ScanVisible(pts, p, vis, calls, start, jumpStart, jumpEnd, end, i);
        ghost var gap, start0, jumpStart0, jumpEnd0, end0 := end.Some? && end.value + 1 != i, start, jumpStart, jumpEnd, end;
        calls := calls + [triangle];
        if start.None? {
          start := Some(i);
        }
        if end.Some? && end.value + 1 != i {
          jumpStart := Some(end.value + 1);
          jumpEnd := Some(i);
        }
        end := Some(i);
        vis := vis + [i];
        assert start == (if start0.None? then Some(i) else start0);
        assert jumpStart == (if gap then Some(end0.value + 1) else jumpStart0);
        assert jumpEnd == (if gap then Some(i) else jumpEnd0);
      } else {
        assert VisibleEdges(pts, p, outside, i + 1) == vis;
      }
      assert vis == VisibleEdges(pts, p, outside, i + 1);
      i := i + 1;
    }
  }

  /** The hull of the incremental triangulator: its points in order. */
  class ConvexHull {
    var points: seq<Point>

    /** `ConvexHull::new`: the seed triangle's three points. */
    constructor New(a: Point, b: Point, c: Point)
      ensures points == [a, b, c]
    {
      points := [a, b, c];
    }

    /** `add_point`: hands the triangle of every visible edge to the
        callback, in edge order (returned here as `calls`), then drains and
        inserts to take in `p` between the first and last visible edge, or
        keeps only the run after the last gap. */
    method AddPoint(p: Point, outside: Triangle -> bool) returns (calls: seq<Triangle>)
      modifies this
      ensures var vis := VisibleEdges(old(points), p, outside, |old(points)|);
        |calls| == |vis| && (forall t :: 0 <= t < |vis| ==> calls[t] == EdgeTriangle(old(points), vis[t], p)) &&
        points == HullAfter(old(points), p, vis)
    {
      ghost var pts, vis := points, VisibleEdges(points, p, outside, |points|);
      var start, jumpStart, jumpEnd, end;
      calls, start, jumpStart, jumpEnd, end := Scan(points, p, outside);
      ScanResult(pts, p, vis, calls, start, jumpStart, jumpEnd, end);
      if start.Some? && jumpStart.None? && end.Some? && start.value != end.value {
        points := points[..start.value + 1] + points[end.value + 1..];
        points := points[..start.value + 1] + [p] + points[start.value + 1..];
        assert points == pts[..start.value + 1] + [p] + pts[end.value + 1..];
        assert points == HullAfter(pts, p, vis);
      } else if start.Some? && end.Some? && start.value == end.value {
        points := points[..start.value + 1] + [p] + points[start.value + 1..];
        assert points == HullAfter(pts, p, vis);
      } else if jumpStart.Some? {
        var je := jumpEnd.value;
        points := points[..je + 1];
        points := points[jumpStart.value..];
        assert points == pts[jumpStart.value..je + 1];
        points := [p] + points;
      } else {
        assert points == HullAfter(pts, p, vis);
      }
    }
  }

  /** A triangle's neighbours across its three edges, slot `k` facing
      corner `k`. */
  datatype Neighbours = Neighbours(n0: Option<nat>, n1: Option<nat>, n2: Option<nat>)

  /** An edge table entry: the triangle that first added the edge and the
      one that added it next. */
  datatype SharedEdge = SharedEdge(first: nat, second: Option<nat>)

  /** A triangle with its neighbours; its circumcircle is not modelled. */
  datatype MetaTriangle = MetaTriangle(triangle: Triangle, neighbours: Neighbours)

  /** Corner `k` of `t`. */
  function Corner(t: Triangle, k: nat): Point
    requires k < 3
  {
    if k == 0 then t.p0 else if k == 1 then t.p1 else t.p2
  }

  /** Neighbour slot `k`. */
  function NeighbourAt(n: Neighbours, k: nat): Option<nat>
    requires k < 3
  {
    if k == 0 then n.n0 else if k == 1 then n.n1 else n.n2
  }

  /** The slot that faces edge `a`-`b`: the first corner that is neither end,
      or the last corner when every corner is one of them. */
  function Slot(t: Triangle, a: Point, b: Point): (k: nat)
    ensures k < 3
    ensures forall j :: 0 <= j < k ==> Corner(t, j) == a || Corner(t, j) == b
    ensures k < 2 ==> Corner(t, k) != a && Corner(t, k) != b
  {
    if t.p0 != a && t.p0 != b then 0
    else if t.p1 != a && t.p1 != b then 1
    else 2
  }

  /** `MetaTriangle::new`: no neighbours yet. */
  function NewMetaTriangle(t: Triangle): (r: MetaTriangle)
    ensures r.triangle == t && forall k :: 0 <= k < 3 ==> NeighbourAt(r.neighbours, k).None?
  {
    MetaTriangle(t, Neighbours(None, None, None))
  }

  /** `against_edge`: the corner of `mt` facing edge `a`-`b`. */
  function AgainstEdge(mt: MetaTriangle, a: Point, b: Point): (r: Point)
    ensures r == Corner(mt.triangle, Slot(mt.triangle, a, b))
    ensures r == mt.triangle.p0 || r == mt.triangle.p1 || r == mt.triangle.p2
    ensures (exists k :: 0 <= k < 3 && Corner(mt.triangle, k) != a && Corner(mt.triangle, k) != b) ==> r != a && r != b
  {
    if mt.triangle.p0 != a && mt.triangle.p0 != b then mt.triangle.p0
    else if mt.triangle.p1 != a && mt.triangle.p1 != b then mt.triangle.p1
    else mt.triangle.p2
  }

  /** `neighbour`: the neighbour across edge `a`-`b`, in the slot
      `against_edge` picks. */
  function Neighbour(mt: MetaTriangle, a: Point, b: Point): (r: Option<nat>)
    ensures r == NeighbourAt(mt.neighbours, Slot(mt.triangle, a, b))
  {
    if mt.triangle.p0 != a && mt.triangle.p0 != b then mt.neighbours.n0
    else if mt.triangle.p1 != a && mt.triangle.p1 != b then mt.neighbours.n1
    else mt.neighbours.n2
  }

  /** A write through `neighbour_mut`: slot `Slot(a, b)` becomes `v`. */
  function SetNeighbour(mt: MetaTriangle, a: Point, b: Point, v: Option<nat>): (r: MetaTriangle)
    ensures r.triangle == mt.triangle
    ensures forall k :: 0 <= k < 3 ==>
      NeighbourAt(r.neighbours, k) == if k == Slot(mt.triangle, a, b) then v else NeighbourAt(mt.neighbours, k)
  {
    var n := mt.neighbours;
    if mt.triangle.p0 != a && mt.triangle.p0 != b then mt.(neighbours := n.(n0 := v))
    else if mt.triangle.p1 != a && mt.triangle.p1 != b then mt.(neighbours := n.(n1 := v))
    else mt.(neighbours := n.(n2 := v))
  }

  /** Reading back through `neighbour` what `neighbour_mut` wrote; edges
      facing another slot keep their neighbour. */
  lemma NeighbourAfterSet(mt: MetaTriangle, a: Point, b: Point, v: Option<nat>, c: Point, d: Point)
    ensures Neighbour(SetNeighbour(mt, a, b, v), a, b) == v
    ensures Slot(mt.triangle, c, d) != Slot(mt.triangle, a, b) ==>
      Neighbour(SetNeighbour(mt, a, b, v), c, d) == Neighbour(mt, c, d)
  {
  }

  /** The corners of `t` are pairwise distinct. */
  predicate Proper(t: Triangle)
  {
    t.p0 != t.p1 && t.p1 != t.p2 && t.p0 != t.p2
  }

  /** `a` and `b` are corners of `t`. */
  predicate OnCorners(t: Triangle, a: Point, b: Point)
  {
    (a == t.p0 || a == t.p1 || a == t.p2) && (b == t.p0 || b == t.p1 || b == t.p2)
  }

  /** In a proper triangle the slot of an edge is that of the third corner,
      so `against_edge` is the corner off the edge, and two edges that
      differ as sets of ends face different slots. */
  lemma EdgeSlots(t: Triangle, a: Point, b: Point, c: Point, d: Point)
    requires Proper(t) && OnCorners(t, a, b) && a != b
    ensures Corner(t, Slot(t, a, b)) != a && Corner(t, Slot(t, a, b)) != b
    ensures OnCorners(t, c, d) && c != d && Slot(t, a, b) == Slot(t, c, d) ==> (c == a && d == b) || (c == b && d == a)
  {
    var k := Slot(t, a, b);
    if k == 2 {
      assert Corner(t, 0) == a || Corner(t, 0) == b;
      assert Corner(t, 1) == a || Corner(t, 1) == b;
    }
  }

  /** The three edge keys of `t`, in the order `add_triangle` adds them. */
  function Keys(t: Triangle): (r: seq<(Point, Point)>)
    ensures |r| == 3
    ensures OnCorners(t, r[0].0, r[0].1) && OnCorners(t, r[1].0, r[1].1) && OnCorners(t, r[2].0, r[2].1)
  {
    [EdgeKey(t.p0, t.p1), EdgeKey(t.p1, t.p2), EdgeKey(t.p2, t.p0)]
  }

  /** An edge table over the triangles `ts`: every entry names triangles
      that exist and that have both ends of the entry's key as corners. */
  ghost predicate Consistent(ts: seq<MetaTriangle>, table: map<(Point, Point), SharedEdge>)
  {
    forall key :: key in table ==>
      table[key].first < |ts| && OnCorners(ts[table[key].first].triangle, key.0, key.1) &&
      (table[key].second.Some? ==>
         table[key].second.value < |ts| && OnCorners(ts[table[key].second.value].triangle, key.0, key.1))
  }

  /** The table once `add_edge` has entered `key` for triangle `index`. */
  function Entered(table: map<(Point, Point), SharedEdge>, index: nat, key: (Point, Point)): map<(Point, Point), SharedEdge>
  {
    table[key := if key in table then SharedEdge(table[key].first, Some(index)) else SharedEdge(index, None)]
  }

  /** The triangles once `add_edge` has entered `key` for triangle `index`
      (a first triangle out of range, which `add_triangle` would index out
      of bounds, never occurs in a consistent mesh). */
  function Linked(ts: seq<MetaTriangle>, table: map<(Point, Point), SharedEdge>, index: nat, key: (Point, Point)): seq<MetaTriangle>
  {
    if key in table && table[key].first < |ts| then
      var first := table[key].first;
      ts[first := SetNeighbour(ts[first], key.0, key.1, Some(index))]
    else ts
  }

  /** The new triangle's copy once `add_edge` has entered `key`. */
  function Filled(mt: MetaTriangle, table: map<(Point, Point), SharedEdge>, key: (Point, Point)): MetaTriangle
  {
    if key in table then SetNeighbour(mt, key.0, key.1, Some(table[key].first)) else mt
  }

  /** `add_edge` on the table: a known key gets `index` as its second
      triangle and keeps its first, a new key gets `index` as its first, and
      no other entry changes. */
  lemma EnteredTable(table: map<(Point, Point), SharedEdge>, index: nat, key: (Point, Point))
    ensures Entered(table, index, key).Keys == table.Keys + {key}
    ensures forall other :: other in table && other != key ==> Entered(table, index, key)[other] == table[other]
    ensures key in table ==> Entered(table, index, key)[key] == SharedEdge(table[key].first, Some(index))
    ensures key !in table ==> Entered(table, index, key)[key] == SharedEdge(index, None)
  {
  }

  /** `add_edge` on the triangles: only the first triangle of a known key
      changes, and only its neighbour across the key, which becomes
      `index`; no triangle changes its corners. */
  lemma LinkedTriangles(ts: seq<MetaTriangle>, table: map<(Point, Point), SharedEdge>, index: nat, key: (Point, Point))
    ensures |Linked(ts, table, index, key)| == |ts|
    ensures forall j :: 0 <= j < |ts| ==> Linked(ts, table, index, key)[j].triangle == ts[j].triangle
    ensures forall j :: 0 <= j < |ts| && !(key in table && table[key].first == j) ==> Linked(ts, table, index, key)[j] == ts[j]
    ensures key in table && table[key].first < |ts| ==>
      Linked(ts, table, index, key)[table[key].first] == SetNeighbour(ts[table[key].first], key.0, key.1, Some(index))
  {
  }

  /** Entering an edge of triangle `index` keeps the table consistent. */
  lemma EnteredConsistent(ts: seq<MetaTriangle>, table: map<(Point, Point), SharedEdge>, index: nat, key: (Point, Point))
    requires Consistent(ts, table) && index < |ts| && OnCorners(ts[index].triangle, key.0, key.1)
    ensures Consistent(Linked(ts, table, index, key), Entered(table, index, key))
  {
    EnteredTable(table, index, key);
    LinkedTriangles(ts, table, index, key);
    var ts', table' := Linked(ts, table, index, key), Entered(table, index, key);
    forall other | other in table'
      ensures table'[other].first < |ts'| && OnCorners(ts'[table'[other].first].triangle, other.0, other.1)
      ensures table'[other].second.Some? ==>
        table'[other].second.value < |ts'| && OnCorners(ts'[table'[other].second.value].triangle, other.0, other.1)
    {
      if other != key {
        assert table'[other] == table[other];
      }
    }
  }

  /** Consistency depends only on the triangles themselves, so it survives
      appending and rewriting neighbours. */
  lemma SameTrianglesConsistent(ts: seq<MetaTriangle>, ts': seq<MetaTriangle>, table: map<(Point, Point), SharedEdge>)
    requires Consistent(ts, table) && |ts| <= |ts'|
    requires forall j :: 0 <= j < |ts| ==> ts'[j].triangle == ts[j].triangle
    ensures Consistent(ts', table)
  {
    forall key | key in table
      ensures OnCorners(ts'[table[key].first].triangle, key.0, key.1)
      ensures table[key].second.Some? ==> OnCorners(ts'[table[key].second.value].triangle, key.0, key.1)
    {
    }
  }

  /** One `add_edge` step for edge `key` of the triangle at `index`: the
      triangles, the table and the new triangle's copy `mt` afterwards. */
  function Enter(ts: seq<MetaTriangle>, table: map<(Point, Point), SharedEdge>, mt: MetaTriangle, index: nat, key: (Point, Point))
    : (seq<MetaTriangle>, map<(Point, Point), SharedEdge>, MetaTriangle)
  {
    (Linked(ts, table, index, key), Entered(table, index, key), Filled(mt, table, key))
  }

  /** The triangles and the table after `add_triangle` (before its closing
      `check_and_flip`) has appended `t` and entered its three edges. */
  function AfterAdd(ts: seq<MetaTriangle>, table: map<(Point, Point), SharedEdge>, t: Triangle): (seq<MetaTriangle>, map<(Point, Point), SharedEdge>)
  {
    var index, k := |ts|, Keys(t);
    var s1 := Enter(ts + [NewMetaTriangle(t)], table, NewMetaTriangle(t), index, k[0]);
    var s2 := Enter(s1.0, s1.1, s1.2, index, k[1]);
    var s3 := Enter(s2.0, s2.1, s2.2, index, k[2]);
    (s3.0[index := s3.2], s3.1)
  }

  /** The three `add_edge` steps inside `AfterAdd`. */
  lemma AfterAddSteps(ts: seq<MetaTriangle>, table: map<(Point, Point), SharedEdge>, t: Triangle)
    returns (ts0: seq<MetaTriangle>, s1: (seq<MetaTriangle>, map<(Point, Point), SharedEdge>, MetaTriangle),
             s2: (seq<MetaTriangle>, map<(Point, Point), SharedEdge>, MetaTriangle),
             s3: (seq<MetaTriangle>, map<(Point, Point), SharedEdge>, MetaTriangle))
    ensures ts0 == ts + [NewMetaTriangle(t)]
    ensures s1 == Enter(ts0, table, NewMetaTriangle(t), |ts|, Keys(t)[0])
    ensures s2 == Enter(s1.0, s1.1, s1.2, |ts|, Keys(t)[1])
    ensures s3 == Enter(s2.0, s2.1, s2.2, |ts|, Keys(t)[2])
    ensures AfterAdd(ts, table, t) == (s3.0[|ts| := s3.2], s3.1)
  {
    var index, k := |ts|, Keys(t);
    ts0 := ts + [NewMetaTriangle(t)];
    s1 := Enter(ts0, table, NewMetaTriangle(t), index, k[0]);
    s2 := Enter(s1.0, s1.1, s1.2, index, k[1]);
    s3 := Enter(s2.0, s2.1, s2.2, index, k[2]);
  }

  /** One `add_edge` step for an edge of the triangle at `index` keeps the
      table consistent and the triangle's corners as they were. */
  lemma EnterConsistent(ts: seq<MetaTriangle>, table: map<(Point, Point), SharedEdge>, mt: MetaTriangle, index: nat, key: (Point, Point))
    requires Consistent(ts, table) && index < |ts| && OnCorners(ts[index].triangle, key.0, key.1)
    ensures var r := Enter(ts, table, mt, index, key);
      Consistent(r.0, r.1) && |r.0| == |ts| && r.0[index].triangle == ts[index].triangle && r.2.triangle == mt.triangle
  {
    EnteredConsistent(ts, table, index, key);
    LinkedTriangles(ts, table, index, key);
  }

  /** `add_triangle` keeps the edge table consistent with the triangles. */
  lemma AddedConsistent(ts: seq<MetaTriangle>, table: map<(Point, Point), SharedEdge>, t: Triangle)
    requires Consistent(ts, table)
    ensures Consistent(AfterAdd(ts, table, t).0, AfterAdd(ts, table, t).1)
  {
    var ts0, s1, s2, s3 := AfterAddSteps(ts, table, t);
    var n, k := |ts|, Keys(t);
    assert Consistent(ts0, table) && n < |ts0| && ts0[n].triangle == t by {
      SameTrianglesConsistent(ts, ts0, table);
    }
    assert Consistent(s1.0, s1.1) && |s1.0| == n + 1 && s1.0[n].triangle == t && s1.2.triangle == t by {
      EnterConsistent(ts0, table, NewMetaTriangle(t), n, k[0]);
    }
    assert Consistent(s2.0, s2.1) && |s2.0| == n + 1 && s2.0[n].triangle == t && s2.2.triangle == t by {
      EnterConsistent(s1.0, s1.1, s1.2, n, k[1]);
    }
    assert Consistent(s3.0, s3.1) && |s3.0| == n + 1 && s3.2.triangle == t by {
      EnterConsistent(s2.0, s2.1, s2.2, n, k[2]);
      LinkedTriangles(s2.0, s2.1, n, k[2]);
    }
    SameTrianglesConsistent(s3.0, s3.0[n := s3.2], s3.1);
  }

  /** `add_triangle` appends `t` and leaves the corners of every earlier
      triangle alone. */
  lemma AddedTriangles(ts: seq<MetaTriangle>, table: map<(Point, Point), SharedEdge>, t: Triangle)
    ensures var r := AfterAdd(ts, table, t).0;
      |r| == |ts| + 1 && r[|ts|].triangle == t && forall j :: 0 <= j < |ts| ==> r[j].triangle == ts[j].triangle
  {
    var ts0, s1, s2, s3 := AfterAddSteps(ts, table, t);
    LinkedTriangles(ts0, table, |ts|, Keys(t)[0]);
    LinkedTriangles(s1.0, s1.1, |ts|, Keys(t)[1]);
    LinkedTriangles(s2.0, s2.1, |ts|, Keys(t)[2]);
  }

  /** Three `add_edge` steps on the table: the keys entered are added,
      a key already known keeps its first triangle and gets `index` as its
      second, a new key gets `index` as its first (and nothing as its
      second when it is entered once), and no other entry changes. */
  lemma EnteredThrice(table: map<(Point, Point), SharedEdge>, index: nat, k0: (Point, Point), k1: (Point, Point), k2: (Point, Point))
    ensures var r := Entered(Entered(Entered(table, index, k0), index, k1), index, k2);
      (forall key :: key in r <==> key in table || key == k0 || key == k1 || key == k2) &&
      (forall key :: key in table && key != k0 && key != k1 && key != k2 ==> r[key] == table[key]) &&
      (forall key :: key in table && (key == k0 || key == k1 || key == k2) ==> r[key] == SharedEdge(table[key].first, Some(index))) &&
      (forall key :: key !in table && (key == k0 || key == k1 || key == k2) ==> r[key].first == index) &&
      (k0 != k1 && k1 != k2 && k0 != k2 ==>
         forall key :: key !in table && (key == k0 || key == k1 || key == k2) ==> r[key] == SharedEdge(index, None))
  {
    var e1 := Entered(table, index, k0);
    var e2 := Entered(e1, index, k1);
    EnteredTable(table, index, k0);
    EnteredTable(e1, index, k1);
    EnteredTable(e2, index, k2);
  }

  /** `add_triangle` on the edge table: `EnteredThrice` for the three keys
      of `t`. */
  lemma AddedTable(ts: seq<MetaTriangle>, table: map<(Point, Point), SharedEdge>, t: Triangle)
    ensures var r := AfterAdd(ts, table, t).1;
      (forall key :: key in r <==> key in table || key in Keys(t)) &&
      (forall key :: key in table && key !in Keys(t) ==> r[key] == table[key]) &&
      (forall key :: key in table && key in Keys(t) ==> r[key] == SharedEdge(table[key].first, Some(|ts|))) &&
      (forall key :: key !in table && key in Keys(t) ==> r[key].first == |ts|) &&
      (Proper(t) ==> forall key :: key !in table && key in Keys(t) ==> r[key] == SharedEdge(|ts|, None))
  {
    var ts0, s1, s2, s3 := AfterAddSteps(ts, table, t);
    var k := Keys(t);
    assert s3.1 == Entered(Entered(Entered(table, |ts|, k[0]), |ts|, k[1]), |ts|, k[2]);
    EnteredThrice(table, |ts|, k[0], k[1], k[2]);
    assert forall key :: key in k <==> key == k[0] || key == k[1] || key == k[2];
    if Proper(t) {
      ProperKeys(t);
    }
  }

  /** The keys of a triangle with distinct corners: each joins two distinct
      corners in `(y, x)` order, and no two are the same. */
  lemma ProperKeys(t: Triangle)
    requires Proper(t)
    ensures forall k :: 0 <= k < 3 ==> Keys(t)[k].0 != Keys(t)[k].1 && Ordered(Keys(t)[k])
    ensures Keys(t)[0] != Keys(t)[1] && Keys(t)[1] != Keys(t)[2] && Keys(t)[0] != Keys(t)[2]
  {
  }

  /** Two different keys in `(y, x)` order, each joining two distinct
      corners of a triangle with distinct corners, face different slots. */
  lemma DistinctKeySlots(t: Triangle, k: (Point, Point), k': (Point, Point))
    requires Proper(t) && OnCorners(t, k.0, k.1) && OnCorners(t, k'.0, k'.1)
    requires k.0 != k.1 && k'.0 != k'.1 && Ordered(k) && Ordered(k') && k != k'
    ensures Slot(t, k.0, k.1) != Slot(t, k'.0, k'.1)
  {
    EdgeSlots(t, k.0, k.1, k'.0, k'.1);
  }

  /** One `add_edge` step on the new triangle's copy: across the key just
      entered, a known edge's first triangle; across an edge facing another
      slot, what was there. */
  lemma FilledNeighbour(mt: MetaTriangle, table: map<(Point, Point), SharedEdge>, key: (Point, Point), c: (Point, Point))
    ensures key in table && key == c ==> Neighbour(Filled(mt, table, key), c.0, c.1) == Some(table[key].first)
    ensures key !in table || Slot(mt.triangle, key.0, key.1) != Slot(mt.triangle, c.0, c.1) ==>
      Neighbour(Filled(mt, table, key), c.0, c.1) == Neighbour(mt, c.0, c.1)
  {
    if key in table {
      NeighbourAfterSet(mt, key.0, key.1, Some(table[key].first), c.0, c.1);
    }
  }

  /** One `add_edge` step on triangle `f`: across the key just entered, when
      `f` is the key's first triangle, the new triangle `index`; across an
      edge facing another slot, or in any other triangle, what was there. */
  lemma LinkedNeighbour(ts: seq<MetaTriangle>, table: map<(Point, Point), SharedEdge>, index: nat, key: (Point, Point), f: nat, c: (Point, Point))
    requires f < |ts|
    ensures key in table && table[key].first == f && key == c ==> Neighbour(Linked(ts, table, index, key)[f], c.0, c.1) == Some(index)
    ensures !(key in table && table[key].first == f) || Slot(ts[f].triangle, key.0, key.1) != Slot(ts[f].triangle, c.0, c.1) ==>
      Neighbour(Linked(ts, table, index, key)[f], c.0, c.1) == Neighbour(ts[f], c.0, c.1)
  {
    LinkedTriangles(ts, table, index, key);
    if key in table && table[key].first == f {
      NeighbourAfterSet(ts[f], key.0, key.1, Some(index), c.0, c.1);
    }
  }

  /** After `add_triangle` for `t` with distinct corners, the new triangle's
      neighbour across its edge `i` is the edge's first triangle when the
      edge was known, and nothing otherwise. */
  lemma AddedNeighbour(ts: seq<MetaTriangle>, table: map<(Point, Point), SharedEdge>, t: Triangle, i: nat)
    requires Proper(t) && i < 3
    ensures var c := Keys(t)[i];
      Neighbour(AfterAdd(ts, table, t).0[|ts|], c.0, c.1) == if c in table then Some(table[c].first) else None
  {
    var ts0, s1, s2, s3 := AfterAddSteps(ts, table, t);
    var k, c := Keys(t), Keys(t)[i];
    ProperKeys(t);
    EnteredTable(table, |ts|, k[0]);
    EnteredTable(s1.1, |ts|, k[1]);
    var mt0 := NewMetaTriangle(t);
    forall j | 0 <= j < 3 && j != i
      ensures Slot(t, k[j].0, k[j].1) != Slot(t, c.0, c.1)
    {
      DistinctKeySlots(t, k[j], c);
    }
    FilledNeighbour(mt0, table, k[0], c);
    FilledNeighbour(s1.2, s1.1, k[1], c);
    FilledNeighbour(s2.2, s2.1, k[2], c);
  }

  /** After `add_triangle` for `t` with distinct corners, the first triangle
      of each of `t`'s known edges, if its corners are distinct, has the new
      triangle as its neighbour across that edge. */
  lemma AddedBackLink(ts: seq<MetaTriangle>, table: map<(Point, Point), SharedEdge>, t: Triangle, i: nat)
    requires Consistent(ts, table) && Proper(t) && i < 3
    requires Keys(t)[i] in table && Proper(ts[table[Keys(t)[i]].first].triangle)
    ensures var c := Keys(t)[i];
      Neighbour(AfterAdd(ts, table, t).0[table[c].first], c.0, c.1) == Some(|ts|)
  {
    var ts0, s1, s2, s3 := AfterAddSteps(ts, table, t);
    var k, c := Keys(t), Keys(t)[i];
    var f := table[c].first;
    ProperKeys(t);
    EnteredTable(table, |ts|, k[0]);
    EnteredTable(s1.1, |ts|, k[1]);
    LinkedTriangles(ts0, table, |ts|, k[0]);
    LinkedTriangles(s1.0, s1.1, |ts|, k[1]);
    LinkedTriangles(s2.0, s2.1, |ts|, k[2]);
    forall j | 0 <= j < 3 && j != i && k[j] in table && table[k[j]].first == f
      ensures Slot(ts[f].triangle, k[j].0, k[j].1) != Slot(ts[f].triangle, c.0, c.1)
    {
      DistinctKeySlots(ts[f].triangle, k[j], c);
    }
    LinkedNeighbour(ts0, table, |ts|, k[0], f, c);
    LinkedNeighbour(s1.0, s1.1, |ts|, k[1], f, c);
    LinkedNeighbour(s2.0, s2.1, |ts|, k[2], f, c);
  }

  /** `add_triangle` changes no earlier triangle that is not the first
      triangle of one of the new triangle's known edges. */
  lemma AddedUnchanged(ts: seq<MetaTriangle>, table: map<(Point, Point), SharedEdge>, t: Triangle, j: nat)
    requires j < |ts|
    requires forall i :: 0 <= i < 3 && Keys(t)[i] in table ==> table[Keys(t)[i]].first != j
    ensures AfterAdd(ts, table, t).0[j] == ts[j]
  {
    var ts0, s1, s2, s3 := AfterAddSteps(ts, table, t);
    var k := Keys(t);
    EnteredTable(table, |ts|, k[0]);
    EnteredTable(s1.1, |ts|, k[1]);
    LinkedTriangles(ts0, table, |ts|, k[0]);
    LinkedTriangles(s1.0, s1.1, |ts|, k[1]);
    LinkedTriangles(s2.0, s2.1, |ts|, k[2]);
  }

  /** The triangles and the table of the incremental triangulator. */
  class Mesh {
    var triangles: seq<MetaTriangle>
    var edgeTable: map<(Point, Point), SharedEdge>

    ghost predicate Valid()
      reads this
    {
      Consistent(triangles, edgeTable)
    }

    /** An empty mesh, as `triangulate` starts with. */
    constructor Empty()
      ensures Valid() && triangles == [] && edgeTable == map[]
    {
      triangles := [];
      edgeTable := map[];
    }

    /** The `add_edge` closure of `add_triangle` for edge `a`-`b` of the
        triangle at `index`, whose copy `mt` is being filled in. */
    method AddEdge(index: nat, a: Point, b: Point, mt: MetaTriangle) returns (mt': MetaTriangle)
      requires Valid() && index < |triangles| && OnCorners(triangles[index].triangle, a, b)
      modifies this
      ensures Valid()
      ensures triangles == Linked(old(triangles), old(edgeTable), index, EdgeKey(a, b))
      ensures edgeTable == Entered(old(edgeTable), index, EdgeKey(a, b)) && mt' == Filled(mt, old(edgeTable), EdgeKey(a, b))
      ensures |triangles| == old(|triangles|) && triangles[index].triangle == old(triangles)[index].triangle
      ensures mt'.triangle == mt.triangle
    {
      var key := EdgeKey(a, b);
      EnteredConsistent(triangles, edgeTable, index, key);
      LinkedTriangles(triangles, edgeTable, index, key);
      if key in edgeTable {
        var first := edgeTable[key].first;
        triangles := triangles[first := SetNeighbour(triangles[first], key.0, key.1, Some(index))];
        mt' := SetNeighbour(mt, key.0, key.1, Some(first));
        edgeTable := edgeTable[key := SharedEdge(first, Some(index))];
      } else {
        edgeTable := edgeTable[key := SharedEdge(index, None)];
        mt' := mt;
      }
    }

    /** `add_triangle` up to its closing `check_and_flip`: appends the
        triangle and enters its three edges, in order. */
    method AddTriangle(triangle: Triangle)
      requires Valid()
      modifies this
      ensures Valid() && (triangles, edgeTable) == AfterAdd(old(triangles), old(edgeTable), triangle)
    {
      ghost var ts0, s1, s2, s3 := AfterAddSteps(triangles, edgeTable, triangle);
      var mt := NewMetaTriangle(triangle);
      SameTrianglesConsistent(triangles, triangles + [mt], edgeTable);
      triangles := triangles + [mt];
      var index := |triangles| - 1;
      mt := AddEdge(index, triangle.p0, triangle.p1, mt);
      assert triangles == s1.0 && edgeTable == s1.1 && mt == s1.2;
      mt := AddEdge(index, triangle.p1, triangle.p2, mt);
      assert triangles == s2.0 && edgeTable == s2.1 && mt == s2.2;
      mt := AddEdge(index, triangle.p2, triangle.p0, mt);
      assert triangles == s3.0 && edgeTable == s3.1 && mt == s3.2;
      triangles := triangles[index := mt];
      AddedConsistent(old(triangles), old(edgeTable), triangle);
    }
  }
}
