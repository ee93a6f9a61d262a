/** The divide-and-conquer triangulator's `Half`: a triangulation of two or
    three consecutive points of the sorted input, the edge arithmetic on it,
    and the search for the base edge joining two halves.

    Coordinates are integers standing for the source's `f32` values (which
    `partial_cmp().unwrap()` requires to be comparable); the handedness tests
    on triangles are abstract parameters. */
module Divconq {
  import opened OptionIndexes
  import opened Edges

  datatype Point = Point(x: int, y: int)

  datatype Side = Left | Right

  /** The two orientation tests `find_base_lr` and `new_single_tri` use. */
  datatype Handedness = Handedness(
    right: (Point, Point, Point) -> bool,   // Triangle::is_right_handed
    left: (Point, Point, Point) -> bool)    // Triangle::is_left_handed

  /** A triangulated slice of the points. Vertex `triangles[e]` is an index
      relative to `offset`; `bottomMost` is a half-edge index. */
  datatype Half = Half(triangles: seq<nat>, halfedges: seq<OptionIndex>, bottomMost: nat, offset: nat)
  {
    /** Every vertex lies inside `points` and `bottomMost` names a half-edge. */
    predicate Fits(n: nat)
    {
      bottomMost < |triangles| &&
      forall i :: 0 <= i < |triangles| ==> offset + triangles[i] < n
    }

    /** `point`: the point half-edge `e` starts from, found among the points
        from `offset` on, since vertex numbers are relative to `offset`. */
    function PointAt(e: nat, points: seq<Point>): (r: Point)
      requires e < |triangles| && offset + triangles[e] < |points|
      ensures r == points[offset..][triangles[e]]
    {
      points[offset + triangles[e]]
    }
  }

  /** What a computation that may panic or loop ends with. `OutOfFuel` marks
      a loop the model cut off after a bounded number of rounds. */
  datatype Outcome<T> = Done(value: T) | Panicked | OutOfFuel

  datatype Ordering = Less | Equal | Greater

  /** `partial_cmp` on comparable coordinates. */
  function Cmp(a: int, b: int): Ordering
  {
    if a < b then Less else if a == b then Equal else Greater
  }

  /** `Ordering::then`. */
  function Then(o: Ordering, p: Ordering): Ordering
  {
    if o == Equal then p else o
  }

  /** The comparator handed to `min_by` by both constructors: a larger `y`
      comes first, and among equal `y` the smaller (`smallerX`) or the larger
      `x` comes first. */
  function LowerFirst(a: Point, b: Point, smallerX: bool): (r: Ordering)
    ensures r != Greater <==> a.y > b.y || (a.y == b.y && (if smallerX then a.x <= b.x else b.x <= a.x))
    ensures r == Less <==> a.y > b.y || (a.y == b.y && (if smallerX then a.x < b.x else b.x < a.x))
  {
    Then(Cmp(b.y, a.y), if smallerX then Cmp(a.x, b.x) else Cmp(b.x, a.x))
  }

  /** `(0..n).min_by(...)` over `pts`: the first index that no other index
      precedes. */
  function MinBy(pts: seq<Point>, n: nat, smallerX: bool): (r: nat)
    requires 1 <= n <= |pts|
    ensures r < n
    ensures forall j :: 0 <= j < n ==> LowerFirst(pts[r], pts[j], smallerX) != Greater
    ensures forall j :: 0 <= j < r ==> LowerFirst(pts[r], pts[j], smallerX) == Less
  {
    if n == 1 then 0
    else
      var m := MinBy(pts, n - 1, smallerX);
      if LowerFirst(pts[m], pts[n - 1], smallerX) == Greater then n - 1 else m
  }

  /** `n` half-edges without twins. */
  function NoTwins(n: nat): (r: seq<OptionIndex>)
    ensures |r| == n && forall i :: 0 <= i < n ==> r[i].IsNone()
  {
    seq(n, _ => NoneIndex())
  }

  /** `new_single_edge` as written: the comparator's index is kept as
      `bottom_most` although the vertices are stored in the order `[1, 0]`. */
  function NewSingleEdgeAsWritten(offset: nat, side: Side, points: seq<Point>): (h: Half)
    requires offset + 2 <= |points|
    ensures h.triangles == [1, 0] && h.halfedges == NoTwins(2) && h.offset == offset
    ensures h.Fits(|points|)
  {
    Half([1, 0], NoTwins(2), MinBy(points[offset..offset + 2], 2, side == Right), offset)
  }

  /** `new_single_edge` with the lowest point chosen by the same comparator as
      `new_single_tri` and its index carried over the `[1, 0]` order, as the
      triangle constructor carries it over `[0, 2, 1]`. */
  function NewSingleEdge(offset: nat, side: Side, points: seq<Point>): (h: Half)
    requires offset + 2 <= |points|
    ensures h.triangles == [1, 0] && h.halfedges == NoTwins(2) && h.offset == offset
    ensures h.Fits(|points|)
    ensures h.PointAt(h.bottomMost, points) == points[offset + MinBy(points[offset..offset + 2], 2, side == Left)]
  {
    Half([1, 0], NoTwins(2), 1 - MinBy(points[offset..offset + 2], 2, side == Left), offset)
  }

  /** `new_single_tri`: counter-clockwise vertex order, and `bottom_most`
      renumbered when the last two vertices trade places, so that it still
      starts at the chosen point. */
  function NewSingleTri(offset: nat, side: Side, points: seq<Point>, rightHanded: (Point, Point, Point) -> bool): (h: Half)
    requires offset + 3 <= |points|
    ensures h.triangles == (if rightHanded(points[offset], points[offset + 1], points[offset + 2]) then [0, 1, 2] else [0, 2, 1])
    ensures h.halfedges == NoTwins(3) && h.offset == offset
    ensures h.Fits(|points|)
    ensures h.PointAt(h.bottomMost, points) == points[offset + MinBy(points[offset..offset + 3], 3, side == Left)]
  {
    var bottomMost := MinBy(points[offset..offset + 3], 3, side == Left);
    if rightHanded(points[offset], points[offset + 1], points[offset + 2]) then
      Half([0, 1, 2], NoTwins(3), bottomMost, offset)
    else
      Half([0, 2, 1], NoTwins(3), match bottomMost case 2 => 1 case 1 => 2 case a => a, offset)
  }

  /** `Half::new` on the range `start .. end`; `Panicked` for a length other
      than two or three, and for a range the points do not cover. */
  function New(start: nat, end: nat, side: Side, points: seq<Point>, rightHanded: (Point, Point, Point) -> bool): (r: Outcome<Half>)
    ensures r.Done? <==> start <= end <= |points| && (end - start == 2 || end - start == 3)
    ensures r.OutOfFuel? == false
    ensures r.Done? ==> r.value.offset == start && r.value.Fits(|points|)
    ensures r.Done? ==> |r.value.triangles| == |r.value.halfedges| == end - start
    ensures r.Done? ==> forall i :: 0 <= i < |r.value.halfedges| ==> r.value.halfedges[i].IsNone()
  {
    if end < start || |points| < end then Panicked
    else if end - start == 2 then Done(NewSingleEdge(start, side, points))
    else if end - start == 3 then Done(NewSingleTri(start, side, points, rightHanded))
    else Panicked
  }

  /** The point a new half reports as bottom-most is a point of its range with
      the largest `y`; among those, the leftmost for a left half and the
      rightmost for a right half. */
  lemma BottomMostPoint(start: nat, end: nat, side: Side, points: seq<Point>, rightHanded: (Point, Point, Point) -> bool)
    requires New(start, end, side, points, rightHanded).Done?
    ensures var h := New(start, end, side, points, rightHanded).value;
      var p := h.PointAt(h.bottomMost, points);
      h.triangles[h.bottomMost] < end - start &&
      (forall i :: start <= i < end ==> points[i].y <= p.y) &&
      (forall i :: start <= i < end && points[i].y == p.y ==>
        (side == Left ==> p.x <= points[i].x) && (side == Right ==> points[i].x <= p.x))
  {
    var h := New(start, end, side, points, rightHanded).value;
    var pts := points[start..end];
    var m := MinBy(pts, end - start, side == Left);
    assert h.PointAt(h.bottomMost, points) == pts[m];
    forall i | start <= i < end
      ensures LowerFirst(pts[m], points[i], side == Left) != Greater
    {
      assert points[i] == pts[i - start];
    }
  }

  /** As written, a two-point left half whose points differ in height reports
      the higher point as its bottom-most one. */
  lemma SingleEdgeAsWrittenNotLowest()
    ensures var points := [Point(0, 10), Point(0, 50)];
      var h := NewSingleEdgeAsWritten(0, Left, points);
      h.PointAt(h.bottomMost, points) == Point(0, 10) && points[1].y > points[0].y
  {
    var points := [Point(0, 10), Point(0, 50)];
    assert points[0..2] == points;
    assert LowerFirst(points[0], points[1], false) == Greater;
  }

  /** When the two points are level, the written and the corrected
      constructor report the same point. */
  lemma SingleEdgeLevelAgrees(offset: nat, side: Side, points: seq<Point>)
    requires offset + 2 <= |points| && points[offset].y == points[offset + 1].y
    ensures var w := NewSingleEdgeAsWritten(offset, side, points);
      var c := NewSingleEdge(offset, side, points);
      w.PointAt(w.bottomMost, points) == c.PointAt(c.bottomMost, points)
  {
    var pts := points[offset..offset + 2];
    assert pts[0] == points[offset] && pts[1] == points[offset + 1];
  }

  /** The `bottom_most` and `bottom_most_couple` examples: a left half starts
      at its leftmost lowest point and a right half at its rightmost one,
      whichever way the triangle turns. */
  lemma BottomMostExamples(rightHanded: (Point, Point, Point) -> bool)
    ensures var points := [Point(60, 40), Point(80, 10), Point(100, 40)];
      var l := New(0, 3, Left, points, rightHanded).value;
      var r := New(0, 3, Right, points, rightHanded).value;
      l.PointAt(l.bottomMost, points) == points[0] && r.PointAt(r.bottomMost, points) == points[2]
    ensures var points := [Point(50, 50), Point(100, 50)];
      var l := New(0, 2, Left, points, rightHanded).value;
      var r := New(0, 2, Right, points, rightHanded).value;
      l.PointAt(l.bottomMost, points) == points[0] && r.PointAt(r.bottomMost, points) == points[1]
  {
    var tri := [Point(60, 40), Point(80, 10), Point(100, 40)];
    assert tri[0..3] == tri;
    BottomMostPoint(0, 3, Left, tri, rightHanded);
    BottomMostPoint(0, 3, Right, tri, rightHanded);
    var couple := [Point(50, 50), Point(100, 50)];
    assert couple[0..2] == couple;
    BottomMostPoint(0, 2, Left, couple, rightHanded);
    BottomMostPoint(0, 2, Right, couple, rightHanded);
  }

  /** The edge `find_base_lr` moves to from `end`: the next edge of the
      triangle, or the edge after its twin when it has one. `None` where the
      source indexes `halfedges` out of bounds. */
  function Advance(victim: Half, end: nat): Option<nat>
  {
    var nextInTri := NextEdge(end);
    if nextInTri >= |victim.halfedges| then None
    else match victim.halfedges[nextInTri].Get()
      case Some(e) => Some(NextEdge(e))
      case None => Some(nextInTri)
  }

  /** The test that ends the walk: the triangle from the victim's edge `end`
      through the culprit's start point to the victim's edge `next` turns
      the way that side requires. */
  predicate Stops(victim: Half, points: seq<Point>, startPt: Point, lower: bool, hd: Handedness, end: nat, next: nat)
    requires victim.Fits(|points|) && end < |victim.triangles| && next < |victim.triangles|
  {
    var a := victim.PointAt(end, points);
    var b := victim.PointAt(next, points);
    (lower && hd.right(a, startPt, b)) || (!lower && hd.left(a, startPt, b))
  }

  /** The walk of `find_base_lr` along the victim from `end`, for at most
      `fuel` rounds. */
  function Walk(victim: Half, points: seq<Point>, startPt: Point, lower: bool, hd: Handedness, end: nat, fuel: nat): (r: Outcome<nat>)
    requires victim.Fits(|points|) && end < |victim.triangles|
    ensures r.Done? ==> r.value < |victim.triangles|
    ensures r.Done? ==> Advance(victim, r.value).Some? && Advance(victim, r.value).value < |victim.triangles|
    ensures r.Done? ==> Stops(victim, points, startPt, lower, hd, r.value, Advance(victim, r.value).value)
    decreases fuel
  {
    if fuel == 0 then OutOfFuel
    else match Advance(victim, end)
      case None => Panicked
      case Some(next) =>
        if next >= |victim.triangles| then Panicked
        else if Stops(victim, points, startPt, lower, hd, end, next) then Done(end)
        else Walk(victim, points, startPt, lower, hd, next, fuel - 1)
  }

  /** Whether the left half's bottom-most point lies lower than the right's. */
  predicate LeftIsLower(self: Half, other: Half, points: seq<Point>)
    requires self.Fits(|points|) && other.Fits(|points|)
  {
    self.PointAt(self.bottomMost, points).y > other.PointAt(other.bottomMost, points).y
  }

  /** The result of `find_base_lr`. The half whose bottom-most point is
      higher (the culprit) keeps its bottom-most edge, in its own slot; the
      walk along the other half (the victim) supplies the other slot, an edge
      that passed the stopping test. */
  function FindBase(self: Half, other: Half, points: seq<Point>, hd: Handedness, fuel: nat): (r: Outcome<(nat, nat)>)
    requires self.Fits(|points|) && other.Fits(|points|)
    ensures r.Done? ==> r.value.0 < |self.triangles| && r.value.1 < |other.triangles|
    ensures r.Done? && LeftIsLower(self, other, points) ==>
      r.value.1 == other.bottomMost &&
      Advance(self, r.value.0).Some? && Advance(self, r.value.0).value < |self.triangles| &&
      Stops(self, points, other.PointAt(other.bottomMost, points), true, hd, r.value.0, Advance(self, r.value.0).value)
    ensures r.Done? && !LeftIsLower(self, other, points) ==>
      r.value.0 == self.bottomMost &&
      Advance(other, r.value.1).Some? && Advance(other, r.value.1).value < |other.triangles| &&
      Stops(other, points, self.PointAt(self.bottomMost, points), false, hd, r.value.1, Advance(other, r.value.1).value)
  {
    var lower := LeftIsLower(self, other, points);
    var victim := if lower then self else other;
    var culprit := if lower then other else self;
    var start := culprit.bottomMost;
    match Walk(victim, points, culprit.PointAt(start, points), lower, hd, victim.bottomMost, fuel)
      case Done(end) => Done(if lower then (end, start) else (start, end))
      case Panicked => Panicked
      case OutOfFuel => OutOfFuel
  }

  /** Without twins the walk never leaves the triangle it starts in. */
  lemma {:induction false} WalkStaysInTriangle(victim: Half, points: seq<Point>, startPt: Point, lower: bool, hd: Handedness, end: nat, fuel: nat)
    requires victim.Fits(|points|) && end < |victim.triangles|
    requires forall i :: 0 <= i < |victim.halfedges| ==> victim.halfedges[i].IsNone()
    ensures var r := Walk(victim, points, startPt, lower, hd, end, fuel);
      r.Done? ==> TriangleFirstEdge(r.value) == TriangleFirstEdge(end)
    decreases fuel
  {
    if fuel > 0 && NextEdge(end) < |victim.halfedges| {
      var next := NextEdge(end);
      assert Advance(victim, end) == Some(next);
      if next < |victim.triangles| && !Stops(victim, points, startPt, lower, hd, end, next) {
        WalkStaysInTriangle(victim, points, startPt, lower, hd, next, fuel - 1);
      }
    }
  }

  /** On a two-point victim the walk either stops at once on edge 0 or
      indexes past the end of `halfedges`: the edge after edge 1 is edge 2. */
  lemma WalkOnSingleEdge(victim: Half, points: seq<Point>, startPt: Point, lower: bool, hd: Handedness, end: nat, fuel: nat)
    requires victim.Fits(|points|) && end < |victim.triangles|
    requires |victim.triangles| == 2 && |victim.halfedges| == 2
    requires forall i :: 0 <= i < 2 ==> victim.halfedges[i].IsNone()
    requires fuel >= 2
    ensures var r := Walk(victim, points, startPt, lower, hd, end, fuel);
      r == Panicked || (r == Done(0) && end == 0)
    ensures end == 1 ==> Walk(victim, points, startPt, lower, hd, end, fuel) == Panicked
  {
    assert Advance(victim, 1) == None;
    if end == 0 {
      assert Advance(victim, 0) == Some(1);
    }
  }

  /** `find_base_lr`, with the loop cut off after `fuel` rounds. */
  method FindBaseLr(self: Half, other: Half, points: seq<Point>, hd: Handedness, fuel: nat) returns (r: Outcome<(nat, nat)>)
    requires self.Fits(|points|) && other.Fits(|points|)
    ensures r == FindBase(self, other, points, hd, fuel)
  {
    var lower := self.PointAt(self.bottomMost, points).y > other.PointAt(other.bottomMost, points).y;
    var victim, culprit := self, other;
    if !lower {
      victim, culprit := other, self;
    }
    var start := culprit.bottomMost;
    var startPt := culprit.PointAt(start, points);
    var end: nat := victim.bottomMost;
    var rounds: nat := fuel;
    while rounds > 0
      invariant end < |victim.triangles|
      invariant Walk(victim, points, startPt, lower, hd, end, rounds) == Walk(victim, points, startPt, lower, hd, victim.bottomMost, fuel)
      decreases rounds
    {
      var nextInTri := NextEdge(end);
      if nextInTri >= |victim.halfedges| {
        return Panicked;
      }
      var next: nat := nextInTri;
      var twin := victim.halfedges[nextInTri].Get();
      if twin.Some? {
        next := NextEdge(twin.value);
      }
      assert Advance(victim, end) == Some(next);
      if next >= |victim.triangles| {
        return Panicked;
      }
      var a := victim.PointAt(end, points);
      var b := victim.PointAt(next, points);
      if (lower && hd.right(a, startPt, b)) || (!lower && hd.left(a, startPt, b)) {
        if lower {
          return Done((end, start));
        } else {
          return Done((start, end));
        }
      }
      end := next;
      rounds := rounds - 1;
    }
    return OutOfFuel;
  }

  /** `merge`: the base edge is looked for and the left half is returned as
      it was, unless the search panics. */
  method Merge(self: Half, other: Half, points: seq<Point>, hd: Handedness, fuel: nat) returns (r: Outcome<Half>)
    requires self.Fits(|points|) && other.Fits(|points|)
    ensures r.Done? <==> FindBase(self, other, points, hd, fuel).Done?
    ensures r.Panicked? <==> FindBase(self, other, points, hd, fuel).Panicked?
    ensures r.Done? ==> r.value == self
  {
    var base := FindBaseLr(self, other, points, hd, fuel);
    match base
    case Done(_) => r := Done(self);
    case Panicked => r := Panicked;
    case OutOfFuel => r := OutOfFuel;
  }
}
