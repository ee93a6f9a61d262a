/** `Delaunay::new`: the choice of the seed triangle, the order in which the
    remaining points are swept, the capacity given to the triangulation, and
    one round of the sweep loop. The floating-point tests and keys are
    abstract parameters gathered in `Geometry`. */
module Triangulate {
  import opened OptionIndexes
  import opened HullCycle
  import opened Sweep

  /** What the triangulation asks of the points, by index. */
  datatype Geometry = Geometry(
    toCentre: nat -> int,                  // distance_sq to the mean of all points
    dist: (nat, nat) -> int,               // distance_sq between two points
    separated: (nat, nat) -> bool,         // |distance_sq| > f32::EPSILON
    circumradius: (nat, nat, nat) -> int,  // circumradius_sq of a triangle
    rightHanded: (nat, nat, nat) -> bool,  // Triangle::is_right_handed
    visible: (nat, nat, nat) -> bool,      // Triangle(p, a, b).is_left_handed()
    inCircle: (nat, nat, nat, nat) -> bool,
    key: nat -> nat,                       // Hull::hash_key
    approxEq: (nat, nat) -> bool)          // Point::approx_eq

  /** `min_by` over the indices `0 .. n` that pass `keep`: the first index of
      least key, or nothing when no index passes. */
  function MinBy(n: nat, keep: nat -> bool, key: nat -> int): (r: Option<nat>)
    ensures r.None? <==> forall j :: 0 <= j < n ==> !keep(j)
    ensures r.Some? ==> r.value < n && keep(r.value)
    ensures r.Some? ==> forall j :: 0 <= j < n && keep(j) ==> key(r.value) <= key(j)
    ensures r.Some? ==> forall j :: 0 <= j < r.value && keep(j) ==> key(r.value) < key(j)
  {
    if n == 0 then None
    else
      var r := MinBy(n - 1, keep, key);
      if !keep(n - 1) then r
      else if r.None? || key(n - 1) < key(r.value) then Some(n - 1)
      else r
  }

  /** The seed: the point nearest the centre. */
  function Seed(n: nat, g: Geometry): (r: Option<nat>)
    ensures r.None? <==> n == 0
    ensures r.Some? ==> r.value < n && forall j :: 0 <= j < n ==> g.toCentre(r.value) <= g.toCentre(j)
  {
    MinBy(n, (_: nat) => true, g.toCentre)
  }

  /** The point nearest the seed among those not at the seed's position. */
  function Nearest(n: nat, g: Geometry, seed: nat): (r: Option<nat>)
    ensures r.None? <==> forall j :: 0 <= j < n && j != seed ==> !g.separated(j, seed)
    ensures r.Some? ==> r.value < n && r.value != seed && g.separated(r.value, seed)
    ensures r.Some? ==> forall j :: 0 <= j < n && j != seed && g.separated(j, seed) ==>
      g.dist(r.value, seed) <= g.dist(j, seed)
  {
    var keep := (i: nat) => i != seed && g.separated(i, seed);
    var key := (i: nat) => g.dist(i, seed);
    assert forall j: nat :: keep(j) == (j != seed && g.separated(j, seed)) && key(j) == g.dist(j, seed);
    MinBy(n, keep, key)
  }

  /** The point giving the least circumradius with the seed and its nearest. */
  function Third(n: nat, g: Geometry, seed: nat, nearest: nat): (r: Option<nat>)
    ensures seed < n && nearest < n && seed != nearest ==> (r.None? <==> n == 2)
    ensures r.Some? ==> r.value < n && r.value != seed && r.value != nearest
    ensures r.Some? ==> forall j :: 0 <= j < n && j != seed && j != nearest ==>
      g.circumradius(seed, nearest, r.value) <= g.circumradius(seed, nearest, j)
  {
    var keep := (i: nat) => i != seed && i != nearest;
    var key := (i: nat) => g.circumradius(seed, nearest, i);
    assert forall j: nat :: keep(j) == (j != seed && j != nearest) && key(j) == g.circumradius(seed, nearest, j);
    var other := if seed != 0 && nearest != 0 then 0 else if seed != 1 && nearest != 1 then 1 else 2;
    assert other != seed && other != nearest && keep(other);
    MinBy(n, keep, key)
  }

  /** `find_seed_triangle`: the seed, its nearest point and the third point,
      ordered right-handed; nothing when a choice finds no candidate. */
  function FindSeedTriangle(n: nat, g: Geometry): (r: Option<seq<nat>>)
    ensures r.Some? ==> |r.value| == 3 && r.value[0] < n && r.value[1] < n && r.value[2] < n
    ensures r.Some? ==> r.value[0] != r.value[1] && r.value[1] != r.value[2] && r.value[0] != r.value[2]
    ensures n < 3 ==> r.None?
  {
    match Seed(n, g)
    case None => None
    case Some(seed) =>
      match Nearest(n, g, seed)
      case None => None
      case Some(nearest) =>
        match Third(n, g, seed, nearest)
        case None =>
          None
        case Some(third) =>
          if g.rightHanded(seed, nearest, third) then Some([seed, nearest, third])
          else Some([seed, third, nearest])
  }

  /** With three points or more, a seed triangle exists exactly when some
      point lies apart from the seed. */
  lemma SeedTriangleExists(n: nat, g: Geometry)
    requires 3 <= n
    ensures Seed(n, g).Some?
    ensures FindSeedTriangle(n, g).Some? <==>
      exists j :: 0 <= j < n && j != Seed(n, g).value && g.separated(j, Seed(n, g).value)
  {
    var seed := Seed(n, g).value;
    if Nearest(n, g, seed).Some? {
      var nearest := Nearest(n, g, seed).value;
      assert Third(n, g, seed, nearest).Some?;
    }
  }

  /** The seed triangle starts at the point nearest the centre and contains
      the point nearest to it. */
  lemma SeedTriangleChoice(n: nat, g: Geometry)
    requires FindSeedTriangle(n, g).Some?
    ensures var s := FindSeedTriangle(n, g).value;
      s[0] == Seed(n, g).value && (forall j :: 0 <= j < n ==> g.toCentre(s[0]) <= g.toCentre(j)) &&
      Nearest(n, g, s[0]).Some? && Nearest(n, g, s[0]).value in s[1..]
  {
  }

  /** Three points that are right-handed in neither order lie on one line. */
  predicate Collinear(g: Geometry, a: nat, b: nat, c: nat)
  {
    !g.rightHanded(a, b, c) && !g.rightHanded(a, c, b)
  }

  /** As written, `find_seed_triangle` never tests the orientation it finds:
      three points on one line, each apart from the others, still give a
      seed triangle, and that triangle is not right-handed. */
  lemma SeedTriangleCollinear(g: Geometry)
    requires forall a, b, c :: !g.rightHanded(a, b, c)
    requires forall a, b :: a != b ==> g.separated(a, b)
    ensures FindSeedTriangle(3, g).Some?
    ensures var s := FindSeedTriangle(3, g).value;
      Collinear(g, s[0], s[1], s[2]) && !g.rightHanded(s[0], s[1], s[2])
  {
    SeedTriangleExists(3, g);
    var seed := Seed(3, g).value;
    var other := if seed == 0 then 1 else 0;
    assert other != seed && g.separated(other, seed);
  }

  /** `find_seed_triangle` as `Delaunay::new` documents it: also nothing when
      the three chosen points lie on one line, so that every seed triangle
      is right-handed. Otherwise the same triangle as the source. */
  function FindSeedTriangleChecked(n: nat, g: Geometry): (r: Option<seq<nat>>)
    ensures r.Some? ==> |r.value| == 3 && g.rightHanded(r.value[0], r.value[1], r.value[2])
    ensures r.Some? ==> r == FindSeedTriangle(n, g)
    ensures r.None? <==>
      (FindSeedTriangle(n, g).None? ||
       var s := FindSeedTriangle(n, g).value; Collinear(g, s[0], s[1], s[2]))
  {
    match FindSeedTriangle(n, g)
    case None => None
    case Some(s) => if Collinear(g, s[0], s[1], s[2]) then None else Some(s)
  }

  /** With three points or more, the checked seed triangle exists exactly
      when some point lies apart from the seed and the chosen third point is
      off the line through the seed and its nearest point. */
  lemma SeedTriangleCheckedExists(n: nat, g: Geometry)
    requires 3 <= n
    ensures Seed(n, g).Some?
    ensures var seed := Seed(n, g).value;
      FindSeedTriangleChecked(n, g).Some? <==>
        Nearest(n, g, seed).Some? &&
        Third(n, g, seed, Nearest(n, g, seed).value).Some? &&
        !Collinear(g, seed, Nearest(n, g, seed).value, Third(n, g, seed, Nearest(n, g, seed).value).value)
  {
    var seed := Seed(n, g).value;
    if Nearest(n, g, seed).Some? {
      var nearest := Nearest(n, g, seed).value;
      assert Third(n, g, seed, nearest).Some?;
    }
  }

  /** The indices `0 .. n` other than the seeds, in increasing order. */
  function SweepIndices(n: nat, seeds: seq<nat>): (r: seq<nat>)
    ensures forall i :: 0 <= i < |r| ==> r[i] < n && r[i] !in seeds
    ensures forall i, j :: 0 <= i < j < |r| ==> r[i] < r[j]
    ensures forall x :: 0 <= x < n && x !in seeds ==> x in r
  {
    if n == 0 then []
    else SweepIndices(n - 1, seeds) + (if n - 1 in seeds then [] else [n - 1])
  }

  /** How many of `0 .. n` are seeds. */
  function SeedsBelow(n: nat, seeds: seq<nat>): nat
  {
    if n == 0 then 0 else SeedsBelow(n - 1, seeds) + (if n - 1 in seeds then 1 else 0)
  }

  lemma {:induction false} SweepIndicesCount(n: nat, seeds: seq<nat>)
    ensures |SweepIndices(n, seeds)| + SeedsBelow(n, seeds) == n
  {
    if n > 0 {
      SweepIndicesCount(n - 1, seeds);
    }
  }

  lemma {:induction false} DistinctSeedsBelow(n: nat, a: nat, b: nat, c: nat)
    requires a != b && b != c && a != c
    ensures SeedsBelow(n, [a, b, c]) ==
      (if a < n then 1 else 0) + (if b < n then 1 else 0) + (if c < n then 1 else 0)
  {
    if n > 0 {
      DistinctSeedsBelow(n - 1, a, b, c);
    }
  }

  /** Three distinct seeds below `n` leave `n - 3` points to sweep. */
  lemma SweepIndicesLength(n: nat, seeds: seq<nat>)
    requires |seeds| == 3 && seeds[0] < n && seeds[1] < n && seeds[2] < n
    requires seeds[0] != seeds[1] && seeds[1] != seeds[2] && seeds[0] != seeds[2]
    ensures |SweepIndices(n, seeds)| == n - 3
  {
    SweepIndicesCount(n, seeds);
    DistinctSeedsBelow(n, seeds[0], seeds[1], seeds[2]);
    assert seeds == [seeds[0], seeds[1], seeds[2]];
  }

  /** A strictly increasing sequence holds each value at most once. */
  lemma {:induction false} IncreasingOnce(s: seq<nat>, v: nat)
    requires forall i, j :: 0 <= i < j < |s| ==> s[i] < s[j]
    ensures multiset(s)[v] <= 1
    ensures multiset(s)[v] == 1 ==> s[|s| - 1] >= v
  {
    if s != [] {
      var t := s[..|s| - 1];
      assert s == t + [s[|s| - 1]];
      IncreasingOnce(t, v);
      if multiset(t)[v] == 1 {
        assert t[|t| - 1] < s[|s| - 1];
      }
    }
  }

  /** Any reordering of the sweep indices visits each of them once. */
  lemma ReorderedOnce(order: seq<nat>, n: nat, seeds: seq<nat>, k: nat)
    requires multiset(order) == multiset(SweepIndices(n, seeds)) && k < |order|
    ensures order[k] < n && order[k] !in seeds && order[k] !in order[..k]
  {
    var v := order[k];
    SameMembers(order, SweepIndices(n, seeds), v);
    IncreasingOnce(SweepIndices(n, seeds), v);
    if v in order[..k] {
      RepeatCounted(order, k);
    }
  }

  /** A value met again at position `k` occurs twice. */
  lemma RepeatCounted(s: seq<nat>, k: nat)
    requires k < |s| && s[k] in s[..k]
    ensures multiset(s)[s[k]] >= 2
  {
    assert s[..k + 1] == s[..k] + [s[k]];
    assert s == s[..k + 1] + s[k + 1..];
  }

  /** The points of a spliced hull are those of the old hull and the new one. */
  lemma SplicedFrom(R: seq<nat>, m: nat, q: nat, index: nat, x: nat)
    requires 1 <= m && m + q < |R|
    ensures index in Spliced(Closed(R), m, q, index)
    ensures x in Spliced(Closed(R), m, q, index) ==> x == index || x in R
  {
    var C := Closed(R);
    var r := Spliced(C, m, q, index);
    if x in r && x != index {
      var j :| 0 <= j < |r| && r[j] == x;
      var t := if j == 0 then |C| - 1 - q else m + j - 2;
      assert x == C[t];
      if t == |R| {
        assert x == R[0];
      } else {
        assert x == R[t];
      }
    }
  }

  /** The counts and membership kept by the sweep loop of `Delaunay::new`
      once `k` of the reordered indices `order` have been handled: every
      hull point is a seed or an index already handled, and the triangle
      corners plus three per hull point number at most `6k + 12`. */
  ghost predicate SweepCounts(cycle: seq<nat>, corners: nat, n: nat, seeds: seq<nat>, order: seq<nat>, k: nat)
  {
    3 <= n && multiset(order) == multiset(SweepIndices(n, seeds)) && |order| == n - 3 && k <= |order| &&
    corners + 3 * |cycle| <= 6 * k + 12 &&
    (forall x :: x in cycle ==> x in seeds || x in order[..k])
  }

  /** The sweep loop's state: a valid hull and triangulation over `n`
      points, with room for `2n - 5` triangles, and the counts above. */
  ghost predicate Sweeping(hull: Hull, tri: Delaunay, n: nat, seeds: seq<nat>, order: seq<nat>, k: nat)
    reads hull, tri
  {
    hull.Valid() && tri.Valid() && hull.TrianglesBelow(|tri.triangles|) &&
    |hull.next| == n && |tri.halfedges| == 3 * (2 * n - 5) &&
    SweepCounts(hull.cycle, |tri.triangles|, n, seeds, order, k)
  }

  /** While indices remain, the triangulation has room for the triangles
      `add_point` may add: at most one fewer than the hull has edges. */
  lemma RoomForPoint(cycle: seq<nat>, corners: nat, n: nat, seeds: seq<nat>, order: seq<nat>, k: nat)
    requires SweepCounts(cycle, corners, n, seeds, order, k) && k < |order|
    ensures corners + 3 * (|cycle| - 1) <= 3 * (2 * n - 5)
  {
  }

  /** A skipped index leaves the counts of the next round holding. */
  lemma SkipCounts(cycle: seq<nat>, corners: nat, n: nat, seeds: seq<nat>, order: seq<nat>, k: nat)
    requires SweepCounts(cycle, corners, n, seeds, order, k) && k < |order|
    ensures SweepCounts(cycle, corners, n, seeds, order, k + 1)
  {
    assert order[..k + 1] == order[..k] + [order[k]];
  }

  /** Adding `order[k]` to the hull with `m + q` new triangles keeps the
      counts, and puts `order[k]` on the hull. */
  lemma AddCounts(c0: seq<nat>, R: seq<nat>, m: nat, q: nat, corners: nat,
                  n: nat, seeds: seq<nat>, order: seq<nat>, k: nat)
    requires SweepCounts(c0, corners, n, seeds, order, k) && k < |order|
    requires multiset(R) == multiset(c0) && 1 <= m && m + q < |R|
    ensures SweepCounts(Spliced(Closed(R), m, q, order[k]), corners + 3 * (m + q), n, seeds, order, k + 1)
    ensures order[k] in Spliced(Closed(R), m, q, order[k])
  {
    var i := order[k];
    var c1 := Spliced(Closed(R), m, q, i);
    assert order[..k + 1] == order[..k] + [i];
    forall x | x in c1
      ensures x in seeds || x in order[..k + 1]
    {
      SplicedFrom(R, m, q, i, x);
      SameMembers(R, c0, x);
    }
    SplicedFrom(R, m, q, i, i);
    assert |multiset(R)| == |multiset(c0)|;
  }

  /** The seed hull and the seed triangle start the counts. */
  lemma BeginCounts(n: nat, seeds: seq<nat>, order: seq<nat>)
    requires |seeds| == 3 && seeds[0] < n && seeds[1] < n && seeds[2] < n
    requires seeds[0] != seeds[1] && seeds[1] != seeds[2] && seeds[0] != seeds[2]
    requires multiset(order) == multiset(SweepIndices(n, seeds))
    ensures seeds == [seeds[0], seeds[1], seeds[2]]
    ensures SweepCounts(seeds, 3, n, seeds, order, 0)
  {
    SweepIndicesLength(n, seeds);
    assert |multiset(order)| == |multiset(SweepIndices(n, seeds))|;
    assert seeds == [seeds[0], seeds[1], seeds[2]];
  }

  /** `Delaunay::new` up to its sweep loop: the seed triangle, the remaining
      indices filtered from `0 .. n` then sorted by `sortByCircumcentre`
      (any permutation), the seed hull with a hash table of `tableSize`
      slots, a triangulation with capacity `2n - 5`, and the seed triangle
      added with no twins. Nothing when there is no seed triangle, or when
      its three points lie on one line, as `Delaunay::new` documents. */
  method Begin(n: nat, g: Geometry, sortByCircumcentre: seq<nat> -> seq<nat>, tableSize: nat)
    returns (r: Option<(Hull, Delaunay, seq<nat>)>)
    requires 0 < tableSize
    requires forall s: seq<nat> :: multiset(sortByCircumcentre(s)) == multiset(s)
    ensures r.None? <==> FindSeedTriangleChecked(n, g).None?
    ensures r.Some? ==> fresh(r.value.0) && fresh(r.value.1)
    ensures r.Some? ==> Sweeping(r.value.0, r.value.1, n, FindSeedTriangleChecked(n, g).value, r.value.2, 0)
    ensures r.Some? ==> r.value.0.cycle == FindSeedTriangleChecked(n, g).value == r.value.1.triangles
    ensures r.Some? ==> g.rightHanded(r.value.0.cycle[0], r.value.0.cycle[1], r.value.0.cycle[2])
  {
    var found := FindSeedTriangleChecked(n, g);
    if found.None? {
      return None;
    }
    var seeds := found.value;
    var indices := SweepIndices(n, seeds);
    var order := sortByCircumcentre(indices);
    SweepIndicesLength(n, seeds);
    var hull, tri := Seeded(n, seeds, order, tableSize, g.key);
    r := Some((hull, tri, order));
  }

  /** The seed hull, and the triangulation with capacity `2n - 5` holding
      the seed triangle. */
  method Seeded(n: nat, seeds: seq<nat>, order: seq<nat>, tableSize: nat, key: nat -> nat)
    returns (hull: Hull, tri: Delaunay)
    requires |seeds| == 3 && seeds[0] < n && seeds[1] < n && seeds[2] < n
    requires seeds[0] != seeds[1] && seeds[1] != seeds[2] && seeds[0] != seeds[2]
    requires multiset(order) == multiset(SweepIndices(n, seeds)) && 0 < tableSize
    ensures fresh(hull) && fresh(tri)
    ensures Sweeping(hull, tri, n, seeds, order, 0)
    ensures hull.cycle == seeds == tri.triangles
  {
    BeginCounts(n, seeds, order);
    hull := new Hull.New(seeds[0], seeds[1], seeds[2], n, tableSize, key);
    var maxTriangles := 2 * n - 3 - 2;
    tri := new Delaunay.WithCapacity(maxTriangles);
    var t := tri.AddTriangle(seeds[0], seeds[1], seeds[2], Twins(None, None, None, 0));
    assert hull.TrianglesBelow(|tri.triangles|);
  }

  /** One round of the sweep loop, on `order[k]`: skipped when it is
      approximately the previous swept point, otherwise passed to
      `add_point` and remembered. `add_point` needs a hull edge the point
      does not see, which holds for a point outside a convex hull. */
  method SweepStep(hull: Hull, tri: Delaunay, g: Geometry, fuel: nat, n: nat,
                   ghost seeds: seq<nat>, order: seq<nat>, k: nat, prevPoint: Option<nat>)
    returns (after: Option<nat>)
    requires Sweeping(hull, tri, n, seeds, order, k) && k < |order|
    requires exists x :: x in hull.cycle && !EdgeVisible(g.visible, order[k], hull.next, x)
    modifies hull, tri
    ensures Sweeping(hull, tri, n, seeds, order, k + 1)
    ensures prevPoint.Some? && g.approxEq(prevPoint.value, order[k]) ==>
      after == prevPoint && unchanged(hull) && unchanged(tri)
    ensures !(prevPoint.Some? && g.approxEq(prevPoint.value, order[k])) ==>
      after == Some(order[k]) &&
      (order[k] in hull.cycle <==> exists x :: x in old(hull.cycle) && EdgeVisible(g.visible, order[k], old(hull.next), x))
  {
    var i := order[k];
    ReorderedOnce(order, n, seeds, k);
    if prevPoint.Some? && g.approxEq(prevPoint.value, i) {
      SkipCounts(hull.cycle, |tri.triangles|, n, seeds, order, k);
      return prevPoint;
    }
    ghost var cycle0, corners0 := hull.cycle, |tri.triangles|;
    assert i !in cycle0;
    RoomForPoint(cycle0, corners0, n, seeds, order, k);
    ghost var added, R, m, q := hull.AddPoint(i, tri, g.visible, g.inCircle, g.key, fuel);
    if added {
      AddCounts(cycle0, R, m, q, corners0, n, seeds, order, k);
    } else {
      SkipCounts(cycle0, corners0, n, seeds, order, k);
    }
    after := Some(i);
  }
}
