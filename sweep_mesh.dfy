/** Pure specification of the half-edge mesh updates done by the sweep-hull
    triangulator (`Delaunay::add_triangle` and the edge flip of `legalize`),
    and the twin invariants they keep.

    `h[e]` is the twin of half-edge `e`, or `None` on the hull boundary.
 */
module MeshSpec {
  import opened OptionIndexes
  import opened Edges

  /** Every twin names a half-edge below `n`. */
  ghost predicate TwinsBelow(h: seq<Option<nat>>, n: nat)
  {
    forall x :: 0 <= x < |h| && h[x].Some? ==> h[x].value < n
  }

  /** Twins are symmetric and always lie in a different triangle. */
  ghost predicate TwinsConsistent(h: seq<Option<nat>>)
  {
    forall x :: 0 <= x < |h| && h[x].Some? ==>
      h[x].value < |h| && h[h[x].value] == Some(x) && h[x].value / 3 != x / 3
  }

  /** One step of the twin loop of `add_triangle`: link `e` with its
      supplied twin, both ways, if there is one. */
  function LinkOne(h: seq<Option<nat>>, e: nat, twin: Option<nat>): (r: seq<Option<nat>>)
    requires e < |h| && (twin.Some? ==> twin.value < |h|)
    ensures |r| == |h|
    ensures twin.Some? ==> r[twin.value] == Some(e) && (twin.value != e ==> r[e] == twin)
    ensures twin.None? ==> r == h
    ensures forall x :: 0 <= x < |h| && x != e && (twin.None? || x != twin.value) ==> r[x] == h[x]
  {
    match twin
    case None => h
    case Some(x) => h[e := Some(x)][x := Some(e)]
  }

  /** The twin loop of `add_triangle` over the first `|twins|` new edges
      `t, t + 1, ...`, in order. */
  function LinkAll(h: seq<Option<nat>>, t: nat, twins: seq<Option<nat>>): (r: seq<Option<nat>>)
    requires t + |twins| <= |h|
    requires forall i :: 0 <= i < |twins| && twins[i].Some? ==> twins[i].value < |h|
    ensures |r| == |h|
    decreases |twins|
  {
    if twins == [] then h
    else
      var k := |twins| - 1;
      LinkOne(LinkAll(h, t, twins[..k]), t + k, twins[k])
  }

  /** The supplied twins of a new triangle at `t` are earlier edges, pairwise
      distinct, and currently without a twin, and the new edges have none:
      the situation `add_triangle` is used in. */
  ghost predicate FreshLinks(h: seq<Option<nat>>, t: nat, twins: seq<Option<nat>>)
  {
    |twins| == 3 && t % 3 == 0 && t + 3 <= |h| &&
    (forall i :: 0 <= i < 3 && twins[i].Some? ==> twins[i].value < t && h[twins[i].value] == None) &&
    (forall i, j :: 0 <= i < j < 3 && twins[i].Some? && twins[j].Some? ==> twins[i].value != twins[j].value) &&
    h[t] == None && h[t + 1] == None && h[t + 2] == None
  }

  /** `x` is one of the supplied twins. */
  ghost predicate IsSuppliedTwin(twins: seq<Option<nat>>, x: nat)
  {
    exists i :: 0 <= i < |twins| && twins[i] == Some(x)
  }

  /** The twin loop over three edges is three `LinkOne` steps. */
  lemma LinkAllThree(h: seq<Option<nat>>, t: nat, twins: seq<Option<nat>>)
    requires |twins| == 3 && t + 3 <= |h|
    requires forall i :: 0 <= i < 3 && twins[i].Some? ==> twins[i].value < |h|
    ensures LinkAll(h, t, twins) ==
      LinkOne(LinkOne(LinkOne(h, t, twins[0]), t + 1, twins[1]), t + 2, twins[2])
  {
    var t0, t1 := twins[..1], twins[..2];
    assert t0[..0] == [] && t1[..1] == t0 && twins[..2] == t1;
    assert LinkAll(h, t, t0) == LinkOne(h, t, twins[0]);
  }

  /** What `add_triangle` promises about twins: every supplied twin `e` of
      new edge `t + i` is linked both ways, the edges without a twin keep
      their entry, and every other entry is unchanged. */
  lemma LinkAllEffect(h: seq<Option<nat>>, t: nat, twins: seq<Option<nat>>)
    requires |twins| == 3 && t + 3 <= |h|
    requires forall i :: 0 <= i < 3 && twins[i].Some? ==> twins[i].value < t
    requires forall i, j :: 0 <= i < j < 3 && twins[i].Some? && twins[j].Some? ==> twins[i].value != twins[j].value
    ensures forall i :: 0 <= i < 3 && twins[i].Some? ==>
      LinkAll(h, t, twins)[t + i] == twins[i] && LinkAll(h, t, twins)[twins[i].value] == Some(t + i)
    ensures forall i :: 0 <= i < 3 && twins[i].None? ==> LinkAll(h, t, twins)[t + i] == h[t + i]
    ensures forall x :: 0 <= x < |h| && !(t <= x < t + 3) && !IsSuppliedTwin(twins, x) ==>
      LinkAll(h, t, twins)[x] == h[x]
  {
    LinkAllThree(h, t, twins);
    var h1 := LinkOne(h, t, twins[0]);
    var h2 := LinkOne(h1, t + 1, twins[1]);
    var r := LinkOne(h2, t + 2, twins[2]);
    forall x | 0 <= x < |h| && !(t <= x < t + 3) && !IsSuppliedTwin(twins, x)
      ensures r[x] == h[x]
    {
      assert twins[0] != Some(x) && twins[1] != Some(x) && twins[2] != Some(x);
    }
  }

  /** `add_triangle` in the situation it is used in keeps the twin relation
      symmetric and across triangles, and keeps twins below the new length. */
  lemma AddTriangleKeepsTwins(h: seq<Option<nat>>, t: nat, twins: seq<Option<nat>>)
    requires TwinsConsistent(h) && TwinsBelow(h, t)
    requires FreshLinks(h, t, twins)
    ensures TwinsConsistent(LinkAll(h, t, twins))
    ensures TwinsBelow(LinkAll(h, t, twins), t + 3)
  {
    LinkAllEffect(h, t, twins);
    var r := LinkAll(h, t, twins);
    forall x | 0 <= x < |r| && r[x].Some?
      ensures r[x].value < |r| && r[r[x].value] == Some(x) && r[x].value / 3 != x / 3
      ensures r[x].value < t + 3
    {
      if t <= x < t + 3 {
        assert twins[x - t].Some?;
      } else if twins[0] == Some(x) {
        assert r[x] == Some(t);
      } else if twins[1] == Some(x) {
        assert r[x] == Some(t + 1);
      } else if twins[2] == Some(x) {
        assert r[x] == Some(t + 2);
      } else {
        assert r[x] == h[x];
        var y := h[x].value;
        assert h[y] == Some(x) && y < t;
        assert twins[0] != Some(y) && twins[1] != Some(y) && twins[2] != Some(y);
        assert !IsSuppliedTwin(twins, y);
      }
    }
  }

  /** Sets the twin of `e` to `twin` and, if there is one, points it back
      at `e`. */
  function Relink(h: seq<Option<nat>>, e: nat, twin: Option<nat>): (r: seq<Option<nat>>)
    requires e < |h| && (twin.Some? ==> twin.value < |h|)
    ensures |r| == |h|
    ensures r[e] == twin || (twin.Some? && twin.value == e)
    ensures twin.Some? ==> r[twin.value] == Some(e)
    ensures forall x :: 0 <= x < |h| && x != e && (twin.None? || x != twin.value) ==> r[x] == h[x]
  {
    var h1 := h[e := twin];
    if twin.Some? then h1[twin.value := Some(e)] else h1
  }

  /** The twin updates of one edge flip in `legalize`, in the source's order:
      `a` takes over the twin of `bl`, `b` the twin of `ar`, and `ar`/`bl`
      become twins across the new diagonal. */
  function FlipTwins(h: seq<Option<nat>>, a: nat, b: nat): (r: seq<Option<nat>>)
    requires TriangleFirstEdge(a) + 2 < |h| && TriangleFirstEdge(b) + 2 < |h|
    requires TwinsBelow(h, |h|)
    ensures |r| == |h|
  {
    var ar := PrevEdge(a);
    var bl := PrevEdge(b);
    var h2 := Relink(h, a, h[bl]);
    var h3 := h2[b := h2[ar]];
    var h4 := if h3[ar].Some? then h3[h3[ar].value := Some(b)] else h3;
    Relink(h4, ar, Some(bl))
  }

  /** Apart from their shared edge `a`/`b`, no half-edge of the triangle of
      `a` is a twin of a half-edge of the triangle of `b`. */
  ghost predicate ShareOnlyEdge(h: seq<Option<nat>>, a: nat, b: nat)
    requires TriangleFirstEdge(a) + 2 < |h| && TriangleFirstEdge(b) + 2 < |h|
  {
    forall x :: TriangleFirstEdge(a) <= x < TriangleFirstEdge(a) + 3 && x != a && h[x].Some? ==>
      h[x].value / 3 != b / 3
  }

  /** Under the flip's precondition, the twins of the four outer edges
      belong to neither of the two triangles. */
  lemma FlipOutsideTwins(h: seq<Option<nat>>, a: nat, b: nat)
    requires TriangleFirstEdge(a) + 2 < |h| && TriangleFirstEdge(b) + 2 < |h|
    requires TwinsConsistent(h)
    requires h[a] == Some(b)
    requires ShareOnlyEdge(h, a, b)
    ensures a / 3 != b / 3
    ensures h[PrevEdge(b)].Some? ==> h[PrevEdge(b)].value / 3 != a / 3 && h[PrevEdge(b)].value / 3 != b / 3
    ensures h[PrevEdge(a)].Some? ==> h[PrevEdge(a)].value / 3 != a / 3 && h[PrevEdge(a)].value / 3 != b / 3
    ensures h[NextEdge(a)].Some? ==> h[NextEdge(a)].value / 3 != a / 3 && h[NextEdge(a)].value / 3 != b / 3
    ensures h[NextEdge(b)].Some? ==> h[NextEdge(b)].value / 3 != a / 3 && h[NextEdge(b)].value / 3 != b / 3
  {
    NextThrice(a);
    NextThrice(b);
  }

  /** The entries a flip rewrites: `a` and `b` take the twins of `bl` and
      `ar`, those twins point back, `ar` and `bl` are linked, and every
      other entry is unchanged. */
  lemma FlipTwinsEffect(h: seq<Option<nat>>, a: nat, b: nat)
    requires TriangleFirstEdge(a) + 2 < |h| && TriangleFirstEdge(b) + 2 < |h|
    requires TwinsConsistent(h)
    requires h[a] == Some(b)
    requires ShareOnlyEdge(h, a, b)
    ensures TwinsBelow(h, |h|)
    ensures FlipTwins(h, a, b)[a] == h[PrevEdge(b)]
    ensures FlipTwins(h, a, b)[b] == h[PrevEdge(a)]
    ensures FlipTwins(h, a, b)[PrevEdge(a)] == Some(PrevEdge(b))
    ensures FlipTwins(h, a, b)[PrevEdge(b)] == Some(PrevEdge(a))
    ensures h[PrevEdge(b)].Some? ==> FlipTwins(h, a, b)[h[PrevEdge(b)].value] == Some(a)
    ensures h[PrevEdge(a)].Some? ==> FlipTwins(h, a, b)[h[PrevEdge(a)].value] == Some(b)
    ensures forall x ::
      (0 <= x < |h| && x != a && x != b && x != PrevEdge(a) && x != PrevEdge(b) &&
       h[PrevEdge(b)] != Some(x) && h[PrevEdge(a)] != Some(x)) ==> FlipTwins(h, a, b)[x] == h[x]
  {
    FlipOutsideTwins(h, a, b);
    NextThrice(a);
    NextThrice(b);
    FlipAsRelinks(h, a, b);
  }

  /** Under the flip's precondition the flip is three `Relink` steps. */
  lemma FlipAsRelinks(h: seq<Option<nat>>, a: nat, b: nat)
    requires TriangleFirstEdge(a) + 2 < |h| && TriangleFirstEdge(b) + 2 < |h|
    requires TwinsConsistent(h)
    requires h[a] == Some(b)
    requires ShareOnlyEdge(h, a, b)
    ensures TwinsBelow(h, |h|)
    ensures FlipTwins(h, a, b) ==
      Relink(Relink(Relink(h, a, h[PrevEdge(b)]), b, h[PrevEdge(a)]), PrevEdge(a), Some(PrevEdge(b)))
  {
    FlipOutsideTwins(h, a, b);
    NextThrice(a);
    var ar, bl := PrevEdge(a), PrevEdge(b);
    var h2 := Relink(h, a, h[bl]);
    assert h2[ar] == h[ar];
    var h3 := h2[b := h2[ar]];
    assert h3[ar] == h[ar];
  }

  /** One flip keeps the twin relation symmetric and across triangles,
      provided the two triangles share only the flipped edge. */
  lemma FlipKeepsTwins(h: seq<Option<nat>>, a: nat, b: nat)
    requires TriangleFirstEdge(a) + 2 < |h| && TriangleFirstEdge(b) + 2 < |h|
    requires TwinsConsistent(h)
    requires h[a] == Some(b)
    requires ShareOnlyEdge(h, a, b)
    ensures TwinsBelow(h, |h|)
    ensures TwinsConsistent(FlipTwins(h, a, b))
  {
    FlipOutsideTwins(h, a, b);
    FlipTwinsEffect(h, a, b);
    NextThrice(a);
    NextThrice(b);
    var ar, al := PrevEdge(a), NextEdge(a);
    var bl, br := PrevEdge(b), NextEdge(b);
    var r := FlipTwins(h, a, b);
    forall x | 0 <= x < |r| && r[x].Some?
      ensures r[x].value < |r| && r[r[x].value] == Some(x) && r[x].value / 3 != x / 3
    {
      if x == a || x == b || x == ar || x == bl {
      } else if h[bl] == Some(x) {
      } else if h[ar] == Some(x) {
      } else {
        assert r[x] == h[x];
        var y := h[x].value;
        assert h[y] == Some(x);
        assert y != a && y != b;
        assert y != ar && y != bl;
        assert h[bl] != Some(y) && h[ar] != Some(y);
        assert r[y] == h[y];
      }
    }
  }

  /** A flip keeps every twin below any bound that `a` and `b` lie under. */
  lemma FlipKeepsBound(h: seq<Option<nat>>, a: nat, b: nat, n: nat)
    requires TriangleFirstEdge(a) + 2 < n && TriangleFirstEdge(b) + 2 < n && n <= |h|
    requires TwinsBelow(h, n)
    ensures TwinsBelow(h, |h|)
    ensures TwinsBelow(FlipTwins(h, a, b), n)
  {
  }

  /** `add_triangle`'s twin loop keeps every twin below a bound that the new
      edges and the supplied twins lie under. */
  lemma {:induction false} LinkAllBelow(h: seq<Option<nat>>, t: nat, twins: seq<Option<nat>>, n: nat)
    requires t + |twins| <= n <= |h|
    requires forall i :: 0 <= i < |twins| && twins[i].Some? ==> twins[i].value < n
    requires TwinsBelow(h, n)
    ensures TwinsBelow(LinkAll(h, t, twins), n)
    decreases |twins|
  {
    if twins != [] {
      LinkAllBelow(h, t, twins[..|twins| - 1], n);
    }
  }
}
