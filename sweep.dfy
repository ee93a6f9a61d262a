/** The sweep-hull Delaunay triangulator (`Delaunay` and `Hull`).

    Points are visited in order of distance from a seed triangle; each new
    point lies outside the current convex hull, is joined to every hull edge
    it can see, and the new triangles are made locally Delaunay by edge flips.

    The geometry is abstract:
    - `visible(p, a, b)`: hull edge `a -> b` is visible from point `p`
      (`is_left_handed` of `(p, a, b)` in `find_visible_edge` and
      `is_right_handed` of `(p, b, a)` in the walks of `add_point`; the
      model takes these two float tests to agree);
    - `inCircle(p0, pr, pl, p1)`: `p1` lies inside the circumcircle of
      `(p0, pr, pl)`;
    - `key(p)`: the unreduced angular hash of point `p` around the hull
      centre.
 */
module Sweep {
  import opened OptionIndexes
  import opened Edges
  import opened MeshSpec
  import opened HullCycle

  /** The capacity `legalize`'s stack is created with and never outgrows. */
  const STACK_CAPACITY: nat := 100

  /** Linear probing from bucket `from` reaches every bucket `k` of a
      table of `size` buckets, after `j < size` steps. */
  lemma ProbeReaches(from: nat, k: nat, size: nat) returns (j: nat)
    requires from < size && k < size
    ensures j < size && (from + j) % size == k
  {
    if from <= k {
      j := k - from;
    } else {
      j := k + size - from;
      assert from + j == k + size;
    }
  }

  /** The twins passed to `add_triangle`, each an edge below `n`. */
  function Twins(a: Option<nat>, b: Option<nat>, c: Option<nat>, n: nat): (r: seq<Option<nat>>)
    requires a.Some? ==> a.value < n
    requires b.Some? ==> b.value < n
    requires c.Some? ==> c.value < n
    ensures |r| == 3 && TwinsBelow(r, n) && r[0] == a && r[1] == b && r[2] == c
  {
    [a, b, c]
  }

  /** Every stacked edge is below `n`. */
  ghost predicate EdgesBelow(s: seq<nat>, n: nat)
  {
    forall k :: 0 <= k < |s| ==> s[k] < n
  }

  lemma PopEdges(s: seq<nat>, n: nat)
    requires EdgesBelow(s, n) && s != []
    ensures s[|s| - 1] < n && EdgesBelow(s[..|s| - 1], n)
  {
  }

  lemma PushEdges(s: seq<nat>, x: nat, y: nat, n: nat)
    requires EdgesBelow(s, n) && x < n && y < n
    ensures EdgesBelow(s + [x, y], n)
  {
  }

  /** The triangulation: `triangles[e]` is the point half-edge `e` starts
      from, `halfedges[e]` its twin; `halfedges` is allocated at full
      capacity up front. */
  class Delaunay {
    var triangles: seq<nat>
    var halfedges: seq<Option<nat>>
    var stack: seq<nat>

    /** Whole triangles only, room for them, and every twin an existing edge. */
    ghost predicate Mesh()
      reads this
    {
      |triangles| % 3 == 0 && |triangles| <= |halfedges| && TwinsBelow(halfedges, |triangles|)
    }

    /** A mesh, with an empty stack between calls. */
    ghost predicate Valid()
      reads this
    {
      Mesh() && stack == []
    }

    /** `with_capacity`: room for `cap` triangles, no twins. */
    constructor WithCapacity(cap: nat)
      ensures Valid()
      ensures triangles == [] && |halfedges| == 3 * cap
      ensures forall e :: 0 <= e < |halfedges| ==> halfedges[e] == None
    {
      triangles := [];
      halfedges := seq(3 * cap, _ => None);
      stack := [];
    }

    /** `add_triangle`: appends the three points, then links each new edge
        `t + i` with its supplied twin, in order. */
    method AddTriangle(v0: nat, v1: nat, v2: nat, twins: seq<Option<nat>>) returns (t: nat)
      requires Valid()
      requires |twins| == 3 && |triangles| + 3 <= |halfedges|
      requires TwinsBelow(twins, |triangles|)
      modifies this
      ensures Valid()
      ensures t == |old(triangles)| && triangles == old(triangles) + [v0, v1, v2]
      ensures halfedges == LinkAll(old(halfedges), t, twins)
    {
      t := |triangles|;
      triangles := triangles + [v0, v1, v2];
      for i := 0 to 3
        invariant triangles == old(triangles) + [v0, v1, v2] && stack == old(stack)
        invariant halfedges == LinkAll(old(halfedges), t, twins[..i])
      {
        assert twins[..i + 1][..i] == twins[..i];
        if twins[i].Some? {
          var e := twins[i].value;
          halfedges := halfedges[t + i := Some(e)];
          halfedges := halfedges[e := Some(t + i)];
        }
      }
      assert twins[..3] == twins;
      LinkAllBelow(old(halfedges), t, twins, |triangles|);
    }

    /** One edge flip of `legalize`: the quadrilateral made of the triangles
        of `a` and of its twin `b` gets its other diagonal. `a` and `b` take
        the points opposite the old diagonal; the twins are relinked as
        `FlipTwins` says, and when `bl` had no twin, the hull entry that
        named `bl` as its boundary triangle now names `a`. */
    method Flip(a: nat, b: nat, hull: Hull)
      requires Mesh() && a < |triangles| && b < |triangles|
      requires halfedges[a] == Some(b)
      requires hull.Bounded() && hull.TrianglesBelow(|triangles|)
      modifies this`triangles, this`halfedges, hull`triangles
      ensures Mesh() && hull.Bounded() && hull.TrianglesBelow(|triangles|)
      ensures triangles == old(triangles)[a := old(triangles)[PrevEdge(b)]][b := old(triangles)[PrevEdge(a)]]
      ensures halfedges == FlipTwins(old(halfedges), a, b)
      ensures old(halfedges)[PrevEdge(b)].Some? ==> hull.triangles == old(hull.triangles)
      ensures old(halfedges)[PrevEdge(b)].None? ==> hull.ReplacedTriangle(old(hull.triangles), PrevEdge(b), a)
    {
      EdgesInRange(a, |triangles|);
      EdgesInRange(b, |triangles|);
      var ar := PrevEdge(a);
      var bl := PrevEdge(b);
      triangles := triangles[a := triangles[bl]][b := triangles[ar]];
      var h := halfedges;
      var hbl := h[bl];
      h := Relink(h, a, hbl);
      if hbl.None? {
        var finished := hull.ReplaceTriangle(bl, a);
      }
      h := h[b := h[ar]];
      if h[ar].Some? {
        h := h[h[ar].value := Some(b)];
      }
      h := Relink(h, ar, Some(bl));
      assert h == FlipTwins(halfedges, a, b);
      FlipKeepsBound(halfedges, a, b, |triangles|);
      halfedges := h;
    }

    /** `legalize`: starting from edge `index`, flips every edge whose
        opposite point lies in the circumcircle, pushing the two edges a flip
        exposes while the stack has room for both. Returns the `ar` of the
        last edge popped (0 if none). At most `fuel` edges are popped. */
    method Legalize(index: nat, inCircle: (nat, nat, nat, nat) -> bool, hull: Hull, fuel: nat) returns (ar: nat)
      requires Valid() && index < |triangles|
      requires hull.Bounded() && hull.TrianglesBelow(|triangles|)
      modifies this, hull`triangles
      ensures Valid()
      ensures |triangles| == |old(triangles)| && |halfedges| == |old(halfedges)|
      ensures hull.Bounded() && hull.TrianglesBelow(|triangles|)
      ensures ar < |triangles|
    {
      stack := stack + [index];
      ar := 0;
      var steps := 0;
      while stack != [] && steps < fuel
        invariant |triangles| == |old(triangles)| && |halfedges| == |old(halfedges)|
        invariant Mesh()
        invariant |stack| <= STACK_CAPACITY
        invariant EdgesBelow(stack, |triangles|)
        invariant hull.Bounded() && hull.TrianglesBelow(|triangles|)
        invariant ar < |triangles|
        decreases fuel - steps
      {
        var a := stack[|stack| - 1];
        PopEdges(stack, |triangles|);
        stack := stack[..|stack| - 1];
        steps := steps + 1;
        ModularForm(a);
        EdgesInRange(a, |triangles|);
        var a0 := a - a % 3;
        ar := a0 + (a + 2) % 3;
        if halfedges[a].None? {
          continue;
        }
        var b := halfedges[a].value;
        ModularForm(b);
        EdgesInRange(b, |triangles|);
        var b0 := b - b % 3;
        var al := a0 + (a + 1) % 3;
        var bl := b0 + (b + 2) % 3;
        var p0 := triangles[ar];
        var pr := triangles[a];
        var pl := triangles[al];
        var p1 := triangles[bl];
        if !inCircle(p0, pr, pl, p1) {
          continue;
        }
        Flip(a, b, hull);
        var br := b0 + (b + 1) % 3;
        if |stack| >= STACK_CAPACITY - 1 {
          continue;
        }
        assert br == NextEdge(b);
        PushEdges(stack, br, a, |triangles|);
        stack := stack + [br, a];
      }
      stack := [];
    }
  }

  /** A point of a cycle of two or more points does not link to itself. */
  lemma CycleMemberMoves(next: seq<nat>, prev: seq<nat>, c: seq<nat>, x: nat)
    requires IsCycle(next, prev, c) && 2 <= |c| && x in c
    ensures x < |next| && next[x] != x
  {
    var i :| 0 <= i < |c| && c[i] == x;
    assert next[x] == c[Succ(|c|, i)];
    DistinctIndex(c, i, Succ(|c|, i));
  }

  /** The counter-clockwise hull: `next`/`prev` link hull points by point
      index, `hashTable` maps angular buckets to hull points (possibly stale),
      `triangles[p]` is the boundary half-edge leaving `p`, and `start` is a
      hull point. A point `p` dropped from the hull is marked `next[p] == p`.
      The ghost `cycle` lists the hull points in `next` order from `start`. */
  class Hull {
    var next: seq<nat>
    var prev: seq<nat>
    var hashTable: seq<Option<nat>>
    var triangles: seq<Option<nat>>
    var start: nat
    ghost var cycle: seq<nat>

    /** `next` maps points to points. */
    ghost predicate NextClosed()
      reads this`next
    {
      forall p :: 0 <= p < |next| ==> next[p] < |next|
    }

    /** Every stored point index is a valid point. */
    ghost predicate Bounded()
      reads this`next, this`prev, this`triangles, this`hashTable, this`start
    {
      |next| == |prev| == |triangles| && 0 < |hashTable| && start < |next| && NextClosed() &&
      (forall p :: 0 <= p < |prev| ==> prev[p] < |next|) &&
      (forall k :: 0 <= k < |hashTable| && hashTable[k].Some? ==> hashTable[k].value < |next|)
    }

    /** Every boundary half-edge is an edge of a triangulation with `n` edges. */
    ghost predicate TrianglesBelow(n: nat)
      reads this`triangles
    {
      forall p :: 0 <= p < |triangles| && triangles[p].Some? ==> triangles[p].value < n
    }

    /** `cycle` is a doubly linked cycle of at least three points from
        `start`, and every hash entry is a hull point or a dropped one, with
        at least one entry on the hull. */
    ghost predicate Valid()
      reads this
    {
      Bounded() && 3 <= |cycle| && cycle[0] == start && IsCycle(next, prev, cycle) &&
      HashCovers(next, cycle, hashTable) &&
      (exists k :: 0 <= k < |hashTable| && hashTable[k].Some? && hashTable[k].value in cycle)
    }

    /** The point reached from `x` after `k` steps along `next`. */
    ghost function Step(x: nat, k: nat): (r: nat)
      reads this`next
      requires NextClosed() && x < |next|
      ensures r < |next|
    {
      if k == 0 then x else next[Step(x, k - 1)]
    }

    /** The hull walk inside `legalize` passes its first `k` points from
        `start` without stopping. */
    ghost predicate WalkPasses(old_: seq<Option<nat>>, from: nat, k: nat)
      reads this`next, this`start
      requires NextClosed() && start < |next| && |old_| == |next|
    {
      forall i :: 0 <= i < k ==> PassesAt(old_, from, i)
    }

    /** The walk from `start` goes on past its point at step `i`: that
        point's entry in `old_` does not name `from`, and its successor is
        not `start`. */
    ghost predicate PassesAt(old_: seq<Option<nat>>, from: nat, i: nat)
      reads this`next, this`start
      requires NextClosed() && start < |next| && |old_| == |next|
    {
      old_[Step(start, i)] != Some(from) && Step(start, i + 1) != start
    }

    /** The outcome of the hull walk inside `legalize`, from `start` along
        `next`: either the first point met whose entry names `from` gets
        `to` instead, or the walk comes back to `start` having met none and
        `triangles` is `old_`, or the walk never stops (it is caught in a
        loop of `next` that avoids `start`, such as a point marked dropped)
        and `triangles` is `old_`. */
    ghost predicate ReplacedTriangle(old_: seq<Option<nat>>, from: nat, to: nat)
      reads this
      requires Bounded()
    {
      |triangles| == |old_| &&
      ((exists k :: 0 <= k < |next| && WalkPasses(old_, from, k) && old_[Step(start, k)] == Some(from) &&
          triangles == old_[Step(start, k) := Some(to)]) ||
       (exists k :: 0 <= k < |next| && WalkPasses(old_, from, k) && old_[Step(start, k)] != Some(from) &&
          Step(start, k + 1) == start && triangles == old_) ||
       (triangles == old_ && forall k :: WalkPasses(old_, from, k)))
    }

    /** A walk that meets a point twice repeats itself from there on. */
    lemma {:induction false} StepPeriodic(x: nat, a: nat, b: nat, j: nat)
      requires NextClosed() && x < |next| && Step(x, a) == Step(x, b)
      ensures Step(x, a + j) == Step(x, b + j)
      decreases j
    {
      if j > 0 {
        StepPeriodic(x, a, b, j - 1);
      }
    }

    /** Once the walk from `x` meets at step `b` the point of step `a < b`,
        every later point is the point of some step in `a .. b - 1`. */
    lemma {:induction false} StepRepeats(x: nat, a: nat, b: nat, i: nat) returns (r: nat)
      requires NextClosed() && x < |next| && a < b && Step(x, a) == Step(x, b) && a <= i
      ensures a <= r < b && Step(x, i) == Step(x, r)
      decreases i
    {
      if i < b {
        r := i;
      } else {
        StepPeriodic(x, a, b, i - b);
        r := StepRepeats(x, a, b, i - (b - a));
      }
    }

    /** The first `k + 1` points of the walk from `x`. */
    ghost function Walk(x: nat, k: nat): (r: seq<nat>)
      reads this`next
      requires NextClosed() && x < |next|
      ensures |r| == k + 1 && forall i :: 0 <= i <= k ==> r[i] == Step(x, i) && r[i] < |next|
    {
      if k == 0 then [x] else Walk(x, k - 1) + [Step(x, k)]
    }

    /** Within `|next|` steps the walk from `x` meets some point twice. */
    lemma StepCollides(x: nat) returns (a: nat, b: nat)
      requires NextClosed() && x < |next|
      ensures a < b <= |next| && Step(x, a) == Step(x, b)
    {
      var w := Walk(x, |next|);
      a, b := Pigeonhole(w, |next|);
    }

    /** A walk from `start` that passes its first `|next|` points passes
        every point: the walk never ends. */
    lemma WalkNeverStops(old_: seq<Option<nat>>, from: nat)
      requires NextClosed() && start < |next| && |old_| == |next|
      requires WalkPasses(old_, from, |next|)
      ensures forall k :: WalkPasses(old_, from, k)
    {
      var a, b := StepCollides(start);
      assert PassesAt(old_, from, b - 1);
      forall i: nat
        ensures PassesAt(old_, from, i)
      {
        if i >= |next| {
          var r := StepRepeats(start, a, b, i);
          var r1 := StepRepeats(start, a, b, i + 1);
          assert PassesAt(old_, from, r) && PassesAt(old_, from, r1 - 1);
        }
      }
    }

    /** `Hull::new`: the 3-cycle `s0 -> s1 -> s2 -> s0` over `n` points,
        with `s_k`'s boundary half-edge `k` of the seed triangle and the three
        seeds hashed in order, as three `add_hash` calls would. */
    constructor New(s0: nat, s1: nat, s2: nat, n: nat, tableSize: nat, key: nat -> nat)
      requires s0 < n && s1 < n && s2 < n && s0 != s1 && s1 != s2 && s0 != s2
      requires 0 < tableSize
      ensures Valid() && cycle == [s0, s1, s2] && start == s0
      ensures |next| == n && |hashTable| == tableSize
      ensures next[s0] == s1 && next[s1] == s2 && next[s2] == s0
      ensures prev[s0] == s2 && prev[s1] == s0 && prev[s2] == s1
      ensures triangles[s0] == Some(0) && triangles[s1] == Some(1) && triangles[s2] == Some(2)
      ensures forall p :: 0 <= p < n && p != s0 && p != s1 && p != s2 ==> triangles[p] == None
      ensures hashTable ==
        seq(tableSize, _ => None)[key(s0) % tableSize := Some(s0)][key(s1) % tableSize := Some(s1)][key(s2) % tableSize := Some(s2)]
    {
      next := seq(n, _ => 0)[s0 := s1][s1 := s2][s2 := s0];
      prev := seq(n, _ => 0)[s0 := s2][s1 := s0][s2 := s1];
      hashTable := seq(tableSize, _ => None)[key(s0) % tableSize := Some(s0)]
        [key(s1) % tableSize := Some(s1)][key(s2) % tableSize := Some(s2)];
      triangles := seq(n, _ => None)[s0 := Some(0)][s1 := Some(1)][s2 := Some(2)];
      start := s0;
      cycle := [s0, s1, s2];
      new;
      SeedValid(s0, s1, s2, key(s2) % tableSize);
    }

    /** The hull `New` builds is valid. */
    lemma SeedValid(s0: nat, s1: nat, s2: nat, k2: nat)
      requires |next| == |prev| == |triangles| && s0 < |next| && s1 < |next| && s2 < |next|
      requires s0 != s1 && s1 != s2 && s0 != s2
      requires next == seq(|next|, _ => 0)[s0 := s1][s1 := s2][s2 := s0]
      requires prev == seq(|next|, _ => 0)[s0 := s2][s1 := s0][s2 := s1]
      requires cycle == [s0, s1, s2] && start == s0
      requires k2 < |hashTable| && hashTable[k2] == Some(s2)
      requires forall k :: 0 <= k < |hashTable| && hashTable[k].Some? ==>
        hashTable[k].value == s0 || hashTable[k].value == s1 || hashTable[k].value == s2
      ensures Valid()
    {
      ThreeCycle(next, prev, s0, s1, s2);
      assert hashTable[k2].value in cycle;
    }

    /** `add_hash`: point `index` takes over its bucket. */
    method AddHash(index: nat, key: nat -> nat)
      requires 0 < |hashTable|
      modifies this`hashTable
      ensures |hashTable| == |old(hashTable)|
      ensures hashTable == old(hashTable)[key(index) % |old(hashTable)| := Some(index)]
    {
      hashTable := hashTable[key(index) % |hashTable| := Some(index)];
    }

    /** The bucket probed `i` steps after bucket `from`. */
    function Probe(from: nat, i: nat): (r: nat)
      reads this
      requires 0 < |hashTable|
      ensures r < |hashTable|
    {
      (from + i) % |hashTable|
    }

    /** Bucket `k` holds a point still on the hull (`next[e] != e`). */
    ghost predicate LiveSlot(k: nat)
      reads this
      requires Bounded() && k < |hashTable|
    {
      hashTable[k].Some? && next[hashTable[k].value] != hashTable[k].value
    }

    /** The first live hull point met probing the table linearly from
        bucket `from`, skipping `i` buckets. */
    ghost function FirstLive(from: nat, i: nat): (r: Option<nat>)
      reads this
      requires Bounded()
      ensures r.Some? ==> r.value < |next| && next[r.value] != r.value && r in hashTable
      decreases |hashTable| - i
    {
      if i >= |hashTable| then None
      else if LiveSlot(Probe(from, i)) then hashTable[Probe(from, i)]
      else FirstLive(from, i + 1)
    }

    /** Probing from skip `i` finds a point if a live bucket lies at skip
        `j >= i`. */
    lemma {:induction false} FirstLiveCovers(from: nat, i: nat, j: nat)
      requires Bounded() && i <= j < |hashTable| && LiveSlot(Probe(from, j))
      ensures FirstLive(from, i).Some?
      decreases j - i
    {
      if !LiveSlot(Probe(from, i)) {
        FirstLiveCovers(from, i + 1, j);
      }
    }

    /** A valid table has a bucket holding a point of the hull, and that
        point is live. */
    lemma LiveHashSlot() returns (k: nat)
      requires Valid()
      ensures k < |hashTable| && LiveSlot(k) && hashTable[k].value in cycle
    {
      k :| 0 <= k < |hashTable| && hashTable[k].Some? && hashTable[k].value in cycle;
      CycleMemberMoves(next, prev, cycle, hashTable[k].value);
    }

    /** A live point found in the table of a valid hull is on the hull. */
    lemma FirstLiveInCycle(from: nat)
      requires Valid() && FirstLive(from, 0).Some?
      ensures FirstLive(from, 0).value in cycle
    {
      var r := FirstLive(from, 0);
      var k :| 0 <= k < |hashTable| && hashTable[k] == r;
    }

    /** On a valid hull the probe from any bucket finds a hull point. */
    lemma FirstLiveFound(from: nat)
      requires Valid() && from < |hashTable|
      ensures FirstLive(from, 0).Some? && FirstLive(from, 0).value in cycle
    {
      var k := LiveHashSlot();
      var j := ProbeReaches(from, k, |hashTable|);
      FirstLiveCovers(from, 0, j);
      FirstLiveInCycle(from);
    }

    /** Reading a cycle from its first point, `k` steps along `next` reach
        position `k`. */
    lemma {:induction false} StepAlong(c: seq<nat>, k: nat)
      requires NextClosed() && IsCycle(next, prev, c) && k < |c|
      ensures c[0] < |next| && Step(c[0], k) == c[k]
      decreases k
    {
      if k > 0 {
        StepAlong(c, k - 1);
        assert Succ(|c|, k - 1) == k;
      }
    }

    /** Walking from hull point `s0`, edge `e -> next[e]` is reached after
        `k` steps with every edge passed on the way not visible from `p`;
        `back` says the walk took no step. */
    ghost predicate FirstVisibleFrom(p: nat, visible: (nat, nat, nat) -> bool, s0: nat, e: nat, back: bool)
      reads this
      requires NextClosed() && s0 < |next|
    {
      exists k :: 0 <= k < |cycle| && e == Step(s0, k) && (back <==> k == 0) &&
        forall i :: 0 <= i < k ==> !visible(p, Step(s0, i), next[Step(s0, i)])
    }

    /** The probe loop of `find_visible_edge`: the first live point in the
        table, probing linearly from bucket `hash`. */
    method ProbeLive(hash: nat) returns (s: nat)
      requires Valid() && hash < |hashTable|
      ensures FirstLive(hash, 0) == Some(s) && s in cycle
    {
      var size := |hashTable|;
      var found: Option<nat> := None;
      var i := 0;
      while i < size
        invariant 0 <= i <= size
        invariant FirstLive(hash, 0) == FirstLive(hash, i)
        decreases size - i
      {
        var slot := hashTable[Probe(hash, i)];
        if slot.Some? && slot.value != next[slot.value] {
          found := slot;
          break;
        }
        i := i + 1;
      }
      FirstLiveFound(hash);
      s := found.value;
    }

    /** The walk of `find_visible_edge`: from hull point `s0` forward along
        `next` to the first edge visible from `p`, or `None` once back at
        `s0`. */
    method WalkVisible(p: nat, visible: (nat, nat, nat) -> bool, s0: nat) returns (r: Option<(nat, bool)>)
      requires NextClosed() && IsCycle(next, prev, cycle) && 3 <= |cycle| && s0 in cycle
      ensures r.None? <==> forall x :: x in cycle ==> !visible(p, x, next[x])
      ensures r.Some? ==> r.value.0 in cycle && visible(p, r.value.0, next[r.value.0])
      ensures r.Some? && !r.value.1 ==> !visible(p, prev[r.value.0], r.value.0)
      ensures r.Some? ==> FirstVisibleFrom(p, visible, s0, r.value.0, r.value.1)
    {
      ghost var L := |cycle|;
      ghost var R := RotatedAt(next, prev, cycle, s0);
      var edge := s0;
      ghost var k := 0;
      while true
        invariant k < L && edge == R[k]
        invariant forall t {:trigger EdgeVisible(visible, p, next, R[t])} :: 0 <= t < k ==> !EdgeVisible(visible, p, next, R[t])
        decreases L - k
      {
        CycleLink(next, prev, R, k);
        var nxt := next[edge];
        if visible(p, edge, nxt) {
          break;
        }
        edge := nxt;
        if edge == s0 {
          DistinctIndex(R, Succ(L, k), 0);
          forall x | x in cycle
            ensures !visible(p, x, next[x])
          {
            SameMembers(R, cycle, x);
            var t :| 0 <= t < L && R[t] == x;
            assert !EdgeVisible(visible, p, next, R[t]);
          }
          return None;
        }
        k := k + 1;
      }
      if edge == s0 {
        DistinctIndex(R, k, 0);
      } else {
        assert k != 0;
        CycleLink(next, prev, R, k - 1);
        assert Succ(L, k - 1) == k;
        assert !EdgeVisible(visible, p, next, R[k - 1]);
      }
      SameMembers(R, cycle, edge);
      r := Some((edge, edge == s0));
      VisibleAlong(p, visible, R, k);
    }

    /** The walk along `R` that stops at position `k`, every edge passed
        invisible, is the walk `FirstVisibleFrom` describes. */
    lemma VisibleAlong(p: nat, visible: (nat, nat, nat) -> bool, R: seq<nat>, k: nat)
      requires NextClosed() && IsCycle(next, prev, R) && |R| == |cycle| && k < |R|
      requires forall t {:trigger EdgeVisible(visible, p, next, R[t])} :: 0 <= t < k ==> !EdgeVisible(visible, p, next, R[t])
      ensures R[0] < |next| && FirstVisibleFrom(p, visible, R[0], R[k], k == 0)
    {
      StepAlong(R, k);
      forall i | 0 <= i < k
        ensures !visible(p, Step(R[0], i), next[Step(R[0], i)])
      {
        StepAlong(R, i);
        assert !EdgeVisible(visible, p, next, R[i]);
      }
    }

    /** The predecessor of a hull point is on the hull. */
    lemma PrevMember(x: nat)
      requires Valid() && x in cycle
      ensures prev[x] in cycle
    {
      var i :| 0 <= i < |cycle| && cycle[i] == x;
      var i0 := if i == 0 then |cycle| - 1 else i - 1;
      assert Succ(|cycle|, i0) == i;
    }

    /** `find_visible_edge`: probes the table from `key(p)` for a live hull
        point `s`, then walks the hull from `prev[s]` until an edge passes
        the visibility test. `Some((e, back))`: edge `e -> next[e]` is the
        first visible one met, and `back` says the walk took no step, so the
        edges before `e` may be visible too; otherwise the edge before `e` is
        not. `None`: no hull edge is visible. */
    method FindVisibleEdge(p: nat, visible: (nat, nat, nat) -> bool, key: nat -> nat) returns (r: Option<(nat, bool)>)
      requires Valid()
      ensures r.None? <==> forall x :: x in cycle ==> !visible(p, x, next[x])
      ensures r.Some? ==> r.value.0 in cycle && visible(p, r.value.0, next[r.value.0])
      ensures r.Some? && !r.value.1 ==> !visible(p, prev[r.value.0], r.value.0)
      ensures r.Some? ==>
        FirstLive(key(p) % |hashTable|, 0).Some? &&
        FirstVisibleFrom(p, visible, prev[FirstLive(key(p) % |hashTable|, 0).value], r.value.0, r.value.1)
    {
      var s := ProbeLive(key(p) % |hashTable|);
      PrevMember(s);
      r := WalkVisible(p, visible, prev[s]);
    }

    /** One step of the forward loop of `add_point`: the triangle
        `(end, index, nxt)`, twinned along `index -> end` and `nxt -> end`
        with the boundary edges of `index` and `end`, legalized, and the edge
        `legalize` returns recorded as the boundary edge of `index`. */
    method ForwardTriangle(index: nat, end: nat, nxt: nat, tri: Delaunay,
                           inCircle: (nat, nat, nat, nat) -> bool, fuel: nat)
      requires Bounded() && TrianglesBelow(|tri.triangles|) && tri.Valid()
      requires index < |next| && end < |next| && |tri.triangles| + 3 <= |tri.halfedges|
      modifies this`triangles, tri
      ensures Bounded() && TrianglesBelow(|tri.triangles|) && tri.Valid()
      ensures |tri.triangles| == old(|tri.triangles|) + 3 && |tri.halfedges| == old(|tri.halfedges|)
      ensures triangles[index].Some?
    {
      var t := tri.AddTriangle(end, index, nxt, Twins(triangles[index], None, triangles[end], |tri.triangles|));
      var ar := tri.Legalize(t + 2, inCircle, this, fuel);
      triangles := triangles[index := Some(ar)];
    }

    /** One step of the backward loop of `add_point`: the triangle
        `(prv, index, s)`, twinned along `index -> s` and `s -> prv` with the
        boundary edges of `s` and `prv`, legalized, and recorded as the
        boundary edge of `prv`. */
    method BackTriangle(index: nat, prv: nat, s: nat, tri: Delaunay,
                        inCircle: (nat, nat, nat, nat) -> bool, fuel: nat)
      requires Bounded() && TrianglesBelow(|tri.triangles|) && tri.Valid()
      requires prv < |next| && s < |next| && |tri.triangles| + 3 <= |tri.halfedges|
      modifies this`triangles, tri
      ensures Bounded() && TrianglesBelow(|tri.triangles|) && tri.Valid()
      ensures |tri.triangles| == old(|tri.triangles|) + 3 && |tri.halfedges| == old(|tri.halfedges|)
      ensures triangles[prv] == Some(old(|tri.triangles|))
    {
      var t := tri.AddTriangle(prv, index, s, Twins(None, triangles[s], triangles[prv], |tri.triangles|));
      var ar := tri.Legalize(t + 2, inCircle, this, fuel);
      triangles := triangles[prv := Some(t)];
    }

    /** The forward loop of `add_point`. `R` is the hull read from the
        first visible edge and `end` starts at `R[1]`. While the edge leaving
        `end` is visible from the new point `index`, it adds the triangle
        `(end, index, next[end])`, twinned with the boundary edges of `index`
        and `end`, legalizes it, records the returned edge as the boundary
        edge of `index`, and drops `end` from the hull. It stops at position
        `m`, the first edge after `R[0]` that is not visible. */
    method AddForward(index: nat, tri: Delaunay, visible: (nat, nat, nat) -> bool,
                      inCircle: (nat, nat, nat, nat) -> bool, fuel: nat,
                      end0: nat, ghost R: seq<nat>, ghost w: nat)
      returns (end: nat, ghost m: nat)
      requires Bounded() && IsCycle(next, prev, R) && 3 <= |R|
      requires 1 <= w < |R| && !EdgeVisible(visible, index, next, R[w])
      requires end0 == R[1] && index < |next| && index !in R
      requires tri.Valid() && TrianglesBelow(|tri.triangles|)
      requires |tri.triangles| + 3 * (|R| - 2) <= |tri.halfedges|
      modifies this`next, this`triangles, tri
      ensures Bounded() && TrianglesBelow(|tri.triangles|) && tri.Valid()
      ensures 1 <= m <= w && end == R[m]
      ensures WalkedNext(old(next), next, R, m, 0)
      ensures forall t {:trigger EdgeVisible(visible, index, old(next), R[t])} :: 1 <= t < m ==> EdgeVisible(visible, index, old(next), R[t])
      ensures !EdgeVisible(visible, index, old(next), R[m])
      ensures |tri.halfedges| == old(|tri.halfedges|)
      ensures |tri.triangles| == old(|tri.triangles|) + 3 * (m - 1)
    {
      WalkedNextStart(next, prev, R);
      end := end0;
      m := 1;
      while true
        invariant 1 <= m <= w && end == R[m]
        invariant Bounded() && TrianglesBelow(|tri.triangles|) && tri.Valid()
        invariant WalkedNext(old(next), next, R, m, 0)
        invariant forall t {:trigger EdgeVisible(visible, index, old(next), R[t])} :: 1 <= t < m ==> EdgeVisible(visible, index, old(next), R[t])
        invariant |tri.halfedges| == old(|tri.halfedges|)
        invariant |tri.triangles| == old(|tri.triangles|) + 3 * (m - 1)
        decreases w - m
      {
        var nxt := next[end];
        if !visible(index, end, nxt) {
          break;
        }
        CycleLink(old(next), prev, R, m);
        ForwardTriangle(index, end, nxt, tri, inCircle, fuel);
        WalkedNextForward(old(next), next, R, m);
        next := next[end := end];
        end := nxt;
        m := m + 1;
      }
    }

    /** The backward loop of `add_point`, entered when the first visible edge
        was found without a step. From `s == s0 == R[0]`, while the edge
        `prev[s] -> s` is visible from `index`, it adds the triangle
        `(prev[s], index, s)`, twinned with the boundary edges of `s` and
        `prev[s]`, legalizes it, records it as the boundary edge of `prev[s]`,
        and drops `s`. After `q` steps `s` is at position `|R| - q` of the
        closed cycle. */
    method AddBack(index: nat, tri: Delaunay, visible: (nat, nat, nat) -> bool,
                   inCircle: (nat, nat, nat, nat) -> bool, fuel: nat,
                   s0: nat, ghost next0: seq<nat>, ghost R: seq<nat>, ghost m: nat)
      returns (s: nat, ghost q: nat)
      requires Bounded() && IsCycle(next0, prev, R) && 3 <= |R| && 1 <= m < |R| && s0 == R[0]
      requires WalkedNext(next0, next, R, m, 0)
      requires !EdgeVisible(visible, index, next0, R[m])
      requires index < |next| && index !in R
      requires tri.Valid() && TrianglesBelow(|tri.triangles|)
      requires |tri.triangles| + 3 * (|R| - m - 1) <= |tri.halfedges|
      modifies this`next, this`triangles, tri
      ensures Bounded() && TrianglesBelow(|tri.triangles|) && tri.Valid()
      ensures m + q < |R| && s == R[StartPos(|R|, q)]
      ensures WalkedNext(next0, next, R, m, q)
      ensures forall t {:trigger EdgeVisible(visible, index, next0, R[t])} :: |R| - q <= t < |R| ==> EdgeVisible(visible, index, next0, R[t])
      ensures !EdgeVisible(visible, index, next0, R[|R| - q - 1])
      ensures |tri.halfedges| == old(|tri.halfedges|)
      ensures |tri.triangles| == old(|tri.triangles|) + 3 * q
    {
      s := s0;
      q := 0;
      while true
        invariant m + q < |R| && s == R[StartPos(|R|, q)]
        invariant Bounded() && TrianglesBelow(|tri.triangles|) && tri.Valid()
        invariant WalkedNext(next0, next, R, m, q)
        invariant forall t {:trigger EdgeVisible(visible, index, next0, R[t])} :: |R| - q <= t < |R| ==> EdgeVisible(visible, index, next0, R[t])
        invariant |tri.halfedges| == old(|tri.halfedges|)
        invariant |tri.triangles| == old(|tri.triangles|) + 3 * q
        decreases |R| - m - q
      {
        CycleLink(next0, prev, R, |R| - q - 1);
        assert Succ(|R|, |R| - q - 1) == StartPos(|R|, q);
        var prv := prev[s];
        if !visible(index, prv, s) {
          break;
        }
        assert prv == R[|R| - q - 1] == R[StartPos(|R|, q + 1)];
        assert EdgeVisible(visible, index, next0, R[|R| - q - 1]);
        BackTriangle(index, prv, s, tri, inCircle, fuel);
        WalkedNextBack(next0, next, R, m, q);
        next := next[s := s];
        s := prv;
        q := q + 1;
      }
    }

    /** The first triangle of `add_point`: `(e, index, nxt)`, twinned along
        `nxt -> e` with the boundary edge of `e`, legalized; the edge
        `legalize` returns becomes the boundary edge of `index` and the new
        triangle's first edge that of `e`. */
    method FirstTriangle(index: nat, e: nat, nxt: nat, tri: Delaunay,
                         inCircle: (nat, nat, nat, nat) -> bool, fuel: nat)
      requires Bounded() && TrianglesBelow(|tri.triangles|) && tri.Valid()
      requires index < |next| && e < |next| && |tri.triangles| + 3 <= |tri.halfedges|
      modifies this`triangles, tri
      ensures Bounded() && TrianglesBelow(|tri.triangles|) && tri.Valid()
      ensures |tri.triangles| == old(|tri.triangles|) + 3 && |tri.halfedges| == old(|tri.halfedges|)
      ensures triangles[index].Some? && (e != index ==> triangles[e] == Some(old(|tri.triangles|)))
    {
      var t := tri.AddTriangle(e, index, nxt, Twins(None, None, triangles[e], |tri.triangles|));
      var ar := tri.Legalize(t + 2, inCircle, this, fuel);
      triangles := triangles[index := Some(ar)];
      triangles := triangles[e := Some(t)];
    }

    /** The triangles `add_point` adds: the first one on the visible edge
        `e = R[0]`, then the forward walk and, when `walkBack` is set, the
        backward walk. `next` ends up as `old(next)` with the points dropped
        by the walks marked dead; `start` and `end` are the hull points at
        either end of the visible chain. */
    method Walks(index: nat, tri: Delaunay, visible: (nat, nat, nat) -> bool,
                 inCircle: (nat, nat, nat, nat) -> bool, fuel: nat,
                 e: nat, walkBack: bool, ghost R: seq<nat>, ghost w: nat)
      returns (s: nat, end: nat, ghost m: nat, ghost q: nat)
      requires Bounded() && IsCycle(next, prev, R) && 3 <= |R| && R[0] == e
      requires EdgeVisible(visible, index, next, R[0])
      requires 1 <= w < |R| && !EdgeVisible(visible, index, next, R[w])
      requires !walkBack ==> !EdgeVisible(visible, index, next, R[|R| - 1])
      requires index < |next| && index !in R
      requires tri.Valid() && TrianglesBelow(|tri.triangles|)
      requires |tri.triangles| + 3 * (|R| - 1) <= |tri.halfedges|
      modifies this`next, this`triangles, tri
      ensures Bounded() && TrianglesBelow(|tri.triangles|) && tri.Valid()
      ensures |tri.halfedges| == old(|tri.halfedges|)
      ensures |tri.triangles| == old(|tri.triangles|) + 3 * (m + q)
      ensures 1 <= m && m + q < |R| && end == R[m] && s == R[StartPos(|R|, q)]
      ensures WalkedNext(old(next), next, R, m, q)
      ensures forall t {:trigger EdgeVisible(visible, index, old(next), R[t])} ::
        (0 <= t < m || |R| - q <= t < |R|) ==> EdgeVisible(visible, index, old(next), R[t])
      ensures !EdgeVisible(visible, index, old(next), R[m])
      ensures !EdgeVisible(visible, index, old(next), R[|R| - q - 1])
    {
      ghost var next0 := next;
      WalkedNextStart(next, prev, R);
      CycleLink(next, prev, R, 0);
      FirstTriangle(index, e, next[e], tri, inCircle, fuel);
      end, m := AddForward(index, tri, visible, inCircle, fuel, next[e], R, w);
      if walkBack {
        s, q := AddBack(index, tri, visible, inCircle, fuel, e, next0, R, m);
      } else {
        s, q := e, 0;
      }
    }

    /** The end of `add_point`: `index` joins the hull between `s` and `end`
        (`next[s] = index`, `next[index] = end`, and the `prev` links to
        match), `start` moves to `s`, and `index` then `s` are hashed. The
        hull becomes the splice of the walked cycle. */
    method Join(index: nat, s: nat, end: nat, key: nat -> nat,
                ghost next0: seq<nat>, ghost R: seq<nat>, ghost m: nat, ghost q: nat)
      requires Bounded() && IsCycle(next0, prev, R) && 3 <= |R| && 1 <= m && m + q < |R|
      requires index < |next| && index !in R && end == R[m] && s == R[StartPos(|R|, q)]
      requires WalkedNext(next0, next, R, m, q)
      requires HashCovers(next0, cycle, hashTable) && multiset(cycle) == multiset(R)
      modifies this`next, this`prev, this`start, this`hashTable, this`cycle
      ensures Valid()
      ensures next == old(next)[s := index][index := end]
      ensures prev == old(prev)[end := index][index := s]
      ensures start == s && cycle == Spliced(Closed(R), m, q, index)
      ensures |hashTable| == |old(hashTable)|
      ensures hashTable == old(hashTable)[key(index) % |hashTable| := Some(index)][key(s) % |hashTable| := Some(s)]
      ensures forall x :: 0 <= x < |next| && x !in old(cycle) && x != index ==> next[x] == next0[x]
      ensures forall x :: x in old(cycle) && x !in cycle ==> x < |next| && next[x] == x
    {
      var size := |hashTable|;
      var next1, prev1 := next[s := index][index := end], prev[end := index][index := s];
      var h1 := hashTable[key(index) % size := Some(index)][key(s) % size := Some(s)];
      JoinedHull(next0, prev, R, m, q, index, next, cycle, hashTable, key(index) % size, key(s) % size,
                 s, next1, prev1, h1);
      start, next, prev, hashTable := s, next1, prev1, h1;
      cycle := Spliced(Closed(R), m, q, index);
      assert hashTable[key(s) % size] == Some(s);
      assert forall x :: x in old(cycle) && x !in cycle ==> x < |next| && next[x] == x by {
        SpliceDropsMarked(next0, old(prev), R, m, q, index, old(next), old(cycle));
      }
    }

    /** `add_point` once `find_visible_edge` has found the visible edge
        `e -> next[e]`: with `R` the hull read from `e`, the edges at
        positions `0 .. m-1` and `|R|-q .. |R|-1` are the visible ones met by
        the two walks, one triangle is added per such edge, the points
        strictly inside that visible chain leave the hull, and `index` joins
        it between `start` (position `|R| - q`) and `end` (position `m`).
        Both points are hashed. */
    method Insert(index: nat, tri: Delaunay, visible: (nat, nat, nat) -> bool,
                  inCircle: (nat, nat, nat, nat) -> bool, key: nat -> nat, fuel: nat,
                  e: nat, walkBack: bool)
      returns (ghost R: seq<nat>, ghost m: nat, ghost q: nat)
      requires Valid() && index < |next| && index !in cycle
      requires tri.Valid() && TrianglesBelow(|tri.triangles|)
      requires |tri.triangles| + 3 * (|cycle| - 1) <= |tri.halfedges|
      requires e in cycle && EdgeVisible(visible, index, next, e)
      requires !walkBack ==> !visible(index, prev[e], e)
      requires exists x :: x in cycle && !EdgeVisible(visible, index, next, x)
      modifies this, tri
      ensures Valid() && tri.Valid() && TrianglesBelow(|tri.triangles|)
      ensures |tri.halfedges| == old(|tri.halfedges|) && |hashTable| == old(|hashTable|) && |next| == old(|next|)
      ensures WalkResult(visible, index, old(next), old(prev), old(cycle), R, m, q)
      ensures cycle == Spliced(Closed(R), m, q, index) && start == R[StartPos(|R|, q)]
      ensures |tri.triangles| == old(|tri.triangles|) + 3 * (m + q)
      ensures hashTable == old(hashTable)[key(index) % |hashTable| := Some(index)][key(start) % |hashTable| := Some(start)]
      ensures forall x :: 0 <= x < |next| && x !in old(cycle) && x != index ==> next[x] == old(next)[x]
      ensures forall x :: x in old(cycle) && x !in cycle ==> x < |next| && next[x] == x
    {
      R := RotatedAt(next, prev, cycle, e);
      ghost var x :| x in cycle && !EdgeVisible(visible, index, next, x);
      SameMembers(R, cycle, x);
      SameMembers(R, cycle, index);
      ghost var w :| 0 <= w < |R| && R[w] == x;
      CycleLink(next, prev, R, |R| - 1);
      ghost var next0, prev0, cycle0, hash0 := next, prev, cycle, hashTable;
      assert IsCycle(next0, prev0, R) && HashCovers(next0, cycle0, hash0);
      var s, end;
      s, end, m, q := Walks(index, tri, visible, inCircle, fuel, e, walkBack, R, w);
      assert WalkResult(visible, index, next0, prev0, cycle0, R, m, q);
      Join(index, s, end, key, next0, R, m, q);
    }

    /** `add_point`: joins the new point `index`, which sees no hull edge
        or sees some but not all of them, to the hull. With no visible edge
        nothing changes; otherwise `Insert` describes the new hull. */
    method AddPoint(index: nat, tri: Delaunay, visible: (nat, nat, nat) -> bool,
                    inCircle: (nat, nat, nat, nat) -> bool, key: nat -> nat, fuel: nat)
      returns (ghost added: bool, ghost R: seq<nat>, ghost m: nat, ghost q: nat)
      requires Valid() && index < |next| && index !in cycle
      requires tri.Valid() && TrianglesBelow(|tri.triangles|)
      requires |tri.triangles| + 3 * (|cycle| - 1) <= |tri.halfedges|
      requires exists x :: x in cycle && !EdgeVisible(visible, index, next, x)
      modifies this, tri
      ensures Valid() && tri.Valid() && TrianglesBelow(|tri.triangles|)
      ensures |tri.halfedges| == old(|tri.halfedges|) && |hashTable| == old(|hashTable|) && |next| == old(|next|)
      ensures added <==> exists x :: x in old(cycle) && EdgeVisible(visible, index, old(next), x)
      ensures !added ==> unchanged(this) && unchanged(tri)
      ensures added ==> WalkResult(visible, index, old(next), old(prev), old(cycle), R, m, q)
      ensures added ==> cycle == Spliced(Closed(R), m, q, index) && start == R[StartPos(|R|, q)]
      ensures added ==> |tri.triangles| == old(|tri.triangles|) + 3 * (m + q)
      ensures added ==>
        hashTable == old(hashTable)[key(index) % |hashTable| := Some(index)][key(start) % |hashTable| := Some(start)]
      ensures added ==> forall x :: 0 <= x < |next| && x !in old(cycle) && x != index ==> next[x] == old(next)[x]
      ensures added ==> forall x :: x in old(cycle) && x !in cycle ==> x < |next| && next[x] == x
    {
      var found := FindVisibleEdge(index, visible, key);
      added, R, m, q := found.Some?, [], 0, 0;
      if found.None? {
        return;
      }
      R, m, q := Insert(index, tri, visible, inCircle, key, fuel, found.value.0, found.value.1);
    }

    /** The hull walk inside `legalize`: from `start`, replace the first
        boundary entry naming half-edge `from` by `to`, stopping on coming
        back to `start`. `finished` is false exactly when the walk never
        stops; the walk is then cut off after `|next|` steps with nothing
        replaced. */
    method ReplaceTriangle(from: nat, to: nat) returns (finished: bool)
      requires Bounded()
      modifies this`triangles
      ensures Bounded()
      ensures ReplacedTriangle(old(triangles), from, to)
      ensures !finished <==> triangles == old(triangles) && forall k :: WalkPasses(old(triangles), from, k)
      ensures forall p :: 0 <= p < |triangles| ==> triangles[p] == old(triangles)[p] || triangles[p] == Some(to)
    {
      var edge := start;
      var k := 0;
      while k < |next|
        invariant k <= |next| && edge == Step(start, k) && triangles == old(triangles)
        invariant WalkPasses(old(triangles), from, k)
        decreases |next| - k
      {
        if triangles[edge] == Some(from) {
          triangles := triangles[edge := Some(to)];
          assert !PassesAt(old(triangles), from, k);
          assert !WalkPasses(old(triangles), from, k + 1);
          return true;
        }
        edge := next[edge];
        assert edge == Step(start, k + 1);
        if edge == start {
          assert !PassesAt(old(triangles), from, k);
          assert !WalkPasses(old(triangles), from, k + 1);
          return true;
        }
        k := k + 1;
      }
      WalkNeverStops(old(triangles), from);
      finished := false;
    }
  }

  /** Pigeonhole: a sequence of more than `n` naturals below `n` repeats a
      value. */
  lemma Pigeonhole(w: seq<nat>, n: nat) returns (a: nat, b: nat)
    requires n < |w| && forall i :: 0 <= i < |w| ==> w[i] < n
    ensures a < b < |w| && b <= n && w[a] == w[b]
  {
    var at: map<nat, nat> := map[];
    var k: nat := 0;
    while k <= n
      invariant k <= n + 1 && |at| == k
      invariant forall y :: y in at ==> y < n && at[y] < k && w[at[y]] == y
      decreases n + 1 - k
    {
      if w[k] in at {
        return at[w[k]], k;
      }
      ghost var at0 := at;
      at := at[w[k] := k];
      assert |at| == |at0| + 1;
      k := k + 1;
    }
    BoundedSetCard(at.Keys, n);
    assert false;
  }

  /** A set of naturals below `n` has at most `n` elements. */
  lemma {:induction false} BoundedSetCard(s: set<nat>, n: nat)
    requires forall y :: y in s ==> y < n
    ensures |s| <= n
  {
    if n == 0 {
      assert s == {};
    } else {
      var s' := s - {n - 1};
      BoundedSetCard(s', n - 1);
      if n - 1 in s {
        assert s == s' + {n - 1};
      } else {
        assert s == s';
      }
    }
  }
}
