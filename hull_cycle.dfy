/** The hull as an index-addressed doubly linked cycle: `next[p]` and
    `prev[p]` are the successor and predecessor of hull point `p`. A ghost
    sequence `c` lists the hull points in `next` order. */
module HullCycle {
  import opened OptionIndexes

  /** The position after `i` in a cycle of length `n`. */
  function Succ(n: nat, i: nat): (r: nat)
    requires i < n
    ensures r < n
    ensures r == (i + 1) % n
  {
    if i + 1 < n then i + 1 else 0
  }

  /** Positions `i` and `j` of `c` hold different points. */
  ghost predicate Apart(c: seq<nat>, i: nat, j: nat)
  {
    i < |c| && j < |c| && c[i] != c[j]
  }

  /** No point occurs twice in `c`. The pairs are compared only where a
      proof names them through `Apart`. */
  ghost predicate Distinct(c: seq<nat>)
  {
    forall i, j {:trigger Apart(c, i, j)} :: 0 <= i < j < |c| ==> Apart(c, i, j)
  }

  /** `c` lists distinct points below `|next|`, each linked forward by
      `next` to its successor and backward by `prev` from it. */
  ghost predicate IsCycle(next: seq<nat>, prev: seq<nat>, c: seq<nat>)
  {
    |next| == |prev| && Distinct(c) &&
    (forall i :: 0 <= i < |c| ==> c[i] < |next|) &&
    (forall i :: 0 <= i < |c| ==> next[c[i]] == c[Succ(|c|, i)] && prev[c[Succ(|c|, i)]] == c[i])
  }

  /** The cycle read from position `j` on. */
  function Rotate(c: seq<nat>, j: nat): (r: seq<nat>)
    requires j < |c|
    ensures |r| == |c| && r[0] == c[j]
    ensures forall i :: 0 <= i < |c| ==> r[i] == c[if j + i < |c| then j + i else j + i - |c|]
    ensures multiset(r) == multiset(c)
  {
    assert c == c[..j] + c[j..];
    c[j..] + c[..j]
  }

  /** Reading a cycle from another position gives a cycle with the same
      points. */
  lemma RotateIsCycle(next: seq<nat>, prev: seq<nat>, c: seq<nat>, j: nat)
    requires IsCycle(next, prev, c) && j < |c|
    ensures IsCycle(next, prev, Rotate(c, j))
  {
    var r := Rotate(c, j);
    var n := |c|;
    forall i | 0 <= i < n
      ensures next[r[i]] == r[Succ(n, i)] && prev[r[Succ(n, i)]] == r[i]
    {
      var k := if j + i < n then j + i else j + i - n;
      assert r[i] == c[k];
      assert r[Succ(n, i)] == c[Succ(n, k)];
    }
    forall i, i' | 0 <= i < i' < n
      ensures Apart(r, i, i')
    {
      var k := if j + i < n then j + i else j + i - n;
      var k' := if j + i' < n then j + i' else j + i' - n;
      assert k != k';
      if k < k' {
        assert Apart(c, k, k');
      } else {
        assert Apart(c, k', k);
      }
    }
  }

  /** Two sequences holding the same multiset hold the same points. */
  lemma SameMembers(r: seq<nat>, c: seq<nat>, y: nat)
    requires multiset(r) == multiset(c)
    ensures y in r <==> y in c
  {
    assert y in r <==> multiset(r)[y] > 0;
  }

  /** The cycle read from any of its points. */
  lemma RotatedAt(next: seq<nat>, prev: seq<nat>, c: seq<nat>, x: nat) returns (r: seq<nat>)
    requires IsCycle(next, prev, c) && x in c
    ensures IsCycle(next, prev, r) && |r| == |c| && r[0] == x
    ensures multiset(r) == multiset(c)
  {
    var j :| 0 <= j < |c| && c[j] == x;
    RotateIsCycle(next, prev, c, j);
    r := Rotate(c, j);
  }

  /** A point occurs at one position of a cycle only. */
  lemma DistinctIndex(c: seq<nat>, i: nat, j: nat)
    requires Distinct(c) && i < |c| && j < |c|
    ensures c[i] == c[j] ==> i == j
  {
    if i < j {
      assert Apart(c, i, j);
    } else if j < i {
      assert Apart(c, j, i);
    }
  }

  /** The links leaving position `k` of a cycle. */
  lemma CycleLink(next: seq<nat>, prev: seq<nat>, c: seq<nat>, k: nat)
    requires IsCycle(next, prev, c) && k < |c|
    ensures c[k] < |next| && c[Succ(|c|, k)] < |prev|
    ensures next[c[k]] == c[Succ(|c|, k)] && prev[c[Succ(|c|, k)]] == c[k]
  {
  }

  /** Three distinct points linked round by `next` and back by `prev` form a
      cycle. */
  lemma ThreeCycle(next: seq<nat>, prev: seq<nat>, a: nat, b: nat, c: nat)
    requires |next| == |prev| && a < |next| && b < |next| && c < |next|
    requires a != b && b != c && a != c
    requires next[a] == b && next[b] == c && next[c] == a
    requires prev[b] == a && prev[c] == b && prev[a] == c
    ensures IsCycle(next, prev, [a, b, c])
  {
    assert Succ(3, 0) == 1 && Succ(3, 1) == 2 && Succ(3, 2) == 0;
    assert Apart([a, b, c], 0, 1) && Apart([a, b, c], 0, 2) && Apart([a, b, c], 1, 2);
  }

  /** The cycle with its first point repeated at the end, so that the edge
      leaving position `t` always runs to position `t + 1`. */
  function Closed(c: seq<nat>): (r: seq<nat>)
    requires |c| > 0
    ensures |r| == |c| + 1 && r[|c|] == c[0] && r[0] == c[0]
    ensures forall t :: 0 <= t < |c| ==> r[t] == c[t]
  {
    c + [c[0]]
  }

  /** Every edge of the closed cycle is a `next` link and a `prev` link. */
  lemma ClosedLinks(next: seq<nat>, prev: seq<nat>, c: seq<nat>, t: nat)
    requires IsCycle(next, prev, c) && 0 < |c| && t < |c|
    ensures Closed(c)[t] < |next| && Closed(c)[t + 1] < |next|
    ensures next[Closed(c)[t]] == Closed(c)[t + 1]
    ensures prev[Closed(c)[t + 1]] == Closed(c)[t]
  {
    assert Succ(|c|, t) == if t + 1 < |c| then t + 1 else 0;
  }

  /** Positions `1 .. |c|` of the closed cycle hold distinct points. */
  lemma ClosedDistinct(c: seq<nat>, s: nat, t: nat)
    requires Distinct(c) && 0 < |c| && 1 <= s < t <= |c|
    ensures Closed(c)[s] != Closed(c)[t]
  {
    if t < |c| {
      assert Apart(c, s, t);
    } else {
      assert Apart(c, 0, s);
    }
  }

  /** The state `add_point` has reached just after splicing: `R` was the
      hull read from the first visible edge, the points at positions `1 .. m-1`
      and `|R|-q+1 .. |R|` of its closed cycle `C` are gone, `start` (position
      `|R| - q`) now runs to the new point `index`, which runs to `end`
      (position `m`); the points kept in between keep their `next` links and
      only `end` and `index` get a new `prev`. */
  ghost predicate SpliceInput(next0: seq<nat>, prev0: seq<nat>, R: seq<nat>, C: seq<nat>, m: nat, q: nat, index: nat,
                              next1: seq<nat>, prev1: seq<nat>)
  {
    IsCycle(next0, prev0, R) && 3 <= |R| && C == Closed(R) &&
    1 <= m && m + q < |R| &&
    index < |next0| && index !in R &&
    |next1| == |next0| && |prev1| == |prev0| &&
    (forall t :: m <= t < |R| - q ==> next1[C[t]] == next0[C[t]]) &&
    next1[C[|R| - q]] == index && next1[index] == R[m] &&
    (forall x :: 0 <= x < |prev0| && x != R[m] && x != index ==> prev1[x] == prev0[x]) &&
    prev1[R[m]] == index && prev1[index] == C[|R| - q]
  }

  /** Position `t` of `C` is linked forward to position `t + 1` and back. */
  ghost predicate LinkedAt(next: seq<nat>, prev: seq<nat>, C: seq<nat>, t: nat)
  {
    t + 1 < |C| && C[t] < |next| && C[t + 1] < |prev| &&
    next[C[t]] == C[t + 1] && prev[C[t + 1]] == C[t]
  }

  /** One link of the spliced cycle: the point at position `t` of `C` keeps
      its successor, which is either the next kept point or `start` again. */
  lemma SpliceLink(next0: seq<nat>, prev0: seq<nat>, R: seq<nat>, C: seq<nat>, m: nat, q: nat, index: nat,
                   next1: seq<nat>, prev1: seq<nat>, t: nat)
    requires SpliceInput(next0, prev0, R, C, m, q, index, next1, prev1)
    requires m <= t < |R| - q
    ensures LinkedAt(next1, prev1, C, t)
  {
    ClosedLinks(next0, prev0, R, t);
    ClosedDistinct(R, m, t + 1);
    if t + 1 < |R| {
      assert C[t + 1] == R[t + 1];
    }
  }

  /** The point sequence of the spliced cycle: `start`, the new point, then
      the kept points from `end` up to just before `start`. */
  function Spliced(C: seq<nat>, m: nat, q: nat, index: nat): (r: seq<nat>)
    requires 1 <= m && m + q + 1 < |C|
    ensures |r| == |C| + 1 - q - m
    ensures r[0] == C[|C| - 1 - q] && r[1] == index && r[2] == C[m]
    ensures forall j :: 2 <= j < |r| ==> r[j] == C[m + j - 2]
  {
    [C[|C| - 1 - q], index] + C[m..|C| - 1 - q]
  }

  /** The points of the spliced cycle are distinct. */
  lemma SpliceDistinct(R: seq<nat>, C: seq<nat>, m: nat, q: nat, index: nat)
    requires Distinct(R) && 3 <= |R| && C == Closed(R)
    requires 1 <= m && m + q < |R|
    requires index !in R
    ensures Distinct(Spliced(C, m, q, index))
  {
    var L := |R|;
    var nc := Spliced(C, m, q, index);
    forall i, j | 0 <= i < j < |nc|
      ensures Apart(nc, i, j)
    {
      if i == 0 && j >= 2 {
        ClosedDistinct(R, m + j - 2, L - q);
      } else if i >= 2 {
        ClosedDistinct(R, m + i - 2, m + j - 2);
      } else if i == 1 && j >= 2 {
        assert nc[j] == R[m + j - 2];
      } else if i == 0 && j == 1 && L - q < L {
        assert nc[0] == R[L - q];
      }
    }
  }

  /** The facts about the new links that make the spliced sequence a cycle. */
  ghost predicate SpliceReady(next1: seq<nat>, prev1: seq<nat>, C: seq<nat>, m: nat, q: nat, index: nat)
  {
    1 <= m && m + q + 1 < |C| && |next1| == |prev1| &&
    Distinct(Spliced(C, m, q, index)) &&
    index < |next1| && C[|C| - 1 - q] < |next1| &&
    next1[C[|C| - 1 - q]] == index && prev1[index] == C[|C| - 1 - q] &&
    C[m] < |next1| && next1[index] == C[m] && prev1[C[m]] == index &&
    forall t :: m <= t < |C| - 1 - q ==> LinkedAt(next1, prev1, C, t)
  }

  lemma SpliceReadyHolds(next0: seq<nat>, prev0: seq<nat>, R: seq<nat>, C: seq<nat>, m: nat, q: nat, index: nat,
                         next1: seq<nat>, prev1: seq<nat>)
    requires SpliceInput(next0, prev0, R, C, m, q, index, next1, prev1)
    ensures SpliceReady(next1, prev1, C, m, q, index)
  {
    SpliceDistinct(R, C, m, q, index);
    forall t | m <= t < |C| - 1 - q
      ensures LinkedAt(next1, prev1, C, t)
    {
      SpliceLink(next0, prev0, R, C, m, q, index, next1, prev1, t);
    }
    ClosedLinks(next0, prev0, R, m);
    ClosedLinks(next0, prev0, R, |R| - q - 1);
  }

  /** The links that make the spliced sequence a cycle. */
  lemma SpliceFromLinks(next1: seq<nat>, prev1: seq<nat>, C: seq<nat>, m: nat, q: nat, index: nat)
    requires SpliceReady(next1, prev1, C, m, q, index)
    ensures IsCycle(next1, prev1, Spliced(C, m, q, index))
  {
    var nc := Spliced(C, m, q, index);
    var n := |nc|;
    forall i | 0 <= i < n
      ensures nc[i] < |next1|
    {
      if i >= 2 {
        assert LinkedAt(next1, prev1, C, m + i - 2);
      }
    }
    forall i | 0 <= i < n
      ensures next1[nc[i]] == nc[Succ(n, i)] && prev1[nc[Succ(n, i)]] == nc[i]
    {
      if i >= 2 {
        assert LinkedAt(next1, prev1, C, m + i - 2);
        if i + 1 == n {
          assert Succ(n, i) == 0;
        }
      } else if i == 1 {
        assert Succ(n, i) == 2;
      }
    }
  }

  /** The cycle `add_point` leaves behind: the new point between `start` and
      `end`, the points strictly between them on the visible side gone, and
      the rest of the old cycle in its old order. */
  lemma SpliceIsCycle(next0: seq<nat>, prev0: seq<nat>, R: seq<nat>, C: seq<nat>, m: nat, q: nat, index: nat,
                      next1: seq<nat>, prev1: seq<nat>)
    requires SpliceInput(next0, prev0, R, C, m, q, index, next1, prev1)
    ensures IsCycle(next1, prev1, Spliced(C, m, q, index))
  {
    SpliceReadyHolds(next0, prev0, R, C, m, q, index, next1, prev1);
    SpliceFromLinks(next1, prev1, C, m, q, index);
  }

  /** The hull edge leaving `x` is visible from point `p`. */
  ghost predicate EdgeVisible(visible: (nat, nat, nat) -> bool, p: nat, next: seq<nat>, x: nat)
  {
    x < |next| && visible(p, x, next[x])
  }

  /** What the two walks of `add_point` found on the hull `c0`: `R` is `c0`
      read from a visible edge, the edges at positions `0 .. m-1` and
      `|R|-q .. |R|-1` are visible from `p`, and the edges just past either
      end of that chain, at positions `m` and `|R| - q - 1`, are not. */
  ghost predicate WalkResult(visible: (nat, nat, nat) -> bool, p: nat, next0: seq<nat>, prev0: seq<nat>,
                             c0: seq<nat>, R: seq<nat>, m: nat, q: nat)
  {
    IsCycle(next0, prev0, R) && multiset(R) == multiset(c0) &&
    1 <= m && m + q < |R| &&
    (forall t {:trigger EdgeVisible(visible, p, next0, R[t])} ::
      (0 <= t < m || |R| - q <= t < |R|) ==> EdgeVisible(visible, p, next0, R[t])) &&
    !EdgeVisible(visible, p, next0, R[m]) && !EdgeVisible(visible, p, next0, R[|R| - q - 1])
  }

  /** Position `t` of a cycle of length `L`, read from the first visible
      edge, has been dropped from the hull once the forward walk of
      `add_point` has reached position `m` and the backward walk has taken
      `j` steps: positions `1 .. m-1` and the last `j` positions of the closed
      cycle, `L` being position `0` again. */
  predicate Dropped(L: nat, m: nat, j: nat, t: nat)
  {
    (1 <= t < m) || (0 < j && t == 0) || (L - j < t < L)
  }

  /** `nextW` is `next0` with the points at dropped positions of `R` marked
      dead (linked to themselves) and everything else unchanged. */
  ghost predicate WalkedNext(next0: seq<nat>, nextW: seq<nat>, R: seq<nat>, m: nat, j: nat)
  {
    |nextW| == |next0| &&
    (forall t :: 0 <= t < |R| ==> R[t] < |next0|) &&
    (forall t {:trigger nextW[R[t]]} :: 0 <= t < |R| ==>
      nextW[R[t]] == if Dropped(|R|, m, j, t) then R[t] else next0[R[t]]) &&
    (forall x {:trigger nextW[x]} :: 0 <= x < |next0| && x !in R ==> nextW[x] == next0[x])
  }

  /** Nothing is dropped before the walks start. */
  lemma WalkedNextStart(next0: seq<nat>, prev0: seq<nat>, R: seq<nat>)
    requires IsCycle(next0, prev0, R)
    ensures WalkedNext(next0, next0, R, 1, 0)
  {
  }

  /** The forward walk drops the point at position `k` and moves on. */
  lemma WalkedNextForward(next0: seq<nat>, nextW: seq<nat>, R: seq<nat>, k: nat)
    requires Distinct(R) && 1 <= k < |R| && WalkedNext(next0, nextW, R, k, 0)
    ensures WalkedNext(next0, nextW[R[k] := R[k]], R, k + 1, 0)
  {
    var n := nextW[R[k] := R[k]];
    forall t | 0 <= t < |R|
      ensures n[R[t]] == if Dropped(|R|, k + 1, 0, t) then R[t] else next0[R[t]]
    {
      if t != k {
        DistinctIndex(R, t, k);
      }
    }
  }

  /** The backward walk drops the point at position `|R| - j` of the closed
      cycle (position `0` when `j == 0`) and moves back one position. */
  lemma WalkedNextBack(next0: seq<nat>, nextW: seq<nat>, R: seq<nat>, m: nat, j: nat)
    requires Distinct(R) && 1 <= m && m + j < |R| && WalkedNext(next0, nextW, R, m, j)
    ensures var s := R[StartPos(|R|, j)];
      WalkedNext(next0, nextW[s := s], R, m, j + 1)
  {
    var i := StartPos(|R|, j);
    var n := nextW[R[i] := R[i]];
    forall t | 0 <= t < |R|
      ensures n[R[t]] == if Dropped(|R|, m, j + 1, t) then R[t] else next0[R[t]]
    {
      if t != i {
        DistinctIndex(R, t, i);
      }
    }
  }

  /** The position of `start` in `R` once the backward walk has taken `q`
      steps: position `|R| - q` of the closed cycle. */
  function StartPos(L: nat, q: nat): (r: nat)
    requires q < L
    ensures r < L && !Dropped(L, 1, q, r) && (q == 0 <==> r == 0)
  {
    if q == 0 then 0 else L - q
  }

  /** The splice at the end of `add_point`: from the walked `next` and the
      old `prev`, linking `start` (position `|R| - q`) to the new point and
      the new point to `end` (position `m`) gives the state `SpliceInput`
      describes. */
  lemma SpliceFromWalk(next0: seq<nat>, prev0: seq<nat>, R: seq<nat>, m: nat, q: nat, index: nat, nextW: seq<nat>)
    requires IsCycle(next0, prev0, R) && 3 <= |R| && 1 <= m && m + q < |R|
    requires index < |next0| && index !in R
    requires WalkedNext(next0, nextW, R, m, q)
    ensures var s := R[StartPos(|R|, q)];
      SpliceInput(next0, prev0, R, Closed(R), m, q, index,
                  nextW[s := index][index := R[m]], prev0[R[m] := index][index := s])
  {
    var L := |R|;
    var C := Closed(R);
    var s := R[StartPos(L, q)];
    assert C[L - q] == s;
    var next1 := nextW[s := index][index := R[m]];
    forall t | m <= t < L - q
      ensures next1[C[t]] == next0[C[t]]
    {
      DistinctIndex(R, t, StartPos(L, q));
      assert C[t] == R[t];
    }
  }

  /** After the splice every old hull point is on the new hull or dead. */
  lemma SpliceKeepsOrDrops(next0: seq<nat>, prev0: seq<nat>, R: seq<nat>, m: nat, q: nat, index: nat, nextW: seq<nat>, x: nat)
    requires IsCycle(next0, prev0, R) && 3 <= |R| && 1 <= m && m + q < |R|
    requires index < |next0| && index !in R
    requires WalkedNext(next0, nextW, R, m, q)
    requires x in R
    ensures var s := R[StartPos(|R|, q)];
      var next1 := nextW[s := index][index := R[m]];
      x in Spliced(Closed(R), m, q, index) || next1[x] == x
  {
    var L := |R|;
    var C := Closed(R);
    var si := StartPos(L, q);
    var s := R[si];
    var nc := Spliced(C, m, q, index);
    var t :| 0 <= t < L && R[t] == x;
    if t == si {
      assert nc[0] == x;
    } else if !Dropped(L, m, q, t) {
      assert nc[t - m + 2] == C[t];
    } else {
      DistinctIndex(R, t, si);
    }
  }


  /** After the splice every old hull point left off the new hull is dead:
      the points the walks of `add_point` drop are marked `next[p] == p`. */
  lemma SpliceDropsMarked(next0: seq<nat>, prev0: seq<nat>, R: seq<nat>, m: nat, q: nat, index: nat,
                          nextW: seq<nat>, c: seq<nat>)
    requires IsCycle(next0, prev0, R) && 3 <= |R| && 1 <= m && m + q < |R|
    requires index < |next0| && index !in R
    requires WalkedNext(next0, nextW, R, m, q) && multiset(c) == multiset(R)
    ensures var s := R[StartPos(|R|, q)];
      var next1 := nextW[s := index][index := R[m]];
      forall x :: x in c && x !in Spliced(Closed(R), m, q, index) ==> x < |nextW| && next1[x] == x
  {
    forall x | x in c
      ensures x in R
    {
      assert x in multiset(c);
    }
    forall x | x in R
      ensures var s := R[StartPos(|R|, q)];
        var next1 := nextW[s := index][index := R[m]];
        x in Spliced(Closed(R), m, q, index) || next1[x] == x
    {
      SpliceKeepsOrDrops(next0, prev0, R, m, q, index, nextW, x);
    }
  }

  /** Every point the hash table names is a point below `|next|` that is on
      the hull `c` or dead. */
  ghost predicate HashCovers(next: seq<nat>, c: seq<nat>, h: seq<Option<nat>>)
  {
    forall k :: 0 <= k < |h| && h[k].Some? ==>
      h[k].value < |next| && (h[k].value in c || next[h[k].value] == h[k].value)
  }

  /** After the splice and the two `add_hash` calls of `add_point`, every
      point the table names is on the new hull or dead. */
  lemma HashAfterSplice(next0: seq<nat>, prev0: seq<nat>, R: seq<nat>, m: nat, q: nat, index: nat,
                        nextW: seq<nat>, c0: seq<nat>, h0: seq<Option<nat>>, k1: nat, k2: nat)
    requires IsCycle(next0, prev0, R) && 3 <= |R| && 1 <= m && m + q < |R|
    requires index < |next0| && index !in R
    requires WalkedNext(next0, nextW, R, m, q)
    requires multiset(c0) == multiset(R)
    requires HashCovers(next0, c0, h0) && k1 < |h0| && k2 < |h0|
    ensures var s := R[StartPos(|R|, q)];
      HashCovers(nextW[s := index][index := R[m]], Spliced(Closed(R), m, q, index),
                 h0[k1 := Some(index)][k2 := Some(s)])
  {
    var s := R[StartPos(|R|, q)];
    var next1 := nextW[s := index][index := R[m]];
    var nc := Spliced(Closed(R), m, q, index);
    var h1 := h0[k1 := Some(index)][k2 := Some(s)];
    forall k | 0 <= k < |h1| && h1[k].Some?
      ensures h1[k].value < |next1| && (h1[k].value in nc || next1[h1[k].value] == h1[k].value)
    {
      var y := h1[k].value;
      if k == k2 {
        assert nc[0] == s;
      } else if k == k1 {
        assert nc[1] == index;
      } else if y in R {
        SpliceKeepsOrDrops(next0, prev0, R, m, q, index, nextW, y);
      } else if y == index {
        assert nc[1] == index;
      } else {
        SameMembers(c0, R, y);
      }
    }
  }

  /** The hull `add_point` leaves: the spliced sequence is a cycle of at
      least three points under the new links, starting at `start`, and after
      hashing `index` and then `start` every entry of the table is on it or
      dead, with the entry of `start` on it. */
  lemma JoinedHull(next0: seq<nat>, prev0: seq<nat>, R: seq<nat>, m: nat, q: nat, index: nat,
                   nextW: seq<nat>, c0: seq<nat>, h0: seq<Option<nat>>, k1: nat, k2: nat,
                   s: nat, next1: seq<nat>, prev1: seq<nat>, h1: seq<Option<nat>>)
    requires IsCycle(next0, prev0, R) && 3 <= |R| && 1 <= m && m + q < |R|
    requires index < |next0| && index !in R
    requires WalkedNext(next0, nextW, R, m, q)
    requires multiset(c0) == multiset(R)
    requires HashCovers(next0, c0, h0) && k1 < |h0| && k2 < |h0|
    requires s == R[StartPos(|R|, q)]
    requires next1 == nextW[s := index][index := R[m]] && prev1 == prev0[R[m] := index][index := s]
    requires h1 == h0[k1 := Some(index)][k2 := Some(s)]
    ensures IsCycle(next1, prev1, Spliced(Closed(R), m, q, index))
    ensures HashCovers(next1, Spliced(Closed(R), m, q, index), h1)
    ensures 3 <= |Spliced(Closed(R), m, q, index)| && Spliced(Closed(R), m, q, index)[0] == s
    ensures forall x :: 0 <= x < |next1| && x !in c0 && x != index ==> next1[x] == next0[x]
  {
    forall x | 0 <= x < |next1| && x !in c0 && x != index
      ensures next1[x] == next0[x]
    {
      SameMembers(c0, R, x);
    }
    SpliceFromWalk(next0, prev0, R, m, q, index, nextW);
    SpliceIsCycle(next0, prev0, R, Closed(R), m, q, index, next1, prev1);
    HashAfterSplice(next0, prev0, R, m, q, index, nextW, c0, h0, k1, k2);
  }
}
