# A Dafny model of the `triangulation` crate's combinatorial core

The `triangulation` crate computes a Delaunay triangulation of planar points
with a sweep-hull algorithm. This project models the index-level structure
of that algorithm and proves properties of it. The geometry is left
abstract: orientation, in-circumcircle, distances, `approx_eq` and the
angular hash.

The model has nine modules.

- **`OptionIndexes`** (`option_index.dfy`): `OptionIndex`, the
  `usize`-with-sentinel encoding of an optional index. `usize::MAX` stands
  for "no index". The module proves the round trip with `Option`.
- **`Edges`** (`edges.dfy`): half-edge arithmetic shared by every triangle
  store. Half-edge `e` belongs to triangle `e / 3`. The module defines
  `next_edge`, `prev_edge` and `triangle_first_edge`.
- **`Dcel`** (`dcel.dfy`): the class `TrianglesDCEL` and the iterator
  `TrianglesAroundPoint`, as the class `AroundPoint`.
  - `TrianglesDCEL` holds vertices, twins and a lazily built point-to-edge
    map.
  - The iterator walks the fan of triangles around a point, first
    forwards, then backwards from the start.
- **`MeshSpec`** (`sweep_mesh.dfy`): value-level specifications of the
  twin array. It covers the twin links `add_triangle` makes and the
  relinking of one edge flip in `legalize`. It proves that both keep twins
  symmetric and in other triangles.
- **`HullCycle`** (`hull_cycle.dfy`): the hull as a cycle of point indices
  linked by `next`/`prev` arrays. The module proves that `add_point`'s
  splice leaves a cycle and keeps the radial hash table covering it. The
  splice drops the points whose edges the new point sees and links the new
  point in.
- **`Sweep`** (`sweep.dfy`): the classes `Delaunay` and `Hull` of the
  sweep-hull triangulator, with their methods.
  - `Delaunay` has `with_capacity`, `add_triangle` and `legalize` with its
    edge flip.
  - `Hull` has `new`, `add_hash`, `find_visible_edge` and `add_point`.
- **`Triangulate`** (`triangulate.dfy`): `find_seed_triangle`, and the index
  bookkeeping of `Delaunay::new` up to and including its sweep loop.
- **`Incremental`** (`incremental.dfy`): the earlier incremental
  triangulator. It covers:
  - `Point::sort`;
  - the vector hull `ConvexHull` with its drain-and-insert `add_point`;
  - `MetaTriangle`'s slot selection;
  - the edge-table bookkeeping of `add_triangle`.
- **`Divconq`** (`divconq.dfy`): the divide-and-conquer `Half`. It models
  the construction of a `Half` from two or three points, `find_base_lr`
  and `merge`.

Indices are unbounded naturals. The geometric predicates are
function-valued parameters, such as `visible(p, a, b)`, `inCircle(p0, pr,
pl, p1)`, `key(p)` and `approxEq(i, j)`, so every property holds whatever
the geometry answers. The one exception is hull visibility: the model uses a
single `visible` predicate for two different float tests in the source (see
"Left out"). Loops whose termination follows only from geometry
carry a `fuel` bound:

- `legalize`'s worklist;
- `find_base_lr`'s walk.

## Model

| member | source | states |
|---|---|---|
| OptionIndexes.OptionIndex.Get | src/lib.rs:34-41 | `get` yields a value exactly when `is_some`, and the value it yields is never the sentinel |
| OptionIndexes.SomeIndex | src/lib.rs:13-17 | `some(i)` for `i < usize::MAX` fits a `usize`, is `is_some`, and `get` returns `Some(i)` |
| OptionIndexes.NoneIndex | src/lib.rs:19-22 | `none()` fits a `usize` and is the only `usize` value that `some` cannot produce, since every other one is below `usize::MAX` |
| OptionIndexes.Encode | src/lib.rs:6-22 | encoding an optional index always gives a value a `usize` can hold |
| OptionIndexes.SomeNoneComplementary | src/lib.rs:24-32 | `is_some` and `is_none` disagree on every value, and `is_none` holds exactly when `get` is `None` |
| OptionIndexes.DecodeEncode | src/lib.rs:13-41 | `some(i).get() == Some(i)` and `none().get() == None` |
| OptionIndexes.EncodeDecode | src/lib.rs:13-41 | every `usize` value is the encoding of what `get` returns for it |
| Edges.TriangleFirstEdge | src/dcel.rs:100-115 | the first edge is a multiple of 3, lies in the same triangle, and is at most two below the given edge |
| Edges.NextEdge | src/dcel.rs:117-134 | `next_edge` stays in the edge's triangle and moves to a different edge |
| Edges.PrevEdge | src/dcel.rs:136-153 | `prev_edge` stays in the triangle, moves to a different edge, and `next_edge` undoes it |
| Edges.PrevNext | src/divconq/mod.rs:98-112 | `prev_edge` undoes `next_edge` |
| Edges.NextThrice | src/dcel.rs:120-134 | `next_edge` applied three times returns the edge, twice gives `prev_edge` |
| Edges.EdgesInRange | src/dcel.rs:58-63 | within a store of whole triangles, the next, previous and first edges of an edge are in range |
| Edges.FirstEdgeOfTriangle | src/dcel.rs:103-111 | the first edge of `t`, `t + 1` and `t + 2` is `t` when `t` is a multiple of 3 |
| Edges.ModularForm | src/lib.rs:515-525 | `legalize`'s `a0 + (a + 1) % 3` and `a0 + (a + 2) % 3` are `next_edge(a)` and `prev_edge(a)` |
| Dcel.BuildRevmap | src/dcel.rs:225-229 | the loop panics exactly when some point index is not below `vertices.len()`; otherwise the map gives each occurring point its last half-edge, and 0 to every other point |
| Dcel.TrianglesDCEL.WithCapacity | src/dcel.rs:19-28 | no vertices, `3 * cap` twins all absent, no point map |
| Dcel.TrianglesDCEL.NumTriangles | src/dcel.rs:30-33 | the count is the number of whole triangles in `vertices` |
| Dcel.TrianglesDCEL.AddTriangle | src/dcel.rs:45-55 | appends exactly the three points, returns the old length, adds one triangle, changes nothing else |
| Dcel.TrianglesDCEL.TriangleEdges | src/dcel.rs:57-63 | three distinct edges of one triangle, starting at `t`, whose last edge leads back to `t` |
| Dcel.TrianglesDCEL.TrianglePoints | src/dcel.rs:65-81 | the triangle's three stored corners, read cyclically from the slot of `t`, so they are a permutation of the stored corners that starts at `vertices[t]` |
| Dcel.TrianglesDCEL.TrianglePointsRotate | src/dcel.rs:65-81 | `triangle_points(t + 1)` and `triangle_points(t + 2)` are rotations of `triangle_points(t)` |
| Dcel.TrianglesDCEL.EdgeEndpoint | src/dcel.rs:161-164 | the end point of an edge is the second point of its triangle as seen from the edge |
| Dcel.TrianglesDCEL.Twin | src/dcel.rs:157-159 | the stored twin of `e`; when the twins are linked, it is an edge of a stored triangle that runs from `e`'s end back to its start, and its own twin is `e` |
| Dcel.TrianglesDCEL.Link | src/dcel.rs:166-182 | afterwards `twin(a) == Some(b)` and `twin(b) == Some(a)`; no other entry changes |
| Dcel.TrianglesDCEL.Unlink | src/dcel.rs:184-188 | afterwards `twin(a) == None`; no other entry changes |
| Dcel.TrianglesDCEL.LinkOption | src/dcel.rs:190-199 | links on `Some` and unlinks on `None` |
| Dcel.TrianglesDCEL.InitRevmap | src/dcel.rs:219-232 | a built map is kept (idempotence); otherwise it panics exactly when a point index is out of range, and else the map gives each occurring point its last half-edge |
| Dcel.TrianglesDCEL.RevmapStart | src/dcel.rs:205-209 | the starting edge exists exactly when the map is built and covers the point; it is the map's entry |
| Dcel.AroundPoint.constructor | src/dcel.rs:201-217 | the iterator starts at the point's mapped edge, going forwards; it is valid when that edge starts at the point and twins run in opposite directions |
| Dcel.AroundPoint.Next | src/dcel.rs:247-271 | yields the current edge, which starts at the point. Going forwards, it moves to `next_edge` of the edge's twin. At the hull, it turns backwards from the twin of `prev_edge(start)`. Going backwards, it moves to the twin of `prev_edge`. It stops on reaching `start`, and stays exhausted once exhausted |
| Dcel.HullFanExample | src/dcel.rs:315-331 | for two triangles sharing an edge, the fan of a hull vertex is exactly two distinct edges, each starting at the vertex, as in the `around_hull_vertex` test |
| Dcel.RevmapExample | src/dcel.rs:201-232 | after `init_revmap` on a one-triangle DCEL the fan of point 0 starts at edge 0 |
| MeshSpec.LinkOne | src/lib.rs:499-504 | linking one new edge to its supplied twin sets both directions and nothing else |
| MeshSpec.LinkAll | src/lib.rs:499-504 | the twin loop keeps the length of the twin array |
| MeshSpec.LinkAllThree | src/lib.rs:499-504 | the loop is three single links, in edge order |
| MeshSpec.LinkAllEffect | src/lib.rs:492-507 | for distinct earlier twins: `halfedges[t+i] = e` and `halfedges[e] = t+i` for every supplied twin `e`; all other entries are unchanged |
| MeshSpec.AddTriangleKeepsTwins | src/lib.rs:492-507 | linking a fresh triangle to distinct unpaired earlier edges keeps the twins symmetric and in other triangles |
| MeshSpec.Relink | src/lib.rs:543-570 | one assignment pair of the flip: `e` gets `twin`, and `twin` points back to `e`; no other entry changes |
| MeshSpec.FlipTwins | src/lib.rs:538-570 | the flip keeps the length of the twin array |
| MeshSpec.FlipOutsideTwins | src/lib.rs:538-570 | when `a`/`b` is the only shared edge, the outer twins of both triangles lie in neither triangle |
| MeshSpec.FlipTwinsEffect | src/lib.rs:538-570 | the new twins of `a`, `b`, `ar`, `bl` and the outer edges, and every other entry unchanged |
| MeshSpec.FlipAsRelinks | src/lib.rs:538-570 | the flip is three relinks: `a` with `bl`'s twin, `b` with `ar`'s twin, then `ar` with `bl` |
| MeshSpec.FlipKeepsTwins | src/lib.rs:538-570 | one flip keeps twin symmetry (`halfedges[halfedges[x]] == x`) and keeps twins in other triangles |
| MeshSpec.FlipKeepsBound | src/lib.rs:538-570 | a flip inside the first `n` edges keeps every twin below `n` |
| MeshSpec.LinkAllBelow | src/lib.rs:492-507 | linking twins below `n` keeps every twin below `n` |
| HullCycle.RotatedAt | src/lib.rs:260-261 | the hull cycle can be read starting at any of its points |
| HullCycle.CycleLink | src/lib.rs:178-183 | `next` and `prev` link consecutive hull points in both directions |
| HullCycle.ThreeCycle | src/lib.rs:214-220 | three distinct points with `next` `s0→s1→s2→s0` and `prev` inverse form a cycle |
| HullCycle.Spliced | src/lib.rs:353-358 | the new hull: the walk's start point, then `index`, then the points from `end` on |
| HullCycle.SpliceDistinct | src/lib.rs:353-358 | splicing a new point into a hull of distinct points keeps them distinct |
| HullCycle.SpliceIsCycle | src/lib.rs:353-358 | after the splice `next`/`prev` form a cycle through `index` |
| HullCycle.SpliceFromWalk | src/lib.rs:307-358 | the two walks and the four assignments of the join meet the splice's preconditions |
| HullCycle.SpliceKeepsOrDrops | src/lib.rs:307-351 | every old hull point is on the new hull or marked dead with `next[p] == p` |
| HullCycle.SpliceDropsMarked | src/lib.rs:307-358 | every old hull point left off the spliced hull has `next[p] == p` |
| HullCycle.HashAfterSplice | src/lib.rs:360-361 | after `add_hash(index)` and `add_hash(start)` every point the table names is on the new hull or dead |
| HullCycle.JoinedHull | src/lib.rs:353-361 | the join yields a cycle through `index`, covered by the hash table, starting at `start`; other points keep their `next` |
| Sweep.Twins | src/lib.rs:295-301 | the three supplied twins, each an existing edge |
| Sweep.Delaunay.WithCapacity | src/lib.rs:484-490 | no triangles, `3 * cap` absent twins, empty stack |
| Sweep.Delaunay.AddTriangle | src/lib.rs:492-507 | appends the three vertices, returns the old length, and links the twins as `LinkAll` says; the mesh stays valid |
| Sweep.Delaunay.Flip | src/lib.rs:538-570 | rewrites only `triangles[a]` and `triangles[b]` and relinks twins as `FlipTwins` says. When `bl` had no twin, the hull walk has the outcome `ReplacedTriangle` describes |
| Sweep.Delaunay.Legalize | src/lib.rs:509-583 | keeps the triangle count and the mesh, never lets the stack exceed `STACK_CAPACITY`, returns an existing edge |
| Sweep.CycleMemberMoves | src/lib.rs:251-252 | no point of a hull of two or more points has `next[p] == p`, so such entries mean "removed" |
| Sweep.Hull.New | src/lib.rs:199-231 | a valid hull: the 3-cycle `s0→s1→s2→s0` with inverse `prev`, `triangles[s_k] = some(k)`, `start = s0`, the three points hashed |
| Sweep.Hull.SeedValid | src/lib.rs:199-231 | the hull `new` builds satisfies the hull invariant |
| Sweep.Hull.AddHash | src/lib.rs:233-237 | `index` takes over its bucket and nothing else changes |
| Sweep.Hull.Probe | src/lib.rs:249 | the probed bucket `(hash + i) % size` is in the table |
| Sweep.Hull.FirstLive | src/lib.rs:248-255 | the first live point found by linear probing is on the hull and in the table |
| Sweep.Hull.FirstLiveFound | src/lib.rs:248-255 | on a valid hull the probe always finds a hull point |
| Sweep.Hull.ProbeLive | src/lib.rs:248-255 | the probing loop returns the first live point after the hashed bucket |
| Sweep.Hull.WalkVisible | src/lib.rs:260-282 | `None` exactly when no hull edge is visible; otherwise the first visible edge after the start, with `back` true exactly when no step was taken |
| Sweep.Hull.PrevMember | src/lib.rs:260 | the predecessor of a hull point is on the hull |
| Sweep.Hull.FindVisibleEdge | src/lib.rs:241-283 | the walk starts at `prev` of the first live probed point; `None` exactly when no edge is visible; otherwise a visible edge, with `!back` implying its previous edge is not visible |
| Sweep.Hull.ForwardTriangle | src/lib.rs:314-323 | adds one triangle and records `triangles[index]`; invariants kept |
| Sweep.Hull.BackTriangle | src/lib.rs:336-347 | adds one triangle and sets `triangles[prev]` to it; invariants kept |
| Sweep.Hull.FirstTriangle | src/lib.rs:293-305 | adds the first triangle; `triangles[index]` and `triangles[start]` are set |
| Sweep.Hull.AddForward | src/lib.rs:307-326 | the forward walk passes exactly the visible edges after the first, marks each passed point dead, and adds one triangle per step |
| Sweep.Hull.AddBack | src/lib.rs:328-351 | the backward walk passes exactly the visible edges before the first, marks each passed point dead, and adds one triangle per step |
| Sweep.Hull.Walks | src/lib.rs:293-351 | the first triangle plus both walks: `m + q` triangles, the walks passing exactly the visible edges on either side of `e` and stopping at the first edge not visible |
| Sweep.Hull.Join | src/lib.rs:353-361 | `next[start] = index`, `next[index] = end`, `prev[end] = index`, `prev[index] = start`, both hashed, and the hull is valid again; every old hull point left off it has `next[p] == p` |
| Sweep.Hull.Insert | src/lib.rs:293-362 | adding a point that sees edge `e` splices it into the hull and adds one triangle per visible edge; every hull point it drops is marked `next[p] == p` |
| Sweep.Hull.AddPoint | src/lib.rs:285-362 | the point is added exactly when some hull edge is visible, and otherwise hull and triangulation are unchanged. When added, the hull is the splice of the walks' result, and every dropped hull point is marked `next[p] == p` |
| Sweep.Hull.ReplaceTriangle | src/lib.rs:546-561 | the walk from `start` replaces `from` by `to` in the first entry that names it before the walk returns to `start`. With no such entry, nothing changes. `finished` is false exactly when the walk never ends |
| Sweep.Hull.WalkNeverStops | src/lib.rs:548-561 | a walk that has neither found `from` nor returned to `start` within `next.len()` steps never does |
| Triangulate.MinBy | src/lib.rs:383-409 | `min_by` over a filter: nothing exactly when no index passes; otherwise the first index with the least key |
| Triangulate.Seed | src/lib.rs:383-387 | the point nearest the centre; none only without points |
| Triangulate.Nearest | src/lib.rs:389-396 | the point nearest the seed among points apart from it; none exactly when all coincide with it |
| Triangulate.Third | src/lib.rs:398-409 | the point with the least circumradius together with seed and nearest, distinct from both; none exactly when only two points exist |
| Triangulate.FindSeedTriangle | src/lib.rs:374-419 | three pairwise distinct indices below `n`; none when fewer than three points exist |
| Triangulate.SeedTriangleExists | src/lib.rs:374-419 | with three or more points, a seed triangle exists exactly when some point lies apart from the seed |
| Triangulate.SeedTriangleChoice | src/lib.rs:383-419 | the triangle starts at the point nearest the centre and contains the point nearest to it |
| Triangulate.SeedTriangleCollinear | src/lib.rs:411-418 | as written: three points on one line, each apart from the others, still give a seed triangle, and it is right-handed in neither order |
| Triangulate.FindSeedTriangleChecked | src/lib.rs:433-436 | the seed triangle as documented: always right-handed, the source's own triangle whenever there is one, and nothing exactly when the source finds none or its three points lie on one line |
| Triangulate.SeedTriangleCheckedExists | src/lib.rs:433-436 | with three points or more, the documented seed triangle exists exactly when some point lies apart from the seed and the chosen third point is off the line through the seed and its nearest point |
| Triangulate.SweepIndices | src/lib.rs:441-443 | exactly the indices `0 .. n` that are not seeds, increasing |
| Triangulate.SweepIndicesLength | src/lib.rs:441-443 | three distinct seeds leave `n - 3` indices |
| Triangulate.ReorderedOnce | src/lib.rs:441-467 | any reordering of the indices visits each non-seed point once |
| Triangulate.SplicedFrom | src/lib.rs:353-358 | the spliced hull holds the new point and otherwise old hull points |
| Triangulate.RoomForPoint | src/lib.rs:460-461 | while indices remain, the `2n - 5` triangle capacity has room for what `add_point` may add |
| Triangulate.SkipCounts | src/lib.rs:470-474 | a skipped duplicate keeps the sweep's counts |
| Triangulate.AddCounts | src/lib.rs:476-477 | an added point keeps the counts and lands on the hull |
| Triangulate.BeginCounts | src/lib.rs:458-464 | the seed hull and seed triangle start the counts |
| Triangulate.Begin | src/lib.rs:437-464 | none exactly when there is no documented seed triangle (none in the source, or three points on one line); otherwise a seed hull and a triangulation of capacity `2n - 5` holding the seed triangle, which is right-handed |
| Triangulate.Seeded | src/lib.rs:458-464 | the seed hull and the triangulation with the seed triangle satisfy the sweep invariant |
| Triangulate.SweepStep | src/lib.rs:467-478 | one loop round keeps the invariant; an approximately equal point is skipped with nothing changed; otherwise the point ends on the hull exactly when it sees a hull edge |
| Incremental.Sort | src/main.rs:28-38 | `Point::sort` as written keeps or swaps the pair, with the lower `y` first |
| Incremental.SortNotCanonical | src/main.rs:33 | as written, `(3,5),(1,5)` and `(1,5),(3,5)` give different keys for one edge |
| Incremental.EdgeKey | src/main.rs:28-38 | the intended sort keeps or swaps the pair into increasing `(y, x)` order |
| Incremental.EdgeKeyCanonical | src/main.rs:28-38 | the intended sort gives the same key for both orders of an edge's ends |
| Incremental.VisibleEdges | src/main.rs:141-150 | the visible edges, increasing, each passing the filter |
| Incremental.VisibleEdgesComplete | src/main.rs:141-150 | every edge that passes the filter is among the visible edges |
| Incremental.LastGap | src/main.rs:162-167 | the last place where the visible edges stop being consecutive, or none for one run |
| Incremental.ContiguousRun | src/main.rs:174-181 | with one run `start < end`, points `start+1 ..= end` are replaced by the new point, giving length `len - (end - start) + 1`; a point survives exactly when not both its edges are visible |
| Incremental.WrappedRun | src/main.rs:184-189 | with a wrap-around run, the hull is the new point followed by `points[jump_start ..= jump_end]`; a point survives exactly when not both its edges are visible |
| Incremental.ScanResult | src/main.rs:152-192 | the scan's `start`, `jump_start`, `jump_end`, `end` select the right branch of the match, and each branch builds the hull `HullAfter` describes |
| Incremental.Scan | src/main.rs:152-171 | the loop hands each visible edge's triangle to the callback in order and records the first, last and last-gap edges |
| Incremental.ConvexHull.New | src/main.rs:132-135 | the hull holds exactly `[a, b, c]` |
| Incremental.ConvexHull.AddPoint | src/main.rs:137-193 | one callback per visible edge, in increasing edge order; the hull becomes `HullAfter` (unchanged when none is visible; the new point inserted after a single visible edge) |
| Incremental.Slot | src/main.rs:218-246 | the chosen slot is the first corner different from both ends, else slot 2 |
| Incremental.NewMetaTriangle | src/main.rs:209-215 | the triangle with no neighbours |
| Incremental.AgainstEdge | src/main.rs:238-246 | a corner of the triangle, the one in the selected slot, different from both ends when any corner is |
| Incremental.Neighbour | src/main.rs:218-226 | the neighbour stored in the slot `against_edge` selects |
| Incremental.SetNeighbour | src/main.rs:228-236 | a write through `neighbour_mut` changes only the selected slot |
| Incremental.NeighbourAfterSet | src/main.rs:218-236 | reading back after a write gives the written value; other slots are unchanged |
| Incremental.EdgeSlots | src/main.rs:218-236 | for a proper triangle, an edge's slot faces the third corner, and only that edge selects it |
| Incremental.Keys | src/main.rs:346-348 | the three keys `add_triangle` enters are edges of the triangle |
| Incremental.AddedConsistent | src/main.rs:323-350 | adding a triangle keeps every table entry naming existing triangles that have the key's ends as corners |
| Incremental.AddedTriangles | src/main.rs:328-350 | one triangle is appended and the other triangles keep their shape |
| Incremental.AddedTable | src/main.rs:336-343 | each edge key is in the table afterwards; a known key `(old, _)` becomes `(old, Some(index))`, a new one `(index, None)`; other keys are unchanged |
| Incremental.AddedNeighbour | src/main.rs:338-341 | the new triangle's neighbour across a known edge is that edge's first triangle, and absent across a new edge |
| Incremental.AddedBackLink | src/main.rs:338-339 | the first triangle of a known edge now has the new triangle as its neighbour across that edge |
| Incremental.AddedUnchanged | src/main.rs:333-350 | triangles sharing no known edge with the new one are unchanged |
| Incremental.Mesh.Empty | src/main.rs:380-381 | no triangles and an empty table, which is consistent |
| Incremental.Mesh.AddEdge | src/main.rs:333-344 | one `add_edge` call: the table entry, the old triangle's slot and the new triangle's slot as described above |
| Incremental.Mesh.AddTriangle | src/main.rs:323-350 | the triangles and table become those of the three `add_edge` steps; the table stays consistent |
| Divconq.Half.PointAt | src/divconq/mod.rs:114-116 | the point half-edge `e` starts from: entry `triangles[e]` of the half's own slice `points[offset..]`, since vertex numbers are relative to `offset` |
| Divconq.LowerFirst | src/divconq/mod.rs:59-73 | the comparator puts the point with larger `y` first, breaking ties on the smaller or larger `x` |
| Divconq.MinBy | src/divconq/mod.rs:33-48 | `min_by` returns the first index that no other index precedes under the comparator |
| Divconq.NoTwins | src/divconq/mod.rs:52 | `n` half-edges without twins |
| Divconq.NewSingleEdgeAsWritten | src/divconq/mod.rs:32-56 | `new_single_edge` as written: `triangles = [1, 0]`, two absent twins, the given offset, indices in range |
| Divconq.NewSingleEdge | src/divconq/mod.rs:32-56 | the corrected constructor: as above, and `point(bottom_most)` is the chosen lowest point |
| Divconq.NewSingleTri | src/divconq/mod.rs:58-96 | `[0, 1, 2]` when right-handed, else `[0, 2, 1]`; three absent twins; the 1↔2 remap keeps `point(bottom_most)` on the chosen point |
| Divconq.New | src/divconq/mod.rs:20-30 | a `Half` exactly for a valid range of length 2 or 3, otherwise a panic; no twins, offset `range.start`; a two-point range uses the corrected `NewSingleEdge` |
| Divconq.BottomMostPoint | src/divconq/mod.rs:20-96 | `point(bottom_most)` has the largest `y` of the range; ties go to the smallest `x` on the left and the largest on the right |
| Divconq.SingleEdgeAsWrittenNotLowest | src/divconq/mod.rs:32-56 | for `(0,10), (0,50)` the written constructor reports `(0,10)` as bottom-most although `(0,50)` is lower |
| Divconq.SingleEdgeLevelAgrees | src/divconq/mod.rs:32-56 | with level points, the written and the corrected constructors report the same point |
| Divconq.BottomMostExamples | src/divconq/mod.rs:171-198 | the `bottom_most` and `bottom_most_couple` tests hold for any orientation result |
| Divconq.Walk | src/divconq/mod.rs:132-152 | a finished walk ends on an edge whose next edge passes the stopping test |
| Divconq.FindBase | src/divconq/mod.rs:118-159 | the culprit's `bottom_most` is returned unchanged, in the right slot when the left half is lower and in the left slot otherwise; the victim's edge passed the stopping test |
| Divconq.WalkStaysInTriangle | src/divconq/mod.rs:132-152 | without twins the walk never leaves its starting triangle |
| Divconq.WalkOnSingleEdge | src/divconq/mod.rs:132-152 | on a single-edge half the walk panics indexing out of range unless it stops at once from edge 0 |
| Divconq.FindBaseLr | src/divconq/mod.rs:118-159 | the loop computes `FindBase` |
| Divconq.Merge | src/divconq/mod.rs:161-164 | `merge` returns `self` unchanged, and panics exactly when `find_base_lr` does |

## Left out

- Floating-point geometry is not modelled. This covers `geom.rs`, orientation, circumcircle, `in_circumcircle`, `distance_sq`, `approx_eq`, `pseudo_angle`, `find_center` and the float part of `angular_hash`. These are parameters of the model, so every property holds for any outcome of these tests.
- The hash table's size `ceil(sqrt(n))` is computed with floats. It is a positive parameter `tableSize`.
- Sorting the sweep indices by distance is not modelled. `sortByCircumcentre` is any function that returns a permutation.
- The `partial_cmp().unwrap()` panics on NaN cannot happen with integer coordinates, so the model has none.
- The rayon parallel paths are not modelled, because they are concurrency and give the same results.
- `triangulation.stack.shrink_to_fit()` (src/lib.rs:480) is a capacity change with no effect on the values.
- Sweep.Delaunay.Legalize: the worklist loop stops after `fuel` pops, and then clears the stack. Its termination depends on geometry. Its contract keeps the mesh shape, the twin bound and the stack bound, but not twin symmetry.
- Sweep.Delaunay.Flip: twin symmetry across a flip is proved on values (`MeshSpec.FlipKeepsTwins`). It needs the two triangles to share only their common edge, which is a geometric fact. The class invariant therefore keeps only "every twin is an existing edge".
- Sweep.Hull.AddPoint requires a hull edge the new point does not see. For a point outside a convex hull this is a geometric fact, and `add_point`'s walks rely on it to stop.
- Sweep.Hull.AddPoint, Sweep.Hull.Insert: the `legalize` calls inside `add_point` are modelled. Their effect on the triangles is stated only as the counts and invariants `Legalize` promises.
- Sweep.Hull.FirstTriangle, Sweep.Hull.ForwardTriangle, Sweep.Hull.BackTriangle: each adds one triangle and then calls `legalize`, which may flip it. Their contracts therefore state the triangle count and the boundary entries they set. They do not state the new triangle's corners or twins. `Sweep.Delaunay.AddTriangle` states those for the step before `legalize`.
- Sweep.Hull.ReplaceTriangle: where the source's walk never ends, the model stops after `next.len()` steps. It reports `finished == false` and leaves the entries unchanged. `Flip`, `Legalize` and `add_point` then carry on, while the source hangs. One way to get there: during `add_point`'s forward walk, `legalize` runs after a point was marked `next[p] == p` and before `start` is relinked. A walk that reaches that point first loops on it. Whether a real point set reaches this is a geometric question; the model does not settle it.
- Sweep, HullCycle, Triangulate: one predicate `visible(p, a, b)` stands for two float tests in the source. `find_visible_edge` uses `is_left_handed` of `(p, e, next[e])` (src/lib.rs:267). The walks of `add_point` use `is_right_handed` of `(p, next, end)` and `(p, start, prev)` (src/lib.rs:310, 332). These pivot on different vertices and can disagree near collinear points. `Insert` relies on them agreeing, so the model's claims about the walks hold only when the two tests agree.
- Dcel.TrianglesDCEL.InitRevmap, Dcel.BuildRevmap: the panic on a point index at or above `vertices.len()` is modelled as a `panicked` outcome, with nothing changed. The partly filled map the source abandons is not modelled.
- Divconq.New: for a two-point range it builds the corrected `NewSingleEdge`, not the written `new_single_edge`. So its `bottom_most` differs from src/divconq/mod.rs:32-56 on points such as `(0,10), (0,50)` (see Findings). The written constructor is `NewSingleEdgeAsWritten`.
- Triangulate.FindSeedTriangle: models the source, which never tests whether its three points lie on one line (see Findings). The documented condition "all points lie on the same line" is tested only at the three chosen points, through `Collinear`. Collinearity of the remaining points is geometry, which is not modelled.
- Triangulate.Begin: starts from the corrected `FindSeedTriangleChecked`. On points whose chosen seed triangle lies on one line, the source carries on with a degenerate seed triangle, and the model returns nothing, as `Delaunay::new` documents.
- Triangulate: the sweep loop of `Delaunay::new` is modelled one round at a time (`SweepStep`). There is no method that runs the whole loop, because each round's precondition (an edge the point does not see) is geometric.
- The DCEL's `triangle` and `triangles` (src/dcel.rs:35-43, 83-98) only map indices to float points. They are not modelled.
- The `Index`/`Add`/`Sub` wrappers of `EdgeIndex` and `PointIndex` (src/dcel.rs:334-492) are plain naturals here.
- `check_and_flip` (src/main.rs:249-321) is not modelled. Its recursion ends only because of circumcircle geometry. Incremental.Mesh.AddTriangle stops before its closing `check_and_flip` call.
- The `circumcircle` field of `MetaTriangle` is not modelled.
- `triangulate`'s driver (src/main.rs:355-392) and `main` are not modelled: they are float argmins, sorting, RNG, timing and output.
- Incremental.Mesh uses the corrected `EdgeKey`. The written `Sort` is modelled separately and shown not to be canonical (see Findings).
- Divconq.FindBase, Divconq.Walk: the walk of `find_base_lr` is cut off after `fuel` steps (`OutOfFuel`). Its termination depends on orientation tests.
- The `base_lr` tests (src/divconq/mod.rs:200-240) depend on real orientation results and are not restated.
- Divconq.Merge does nothing beyond `find_base_lr`, and neither does the source.

## Findings

| source | as written | input that shows it | evidently intended | confidence | as-written member | corrected member |
|---|---|---|---|---|---|---|
| src/main.rs:33 | `a.y == b.y && a.x < a.y` compares a point's own `x` with its `y` | `a = (3,5)`, `b = (1,5)`: `sort(a, b)` keeps `(3,5),(1,5)` and `sort(b, a)` keeps `(1,5),(3,5)`, so one edge gets two table keys | `a.x < b.x`, so both orders give one key | high (not executed) | Incremental.SortNotCanonical | Incremental.EdgeKeyCanonical |
| src/lib.rs:433-436 | `find_seed_triangle` (src/lib.rs:374-419) never tests collinearity: when `Triangle(seed, nearest, third)` is not right-handed it swaps two corners and returns `Some`, so `Delaunay::new` returns a triangulation | three distinct points on one line, such as `(0,0), (1,0), (2,0)`: every orientation is `0.0`, no triangle is right-handed, and a seed triangle is still returned | `None` when all points lie on one line, as the doc comment of `Delaunay::new` says | medium (not executed) | Triangulate.SeedTriangleCollinear | Triangulate.FindSeedTriangleChecked |
| src/divconq/mod.rs:32-56 | `bottom_most` is `min_by`'s index into `0..2`, but `triangles` is `[1, 0]`, so `point(bottom_most)` is the other point | points `(0,10), (0,50)` on the left: `point(bottom_most)` is `(0,10)`, though `(0,50)` has the larger `y` | the point with the largest `y`, ties broken as in `new_single_tri`, which the level-points test `bottom_most_couple` already expects | medium (not executed) | Divconq.SingleEdgeAsWrittenNotLowest | Divconq.BottomMostPoint |
