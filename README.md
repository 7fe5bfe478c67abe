# 2D hull and triangulation: a verified model

The repository holds two small interactive GLUT programs that share one exact-integer
planar-geometry core.

- **2DTriangulation** triangulates a point set in four stages:
  - It takes the convex hull by QuickHull.
  - It picks an anchor: the point nearest the window centre that is not a hull-edge endpoint.
  - It fans a triangle from every stored edge to the anchor and trisects each one
    recursively around every point that falls inside it.
  - It runs an edge-flip cleanup pass over all ordered pairs of triangles. That pass only
    counts flips.
- **2DHull** peels a point set into nested hulls. It repeatedly takes the hull and drops
  every point on the infinite line of any edge drawn so far. In its clustering mode it
  gathers `n / clusters` points ring by ring of truncated distance around the first point,
  peels that cluster, and removes it from the point set.

The model is written in Dafny, in five modules.

- `Geometry` (`geometry.dfy`) holds the value types `Point`, `Edge` and `Tri`, and the
  primitives:
  - the scaled signed distance `dist`;
  - `same_sign`;
  - the truncated length `pythagorean`, as an integer floor square root;
  - `point_in_triangle`.
- `QuickHull` (`quickhull.dfy`) holds `quick_hull` and `convex_hull`. Both programs share
  them; the point set is an explicit parameter and the appended edges are returned.
  - The recursion is proved to terminate. The proof uses a ghost invariant: each endpoint
    of the current segment has a supporting direction. Under it, the set of points strictly
    left of the segment shrinks on every call.
  - The hull is proved to be a closed polyline through the first least-x point. Its corners
    are input points, and no input point lies strictly outside any edge.
- `MeshCleanup` (`mesh_cleanup.dfy`) holds `check_shared_edge` and the counting of
  `tri_cleanup`.
  - `CheckSharedEdge` is the program's nine-way case split, statement for statement.
  - `SharedEdge` states the same decision as one rule, and the two are proved equal.
- `Triangulation` (`triangulation.dfy`) holds the class `Triangulator`. It stands for the
  triangulation program's global state: `w`, `h`, `points`, `edges` and `tris`. Its methods
  are `convex_hull`, `trisect`, `tri_cleanup`, the anchor search and `triangulation`, each
  proved to change the state exactly as a specification function says. The properties are
  lemmas about those functions.
- `Peeling` (`peeling.dfy`) holds the class `HullPeeler`. It stands for the hull program's
  global state: `w`, `h`, `n`, `clusters`, `points`, `edges` and `clustering`. Its methods
  are `peel` and `cluster_peel`, specified by `PeelOf` and `ClusterPeelOf`. The loops that
  only read the state are module-level methods over the point sequence: the gathering scan
  and the removal scan.

Where the program's comments or its documentation differ from its code, the model follows
the code:

- `point_in_triangle` accepts collinear points, although the comment at
  `2DTriangulation/2DTriangulation.cpp:226` says they are rejected. It also does not
  compare d2 with d3, so its answer depends on the order of the corners (see Findings).
- `trisect` splits a triangle at any point the point-in-triangle test accepts, collinear points included, although its comments speak of interior points. With two points on one side of a flat triangle the recursion never ends (see Findings).
- `tri_cleanup` iterates over copies of the stored triangles. It therefore only counts
  flips; the stored `tris` never change. A flip does replace the working copy of the outer
  triangle for the rest of its row.
- `check_shared_edge` keeps two copy-paste slips:
  - The flags for t2's corners compare `x` with `y` (see Findings).
  - `t1.p3` is only examined when exactly one corner has matched so far.

  The second slip cannot change an outcome. When all three corners are shared, t1's
  remaining corner is a corner of t2. `FlipShape` shows that a flip never uses such a
  corner.
- `triangulation` does not clear `edges` before it takes the hull. The fan therefore runs
  over the edges stored before the call followed by the new hull.
- For a set of collinear points `convex_hull` appends two edges, the segment between the
  seeds walked both ways, not one (`CollinearHull`).

## Model

| member | source | states |
|---|---|---|
| Geometry.Dist | 2DTriangulation/2DTriangulation.cpp:213-222 | dist(p1, p2, p3) is the cross product of p2 - p1 and p3 - p1: positive when p3 lies left of the directed line p1 -> p2, negative when right, zero on the line |
| Geometry.DistEndpoints | 2DTriangulation/2DTriangulation.cpp:213-222 | a point at either end of a line has distance 0 from it |
| Geometry.DistDegenerate | 2DTriangulation/2DTriangulation.cpp:213-222 | the degenerate line from a point to itself gives 0 for every point |
| Geometry.DistSwap | 2DTriangulation/2DTriangulation.cpp:213-222 | reversing the line negates the distance |
| Geometry.DistRotate | 2DTriangulation/2DTriangulation.cpp:213-222 | the value is unchanged when the three arguments are rotated |
| Geometry.AreaSplit | 2DTriangulation/2DTriangulation.cpp:213-222 | the three distances of p from a triangle's sides add up to the triangle's own value |
| Geometry.SameSign | 2DTriangulation/2DTriangulation.cpp:302-310 | false exactly when one argument is strictly positive and the other strictly negative; zero matches every sign |
| Geometry.FloorSqrt | 2DTriangulation/2DTriangulation.cpp:207-210 | s * s <= n < (s + 1) * (s + 1) |
| Geometry.FloorSqrtUnique | 2DHull/2DHull.cpp:253-256 | the floor square root is the only s with s * s <= n < (s + 1) * (s + 1) |
| Geometry.Pythagorean | 2DTriangulation/2DTriangulation.cpp:207-210 | the truncated length r is non-negative and r * r <= squared distance < (r + 1) * (r + 1) |
| Geometry.PythagoreanSymmetric | 2DHull/2DHull.cpp:253-256 | the truncated length does not depend on the order of its arguments |
| Geometry.PythagoreanZero | 2DHull/2DHull.cpp:253-256 | the truncated length is 0 exactly when the two points coincide |
| Geometry.PointInTriangle | 2DTriangulation/2DTriangulation.cpp:227-246 | accepts p iff d1 == 0, or d1 > 0 with d2, d3 >= 0, or d1 < 0 with d2, d3 <= 0 |
| Geometry.VerticesInTriangle | 2DTriangulation/2DTriangulation.cpp:213-246 | each corner of a triangle passes the test |
| Geometry.FirstSideLineInTriangle | 2DTriangulation/2DTriangulation.cpp:227-246 | every point on the line through the first two corners passes the test |
| Geometry.PointInClosedTriangleSpec | 2DTriangulation/2DTriangulation.cpp:224-246 | the corrected test does not depend on corner order; for a counter-clockwise triangle it accepts exactly the closed triangle |
| Geometry.OrderDependence | 2DTriangulation/2DTriangulation.cpp:227-246 | a point on the first side's line but outside the other two sides is accepted, is rejected once the corners are rotated, and is rejected by the corrected test |
| Geometry.PointInTriangleOrderDependent | 2DTriangulation/2DTriangulation.cpp:227-246 | (20,0) against ((0,0),(10,0),(0,10)) is accepted, is rejected for the rotated triangle, and is rejected by the corrected test |
| Geometry.StrictlyInsideAccepted | 2DTriangulation/2DTriangulation.cpp:224-246 | a point strictly on the same side of all three sides, the interior the comment asks for, passes the program's test and the corrected test, and is not a corner |
| Geometry.NestedInsideAll | 2DTriangulation/2DTriangulation.cpp:288-290 | for a point p strictly inside t, every point strictly inside one of the three triangles around p is strictly inside t |
| Geometry.SplitPointNotInside | 2DTriangulation/2DTriangulation.cpp:288-290 | the splitting point p is not strictly inside any of the three triangles around it |
| Geometry.InsideWithin | 2DTriangulation/2DTriangulation.cpp:253-270 | a point strictly inside t lies within every axis-aligned box that holds t's three corners |
| QuickHull.Farthest | 2DTriangulation/2DTriangulation.cpp:139-152 | the best value is non-negative; when positive, the point kept is in S, is neither p1 nor p2, and has that value |
| QuickHull.FarthestSpec | 2DTriangulation/2DTriangulation.cpp:139-152 | the value is 0 iff no point other than p1 and p2 lies strictly left of p1 -> p2, and it bounds every such point's value |
| QuickHull.FarthestIsFirst | 2DTriangulation/2DTriangulation.cpp:146-150 | the point kept is the first one attaining the strict maximum: every earlier candidate has a strictly smaller value |
| QuickHull.FarthestBoundsAll | 2DTriangulation/2DTriangulation.cpp:139-152 | when a point is found, it bounds the value of every point of S, p1 and p2 included |
| QuickHull.FarthestNoneAbove | 2DTriangulation/2DTriangulation.cpp:154-159 | the scan finds nothing exactly when no point lies strictly left of p1 -> p2 |
| QuickHull.SplitKeepsInvariant | 2DTriangulation/2DTriangulation.cpp:161-163 | both recursive calls keep the support invariant and have strictly fewer points strictly left of their segment |
| QuickHull.HullEdges | 2DTriangulation/2DTriangulation.cpp:126-164 | quick_hull(p1, p2) appends at least one edge; the first starts at p1 and the last ends at p2 |
| QuickHull.HullEdgesSplit | 2DTriangulation/2DTriangulation.cpp:161-163 | at a split, the edges are those of p1 -> pMax followed by those of pMax -> p2 |
| QuickHull.ScanFarthest | 2DTriangulation/2DTriangulation.cpp:128-152 | the scan loop returns exactly Farthest's point and value |
| QuickHull.QuickHull | 2DTriangulation/2DTriangulation.cpp:126-164 | returns exactly the edges HullEdges specifies; the recursion terminates (the hull program's copy, which takes the point vector as a parameter, is the same routine) |
| QuickHull.HullEdgesChain | 2DTriangulation/2DTriangulation.cpp:126-164 | quick_hull(p1, p2) appends at least one edge, forming a polyline from p1 to p2 |
| QuickHull.HullEdgesInside | 2DTriangulation/2DTriangulation.cpp:126-164 | no point of S lies strictly left of any edge appended |
| QuickHull.HullEdgesCorners | 2DTriangulation/2DTriangulation.cpp:126-164 | every corner used is p1, p2 or a point strictly left of p1 -> p2, so interior collinear points are dropped |
| QuickHull.HullEdgeDirect | 2DTriangulation/2DTriangulation.cpp:154-159 | edge p1 -> p2 is appended iff no point lies strictly left of it, and then it is the only edge |
| QuickHull.Leftmost | 2DTriangulation/2DTriangulation.cpp:176-188 | the minimum scan returns a point of S with the least x |
| QuickHull.LeftmostIsFirst | 2DTriangulation/2DTriangulation.cpp:182-188 | the point returned is the first one with the least x: every earlier point has a strictly greater x |
| QuickHull.Rightmost | 2DTriangulation/2DTriangulation.cpp:178-188 | the maximum scan returns a point of S with the greatest x |
| QuickHull.RightmostIsFirst | 2DTriangulation/2DTriangulation.cpp:182-188 | the point returned is the first one with the greatest x: every earlier point has a strictly smaller x |
| QuickHull.ScansOfVerticalLine | 2DTriangulation/2DTriangulation.cpp:182-188 | with strict comparisons, the first point is kept when all x coincide |
| QuickHull.SeedsOrdered | 2DTriangulation/2DTriangulation.cpp:182-188 | the two seeds coincide or the first lies strictly left of the second |
| QuickHull.SeedCalls | 2DTriangulation/2DTriangulation.cpp:190-192 | both seed calls satisfy the termination invariant |
| QuickHull.ConvexHull | 2DTriangulation/2DTriangulation.cpp:169-193 | returns exactly the edges HullOf specifies |
| QuickHull.HullOf | 2DTriangulation/2DTriangulation.cpp:169-193 | convex_hull appends nothing exactly when there are fewer than three points |
| QuickHull.HullOfParts | 2DTriangulation/2DTriangulation.cpp:190-192 | the hull is quick_hull(min, max) followed by quick_hull(max, min) |
| QuickHull.HullOfClosed | 2DTriangulation/2DTriangulation.cpp:169-193 | with at least three points the hull is a closed polyline of at least two edges through the first least-x point |
| QuickHull.HullOfInside | 2DTriangulation/2DTriangulation.cpp:169-193 | no point lies strictly outside any hull edge |
| QuickHull.HullOfCorners | 2DHull/2DHull.cpp:162-188 | every hull corner is one of the points |
| QuickHull.HullOfSpec | 2DTriangulation/2DTriangulation.cpp:169-193 | nothing is appended iff there are fewer than three points; otherwise closed, at least two edges, corners from the points, nothing outside |
| QuickHull.CollinearHull | 2DTriangulation/2DTriangulation.cpp:169-193 | when all points lie on the seeds' line, the hull is the segment between the seeds walked both ways |
| MeshCleanup.ShareFlags | 2DTriangulation/2DTriangulation.cpp:318-361 | t1's share flags record which corners of t1 are corners of t2 (p3 only after exactly one match); the count is 2 exactly when an edge is taken as shared; t2's flags record the corners blamed |
| MeshCleanup.BlamedCorner | 2DTriangulation/2DTriangulation.cpp:329-334 | the corner of t2 blamed for a shared corner p is 1, 2 or 3; corner 1 or 2 is blamed only when its x and y both equal p.x, corner 2 only when corner 1 does not, and corner 3 only when neither does |
| MeshCleanup.FarCorner | 2DTriangulation/2DTriangulation.cpp:364-535 | the far corner is a corner of t2; when the two blamed corners are distinct it is t2's third, unblamed corner |
| MeshCleanup.FlipIfShorter | 2DTriangulation/2DTriangulation.cpp:372-385 | flips iff the shared edge's ends lie strictly on opposite sides of the line a -> o and the diagonal a-o is strictly shorter than the edge; a flip gives (e1, a, o) and (e2, a, o); otherwise both triangles are unchanged |
| MeshCleanup.SharedEdge | 2DTriangulation/2DTriangulation.cpp:315-539 | when nothing is flipped, both triangles are unchanged |
| MeshCleanup.CheckSharedEdge | 2DTriangulation/2DTriangulation.cpp:315-539 | the nine-way case split returns exactly the one-rule outcome SharedEdge |
| MeshCleanup.FlipParts | 2DTriangulation/2DTriangulation.cpp:364-535 | on a flip, t1 is the shared edge plus one remaining corner and the corner picked from t2 is one of t2's corners |
| MeshCleanup.FlipDistinct | 2DTriangulation/2DTriangulation.cpp:364-535 | a flip needs strictly opposite distances and a strictly shorter diagonal, so the four points are pairwise distinct |
| MeshCleanup.FlipShape | 2DTriangulation/2DTriangulation.cpp:364-535 | on a flip, the new triangles share the new diagonal, start at the two distinct old endpoints, and cover the old corners; the old endpoints lie strictly on opposite sides of the new diagonal; the diagonal is strictly shorter than the old edge |
| MeshCleanup.SelfPairNoFlip | 2DTriangulation/2DTriangulation.cpp:364-376 | comparing a triangle with itself never flips and changes nothing |
| MeshCleanup.SharedEdgeIntended | 2DTriangulation/2DTriangulation.cpp:315-539 | with x compared with x and y with y: when nothing is flipped both triangles are unchanged; a flip starts the new triangles at the two shared corners, and both hold t1's remaining corner, which is no corner of t2, and a corner of t2, joined by a diagonal strictly shorter than the shared edge |
| MeshCleanup.IntendedFlipRule | 2DTriangulation/2DTriangulation.cpp:364-535 | with correct corner matching, two triangles sharing exactly one edge get the flip decision for that edge and the true far corner |
| MeshCleanup.WrittenFlipIsIntended | 2DTriangulation/2DTriangulation.cpp:329-360 | every flip the program makes, the corrected comparison makes too, with the same result |
| MeshCleanup.EndpointBlamedAsFar | 2DTriangulation/2DTriangulation.cpp:329-347 | when the x-against-y test blames t2's third corner for the second shared endpoint, the program picks that endpoint as the far corner and cannot flip |
| MeshCleanup.NoFlipThroughEndpoint | 2DTriangulation/2DTriangulation.cpp:364-376 | a candidate diagonal ending at an endpoint of the shared edge is never taken |
| MeshCleanup.MissedFlipWritten | 2DTriangulation/2DTriangulation.cpp:329-347 | the program does not flip the example pair |
| MeshCleanup.MissedFlipIntended | 2DTriangulation/2DTriangulation.cpp:364-376 | the corrected comparison flips the example pair onto the diagonal (5,1)-(5,-1) |
| MeshCleanup.MissedFlip | 2DTriangulation/2DTriangulation.cpp:329-334 | the example pair is not flipped as written and is flipped by the corrected comparison |
| MeshCleanup.RowFlips | 2DTriangulation/2DTriangulation.cpp:550-558 | one row counts at most one flip per comparison |
| MeshCleanup.CleanupFlips | 2DTriangulation/2DTriangulation.cpp:542-562 | the count is at most the number of ordered pairs compared |
| MeshCleanup.QuietRow | 2DTriangulation/2DTriangulation.cpp:550-558 | a row where no comparison flips counts nothing and leaves the working copy unchanged |
| MeshCleanup.QuietCleanup | 2DTriangulation/2DTriangulation.cpp:542-562 | when no ordered pair would flip, the cleanup counts 0 |
| MeshCleanup.SingleTriangleClean | 2DTriangulation/2DTriangulation.cpp:542-562 | a single stored triangle is only compared with itself and counts 0 |
| Triangulation.OnEdge | 2DTriangulation/2DTriangulation.cpp:197-204 | true iff the point is an endpoint of some edge |
| Triangulation.BoxOf | 2DTriangulation/2DTriangulation.cpp:253-270 | for a triangle in the window, the box contains all three corners and each of its four bounds is a corner's coordinate, so the window-size and -1 starting values never win |
| Triangulation.Splits | 2DTriangulation/2DTriangulation.cpp:277-285 | a point that splits t is not a corner of t and passes the point-in-triangle test; every point strictly inside t splits it |
| Triangulation.SplitTests | 2DTriangulation/2DTriangulation.cpp:277-285 | the three nested tests on a point pass exactly when the point splits t |
| Triangulation.ScanStep | 2DTriangulation/2DTriangulation.cpp:275-294 | scanning one more point appends that point's three trisections iff it splits t |
| Triangulation.QuietScan | 2DTriangulation/2DTriangulation.cpp:275-294 | a scan over points none of which splits t appends nothing |
| Triangulation.TrisectedItself | 2DTriangulation/2DTriangulation.cpp:296-298 | with fuel, trisect(t) appends exactly [t] iff no point splits t |
| Triangulation.Trisected | 2DTriangulation/2DTriangulation.cpp:251-299 | no point splits any triangle trisect appends |
| Triangulation.Around | 2DTriangulation/2DTriangulation.cpp:288-290 | no point splits any triangle of the three nested calls |
| Triangulation.SplitsUpTo | 2DTriangulation/2DTriangulation.cpp:275-294 | no point splits any triangle the scan appends |
| Triangulation.TrisectedCorners | 2DTriangulation/2DTriangulation.cpp:251-299 | every corner of every triangle trisect(t) appends is a corner of t or a stored point |
| Triangulation.AroundCorners | 2DTriangulation/2DTriangulation.cpp:288-290 | the nested calls around a stored point use only t's corners and stored points |
| Triangulation.SplitsCorners | 2DTriangulation/2DTriangulation.cpp:275-294 | the scan's triangles use only t's corners and stored points |
| Triangulation.Nearest | 2DTriangulation/2DTriangulation.cpp:581-593 | none iff every point is an edge endpoint; otherwise a non-endpoint point of least truncated distance from the centre |
| Triangulation.NearestIsFirst | 2DTriangulation/2DTriangulation.cpp:587-591 | the anchor found is the first point attaining the least distance among non-endpoints |
| Triangulation.Anchor | 2DTriangulation/2DTriangulation.cpp:576-598 | when some point is no edge endpoint, the anchor is such a point, and no other such point is nearer the window centre; when every point is an endpoint, it is the first edge's start |
| Triangulation.FanEdges | 2DTriangulation/2DTriangulation.cpp:574 | the edges fanned over are at least two |
| Triangulation.Fan | 2DTriangulation/2DTriangulation.cpp:600-602 | no point splits any triangle of the fan |
| Triangulation.FanCorners | 2DTriangulation/2DTriangulation.cpp:600-602 | every fan corner is the anchor, an edge endpoint or a point |
| Triangulation.Triangulated | 2DTriangulation/2DTriangulation.cpp:568-603 | no point splits any triangle of the triangulation |
| Triangulation.TriangulatedSpec | 2DTriangulation/2DTriangulation.cpp:568-605 | every triangle stored is split by no point, and its corners are points or endpoints of edges stored before the call |
| Triangulation.TrisectNeverReturns | 2DTriangulation/2DTriangulation.cpp:275-292 | with (10,0) and (20,0) among the points, trisect((0,0),(30,0),(10,0)) starts a chain of nested calls, each around a stored point that splits its caller's triangle, of any length n: the recursion never ends |
| Triangulation.SplitsInteriorIsInside | 2DTriangulation/2DTriangulation.cpp:224-285 | with the strict interior test, the corner and box tests reject nothing: a point splits t iff it lies strictly inside t, and it then also splits t as written |
| Triangulation.FewerInside | 2DTriangulation/2DTriangulation.cpp:288-290 | each of the three triangles around a point strictly inside t has strictly fewer points strictly inside it than t |
| Triangulation.TrisectedInterior | 2DTriangulation/2DTriangulation.cpp:251-299 | trisect with the strict interior test terminates without a depth bound, and no point lies strictly inside any triangle it appends |
| Triangulation.InteriorUpTo | 2DTriangulation/2DTriangulation.cpp:275-294 | no point lies strictly inside any triangle the corrected scan appends |
| Triangulation.AroundInterior | 2DTriangulation/2DTriangulation.cpp:288-290 | no point lies strictly inside any triangle of the three corrected calls |
| Triangulation.Triangulator.constructor | 2DTriangulation/2DTriangulation.cpp:784-785 | a window of the given size holding the given points, with no edges or triangles |
| Triangulation.Triangulator.ConvexHull | 2DTriangulation/2DTriangulation.cpp:169-193 | appends exactly HullOf(points) to the stored edges; nothing else changes |
| Triangulation.Triangulator.Trisect | 2DTriangulation/2DTriangulation.cpp:251-299 | appends exactly Trisected(points, t) to the stored triangles |
| Triangulation.Triangulator.TrisectAt | 2DTriangulation/2DTriangulation.cpp:277-291 | reports whether the point splits t and, if so, appends the three nested trisections |
| Triangulation.Triangulator.TrisectAround | 2DTriangulation/2DTriangulation.cpp:288-290 | appends the triangles of the three nested calls, in order |
| Triangulation.Triangulator.TriCleanup | 2DTriangulation/2DTriangulation.cpp:542-562 | returns CleanupFlips(tris, tris) and modifies nothing |
| Triangulation.Triangulator.FindAnchor | 2DTriangulation/2DTriangulation.cpp:576-598 | returns the nearest non-endpoint point, or the first edge's start when there is none |
| Triangulation.Triangulator.FanOut | 2DTriangulation/2DTriangulation.cpp:600-602 | appends the trisection of every edge's triangle to the anchor, in edge order |
| Triangulation.Triangulator.Triangulation | 2DTriangulation/2DTriangulation.cpp:568-608 | fewer than three points: nothing changes; otherwise points and edges end empty, tris is the triangulation, and the flip count is returned |
| Peeling.OffLines | 2DHull/2DHull.cpp:207-232 | the filter keeps at most the points it is given, and none it keeps lies on the line of any stored edge |
| Peeling.OffLinesMembers | 2DHull/2DHull.cpp:207-232 | a point survives one filter iff it lies on the line of no stored edge |
| Peeling.PeelRoundShrinks | 2DHull/2DHull.cpp:202-238 | every hull corner is filtered out, so each round removes at least one point |
| Peeling.PeelOf | 2DHull/2DHull.cpp:194-238 | at most two points remain, all original; the edges only grow; with at least three points, no remaining point lies on any edge line |
| Peeling.PeelCorners | 2DHull/2DHull.cpp:202-238 | every edge peel appends runs between two of the points being peeled |
| Peeling.PeelFewPoints | 2DHull/2DHull.cpp:202 | with fewer than three points peel draws nothing |
| Peeling.RingMembers | 2DHull/2DHull.cpp:281-288 | one scan at distance d collects exactly the points at truncated distance d |
| Peeling.NeededIsProduct | 2DHull/2DHull.cpp:270-279 | k clusters need k times one cluster's points |
| Peeling.Gather | 2DHull/2DHull.cpp:272-291 | the cluster starts with the centre and holds only points of the set |
| Peeling.GatherSize | 2DHull/2DHull.cpp:279 | with enough points the cluster has max(1, size) points |
| Peeling.GatherDistinct | 2DHull/2DHull.cpp:279-291 | no point is gathered twice |
| Peeling.GatherOrdered | 2DHull/2DHull.cpp:279-291 | points are gathered in nondecreasing distance |
| Peeling.GatherNearest | 2DHull/2DHull.cpp:279-291 | no point left out is nearer than a point taken |
| Peeling.ClusterOf | 2DHull/2DHull.cpp:272-291 | the cluster starts as [points[0]] and holds only stored points |
| Peeling.GatherUnfinished | 2DHull/2DHull.cpp:279-291 | while the cluster is short, some point is farther than the current distance, so the loop terminates |
| Peeling.GatherNext | 2DHull/2DHull.cpp:279-290 | one pass at distance d extends the gathered prefix to distance d + 1 |
| Peeling.GatherComplete | 2DHull/2DHull.cpp:279 | once the cluster is full, it is the whole cluster |
| Peeling.ClusterSpec | 2DHull/2DHull.cpp:272-291 | with enough points: size max(1, n / clusters), distinct, in nondecreasing distance from the seed, none left out nearer |
| Peeling.Without | 2DHull/2DHull.cpp:297-309 | removal keeps at most the stored points, and none it keeps is in the cluster |
| Peeling.WithoutMembers | 2DHull/2DHull.cpp:297-309 | a point survives removal iff it is stored and not in the cluster |
| Peeling.WithoutCount | 2DHull/2DHull.cpp:297-314 | removing a distinct sub-cluster removes exactly its size |
| Peeling.ClusterRound | 2DHull/2DHull.cpp:293-314 | after one round the points are distinct and one cluster fewer |
| Peeling.ClusterRoundOf | 2DHull/2DHull.cpp:272-314 | one round keeps points in the window, distinct, one cluster fewer, all original; edges only grow |
| Peeling.ClusterRoundKeeps | 2DHull/2DHull.cpp:297-314 | after a round the points are exactly the previous points minus the cluster |
| Peeling.ClusterPeelOf | 2DHull/2DHull.cpp:270-315 | k rounds remove exactly k clusters' worth of points and keep the rest distinct; edges only grow |
| Peeling.ClusterPeelNext | 2DHull/2DHull.cpp:270-315 | round k + 1 works on what the first k rounds leave, which is at least one cluster |
| Peeling.GatherCluster | 2DHull/2DHull.cpp:272-291 | the gathering loop returns exactly ClusterOf(points, size) |
| Peeling.GatherRing | 2DHull/2DHull.cpp:279-291 | one round of the loop advances the gathered prefix by one ring |
| Peeling.ScanRing | 2DHull/2DHull.cpp:281-288 | the inner scan appends the points at distance dist, in order, until the cluster is full |
| Peeling.Remaining | 2DHull/2DHull.cpp:297-309 | the removal scan returns the stored points not in the cluster, in order |
| Peeling.HullPeeler.constructor | 2DHull/2DHull.cpp:522-525 | a 1000 by 800 window, 100 points, 5 clusters, no edges, not clustering |
| Peeling.HullPeeler.ConvexHull | 2DHull/2DHull.cpp:162-188 | appends exactly HullOf(pts) to the stored edges |
| Peeling.HullPeeler.OnAnyLine | 2DHull/2DHull.cpp:210-227 | true iff the point lies on the line of some stored edge |
| Peeling.HullPeeler.Survivors | 2DHull/2DHull.cpp:207-232 | returns the points on no stored edge's line, in order |
| Peeling.HullPeeler.Peel | 2DHull/2DHull.cpp:194-250 | the edges become PeelOf's; the stored points are cleared unless clustering |
| Peeling.HullPeeler.PeelOneCluster | 2DHull/2DHull.cpp:272-314 | one round changes points and edges exactly as ClusterRoundOf says |
| Peeling.HullPeeler.NextCluster | 2DHull/2DHull.cpp:270-315 | after i rounds, one more round gives the state of i + 1 rounds |
| Peeling.HullPeeler.ClusterPeel | 2DHull/2DHull.cpp:261-318 | points and edges become ClusterPeelOf's after `clusters` rounds of n / clusters; clustering ends false |

## Left out

- The GLUT and OpenGL interface is not modelled: drawing, menus, keyboard, mouse, `main`, `increment_clusters`, `set_mouse_draw` and the `glutPostRedisplay` calls. It only displays or collects input.
- Console output is not modelled: the messages of `tri_cleanup`, `triangulation` and `peel`.
- Point generation is not modelled: `random`, `lattice`, `increment_n`, `initializeVector`, `draw_mouse_point` and the `coords`, `shuffled` and `mouseDraw` fields. Those depend on a random shuffle or on input. The model instead takes a sequence of points in the window (distinct, for the hull program) as its input.
- Floating-point `sqrt` is not modelled. `pythagorean` is the integer floor square root. The squared distances of window coordinates are far below 2^53, so a correctly rounded square root followed by truncation gives exactly that floor.
- Machine integer overflow is not modelled; Dafny's `int` is unbounded. For coordinates in a 1000 by 800 window every intermediate value fits in 32 bits.
- Triangulation.Triangulator.Trisect: the recursion carries a `fuel` depth bound, and a call with no fuel appends nothing. As written, `trisect` need not terminate (see the trisect row under Findings), so the model states what a call does within the given depth.
- Triangulation.Anchor: the `INT_MAX` starting distance is modelled as `None`. A truncated distance in the window never reaches it.
- MeshCleanup.CheckSharedEdge: the `abs` around the two lengths compared is not modelled. Both are truncated square roots and never negative, so it does not change the outcome.
- Peeling.HullPeeler.ClusterPeel: requires at least `clusters` times `max(1, n / clusters)` stored points. With fewer, the source's gathering loop never ends, or it reads `points[0]` of an empty vector.
- Peeling.HullPeeler.ClusterPeel: the gathering and removal loops are module-level methods over a copy of the stored points. The source reads the global vector, which does not change during those loops.
- QuickHull.QuickHull: the routine returns the edges it would append, and the caller appends them to the stored edges. The source appends inside the recursion; the order of the edges is the same.

## Findings

| source | as written | input that shows it | evidently intended | confidence | as-written member | corrected member |
|---|---|---|---|---|---|---|
| 2DTriangulation/2DTriangulation.cpp:227-246 | d2 and d3 are never compared, so a point on the line of the first side passes whatever its other distances, and the answer depends on which corner is listed first | p = (20,0), t = ((0,0),(10,0),(0,10)): accepted, but rejected for the same triangle listed from (10,0) | no two of the three distances strictly of opposite signs, i.e. the closed triangle, whatever the corner order | not executed | Geometry.PointInTriangleOrderDependent | Geometry.PointInClosedTriangleSpec |
| 2DTriangulation/2DTriangulation.cpp:329-334 | the corner of t2 matching a shared corner is found by comparing the corner's x with both x and y of t2's corners (the same slip at lines 342-347 and 355-360); when no test succeeds the third corner is blamed, so t2's far corner can be an endpoint of the shared edge and a due flip is missed | t1 = ((0,0),(10,0),(5,1)), t2 = ((0,0),(10,0),(5,-1)): no flip | compare x with x and y with y; the pair is flipped to ((0,0),(5,1),(5,-1)) and ((10,0),(5,1),(5,-1)) | not executed | MeshCleanup.MissedFlip | MeshCleanup.IntendedFlipRule |
| 2DTriangulation/2DTriangulation.cpp:275-292 | a point splits a triangle when the point-in-triangle test accepts it, and that test accepts every point on the line of the first side; the three nested calls keep the splitting point as a corner, so two points on the same side split each other's triangles in turn and the recursion never ends | points (10,0) and (20,0), t = ((0,0),(30,0),(10,0)): (20,0) splits t, the first nested call is on ((0,0),(30,0),(20,0)), which (10,0) splits back into t | split only at points strictly inside t, as the comments at lines 226 and 249-251 say; every nested call then has fewer points inside, so the recursion ends | not executed | Triangulation.TrisectNeverReturns | Triangulation.TrisectedInterior |

The program model (`CheckSharedEdge`, `Trisect`, `TriCleanup`) uses the tests as written, because it models what the program does; `Trisect` therefore keeps its depth bound. The corrected definitions are `PointInClosedTriangle`, `SharedEdgeIntended` and `TrisectedInterior`. They sit beside the as-written ones and are related to them by the lemmas above. `WrittenFlipIsIntended` shows that the flag slip only ever suppresses flips and never produces a wrong one.
