/**
 * The triangulation program's own state and operations: the window size, the point set,
 * the hull edges and the triangles, changed in place by convex_hull, trisect, tri_cleanup and
 * triangulation. The pure parts are specified by functions at module level; the class's
 * methods are proved to change the state exactly as those functions say.
 */
module Triangulation {
  import opened Geometry
  import QuickHull
  import MeshCleanup

  datatype Option<T> = None | Some(value: T)

  function Max(a: int, b: int): int
  {
    if a < b then b else a
  }

  function Min(a: int, b: int): int
  {
    if b < a then b else a
  }

  /** on_edge: the point is an endpoint of one of the edges. */
  function OnEdge(p: Point, edges: seq<Edge>): (r: bool)
    ensures r <==> exists i :: 0 <= i < |edges| && p in Endpoints(edges[i])
  {
    if edges == [] then false
    else if p == edges[0].p1 || p == edges[0].p2 then true
    else
      assert forall i :: 1 <= i < |edges| ==> edges[i] == edges[1..][i - 1];
      OnEdge(p, edges[1..])
  }

  /** A bounding box, corner coordinates included. */
  datatype Box = Box(xMin: int, xMax: int, yMin: int, yMax: int)

  /**
   * The box trisect computes around t, with the scan for the minima starting from the
   * window's width and height and the scan for the maxima from -1. For a triangle inside
   * the window the stand-ins never win: each bound is the extreme coordinate of a corner.
   */
  function BoxOf(t: Tri, w: int, h: int): (b: Box)
    ensures InWindow(t.p1, w, h) && InWindow(t.p2, w, h) && InWindow(t.p3, w, h) ==>
      (forall p :: p in Vertices(t) ==> b.xMin <= p.x <= b.xMax && b.yMin <= p.y <= b.yMax) &&
      (b.xMin == t.p1.x || b.xMin == t.p2.x || b.xMin == t.p3.x) &&
      (b.xMax == t.p1.x || b.xMax == t.p2.x || b.xMax == t.p3.x) &&
      (b.yMin == t.p1.y || b.yMin == t.p2.y || b.yMin == t.p3.y) &&
      (b.yMax == t.p1.y || b.yMax == t.p2.y || b.yMax == t.p3.y)
  {
    Box(Min(Min(Min(t.p1.x, w), t.p2.x), t.p3.x), Max(Max(Max(t.p1.x, -1), t.p2.x), t.p3.x),
        Min(Min(Min(t.p1.y, h), t.p2.y), t.p3.y), Max(Max(Max(t.p1.y, -1), t.p2.y), t.p3.y))
  }

  /**
   * A point that makes trisect split t: not a corner of t, inside t's box, and accepted by
   * the point-in-triangle test. No point strictly inside t is missed by the box test.
   */
  predicate Splits(p: Point, t: Tri, w: int, h: int): (r: bool)
    ensures r ==> p != t.p1 && p != t.p2 && p != t.p3 && PointInTriangle(p, t)
    ensures StrictlyInside(p, t) ==> r
  {
    var b := BoxOf(t, w, h);
    InsideSplits(p, t, b);
    p !in Vertices(t) && b.xMin <= p.x <= b.xMax && b.yMin <= p.y <= b.yMax && PointInTriangle(p, t)
  }

  /** A point strictly inside t passes all three of trisect's tests. */
  lemma {:induction false} InsideSplits(p: Point, t: Tri, b: Box)
    requires b.xMin <= Min(Min(t.p1.x, t.p2.x), t.p3.x) && Max(Max(t.p1.x, t.p2.x), t.p3.x) <= b.xMax
    requires b.yMin <= Min(Min(t.p1.y, t.p2.y), t.p3.y) && Max(Max(t.p1.y, t.p2.y), t.p3.y) <= b.yMax
    ensures StrictlyInside(p, t) ==>
      p !in Vertices(t) && b.xMin <= p.x <= b.xMax && b.yMin <= p.y <= b.yMax && PointInTriangle(p, t)
  {
    if StrictlyInside(p, t) {
      StrictlyInsideAccepted(p, t);
      InsideWithin(p, t, b.xMin, b.xMax, b.yMin, b.yMax);
    }
  }

  /** Some point of pts makes trisect split t. */
  predicate AnySplits(pts: seq<Point>, t: Tri, w: int, h: int)
  {
    SplitsBefore(pts, t, w, h, |pts|)
  }

  /** One of the first i points of pts makes trisect split t. */
  predicate SplitsBefore(pts: seq<Point>, t: Tri, w: int, h: int, i: int)
    requires i <= |pts|
  {
    exists j :: 0 <= j < i && Splits(pts[j], t, w, h)
  }

  /**
   * The triangles trisect(t) appends, with at most `fuel` nested calls: t itself when no
   * point splits it, and otherwise, for every splitting point p in order, the triangles of
   * the three calls on (t.p1, t.p2, p), (t.p2, t.p3, p) and (t.p3, t.p1, p).
   */
  function Trisected(pts: seq<Point>, w: int, h: int, t: Tri, fuel: nat): (r: seq<Tri>)
    ensures Leaves(pts, r, w, h)
    decreases fuel, |pts| + 1
  {
    if fuel == 0 then []
    else
      var found := SplitsUpTo(pts, w, h, t, fuel, |pts|);
      var self := if AnySplits(pts, t, w, h) then [] else [t];
      LeavesConcat(pts, w, h, found, self);
      found + self
  }

  /** The triangles appended while trisect(t) scans the first i points. */
  function SplitsUpTo(pts: seq<Point>, w: int, h: int, t: Tri, fuel: nat, i: nat): (r: seq<Tri>)
    requires fuel >= 1 && i <= |pts|
    ensures Leaves(pts, r, w, h)
    decreases fuel, i
  {
    if i == 0 then []
    else
      var p := pts[i - 1];
      var before := SplitsUpTo(pts, w, h, t, fuel, i - 1);
      var more := if Splits(p, t, w, h) then Around(pts, w, h, t, p, fuel - 1) else [];
      LeavesConcat(pts, w, h, before, more);
      before + more
  }

  /** The triangles of the three calls trisect makes around a splitting point p. */
  function Around(pts: seq<Point>, w: int, h: int, t: Tri, p: Point, fuel: nat): (r: seq<Tri>)
    ensures Leaves(pts, r, w, h)
    decreases fuel, |pts| + 2
  {
    var ta := Trisected(pts, w, h, Tri(t.p1, t.p2, p), fuel);
    var tb := Trisected(pts, w, h, Tri(t.p2, t.p3, p), fuel);
    var tc := Trisected(pts, w, h, Tri(t.p3, t.p1, p), fuel);
    LeavesConcat(pts, w, h, ta, tb);
    LeavesConcat(pts, w, h, ta + tb, tc);
    ta + tb + tc
  }

  /** Appending three runs one after another appends their concatenation. */
  lemma AppendThree(s: seq<Tri>, a: seq<Tri>, b: seq<Tri>, c: seq<Tri>)
    ensures s + a + b + c == s + (a + b + c)
  {
  }

  /** Scanning one more point appends that point's three trisections when it splits t. */
  lemma ScanStep(pts: seq<Point>, w: int, h: int, t: Tri, fuel: nat, i: nat)
    requires fuel >= 1 && i < |pts|
    ensures SplitsUpTo(pts, w, h, t, fuel, i + 1) == SplitsUpTo(pts, w, h, t, fuel, i) +
      if Splits(pts[i], t, w, h) then Around(pts, w, h, t, pts[i], fuel - 1) else []
    ensures SplitsBefore(pts, t, w, h, i + 1) <==> SplitsBefore(pts, t, w, h, i) || Splits(pts[i], t, w, h)
  {
  }

  /** The three nested tests trisect applies to a point decide exactly whether it splits t. */
  lemma SplitTests(p: Point, t: Tri, w: int, h: int, xMin: int, xMax: int, yMin: int, yMax: int)
    requires Box(xMin, xMax, yMin, yMax) == BoxOf(t, w, h)
    ensures Splits(p, t, w, h) <==>
      !((p.x == t.p1.x && p.y == t.p1.y) || (p.x == t.p2.x && p.y == t.p2.y) || (p.x == t.p3.x && p.y == t.p3.y)) &&
      (p.x >= xMin && p.x <= xMax && p.y >= yMin && p.y <= yMax) && PointInTriangle(p, t)
  {
  }

  lemma ScanStepTris(pts: seq<Point>, w: int, h: int, t: Tri, fuel: nat, i: nat, start: seq<Tri>, before: seq<Tri>, after: seq<Tri>)
    requires fuel >= 1 && i < |pts|
    requires before == start + SplitsUpTo(pts, w, h, t, fuel, i)
    requires Splits(pts[i], t, w, h) ==> after == before + Around(pts, w, h, t, pts[i], fuel - 1)
    requires !Splits(pts[i], t, w, h) ==> after == before
    ensures after == start + SplitsUpTo(pts, w, h, t, fuel, i + 1)
  {
  }

  /** No triangle of ts is split by a point of pts. */
  predicate Leaves(pts: seq<Point>, ts: seq<Tri>, w: int, h: int)
  {
    forall u :: u in ts ==> !AnySplits(pts, u, w, h)
  }

  /** With no splitting point among the first i, the scan appends nothing. */
  lemma {:induction false} QuietScan(pts: seq<Point>, w: int, h: int, t: Tri, fuel: nat, i: nat)
    requires fuel >= 1 && i <= |pts|
    requires forall j :: 0 <= j < i ==> !Splits(pts[j], t, w, h)
    ensures SplitsUpTo(pts, w, h, t, fuel, i) == []
  {
    if i > 0 {
      QuietScan(pts, w, h, t, fuel, i - 1);
    }
  }

  lemma LeavesConcat(pts: seq<Point>, w: int, h: int, xs: seq<Tri>, ys: seq<Tri>)
    requires Leaves(pts, xs, w, h) && Leaves(pts, ys, w, h)
    ensures Leaves(pts, xs + ys, w, h)
  {
  }

  /**
   * trisect(t) appends exactly [t] if and only if no point splits t (given at least one
   * level of calls).
   */
  lemma {:induction false} TrisectedItself(pts: seq<Point>, w: int, h: int, t: Tri, fuel: nat)
    requires fuel >= 1
    ensures Trisected(pts, w, h, t, fuel) == [t] <==> !AnySplits(pts, t, w, h)
  {
    if !AnySplits(pts, t, w, h) {
      QuietScan(pts, w, h, t, fuel, |pts|);
    }
  }

  /** v is a corner of t or a point of pts. */
  predicate CornerOrPoint(v: Point, t: Tri, pts: seq<Point>)
  {
    v == t.p1 || v == t.p2 || v == t.p3 || v in pts
  }

  /** Every corner of u is a corner of t or a point of pts. */
  predicate CornersFrom(u: Tri, t: Tri, pts: seq<Point>)
  {
    CornerOrPoint(u.p1, t, pts) && CornerOrPoint(u.p2, t, pts) && CornerOrPoint(u.p3, t, pts)
  }

  /** Every corner of every triangle of ts is a corner of t or a point of pts. */
  predicate AllCornersFrom(ts: seq<Tri>, t: Tri, pts: seq<Point>)
  {
    forall u :: u in ts ==> CornersFrom(u, t, pts)
  }

  /** Every corner of every triangle trisect(t) appends is a corner of t or a point of pts. */
  lemma {:induction false} TrisectedCorners(pts: seq<Point>, w: int, h: int, t: Tri, fuel: nat)
    ensures AllCornersFrom(Trisected(pts, w, h, t, fuel), t, pts)
    decreases fuel, |pts| + 1
  {
    if fuel > 0 {
      SplitsCorners(pts, w, h, t, fuel, |pts|);
    }
  }

  lemma {:induction false} SplitsCorners(pts: seq<Point>, w: int, h: int, t: Tri, fuel: nat, i: nat)
    requires fuel >= 1 && i <= |pts|
    ensures AllCornersFrom(SplitsUpTo(pts, w, h, t, fuel, i), t, pts)
    decreases fuel, i
  {
    if i > 0 {
      var p := pts[i - 1];
      SplitsCorners(pts, w, h, t, fuel, i - 1);
      if Splits(p, t, w, h) {
        AroundCorners(pts, w, h, t, p, fuel - 1);
        CornersConcat(SplitsUpTo(pts, w, h, t, fuel, i - 1), Around(pts, w, h, t, p, fuel - 1), t, pts);
      }
    }
  }

  lemma {:induction false} AroundCorners(pts: seq<Point>, w: int, h: int, t: Tri, p: Point, fuel: nat)
    requires p in pts
    ensures AllCornersFrom(Around(pts, w, h, t, p, fuel), t, pts)
    decreases fuel, |pts| + 2
  {
    var ta := Trisected(pts, w, h, Tri(t.p1, t.p2, p), fuel);
    var tb := Trisected(pts, w, h, Tri(t.p2, t.p3, p), fuel);
    var tc := Trisected(pts, w, h, Tri(t.p3, t.p1, p), fuel);
    TrisectedCorners(pts, w, h, Tri(t.p1, t.p2, p), fuel);
    TrisectedCorners(pts, w, h, Tri(t.p2, t.p3, p), fuel);
    TrisectedCorners(pts, w, h, Tri(t.p3, t.p1, p), fuel);
    CornersStep(pts, t, p, ta, tb, tc);
  }

  /** Triangles cornered by the three sub-triangles around a point p of pts are cornered by t. */
  lemma CornersStep(pts: seq<Point>, t: Tri, p: Point, ta: seq<Tri>, tb: seq<Tri>, tc: seq<Tri>)
    requires p in pts
    requires AllCornersFrom(ta, Tri(t.p1, t.p2, p), pts) && AllCornersFrom(tb, Tri(t.p2, t.p3, p), pts) &&
             AllCornersFrom(tc, Tri(t.p3, t.p1, p), pts)
    ensures AllCornersFrom(ta + tb + tc, t, pts)
  {
  }

  lemma CornersConcat(xs: seq<Tri>, ys: seq<Tri>, t: Tri, pts: seq<Point>)
    requires AllCornersFrom(xs, t, pts) && AllCornersFrom(ys, t, pts)
    ensures AllCornersFrom(xs + ys, t, pts)
  {
  }

  // ---------------------------------------------------------------------------------------
  // Recursion depth of trisect, and trisect with the strict interior test
  // ---------------------------------------------------------------------------------------

  /**
   * ts is a chain of nested trisect calls: each ts[i + 1] is one of the three calls
   * trisect(ts[i]) makes around its splitting point ps[i].
   */
  predicate CallChain(pts: seq<Point>, w: int, h: int, ts: seq<Tri>, ps: seq<Point>)
  {
    |ts| == |ps| + 1 &&
    forall i :: 0 <= i < |ps| ==>
      ps[i] in pts && Splits(ps[i], ts[i], w, h) &&
      (ts[i + 1] == Tri(ts[i].p1, ts[i].p2, ps[i]) ||
       ts[i + 1] == Tri(ts[i].p2, ts[i].p3, ps[i]) ||
       ts[i + 1] == Tri(ts[i].p3, ts[i].p1, ps[i]))
  }

  /** The flat triangle ((0,0), (30,0), (x,0)). */
  function Flat(x: int): Tri
  {
    Tri(Point(0, 0), Point(30, 0), Point(x, 0))
  }

  /** A point strictly between (0,0) and (30,0) splits the flat triangle on a third such point. */
  lemma BaseLineSplits(p: Point, c: Point, w: int, h: int)
    requires p.y == 0 && c.y == 0 && 0 < p.x < 30 && 0 < c.x < 30 && p != c
    ensures Splits(p, Tri(Point(0, 0), Point(30, 0), c), w, h)
  {
    FirstSideLineInTriangle(p, Tri(Point(0, 0), Point(30, 0), c));
  }

  /** The calls trisect(Flat(10)) nests: Flat(10), Flat(20), Flat(10), ... */
  function FlatChain(n: nat): (ts: seq<Tri>)
    ensures |ts| == n + 1 && ts[0] == Flat(10)
  {
    seq(n + 1, i => if i % 2 == 0 then Flat(10) else Flat(20))
  }

  /** The splitting points along FlatChain: (20,0), (10,0), (20,0), ... */
  function FlatPoints(n: nat): (ps: seq<Point>)
    ensures |ps| == n
  {
    seq(n, i => if i % 2 == 0 then Point(20, 0) else Point(10, 0))
  }

  /**
   * One link of the chain: (y,0) splits Flat(x), and the first call around it is on
   * Flat(y); so (20,0) splits Flat(10) into Flat(20), which (10,0) splits into Flat(10).
   */
  lemma FlatLink(pts: seq<Point>, w: int, h: int, p: Point, x: int, y: int)
    requires p in pts && p == Point(y, 0) && 0 < x < 30 && 0 < y < 30 && x != y
    ensures Splits(p, Flat(x), w, h) && Flat(y) == Tri(Flat(x).p1, Flat(x).p2, p)
  {
    BaseLineSplits(p, Point(x, 0), w, h);
  }

  /** FlatChain alternates between the two flat triangles, one splitting point at a time. */
  lemma ChainStep(n: nat, i: nat)
    requires i < n
    ensures i % 2 == 0 ==> FlatChain(n)[i] == Flat(10) && FlatPoints(n)[i] == Point(20, 0) && FlatChain(n)[i + 1] == Flat(20)
    ensures i % 2 == 1 ==> FlatChain(n)[i] == Flat(20) && FlatPoints(n)[i] == Point(10, 0) && FlatChain(n)[i + 1] == Flat(10)
  {
  }

  /**
   * As written, trisect never returns once both (10,0) and (20,0) are points, whatever the
   * window: trisect(Flat(10)) makes a chain of nested calls longer than any bound.
   */
  lemma TrisectNeverReturns(pts: seq<Point>, w: int, h: int, n: nat)
    requires Point(10, 0) in pts && Point(20, 0) in pts
    ensures CallChain(pts, w, h, FlatChain(n), FlatPoints(n))
  {
    var ts, ps := FlatChain(n), FlatPoints(n);
    forall i | 0 <= i < n
      ensures ps[i] in pts && Splits(ps[i], ts[i], w, h) && ts[i + 1] == Tri(ts[i].p1, ts[i].p2, ps[i])
    {
      ChainStep(n, i);
      if i % 2 == 0 {
        FlatLink(pts, w, h, Point(20, 0), 10, 20);
      } else {
        FlatLink(pts, w, h, Point(10, 0), 20, 10);
      }
    }
  }

  /** The points of pts strictly inside t. */
  function InsideOf(pts: seq<Point>, t: Tri): set<Point>
  {
    set q | q in pts && StrictlyInside(q, t)
  }

  /**
   * trisect's tests with the point-in-triangle test replaced by the strict interior test,
   * the points its comments say it looks for.
   */
  predicate SplitsInterior(p: Point, t: Tri, w: int, h: int)
  {
    var b := BoxOf(t, w, h);
    p !in Vertices(t) && b.xMin <= p.x <= b.xMax && b.yMin <= p.y <= b.yMax && StrictlyInside(p, t)
  }

  /**
   * With the strict test, the corner and box tests never reject anything: a point splits
   * t exactly when it lies strictly inside t, and it then also passes the program's test.
   */
  lemma {:induction false} SplitsInteriorIsInside(p: Point, t: Tri, w: int, h: int)
    ensures SplitsInterior(p, t, w, h) <==> StrictlyInside(p, t)
    ensures SplitsInterior(p, t, w, h) ==> Splits(p, t, w, h)
  {
    if StrictlyInside(p, t) {
      var b := BoxOf(t, w, h);
      StrictlyInsideAccepted(p, t);
      InsideWithin(p, t, b.xMin, b.xMax, b.yMin, b.yMax);
    }
  }

  /** Some point of pts lies strictly inside t. */
  predicate AnyInside(pts: seq<Point>, t: Tri)
  {
    exists j :: 0 <= j < |pts| && StrictlyInside(pts[j], t)
  }

  /** Each of the three triangles around a point strictly inside t has fewer points inside. */
  lemma {:induction false} FewerInside(pts: seq<Point>, t: Tri, p: Point)
    requires p in pts && StrictlyInside(p, t)
    ensures |InsideOf(pts, Tri(t.p1, t.p2, p))| < |InsideOf(pts, t)|
    ensures |InsideOf(pts, Tri(t.p2, t.p3, p))| < |InsideOf(pts, t)|
    ensures |InsideOf(pts, Tri(t.p3, t.p1, p))| < |InsideOf(pts, t)|
  {
    forall q | q in pts
      ensures StrictlyInside(q, Tri(t.p1, t.p2, p)) ==> StrictlyInside(q, t)
      ensures StrictlyInside(q, Tri(t.p2, t.p3, p)) ==> StrictlyInside(q, t)
      ensures StrictlyInside(q, Tri(t.p3, t.p1, p)) ==> StrictlyInside(q, t)
    {
      NestedInsideAll(t, p, q);
    }
    SplitPointNotInside(t, p);
    assert p in InsideOf(pts, t);
    QuickHull.ProperSubsetSmaller(InsideOf(pts, Tri(t.p1, t.p2, p)), InsideOf(pts, t));
    QuickHull.ProperSubsetSmaller(InsideOf(pts, Tri(t.p2, t.p3, p)), InsideOf(pts, t));
    QuickHull.ProperSubsetSmaller(InsideOf(pts, Tri(t.p3, t.p1, p)), InsideOf(pts, t));
  }

  /** No point of pts lies strictly inside any triangle of ts. */
  predicate Empty(pts: seq<Point>, ts: seq<Tri>)
  {
    forall u :: u in ts ==> !AnyInside(pts, u)
  }

  lemma EmptyConcat(pts: seq<Point>, xs: seq<Tri>, ys: seq<Tri>)
    requires Empty(pts, xs) && Empty(pts, ys)
    ensures Empty(pts, xs + ys)
  {
  }

  /**
   * trisect with the strict interior test: every call has fewer points strictly inside its
   * triangle than its caller, so the recursion ends without any depth bound; and every
   * triangle it appends holds no point strictly inside it, since a triangle is only
   * appended by the call whose scan found no interior point.
   */
  function TrisectedInterior(pts: seq<Point>, w: int, h: int, t: Tri): (r: seq<Tri>)
    ensures Empty(pts, r)
    decreases |InsideOf(pts, t)|, |pts| + 1
  {
    var found := InteriorUpTo(pts, w, h, t, |pts|);
    var self := if AnyInside(pts, t) then [] else [t];
    EmptyConcat(pts, found, self);
    found + self
  }

  /** The triangles appended while the corrected trisect(t) scans the first i points. */
  function InteriorUpTo(pts: seq<Point>, w: int, h: int, t: Tri, i: nat): (r: seq<Tri>)
    requires i <= |pts|
    ensures Empty(pts, r)
    decreases |InsideOf(pts, t)|, i
  {
    if i == 0 then []
    else
      var p := pts[i - 1];
      SplitsInteriorIsInside(p, t, w, h);
      var before := InteriorUpTo(pts, w, h, t, i - 1);
      var more := if SplitsInterior(p, t, w, h) then AroundInterior(pts, w, h, t, p) else [];
      EmptyConcat(pts, before, more);
      before + more
  }

  /** The triangles of the three corrected calls around a point strictly inside t. */
  function AroundInterior(pts: seq<Point>, w: int, h: int, t: Tri, p: Point): (r: seq<Tri>)
    requires p in pts && StrictlyInside(p, t)
    ensures Empty(pts, r)
    decreases |InsideOf(pts, t)|, 0
  {
    FewerInside(pts, t, p);
    var ta := TrisectedInterior(pts, w, h, Tri(t.p1, t.p2, p));
    var tb := TrisectedInterior(pts, w, h, Tri(t.p2, t.p3, p));
    var tc := TrisectedInterior(pts, w, h, Tri(t.p3, t.p1, p));
    EmptyConcat(pts, ta, tb);
    EmptyConcat(pts, ta + tb, tc);
    ta + tb + tc
  }

  /**
   * The anchor search of triangulation over pts: the first point that is not an endpoint of
   * any edge and whose truncated distance from c is strictly smaller than that of every
   * earlier such point, with that distance; None when every point is an edge endpoint.
   */
  function Nearest(pts: seq<Point>, edges: seq<Edge>, c: Point): (r: Option<(Point, nat)>)
    ensures r.None? <==> forall i :: 0 <= i < |pts| ==> OnEdge(pts[i], edges)
    ensures r.Some? ==>
      r.value.0 in pts && !OnEdge(r.value.0, edges) && r.value.1 == Pythagorean(r.value.0, c) &&
      forall i :: 0 <= i < |pts| && !OnEdge(pts[i], edges) ==> r.value.1 <= Pythagorean(pts[i], c)
  {
    if pts == [] then None
    else
      var best := Nearest(pts[..|pts| - 1], edges, c);
      var p := pts[|pts| - 1];
      if OnEdge(p, edges) then best
      else
        var d := Pythagorean(p, c);
        if best.None? || d < best.value.1 then Some((p, d)) else best
  }

  /** No point of pts before index k that is not an edge endpoint is within distance d of c. */
  predicate NoneNearerBefore(pts: seq<Point>, edges: seq<Edge>, c: Point, k: int, d: int)
    requires 0 <= k <= |pts|
  {
    forall j :: 0 <= j < k && !OnEdge(pts[j], edges) ==> Pythagorean(pts[j], c) > d
  }

  /** The anchor found is the first point attaining the least distance among non-endpoints. */
  lemma {:induction false} NearestIsFirst(pts: seq<Point>, edges: seq<Edge>, c: Point)
    requires Nearest(pts, edges, c).Some?
    ensures exists k :: 0 <= k < |pts| && pts[k] == Nearest(pts, edges, c).value.0 &&
                        NoneNearerBefore(pts, edges, c, k, Nearest(pts, edges, c).value.1)
  {
    var init := pts[..|pts| - 1];
    var best := Nearest(init, edges, c);
    var r := Nearest(pts, edges, c);
    if r == best {
      NearestIsFirst(init, edges, c);
      var k :| 0 <= k < |init| && init[k] == best.value.0 && NoneNearerBefore(init, edges, c, k, best.value.1);
      assert pts[k] == r.value.0;
      forall j | 0 <= j < k && !OnEdge(pts[j], edges)
        ensures Pythagorean(pts[j], c) > r.value.1
      {
        assert pts[j] == init[j];
      }
      assert NoneNearerBefore(pts, edges, c, k, r.value.1);
    } else {
      forall j | 0 <= j < |pts| - 1 && !OnEdge(pts[j], edges)
        ensures Pythagorean(pts[j], c) > r.value.1
      {
        assert pts[j] == init[j];
      }
      assert NoneNearerBefore(pts, edges, c, |pts| - 1, r.value.1);
    }
  }

  /**
   * The point every fan triangle shares: among the points that are no edge endpoint, one
   * nearest the window's centre by truncated distance; the first edge's start when every
   * point is an endpoint.
   */
  function Anchor(pts: seq<Point>, hull: seq<Edge>, w: int, h: int): (r: Point)
    requires |hull| >= 1
    ensures (forall i :: 0 <= i < |pts| ==> OnEdge(pts[i], hull)) ==> r == hull[0].p1
    ensures (exists i :: 0 <= i < |pts| && !OnEdge(pts[i], hull)) ==>
      r in pts && !OnEdge(r, hull) &&
      forall i :: 0 <= i < |pts| && !OnEdge(pts[i], hull) ==>
        Pythagorean(r, Point(w / 2, h / 2)) <= Pythagorean(pts[i], Point(w / 2, h / 2))
  {
    match Nearest(pts, hull, Point(w / 2, h / 2))
    case None => hull[0].p1
    case Some(found) => found.0
  }

  /**
   * The triangles of the fan over the given edges, each trisected, in edge order; no point
   * splits any of them.
   */
  function Fan(pts: seq<Point>, w: int, h: int, hull: seq<Edge>, mid: Point, fuel: nat): (r: seq<Tri>)
    ensures Leaves(pts, r, w, h)
  {
    if hull == [] then []
    else
      var e := hull[|hull| - 1];
      var before := Fan(pts, w, h, hull[..|hull| - 1], mid, fuel);
      var last := Trisected(pts, w, h, Tri(e.p1, e.p2, mid), fuel);
      LeavesConcat(pts, w, h, before, last);
      before + last
  }

  /** The edges triangulation fans over: the edges already stored, then the new hull. */
  function FanEdges(pts: seq<Point>, edges: seq<Edge>, w: int): (hull: seq<Edge>)
    requires QuickHull.XInWindow(pts, w) && |pts| >= 3
    ensures |hull| >= 2
  {
    QuickHull.HullOfSpec(pts, w);
    edges + QuickHull.HullOf(pts, w)
  }

  /** The triangles triangulation stores for pts, before tri_cleanup; no point splits any of them. */
  function Triangulated(pts: seq<Point>, edges: seq<Edge>, w: int, h: int, fuel: nat): (r: seq<Tri>)
    requires QuickHull.XInWindow(pts, w) && |pts| >= 3
    ensures Leaves(pts, r, w, h)
  {
    var hull := FanEdges(pts, edges, w);
    Fan(pts, w, h, hull, Anchor(pts, hull, w, h), fuel)
  }

  /** Every corner of a fan triangle is the shared point, an edge endpoint or a point of pts. */
  lemma {:induction false} FanCorners(pts: seq<Point>, w: int, h: int, hull: seq<Edge>, mid: Point, fuel: nat,
                                      allowed: set<Point>)
    requires mid in allowed && (forall q :: q in pts ==> q in allowed)
    requires forall i :: 0 <= i < |hull| ==> hull[i].p1 in allowed && hull[i].p2 in allowed
    ensures forall u :: u in Fan(pts, w, h, hull, mid, fuel) ==> Vertices(u) <= allowed
  {
    if hull != [] {
      var e := hull[|hull| - 1];
      FanCorners(pts, w, h, hull[..|hull| - 1], mid, fuel, allowed);
      TrisectedCorners(pts, w, h, Tri(e.p1, e.p2, mid), fuel);
    }
  }

  /**
   * What triangulation stores: triangles that no point splits, each of whose corners is a
   * point of pts or an endpoint of an edge stored before the call.
   */
  lemma {:induction false} TriangulatedSpec(pts: seq<Point>, edges: seq<Edge>, w: int, h: int, fuel: nat)
    requires QuickHull.XInWindow(pts, w) && |pts| >= 3
    ensures forall u :: u in Triangulated(pts, edges, w, h, fuel) ==>
      !AnySplits(pts, u, w, h) &&
      Vertices(u) <= (set q | q in pts) + (set i, q | 0 <= i < |edges| && q in Endpoints(edges[i]) :: q)
  {
    var hull := FanEdges(pts, edges, w);
    var mid := Anchor(pts, hull, w, h);
    var allowed := (set q | q in pts) + (set i, q | 0 <= i < |edges| && q in Endpoints(edges[i]) :: q);
    QuickHull.HullOfCorners(pts, w);
    var found := QuickHull.HullOf(pts, w);
    forall i | 0 <= i < |hull|
      ensures hull[i].p1 in allowed && hull[i].p2 in allowed
    {
      if i < |edges| {
        assert hull[i] == edges[i];
        assert hull[i].p1 in Endpoints(edges[i]) && hull[i].p2 in Endpoints(edges[i]);
      } else {
        assert hull[i] == found[i - |edges|];
      }
    }
    assert mid in allowed;
    FanCorners(pts, w, h, hull, mid, fuel, allowed);
  }

  /**
   * The program's global state: the window size, the points to triangulate, the hull edges
   * and the triangles.
   */
  class Triangulator {
    var w: int
    var h: int
    var points: seq<Point>
    var edges: seq<Edge>
    var tris: seq<Tri>

    /** Every stored point lies in the window. */
    predicate Valid()
      reads this
    {
      AllInWindow(points, w, h)
    }

    /** A window of the given size holding the given points, with no edges or triangles yet. */
    constructor(w: int, h: int, points: seq<Point>)
      requires AllInWindow(points, w, h)
      ensures Valid()
      ensures this.w == w && this.h == h && this.points == points && edges == [] && tris == []
    {
      this.w, this.h, this.points := w, h, points;
      edges, tris := [], [];
    }

    /** convex_hull: append the hull of the stored points to the stored edges. */
    method ConvexHull()
      requires Valid()
      modifies this`edges
      ensures edges == old(edges) + QuickHull.HullOf(points, w)
    {
      var added := QuickHull.ConvexHull(points, w);
      edges := edges + added;
    }

    /**
     * trisect: scan the stored points for ones that split t, trisecting t around each of
     * them in turn, and append t itself when there is none. `fuel` bounds the depth of the
     * nested calls; a call with no fuel left appends nothing.
     */
    method Trisect(t: Tri, fuel: nat)
      modifies this`tris
      ensures tris == old(tris) + Trisected(points, w, h, t, fuel)
      decreases fuel, 2
    {
      if fuel == 0 {
        return;
      }
      var xMax, xMin, yMax, yMin := -1, w, -1, h;
      xMax := Max(t.p1.x, xMax);
      xMax := Max(t.p2.x, xMax);
      xMax := Max(t.p3.x, xMax);
      yMax := Max(t.p1.y, yMax);
      yMax := Max(t.p2.y, yMax);
      yMax := Max(t.p3.y, yMax);
      xMin := Min(t.p1.x, xMin);
      xMin := Min(t.p2.x, xMin);
      xMin := Min(t.p3.x, xMin);
      yMin := Min(t.p1.y, yMin);
      yMin := Min(t.p2.y, yMin);
      yMin := Min(t.p3.y, yMin);
      var box := Box(xMin, xMax, yMin, yMax);
      assert box == BoxOf(t, w, h);

      var pFound := false;
      ghost var start := tris;
      for i := 0 to |points|
        invariant tris == start + SplitsUpTo(points, w, h, t, fuel, i)
        invariant pFound <==> SplitsBefore(points, t, w, h, i)
      {
        ghost var before := tris;
        var found := TrisectAt(t, points[i], box, fuel);
        pFound := pFound || found;
        ScanStepTris(points, w, h, t, fuel, i, start, before, tris);
        ScanStep(points, w, h, t, fuel, i);
      }
      if !pFound {
        tris := tris + [t];
      }
    }

    /**
     * The body of trisect's scan for one point p: the three nested tests (not a corner of t,
     * inside the box, inside t) and, when all pass, the three trisections around p.
     */
    method TrisectAt(t: Tri, p: Point, box: Box, fuel: nat) returns (found: bool)
      requires fuel >= 1 && box == BoxOf(t, w, h)
      modifies this`tris
      ensures found == Splits(p, t, w, h)
      ensures tris == old(tris) + if found then Around(points, w, h, t, p, fuel - 1) else []
      decreases fuel, 1
    {
      found := false;
      SplitTests(p, t, w, h, box.xMin, box.xMax, box.yMin, box.yMax);
      if !((p.x == t.p1.x && p.y == t.p1.y) || (p.x == t.p2.x && p.y == t.p2.y) || (p.x == t.p3.x && p.y == t.p3.y)) {
        if p.x >= box.xMin && p.x <= box.xMax && p.y >= box.yMin && p.y <= box.yMax {
          if PointInTriangle(p, t) {
            found := true;
            TrisectAround(t, p, fuel - 1);
          }
        }
      }
    }

    method TrisectAround(t: Tri, p: Point, fuel: nat)
      modifies this`tris
      ensures tris == old(tris) + Around(points, w, h, t, p, fuel)
      decreases fuel, 3
    {
      ghost var s0 := tris;
      Trisect(Tri(t.p1, t.p2, p), fuel);
      Trisect(Tri(t.p2, t.p3, p), fuel);
      Trisect(Tri(t.p3, t.p1, p), fuel);
      AppendThree(s0, Trisected(points, w, h, Tri(t.p1, t.p2, p), fuel),
        Trisected(points, w, h, Tri(t.p2, t.p3, p), fuel), Trisected(points, w, h, Tri(t.p3, t.p1, p), fuel));
    }

    /**
     * tri_cleanup: compare a working copy of every stored triangle with a fresh copy of every
     * stored triangle and count the flips. The stored triangles are not changed.
     */
    method TriCleanup() returns (cleaned: nat)
      ensures cleaned == MeshCleanup.CleanupFlips(tris, tris)
    {
      cleaned := 0;
      for i := 0 to |tris|
        invariant cleaned == MeshCleanup.CleanupFlips(tris[..i], tris)
      {
        var t1 := tris[i];
        for j := 0 to |tris|
          invariant t1 == MeshCleanup.RowFlips(tris[i], tris[..j]).0
          invariant cleaned == MeshCleanup.CleanupFlips(tris[..i], tris) + MeshCleanup.RowFlips(tris[i], tris[..j]).1
        {
          var t2 := tris[j];
          assert tris[..j + 1][..j] == tris[..j];
          var flipped, r1, r2 := MeshCleanup.CheckSharedEdge(t1, t2);
          t1 := r1; // the replacement of t2 is dropped along with the copy
          if flipped {
            cleaned := cleaned + 1;
          }
        }
        assert tris[..|tris|] == tris;
        assert tris[..i + 1][..i] == tris[..i];
      }
      assert tris[..|tris|] == tris;
    }

    /**
     * The anchor search of triangulation: the first point closest to the window's centre
     * among those that are not endpoints of a stored edge, or else the first edge's start.
     */
    method FindAnchor() returns (mid: Point)
      requires |edges| >= 1
      ensures mid == Anchor(points, edges, w, h)
    {
      var c := Point(w / 2, h / 2);
      var best: Option<(Point, nat)> := None;
      for i := 0 to |points|
        invariant best == Nearest(points[..i], edges, c)
      {
        var p := points[i];
        assert points[..i + 1][..i] == points[..i];
        if !OnEdge(p, edges) {
          var d := Pythagorean(p, c);
          if best.None? || d < best.value.1 {
            best := Some((p, d));
          }
        }
      }
      assert points[..|points|] == points;
      mid := if best.None? then edges[0].p1 else best.value.0;
    }

    /** The fan of triangulation: trisect the triangle from every stored edge to mid, in edge order. */
    method FanOut(mid: Point, fuel: nat)
      modifies this`tris
      ensures tris == old(tris) + Fan(points, w, h, edges, mid, fuel)
    {
      for i := 0 to |edges|
        invariant tris == old(tris) + Fan(points, w, h, edges[..i], mid, fuel)
      {
        var e := edges[i];
        assert edges[..i + 1][..i] == edges[..i];
        Trisect(Tri(e.p1, e.p2, mid), fuel);
      }
      assert edges[..|edges|] == edges;
    }

    /**
     * triangulation: with at least three points, clear the triangles, append the hull to the
     * edges, pick the anchor, fan-and-trisect every edge to it, clear the points and the
     * edges, and run the cleanup (whose flip count is returned). With fewer points nothing
     * happens.
     */
    method Triangulation(fuel: nat) returns (cleaned: nat)
      requires Valid()
      modifies this
      ensures w == old(w) && h == old(h) && Valid()
      ensures |old(points)| < 3 ==>
        points == old(points) && edges == old(edges) && tris == old(tris) && cleaned == 0
      ensures |old(points)| >= 3 ==>
        points == [] && edges == [] && tris == Triangulated(old(points), old(edges), w, h, fuel) &&
        cleaned == MeshCleanup.CleanupFlips(tris, tris)
    {
      if |points| < 3 {
        return 0;
      }
      ghost var pts0, edges0 := points, edges;
      tris := [];
      ConvexHull();
      assert edges == FanEdges(pts0, edges0, w);
      var mid := FindAnchor();
      FanOut(mid, fuel);
      assert tris == Triangulated(pts0, edges0, w, h, fuel);
      points := [];
      edges := [];
      cleaned := TriCleanup();
    }
  }
}
