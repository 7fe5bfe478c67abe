/**
 * QuickHull as both programs run it: seed with the first point of least x and the first of
 * greatest x, and for each directed segment p1 -> p2 either emit it as a hull edge (no point
 * lies strictly to its left) or split it at the first point strictly farthest to its left.
 *
 * The recursion terminates because of a geometric invariant, carried in ghost parameters:
 * each endpoint p of the current segment has a supporting direction n with every point q of
 * the set satisfying n . (q - p) >= 0. Without it the split can cycle (a segment from an
 * interior point rotates around it forever), so the invariant is what makes the set of points
 * strictly left of the segment shrink on every recursive call.
 */
module QuickHull {
  import opened Geometry

  // ---------------------------------------------------------------------------------------
  // Sign and polynomial facts over plain integers
  // ---------------------------------------------------------------------------------------

  function Dot(ux: int, uy: int, vx: int, vy: int): int
  {
    ux * vx + uy * vy
  }

  /** The sign of a product from the signs of its factors. */
  lemma ProductSigns(a: int, b: int)
    ensures a > 0 && b > 0 ==> a * b > 0
    ensures a >= 0 && b >= 0 ==> a * b >= 0
    ensures a > 0 && b < 0 ==> a * b < 0
    ensures a <= 0 && b >= 0 ==> a * b <= 0
  {
  }

  /** A nonzero square is positive. */
  lemma SquarePositive(a: int)
    ensures a * a >= 0
    ensures a != 0 ==> a * a > 0
  {
    if a < 0 {
      assert a * a == (-a) * (-a);
      ProductSigns(-a, -a);
    } else {
      ProductSigns(a, a);
    }
  }

  /** Writes w in the basis u, v: cross(u, v) w = cross(w, v) u + cross(u, w) v, dotted with n. */
  lemma BasisIdentity(ux: int, uy: int, vx: int, vy: int, wx: int, wy: int, nx: int, ny: int)
    ensures Cross(ux, uy, vx, vy) * Dot(nx, ny, wx, wy)
         == Cross(wx, wy, vx, vy) * Dot(nx, ny, ux, uy) + Cross(ux, uy, wx, wy) * Dot(nx, ny, vx, vy)
  {
  }

  /** Writes n in the basis u, u-rotated-left, dotted with v. */
  lemma NormalIdentity(ux: int, uy: int, vx: int, vy: int, nx: int, ny: int)
    ensures Dot(ux, uy, ux, uy) * Dot(nx, ny, vx, vy)
         == Dot(nx, ny, ux, uy) * Dot(ux, uy, vx, vy) + Cross(ux, uy, nx, ny) * Cross(ux, uy, vx, vy)
  {
  }

  /**
   * A direction n orthogonal to u and strictly to its right is strictly negative on every
   * v that turns strictly left of u.
   */
  lemma {:induction false} RightNormalNegative(ux: int, uy: int, vx: int, vy: int, nx: int, ny: int)
    ensures Cross(ux, uy, vx, vy) > 0 && Dot(nx, ny, ux, uy) == 0 && Cross(ux, uy, nx, ny) < 0
      ==> Dot(nx, ny, vx, vy) < 0
  {
    NormalIdentity(ux, uy, vx, vy, nx, ny);
    ProductSigns(Cross(ux, uy, vx, vy), Cross(ux, uy, nx, ny));
    SquarePositive(ux);
    SquarePositive(uy);
    ProductSigns(Dot(ux, uy, ux, uy), Dot(nx, ny, vx, vy));
  }

  /**
   * The wedge behind a supported point is empty: when v turns strictly left of u and w
   * strictly left of v, and n is nonnegative on u, v and w (strictly positive on u, or
   * strictly to the right of u), then w also turns strictly left of u.
   */
  lemma {:induction false} WedgeLeft(ux: int, uy: int, vx: int, vy: int, wx: int, wy: int, nx: int, ny: int)
    requires Cross(ux, uy, vx, vy) > 0
    requires Cross(vx, vy, wx, wy) > 0
    requires Dot(nx, ny, wx, wy) >= 0 && Dot(nx, ny, ux, uy) >= 0 && Dot(nx, ny, vx, vy) >= 0
    requires Dot(nx, ny, ux, uy) > 0 || Cross(ux, uy, nx, ny) < 0
    ensures Cross(ux, uy, wx, wy) > 0
  {
    BasisIdentity(ux, uy, vx, vy, wx, wy, nx, ny);
    RightNormalNegative(ux, uy, vx, vy, nx, ny);
    ProductSigns(Cross(ux, uy, vx, vy), Dot(nx, ny, wx, wy));
    ProductSigns(Cross(vx, vy, wx, wy), Dot(nx, ny, ux, uy));
    ProductSigns(-Cross(ux, uy, wx, wy), Dot(nx, ny, vx, vy));
    assert Cross(wx, wy, vx, vy) == -Cross(vx, vy, wx, wy);
  }

  /**
   * Turning from u to v (strictly left) keeps a support direction usable for the new
   * segment: n is strictly positive on v or strictly to the right of v.
   */
  lemma {:induction false} TurnKeepsSupport(ux: int, uy: int, vx: int, vy: int, nx: int, ny: int)
    requires Cross(ux, uy, vx, vy) > 0
    requires Dot(nx, ny, ux, uy) >= 0 && Dot(nx, ny, vx, vy) >= 0
    requires Dot(nx, ny, ux, uy) > 0 || Cross(ux, uy, nx, ny) < 0
    ensures Dot(nx, ny, vx, vy) > 0 || Cross(vx, vy, nx, ny) < 0
  {
    NormalIdentity(vx, vy, ux, uy, nx, ny);
    assert Cross(vx, vy, ux, uy) == -Cross(ux, uy, vx, vy);
    RightNormalNegative(ux, uy, vx, vy, nx, ny);
    ProductSigns(Cross(vx, vy, nx, ny), Cross(ux, uy, vx, vy));
    SquarePositive(vx);
    SquarePositive(vy);
    ProductSigns(Dot(vx, vy, vx, vy), Dot(nx, ny, ux, uy));
  }

  // ---------------------------------------------------------------------------------------
  // The farthest-point scan
  // ---------------------------------------------------------------------------------------

  /**
   * The scan of quick_hull over S for the segment p1 -> p2: skipping p1 and p2, keep the
   * first point whose line value strictly exceeds the best so far, starting from the point
   * (0, 0) with value 0. The result pairs that point with its value.
   */
  function Farthest(S: seq<Point>, p1: Point, p2: Point): (r: (Point, int))
    ensures r.1 >= 0
    ensures r.1 > 0 ==> r.0 in S && r.0 != p1 && r.0 != p2 && Dist(p1, p2, r.0) == r.1
  {
    if |S| == 0 then (Point(0, 0), 0)
    else
      var r := Farthest(S[..|S| - 1], p1, p2);
      var q := S[|S| - 1];
      if q != p1 && q != p2 && Dist(p1, p2, q) > r.1 then (q, Dist(p1, p2, q)) else r
  }

  /**
   * The scan finds nothing exactly when no point of S other than p1 and p2 lies strictly
   * left of p1 -> p2, and what it finds is at least as far left as every such point.
   */
  lemma {:induction false} FarthestSpec(S: seq<Point>, p1: Point, p2: Point)
    ensures var r := Farthest(S, p1, p2);
      (r.1 == 0 <==> forall q :: q in S && q != p1 && q != p2 ==> Dist(p1, p2, q) <= 0) &&
      forall q :: q in S && q != p1 && q != p2 ==> Dist(p1, p2, q) <= r.1
  {
    if |S| > 0 {
      var init, q := S[..|S| - 1], S[|S| - 1];
      FarthestSpec(init, p1, p2);
      assert S == init + [q];
    }
  }

  /** The point kept by the scan is the first one attaining the maximum. */
  lemma {:induction false} FarthestIsFirst(S: seq<Point>, p1: Point, p2: Point)
    requires Farthest(S, p1, p2).1 > 0
    ensures var (m, d) := Farthest(S, p1, p2);
      exists k :: 0 <= k < |S| && S[k] == m &&
        forall j :: 0 <= j < k && S[j] != p1 && S[j] != p2 ==> Dist(p1, p2, S[j]) < d
  {
    var init := S[..|S| - 1];
    var r := Farthest(init, p1, p2);
    var q := S[|S| - 1];
    var (m, d) := Farthest(S, p1, p2);
    if q != p1 && q != p2 && Dist(p1, p2, q) > r.1 {
      FarthestSpec(init, p1, p2);
      forall j | 0 <= j < |S| - 1 && S[j] != p1 && S[j] != p2
        ensures Dist(p1, p2, S[j]) < d
      {
        assert S[j] == init[j];
      }
      assert S[|S| - 1] == m;
    } else {
      FarthestIsFirst(init, p1, p2);
      var k :| 0 <= k < |init| && init[k] == m &&
        forall j :: 0 <= j < k && init[j] != p1 && init[j] != p2 ==> Dist(p1, p2, init[j]) < d;
      assert S[k] == m;
      forall j | 0 <= j < k && S[j] != p1 && S[j] != p2
        ensures Dist(p1, p2, S[j]) < d
      {
        assert S[j] == init[j];
      }
    }
  }

  /** When the scan finds a point, it bounds the line value of every point of S, p1 and p2 included. */
  lemma {:induction false} FarthestBoundsAll(S: seq<Point>, p1: Point, p2: Point)
    requires Farthest(S, p1, p2).1 > 0
    ensures var (m, d) := Farthest(S, p1, p2);
      m in S && Dist(p1, p2, m) == d && forall q :: q in S ==> Dist(p1, p2, q) <= d
  {
    FarthestSpec(S, p1, p2);
    DistEndpoints(p1, p2);
  }

  /** When the scan finds nothing, no point of S lies strictly left of p1 -> p2. */
  lemma {:induction false} FarthestNoneAbove(S: seq<Point>, p1: Point, p2: Point)
    ensures Farthest(S, p1, p2).1 == 0 <==> Above(S, p1, p2) == {}
  {
    FarthestSpec(S, p1, p2);
    DistEndpoints(p1, p2);
    if Farthest(S, p1, p2).1 != 0 {
      assert Farthest(S, p1, p2).0 in Above(S, p1, p2);
    }
  }

  /** A proper subset is strictly smaller. */
  lemma {:induction false} ProperSubsetSmaller<T>(a: set<T>, b: set<T>)
    requires a < b
    ensures |a| < |b|
  {
    assert exists y :: y in b && y !in a;
    var x :| x in b && x !in a;
    assert a <= b - {x};
    SubsetNoLarger(a, b - {x});
  }

  /** A subset is no larger. */
  lemma {:induction false} SubsetNoLarger<T>(a: set<T>, b: set<T>)
    requires a <= b
    ensures |a| <= |b|
    decreases |b|
  {
    if a != {} {
      var x :| x in a;
      SubsetNoLarger(a - {x}, b - {x});
    }
  }

  // ---------------------------------------------------------------------------------------
  // The invariant of a recursive call
  // ---------------------------------------------------------------------------------------

  /**
   * Integer multiplication, written as repeated addition. The support directions below are
   * stated with it so that the solver treats their products as opaque and expands them
   * only where a proof asks for it (through MulIsProduct).
   */
  function Mul(a: int, b: int): int
    decreases if a < 0 then -a else a
  {
    if a == 0 then 0
    else if a > 0 then Mul(a - 1, b) + b
    else Mul(a + 1, b) - b
  }

  lemma {:induction false} MulIsProduct(a: int, b: int)
    ensures Mul(a, b) == a * b
    decreases if a < 0 then -a else a
  {
    if a > 0 {
      MulIsProduct(a - 1, b);
    } else if a < 0 {
      MulIsProduct(a + 1, b);
    }
  }

  /** n . (q - p) */
  function DotFrom(n: Point, p: Point, q: Point): int
  {
    Mul(n.x, q.x - p.x) + Mul(n.y, q.y - p.y)
  }

  /** cross(q - p, n): negative when n points to the right of p -> q. */
  function TurnFrom(p: Point, q: Point, n: Point): int
  {
    Mul(q.x - p.x, n.y) - Mul(q.y - p.y, n.x)
  }

  lemma {:induction false} DotFromValue(n: Point, p: Point, q: Point)
    ensures DotFrom(n, p, q) == Dot(n.x, n.y, q.x - p.x, q.y - p.y)
  {
    MulIsProduct(n.x, q.x - p.x);
    MulIsProduct(n.y, q.y - p.y);
  }

  lemma {:induction false} TurnFromValue(p: Point, q: Point, n: Point)
    ensures TurnFrom(p, q, n) == Cross(q.x - p.x, q.y - p.y, n.x, n.y)
  {
    MulIsProduct(q.x - p.x, n.y);
    MulIsProduct(q.y - p.y, n.x);
  }

  /** Every point of S lies on the closed side of the line through p that n points into. */
  predicate Supports(S: seq<Point>, p: Point, n: Point)
  {
    forall q :: q in S ==> DotFrom(n, p, q) >= 0
  }

  /** The support direction at the start of p1 -> p2 leans forward or to the right of it. */
  predicate LeansAtStart(p1: Point, p2: Point, n1: Point)
  {
    p1 == p2 || DotFrom(n1, p1, p2) > 0 || TurnFrom(p1, p2, n1) < 0
  }

  /** The support direction at the end of p1 -> p2 leans backward or to the right of it. */
  predicate LeansAtEnd(p1: Point, p2: Point, n2: Point)
  {
    p1 == p2 || DotFrom(n2, p2, p1) > 0 || TurnFrom(p2, p1, n2) > 0
  }

  /**
   * What holds of every call quick_hull(p1, p2) the programs make: both endpoints are
   * points of S and each has a supporting direction that leans the right way.
   */
  predicate HullCall(S: seq<Point>, p1: Point, p2: Point, n1: Point, n2: Point)
  {
    p1 in S && p2 in S && Supports(S, p1, n1) && Supports(S, p2, n2) &&
    LeansAtStart(p1, p2, n1) && LeansAtEnd(p1, p2, n2)
  }

  /** The points of S strictly to the left of p1 -> p2: what is left to wrap. */
  function Above(S: seq<Point>, p1: Point, p2: Point): set<Point>
  {
    set q | q in S && Dist(p1, p2, q) > 0
  }

  /** The support direction given to the split point: perpendicular to p1 -> p2, pointing right. */
  function SplitNormal(p1: Point, p2: Point): Point
  {
    Point(p2.y - p1.y, p1.x - p2.x)
  }

  /** The split point is farthest from p1 -> p2, so the line parallel to it through it supports S. */
  lemma SplitNormalValue(p1: Point, p2: Point, m: Point, q: Point)
    ensures DotFrom(SplitNormal(p1, p2), m, q) == Dist(p1, p2, m) - Dist(p1, p2, q)
  {
    DotFromValue(SplitNormal(p1, p2), m, q);
  }

  /** Every point strictly left of p1 -> m was already strictly left of p1 -> p2. */
  lemma {:induction false} LeftPartShrinks(S: seq<Point>, p1: Point, p2: Point, n1: Point, n2: Point, m: Point, q: Point)
    requires HullCall(S, p1, p2, n1, n2)
    requires m in S && Dist(p1, p2, m) > 0
    requires q in S && Dist(p1, m, q) > 0
    ensures Dist(p1, p2, q) > 0
  {
    DistDegenerate(p1, m);
    assert p1 != p2;
    assert DotFrom(n1, p1, p2) >= 0 && DotFrom(n1, p1, m) >= 0 && DotFrom(n1, p1, q) >= 0;
    LeftWedge(p1, p2, n1, m, q);
  }

  /** The wedge argument of the left part, seen from p1. */
  lemma {:induction false} LeftWedge(p1: Point, p2: Point, n1: Point, m: Point, q: Point)
    requires Dist(p1, p2, m) > 0 && Dist(p1, m, q) > 0
    requires DotFrom(n1, p1, p2) >= 0 && DotFrom(n1, p1, m) >= 0 && DotFrom(n1, p1, q) >= 0
    requires DotFrom(n1, p1, p2) > 0 || TurnFrom(p1, p2, n1) < 0
    ensures Dist(p1, p2, q) > 0
  {
    DotFromValue(n1, p1, p2);
    DotFromValue(n1, p1, m);
    DotFromValue(n1, p1, q);
    TurnFromValue(p1, p2, n1);
    WedgeLeft(p2.x - p1.x, p2.y - p1.y, m.x - p1.x, m.y - p1.y, q.x - p1.x, q.y - p1.y, n1.x, n1.y);
  }

  /**
   * The mirror image (x, y) -> (x, -y) of the vectors from c to a and from c to b turns the
   * same way as b -> c -> a does in the original.
   */
  lemma MirrorCross(a: Point, b: Point, c: Point)
    ensures Cross(a.x - c.x, -(a.y - c.y), b.x - c.x, -(b.y - c.y)) == Dist(a, c, b)
  {
  }

  /** Mirroring both a direction and a vector keeps their dot product. */
  lemma MirrorDot(n: Point, c: Point, a: Point)
    ensures Dot(n.x, -n.y, a.x - c.x, -(a.y - c.y)) == DotFrom(n, c, a)
  {
    DotFromValue(n, c, a);
  }

  /** Mirroring both a vector and a direction negates their cross product. */
  lemma MirrorCrossNormal(a: Point, c: Point, n: Point)
    ensures Cross(a.x - c.x, -(a.y - c.y), n.x, -n.y) == -TurnFrom(c, a, n)
  {
    TurnFromValue(c, a, n);
  }

  /** Every point strictly left of m -> p2 was already strictly left of p1 -> p2. */
  lemma {:induction false} RightPartShrinks(S: seq<Point>, p1: Point, p2: Point, n1: Point, n2: Point, m: Point, q: Point)
    requires HullCall(S, p1, p2, n1, n2)
    requires m in S && Dist(p1, p2, m) > 0
    requires q in S && Dist(m, p2, q) > 0
    ensures Dist(p1, p2, q) > 0
  {
    DistDegenerate(p1, m);
    assert p1 != p2;
    assert DotFrom(n2, p2, p1) >= 0 && DotFrom(n2, p2, m) >= 0 && DotFrom(n2, p2, q) >= 0;
    RightWedge(p1, p2, n2, m, q);
  }

  /** The wedge argument of the right part, seen from p2 through the mirror image of the left part. */
  lemma {:induction false} RightWedge(p1: Point, p2: Point, n2: Point, m: Point, q: Point)
    requires Dist(p1, p2, m) > 0 && Dist(m, p2, q) > 0
    requires DotFrom(n2, p2, p1) >= 0 && DotFrom(n2, p2, m) >= 0 && DotFrom(n2, p2, q) >= 0
    requires DotFrom(n2, p2, p1) > 0 || TurnFrom(p2, p1, n2) > 0
    ensures Dist(p1, p2, q) > 0
  {
    MirrorCross(p1, m, p2);
    MirrorCross(m, q, p2);
    MirrorCross(p1, q, p2);
    DistRotate(m, p2, q);
    MirrorDot(n2, p2, p1);
    MirrorDot(n2, p2, m);
    MirrorDot(n2, p2, q);
    MirrorCrossNormal(p1, p2, n2);
    DistEndpoints(p1, p2);
    WedgeLeft(p1.x - p2.x, -(p1.y - p2.y), m.x - p2.x, -(m.y - p2.y), q.x - p2.x, -(q.y - p2.y), n2.x, -n2.y);
  }

  /** The split point is supported by the direction perpendicular to p1 -> p2. */
  lemma {:induction false} SplitPointSupported(S: seq<Point>, p1: Point, p2: Point, m: Point)
    requires forall q :: q in S ==> Dist(p1, p2, q) <= Dist(p1, p2, m)
    ensures Supports(S, m, SplitNormal(p1, p2))
  {
    forall q | q in S
      ensures DotFrom(SplitNormal(p1, p2), m, q) >= 0
    {
      SplitNormalValue(p1, p2, m, q);
    }
  }

  /** The support direction at p1 still leans the right way on the shorter segment p1 -> m. */
  lemma {:induction false} StartStillLeans(p1: Point, p2: Point, n1: Point, m: Point)
    requires DotFrom(n1, p1, p2) >= 0 && DotFrom(n1, p1, m) >= 0
    requires LeansAtStart(p1, p2, n1)
    requires Dist(p1, p2, m) > 0
    ensures LeansAtStart(p1, m, n1)
  {
    DistDegenerate(p1, m);
    DotFromValue(n1, p1, p2);
    DotFromValue(n1, p1, m);
    TurnFromValue(p1, p2, n1);
    TurnFromValue(p1, m, n1);
    TurnKeepsSupport(p2.x - p1.x, p2.y - p1.y, m.x - p1.x, m.y - p1.y, n1.x, n1.y);
  }

  /** The support direction at p2 still leans the right way on the shorter segment m -> p2. */
  lemma {:induction false} EndStillLeans(p1: Point, p2: Point, n2: Point, m: Point)
    requires DotFrom(n2, p2, p1) >= 0 && DotFrom(n2, p2, m) >= 0
    requires LeansAtEnd(p1, p2, n2)
    requires Dist(p1, p2, m) > 0
    ensures LeansAtEnd(m, p2, n2)
  {
    DistSwap(p1, p2, m);
    DistSwap(p2, p1, m);
    DistDegenerate(p2, m);
    MirrorCross(p1, m, p2);
    MirrorDot(n2, p2, p1);
    MirrorDot(n2, p2, m);
    MirrorCrossNormal(p1, p2, n2);
    MirrorCrossNormal(m, p2, n2);
    TurnKeepsSupport(p1.x - p2.x, -(p1.y - p2.y), m.x - p2.x, -(m.y - p2.y), n2.x, -n2.y);
  }

  /** The new direction at the split point leans the right way on both halves. */
  lemma {:induction false} SplitNormalLeans(p1: Point, p2: Point, m: Point)
    requires Dist(p1, p2, m) > 0
    ensures LeansAtEnd(p1, m, SplitNormal(p1, p2))
    ensures LeansAtStart(m, p2, SplitNormal(p1, p2))
  {
    DistEndpoints(p1, p2);
    SplitNormalValue(p1, p2, m, p1);
    SplitNormalValue(p1, p2, m, p2);
  }

  /** The call quick_hull(p1, m) made at a split satisfies the invariant. */
  lemma {:induction false} LeftCall(S: seq<Point>, p1: Point, p2: Point, n1: Point, n2: Point, m: Point)
    requires HullCall(S, p1, p2, n1, n2)
    requires m in S && Dist(p1, p2, m) > 0
    requires forall q :: q in S ==> Dist(p1, p2, q) <= Dist(p1, p2, m)
    ensures HullCall(S, p1, m, n1, SplitNormal(p1, p2))
  {
    SplitPointSupported(S, p1, p2, m);
    StartStillLeans(p1, p2, n1, m);
    SplitNormalLeans(p1, p2, m);
  }

  /** The call quick_hull(m, p2) made at a split satisfies the invariant. */
  lemma {:induction false} RightCall(S: seq<Point>, p1: Point, p2: Point, n1: Point, n2: Point, m: Point)
    requires HullCall(S, p1, p2, n1, n2)
    requires m in S && Dist(p1, p2, m) > 0
    requires forall q :: q in S ==> Dist(p1, p2, q) <= Dist(p1, p2, m)
    ensures HullCall(S, m, p2, SplitNormal(p1, p2), n2)
  {
    SplitPointSupported(S, p1, p2, m);
    EndStillLeans(p1, p2, n2, m);
    SplitNormalLeans(p1, p2, m);
  }

  /**
   * Splitting p1 -> p2 at a farthest point m strictly to its left gives two calls that
   * satisfy the invariant again, each with strictly fewer points left to wrap.
   */
  lemma {:induction false} SplitKeepsInvariant(S: seq<Point>, p1: Point, p2: Point, n1: Point, n2: Point, m: Point)
    requires HullCall(S, p1, p2, n1, n2)
    requires m in S && Dist(p1, p2, m) > 0
    requires forall q :: q in S ==> Dist(p1, p2, q) <= Dist(p1, p2, m)
    ensures HullCall(S, p1, m, n1, SplitNormal(p1, p2))
    ensures HullCall(S, m, p2, SplitNormal(p1, p2), n2)
    ensures Above(S, p1, m) < Above(S, p1, p2)
    ensures Above(S, m, p2) < Above(S, p1, p2)
  {
    LeftCall(S, p1, p2, n1, n2, m);
    RightCall(S, p1, p2, n1, n2, m);
    forall q | q in Above(S, p1, m)
      ensures q in Above(S, p1, p2)
    {
      LeftPartShrinks(S, p1, p2, n1, n2, m, q);
    }
    forall q | q in Above(S, m, p2)
      ensures q in Above(S, p1, p2)
    {
      RightPartShrinks(S, p1, p2, n1, n2, m, q);
    }
    DistEndpoints(p1, m);
    DistEndpoints(m, p2);
    assert m in Above(S, p1, p2) && m !in Above(S, p1, m) && m !in Above(S, m, p2);
  }

  // ---------------------------------------------------------------------------------------
  // quick_hull
  // ---------------------------------------------------------------------------------------

  /**
   * The edges quick_hull(p1, p2) appends, in order: at least one, the first leaving p1 and
   * the last arriving at p2. The support directions n1, n2 only witness termination; the
   * edges do not depend on them.
   */
  function HullEdges(S: seq<Point>, p1: Point, p2: Point, n1: Point, n2: Point): (r: seq<Edge>)
    requires HullCall(S, p1, p2, n1, n2)
    ensures |r| >= 1 && r[0].p1 == p1 && r[|r| - 1].p2 == p2
    decreases |Above(S, p1, p2)|
  {
    var (m, d) := Farthest(S, p1, p2);
    if d == 0 then [Edge(p1, p2)]
    else
      FarthestBoundsAll(S, p1, p2);
      SplitKeepsInvariant(S, p1, p2, n1, n2, m);
      ProperSubsetSmaller(Above(S, p1, m), Above(S, p1, p2));
      ProperSubsetSmaller(Above(S, m, p2), Above(S, p1, p2));
      HullEdges(S, p1, m, n1, SplitNormal(p1, p2)) + HullEdges(S, m, p2, SplitNormal(p1, p2), n2)
  }

  /**
   * The scan loop of quick_hull: the first point of S, other than p1 and p2, whose line
   * value for p1 -> p2 strictly exceeds every earlier one, with that value.
   */
  method ScanFarthest(S: seq<Point>, p1: Point, p2: Point) returns (pMax: Point, maxD: int)
    ensures (pMax, maxD) == Farthest(S, p1, p2)
  {
    var a := p1.y - p2.y;
    var b := p2.x - p1.x;
    var c := p1.x * p2.y - p1.y * p2.x;
    pMax, maxD := Point(0, 0), 0;
    for i := 0 to |S|
      invariant (pMax, maxD) == Farthest(S[..i], p1, p2)
    {
      var p := S[i];
      assert S[..i + 1] == S[..i] + [p];
      if !((p.x == p1.x && p.y == p1.y) || (p.x == p2.x && p.y == p2.y)) {
        var d := a * p.x + b * p.y + c;
        assert d == Dist(p1, p2, p);
        if d > maxD {
          pMax := p;
          maxD := d;
        }
      }
    }
    assert S[..|S|] == S;
  }

  /**
   * quick_hull: scan S for the first point strictly farthest to the left of p1 -> p2; if
   * there is none, p1 -> p2 is a hull edge, otherwise wrap p1 -> pMax and then pMax -> p2.
   */
  method QuickHull(S: seq<Point>, p1: Point, p2: Point, ghost n1: Point, ghost n2: Point)
    returns (added: seq<Edge>)
    requires HullCall(S, p1, p2, n1, n2)
    ensures added == HullEdges(S, p1, p2, n1, n2)
    decreases |Above(S, p1, p2)|
  {
    var pMax, maxD := ScanFarthest(S, p1, p2);
    if maxD == 0 {
      added := [Edge(p1, p2)];
      return;
    }
    ghost var nM := SplitNormal(p1, p2);
    assert HullCall(S, p1, pMax, n1, nM) && HullCall(S, pMax, p2, nM, n2) &&
      |Above(S, p1, pMax)| < |Above(S, p1, p2)| && |Above(S, pMax, p2)| < |Above(S, p1, p2)| &&
      HullEdges(S, p1, p2, n1, n2) == HullEdges(S, p1, pMax, n1, nM) + HullEdges(S, pMax, p2, nM, n2) by {
      HullEdgesSplit(S, p1, p2, n1, n2);
    }
    var left := QuickHull(S, p1, pMax, n1, nM);
    var right := QuickHull(S, pMax, p2, nM, n2);
    added := left + right;
  }

  // ---------------------------------------------------------------------------------------
  // What quick_hull produces
  // ---------------------------------------------------------------------------------------

  /** The edges form one polyline from a to b, each edge starting where the previous one ends. */
  predicate Chain(es: seq<Edge>, a: Point, b: Point)
  {
    |es| >= 1 && es[0].p1 == a && es[|es| - 1].p2 == b &&
    forall i :: 0 <= i < |es| - 1 ==> es[i].p2 == es[i + 1].p1
  }

  /** Every point of S lies on or to the right of every edge: no point is outside. */
  predicate NothingOutside(es: seq<Edge>, S: seq<Point>)
  {
    forall i, q :: 0 <= i < |es| && q in S ==> Dist(es[i].p1, es[i].p2, q) <= 0
  }

  /** Every endpoint of every edge is in the set `corners`. */
  predicate CornersWithin(es: seq<Edge>, corners: set<Point>)
  {
    forall i :: 0 <= i < |es| ==> es[i].p1 in corners && es[i].p2 in corners
  }

  lemma {:induction false} ChainConcat(x: seq<Edge>, y: seq<Edge>, a: Point, b: Point, c: Point)
    requires Chain(x, a, b) && Chain(y, b, c)
    ensures Chain(x + y, a, c)
  {
    var xy := x + y;
    forall i | 0 <= i < |xy| - 1
      ensures xy[i].p2 == xy[i + 1].p1
    {
      if i < |x| - 1 {
        assert xy[i] == x[i] && xy[i + 1] == x[i + 1];
      } else if i == |x| - 1 {
        assert xy[i] == x[i] && xy[i + 1] == y[0];
      } else {
        assert xy[i] == y[i - |x|] && xy[i + 1] == y[i - |x| + 1];
      }
    }
  }

  /** One unfolding of HullEdges at a split, with the facts the recursion relies on. */
  lemma {:induction false} HullEdgesSplit(S: seq<Point>, p1: Point, p2: Point, n1: Point, n2: Point)
    requires HullCall(S, p1, p2, n1, n2)
    requires Farthest(S, p1, p2).1 > 0
    ensures var m, nM := Farthest(S, p1, p2).0, SplitNormal(p1, p2);
      HullCall(S, p1, m, n1, nM) && HullCall(S, m, p2, nM, n2) &&
      |Above(S, p1, m)| < |Above(S, p1, p2)| && |Above(S, m, p2)| < |Above(S, p1, p2)| &&
      m in Above(S, p1, p2) && Above(S, p1, m) <= Above(S, p1, p2) && Above(S, m, p2) <= Above(S, p1, p2) &&
      HullEdges(S, p1, p2, n1, n2) == HullEdges(S, p1, m, n1, nM) + HullEdges(S, m, p2, nM, n2)
  {
    var m := Farthest(S, p1, p2).0;
    FarthestBoundsAll(S, p1, p2);
    SplitKeepsInvariant(S, p1, p2, n1, n2, m);
    ProperSubsetSmaller(Above(S, p1, m), Above(S, p1, p2));
    ProperSubsetSmaller(Above(S, m, p2), Above(S, p1, p2));
  }

  /** quick_hull(p1, p2) produces a polyline from p1 to p2. */
  lemma {:induction false} HullEdgesChain(S: seq<Point>, p1: Point, p2: Point, n1: Point, n2: Point)
    requires HullCall(S, p1, p2, n1, n2)
    ensures Chain(HullEdges(S, p1, p2, n1, n2), p1, p2)
    decreases |Above(S, p1, p2)|
  {
    var (m, d) := Farthest(S, p1, p2);
    if d > 0 {
      HullEdgesSplit(S, p1, p2, n1, n2);
      var nM := SplitNormal(p1, p2);
      HullEdgesChain(S, p1, m, n1, nM);
      HullEdgesChain(S, m, p2, nM, n2);
      ChainConcat(HullEdges(S, p1, m, n1, nM), HullEdges(S, m, p2, nM, n2), p1, m, p2);
    }
  }

  /** Two runs of edges with no point outside make a run with no point outside. */
  lemma NothingOutsideConcat(x: seq<Edge>, y: seq<Edge>, S: seq<Point>)
    requires NothingOutside(x, S) && NothingOutside(y, S)
    ensures NothingOutside(x + y, S)
  {
    var es := x + y;
    forall i, q | 0 <= i < |es| && q in S
      ensures Dist(es[i].p1, es[i].p2, q) <= 0
    {
      if i < |x| { assert es[i] == x[i]; } else { assert es[i] == y[i - |x|]; }
    }
  }

  /** Two runs of edges with corners inside `corners` make such a run. */
  lemma CornersConcat(x: seq<Edge>, y: seq<Edge>, cx: set<Point>, cy: set<Point>, corners: set<Point>)
    requires CornersWithin(x, cx) && CornersWithin(y, cy) && cx <= corners && cy <= corners
    ensures CornersWithin(x + y, corners)
  {
    var es := x + y;
    forall i | 0 <= i < |es|
      ensures es[i].p1 in corners && es[i].p2 in corners
    {
      if i < |x| { assert es[i] == x[i]; } else { assert es[i] == y[i - |x|]; }
    }
  }

  /** quick_hull(p1, p2) leaves no point of S strictly to the left of any edge it appends. */
  lemma {:induction false} HullEdgesInside(S: seq<Point>, p1: Point, p2: Point, n1: Point, n2: Point)
    requires HullCall(S, p1, p2, n1, n2)
    ensures NothingOutside(HullEdges(S, p1, p2, n1, n2), S)
    decreases |Above(S, p1, p2)|
  {
    var (m, d) := Farthest(S, p1, p2);
    if d == 0 {
      FarthestSpec(S, p1, p2);
      DistEndpoints(p1, p2);
      assert HullEdges(S, p1, p2, n1, n2) == [Edge(p1, p2)];
    } else {
      var nM := SplitNormal(p1, p2);
      assert HullCall(S, p1, m, n1, nM) && HullCall(S, m, p2, nM, n2) &&
        |Above(S, p1, m)| < |Above(S, p1, p2)| && |Above(S, m, p2)| < |Above(S, p1, p2)| by {
        HullEdgesSplit(S, p1, p2, n1, n2);
      }
      var left, right := HullEdges(S, p1, m, n1, nM), HullEdges(S, m, p2, nM, n2);
      assert HullEdges(S, p1, p2, n1, n2) == left + right by {
        HullEdgesSplit(S, p1, p2, n1, n2);
      }
      HullEdgesInside(S, p1, m, n1, nM);
      HullEdgesInside(S, m, p2, nM, n2);
      NothingOutsideConcat(left, right, S);
    }
  }

  /**
   * The corners quick_hull(p1, p2) uses are p1, p2 and points strictly to the left of
   * p1 -> p2: a point on the line p1p2 other than its two ends never becomes a corner.
   */
  lemma {:induction false} HullEdgesCorners(S: seq<Point>, p1: Point, p2: Point, n1: Point, n2: Point)
    requires HullCall(S, p1, p2, n1, n2)
    ensures CornersWithin(HullEdges(S, p1, p2, n1, n2), {p1, p2} + Above(S, p1, p2))
    decreases |Above(S, p1, p2)|
  {
    var (m, d) := Farthest(S, p1, p2);
    if d == 0 {
      assert HullEdges(S, p1, p2, n1, n2) == [Edge(p1, p2)];
    } else {
      var nM := SplitNormal(p1, p2);
      assert HullCall(S, p1, m, n1, nM) && HullCall(S, m, p2, nM, n2) &&
        |Above(S, p1, m)| < |Above(S, p1, p2)| && |Above(S, m, p2)| < |Above(S, p1, p2)| &&
        m in Above(S, p1, p2) && Above(S, p1, m) <= Above(S, p1, p2) && Above(S, m, p2) <= Above(S, p1, p2) by {
        HullEdgesSplit(S, p1, p2, n1, n2);
      }
      var left, right := HullEdges(S, p1, m, n1, nM), HullEdges(S, m, p2, nM, n2);
      assert HullEdges(S, p1, p2, n1, n2) == left + right by {
        HullEdgesSplit(S, p1, p2, n1, n2);
      }
      HullEdgesCorners(S, p1, m, n1, nM);
      HullEdgesCorners(S, m, p2, nM, n2);
      CornersConcat(left, right, {p1, m} + Above(S, p1, m), {m, p2} + Above(S, m, p2), {p1, p2} + Above(S, p1, p2));
    }
  }

  /**
   * quick_hull(p1, p2) appends the single edge p1 -> p2 exactly when no point of S lies
   * strictly to its left; and the edge p1 -> p2 is never appended deeper in the recursion.
   */
  lemma {:induction false} HullEdgeDirect(S: seq<Point>, p1: Point, p2: Point, n1: Point, n2: Point)
    requires HullCall(S, p1, p2, n1, n2)
    ensures Above(S, p1, p2) == {} ==> HullEdges(S, p1, p2, n1, n2) == [Edge(p1, p2)]
    ensures Edge(p1, p2) in HullEdges(S, p1, p2, n1, n2) <==> Above(S, p1, p2) == {}
  {
    FarthestNoneAbove(S, p1, p2);
    var es := HullEdges(S, p1, p2, n1, n2);
    HullEdgesInside(S, p1, p2, n1, n2);
    if Edge(p1, p2) in es {
      var i :| 0 <= i < |es| && es[i] == Edge(p1, p2);
      forall q | q in S
        ensures Dist(p1, p2, q) <= 0
      {
        assert Dist(es[i].p1, es[i].p2, q) <= 0;
      }
    }
  }

  // ---------------------------------------------------------------------------------------
  // convex_hull
  // ---------------------------------------------------------------------------------------

  /** The support direction of the least-x seed: everything lies to its right. */
  const East := Point(1, 0)

  /** The support direction of the greatest-x seed: everything lies to its left. */
  const West := Point(-1, 0)

  /** Every point has an x coordinate inside a window of width w. */
  predicate XInWindow(S: seq<Point>, w: int)
  {
    forall i :: 0 <= i < |S| ==> 0 <= S[i].x < w
  }

  /**
   * convex_hull's scan for the first point of least x, starting from a stand-in whose x is
   * the window width (its y is never read).
   */
  function Leftmost(S: seq<Point>, w: int): (r: Point)
    ensures |S| > 0 && XInWindow(S, w) ==> r in S && forall q :: q in S ==> r.x <= q.x
  {
    if |S| == 0 then Point(w, 0)
    else
      var m := Leftmost(S[..|S| - 1], w);
      assert S == S[..|S| - 1] + [S[|S| - 1]];
      if S[|S| - 1].x < m.x then S[|S| - 1] else m
  }

  /** convex_hull's scan for the first point of greatest x, starting from a stand-in with x == -1. */
  function Rightmost(S: seq<Point>, w: int): (r: Point)
    ensures |S| > 0 && XInWindow(S, w) ==> r in S && forall q :: q in S ==> q.x <= r.x
  {
    if |S| == 0 then Point(-1, 0)
    else
      var m := Rightmost(S[..|S| - 1], w);
      assert S == S[..|S| - 1] + [S[|S| - 1]];
      if S[|S| - 1].x > m.x then S[|S| - 1] else m
  }

  /** convex_hull's minPoint is the FIRST point of least x: every earlier point lies further right. */
  lemma {:induction false} LeftmostIsFirst(S: seq<Point>, w: int)
    requires |S| > 0 && XInWindow(S, w)
    ensures exists k :: 0 <= k < |S| && S[k] == Leftmost(S, w) && forall i :: 0 <= i < k ==> S[i].x > S[k].x
  {
    var r := Leftmost(S, w);
    var last := |S| - 1;
    if last > 0 && r == Leftmost(S[..last], w) {
      LeftmostIsFirst(S[..last], w);
      var k :| 0 <= k < last && S[..last][k] == r && forall i :: 0 <= i < k ==> S[..last][i].x > S[..last][k].x;
      assert forall i :: 0 <= i < k ==> S[i] == S[..last][i];
      assert S[k] == r;
    } else {
      forall i | 0 <= i < last
        ensures S[i].x > S[last].x
      {
        assert S[i] == S[..last][i];
      }
      assert S[last] == r;
    }
  }

  /** convex_hull's maxPoint is the FIRST point of greatest x: every earlier point lies further left. */
  lemma {:induction false} RightmostIsFirst(S: seq<Point>, w: int)
    requires |S| > 0 && XInWindow(S, w)
    ensures exists k :: 0 <= k < |S| && S[k] == Rightmost(S, w) && forall i :: 0 <= i < k ==> S[i].x < S[k].x
  {
    var r := Rightmost(S, w);
    var last := |S| - 1;
    if last > 0 && r == Rightmost(S[..last], w) {
      RightmostIsFirst(S[..last], w);
      var k :| 0 <= k < last && S[..last][k] == r && forall i :: 0 <= i < k ==> S[..last][i].x < S[..last][k].x;
      assert forall i :: 0 <= i < k ==> S[i] == S[..last][i];
      assert S[k] == r;
    } else {
      forall i | 0 <= i < last
        ensures S[i].x < S[last].x
      {
        assert S[i] == S[..last][i];
      }
      assert S[last] == r;
    }
  }

  /** When every point has the same x, both scans keep the first point. */
  lemma {:induction false} ScansOfVerticalLine(S: seq<Point>, w: int)
    requires |S| > 0 && XInWindow(S, w)
    requires forall i :: 0 <= i < |S| ==> S[i].x == S[0].x
    ensures Leftmost(S, w) == S[0] && Rightmost(S, w) == S[0]
  {
    if |S| > 1 {
      ScansOfVerticalLine(S[..|S| - 1], w);
    }
  }

  /** The first seed is no further right than the second, and they coincide when level. */
  lemma {:induction false} SeedsOrdered(S: seq<Point>, w: int)
    requires |S| > 0 && XInWindow(S, w)
    ensures Leftmost(S, w) == Rightmost(S, w) || Leftmost(S, w).x < Rightmost(S, w).x
  {
    var lo, hi := Leftmost(S, w), Rightmost(S, w);
    if lo.x == hi.x {
      forall i | 0 <= i < |S|
        ensures S[i].x == S[0].x
      {
        assert lo.x <= S[i].x <= hi.x;
        assert lo.x <= S[0].x <= hi.x;
      }
      ScansOfVerticalLine(S, w);
    }
  }

  /** Against the horizontal directions, dot and cross products reduce to coordinate differences. */
  lemma {:induction false} HorizontalProducts(p: Point, q: Point)
    ensures DotFrom(East, p, q) == q.x - p.x && DotFrom(West, p, q) == p.x - q.x
    ensures TurnFrom(p, q, East) == p.y - q.y && TurnFrom(p, q, West) == q.y - p.y
  {
    DotFromValue(East, p, q);
    DotFromValue(West, p, q);
    TurnFromValue(p, q, East);
    TurnFromValue(p, q, West);
  }

  /**
   * Two points of S with every point of S between them in x, strictly apart in x unless
   * they are the same point, seed both calls with horizontal support directions.
   */
  lemma {:induction false} HorizontalSeeds(S: seq<Point>, lo: Point, hi: Point)
    requires lo in S && hi in S
    requires forall q :: q in S ==> lo.x <= q.x <= hi.x
    requires lo == hi || lo.x < hi.x
    ensures HullCall(S, lo, hi, East, West)
    ensures HullCall(S, hi, lo, West, East)
  {
    forall q | q in S
      ensures DotFrom(East, lo, q) >= 0 && DotFrom(West, hi, q) >= 0
    {
      HorizontalProducts(lo, q);
      HorizontalProducts(hi, q);
    }
    HorizontalProducts(lo, hi);
    HorizontalProducts(hi, lo);
  }

  /** The calls quick_hull(minPoint, maxPoint) and quick_hull(maxPoint, minPoint) satisfy the invariant. */
  lemma {:induction false} SeedCalls(S: seq<Point>, w: int)
    requires |S| > 0 && XInWindow(S, w)
    ensures HullCall(S, Leftmost(S, w), Rightmost(S, w), East, West)
    ensures HullCall(S, Rightmost(S, w), Leftmost(S, w), West, East)
  {
    SeedsOrdered(S, w);
    HorizontalSeeds(S, Leftmost(S, w), Rightmost(S, w));
  }

  /**
   * The edges convex_hull appends: nothing for fewer than three points, otherwise the
   * lower part quick_hull(min, max) followed by the upper part quick_hull(max, min).
   */
  function HullOf(S: seq<Point>, w: int): (r: seq<Edge>)
    requires XInWindow(S, w)
    ensures r == [] <==> |S| < 3
  {
    if |S| < 3 then []
    else
      SeedCalls(S, w);
      var lo, hi := Leftmost(S, w), Rightmost(S, w);
      HullEdges(S, lo, hi, East, West) + HullEdges(S, hi, lo, West, East)
  }

  /** convex_hull: find the two seeds, then wrap both ways between them. */
  method ConvexHull(S: seq<Point>, w: int) returns (added: seq<Edge>)
    requires XInWindow(S, w)
    ensures added == HullOf(S, w)
  {
    if |S| < 3 {
      return [];
    }
    var minPoint := Point(w, 0);
    var maxPoint := Point(-1, 0);
    for i := 0 to |S|
      invariant minPoint == Leftmost(S[..i], w) && maxPoint == Rightmost(S[..i], w)
    {
      var p := S[i];
      assert S[..i + 1][..i] == S[..i];
      if p.x < minPoint.x {
        minPoint := p;
      }
      if p.x > maxPoint.x {
        maxPoint := p;
      }
    }
    assert S[..|S|] == S;
    SeedCalls(S, w);
    var lower := QuickHull(S, minPoint, maxPoint, East, West);
    var upper := QuickHull(S, maxPoint, minPoint, West, East);
    added := lower + upper;
  }

  /** The lower and the upper part of the hull, as convex_hull appends them. */
  lemma {:induction false} HullOfParts(S: seq<Point>, w: int)
    requires XInWindow(S, w) && |S| >= 3
    ensures HullCall(S, Leftmost(S, w), Rightmost(S, w), East, West)
    ensures HullCall(S, Rightmost(S, w), Leftmost(S, w), West, East)
    ensures HullOf(S, w) == HullEdges(S, Leftmost(S, w), Rightmost(S, w), East, West)
                          + HullEdges(S, Rightmost(S, w), Leftmost(S, w), West, East)
  {
    SeedCalls(S, w);
  }

  /** The hull is a closed polyline through the first least-x point. */
  lemma {:induction false} HullOfClosed(S: seq<Point>, w: int)
    requires XInWindow(S, w) && |S| >= 3
    ensures |HullOf(S, w)| >= 2 && Chain(HullOf(S, w), Leftmost(S, w), Leftmost(S, w))
  {
    SeedCalls(S, w);
    HullOfParts(S, w);
    var lo, hi := Leftmost(S, w), Rightmost(S, w);
    HullEdgesChain(S, lo, hi, East, West);
    HullEdgesChain(S, hi, lo, West, East);
    ChainConcat(HullEdges(S, lo, hi, East, West), HullEdges(S, hi, lo, West, East), lo, hi, lo);
  }

  /** No point of S lies strictly outside any hull edge. */
  lemma {:induction false} HullOfInside(S: seq<Point>, w: int)
    requires XInWindow(S, w) && |S| >= 3
    ensures NothingOutside(HullOf(S, w), S)
  {
    SeedCalls(S, w);
    HullOfParts(S, w);
    var lo, hi := Leftmost(S, w), Rightmost(S, w);
    var lower, upper := HullEdges(S, lo, hi, East, West), HullEdges(S, hi, lo, West, East);
    HullEdgesInside(S, lo, hi, East, West);
    HullEdgesInside(S, hi, lo, West, East);
    NothingOutsideConcat(lower, upper, S);
  }

  /** Every hull corner is a point of S. */
  lemma {:induction false} HullOfCorners(S: seq<Point>, w: int)
    requires XInWindow(S, w) && |S| >= 3
    ensures CornersWithin(HullOf(S, w), set q | q in S)
  {
    SeedCalls(S, w);
    HullOfParts(S, w);
    var lo, hi := Leftmost(S, w), Rightmost(S, w);
    var lower, upper := HullEdges(S, lo, hi, East, West), HullEdges(S, hi, lo, West, East);
    HullEdgesCorners(S, lo, hi, East, West);
    HullEdgesCorners(S, hi, lo, West, East);
    CornersConcat(lower, upper, {lo, hi} + Above(S, lo, hi), {hi, lo} + Above(S, hi, lo), set q | q in S);
  }

  /**
   * What convex_hull produces: nothing exactly when there are fewer than three points;
   * otherwise a closed polygon of at least two edges that starts and ends at the first
   * least-x point, whose corners are points of S, and that leaves every point of S on or
   * to the right of every edge.
   */
  lemma {:induction false} HullOfSpec(S: seq<Point>, w: int)
    requires XInWindow(S, w)
    ensures HullOf(S, w) == [] <==> |S| < 3
    ensures |S| >= 3 ==>
      |HullOf(S, w)| >= 2 && Chain(HullOf(S, w), Leftmost(S, w), Leftmost(S, w)) &&
      NothingOutside(HullOf(S, w), S) && CornersWithin(HullOf(S, w), set q | q in S)
  {
    if |S| >= 3 {
      HullOfClosed(S, w);
      HullOfInside(S, w);
      HullOfCorners(S, w);
    }
  }

  /**
   * When every point lies on the line through the two seeds, the hull is that segment
   * walked both ways: the points between them are dropped.
   */
  lemma {:induction false} CollinearHull(S: seq<Point>, w: int)
    requires XInWindow(S, w) && |S| >= 3
    requires forall q :: q in S ==> Dist(Leftmost(S, w), Rightmost(S, w), q) == 0
    ensures HullOf(S, w) == [Edge(Leftmost(S, w), Rightmost(S, w)), Edge(Rightmost(S, w), Leftmost(S, w))]
  {
    SeedCalls(S, w);
    var lo, hi := Leftmost(S, w), Rightmost(S, w);
    forall q | q in S
      ensures Dist(hi, lo, q) == 0
    {
      DistSwap(lo, hi, q);
    }
    assert Above(S, lo, hi) == {};
    assert Above(S, hi, lo) == {};
    HullEdgeDirect(S, lo, hi, East, West);
    HullEdgeDirect(S, hi, lo, West, East);
  }
}
