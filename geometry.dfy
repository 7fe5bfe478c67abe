/**
 * Exact-integer planar primitives shared by the hull, triangulation and peeling code:
 * the point, edge and triangle records, the scaled signed distance of a point from a line,
 * the zero-tolerant sign comparison, the truncated Euclidean length and the
 * point-in-triangle test.
 */
module Geometry {

  /** A point of the window, compared by its coordinates. */
  datatype Point = Point(x: int, y: int)

  /** An edge between two points, kept in the order it was produced. */
  datatype Edge = Edge(p1: Point, p2: Point)

  /** A triangle, kept with its three corners in the order they were given. */
  datatype Tri = Tri(p1: Point, p2: Point, p3: Point)

  /** The corners of a triangle as a set. */
  function Vertices(t: Tri): set<Point>
  {
    {t.p1, t.p2, t.p3}
  }

  /** The endpoints of an edge as a set. */
  function Endpoints(e: Edge): set<Point>
  {
    {e.p1, e.p2}
  }

  /** The point lies inside the w-by-h window. */
  predicate InWindow(p: Point, w: int, h: int)
  {
    0 <= p.x < w && 0 <= p.y < h
  }

  /** Every point of `s` lies inside the w-by-h window. */
  predicate AllInWindow(s: seq<Point>, w: int, h: int)
  {
    forall i :: 0 <= i < |s| ==> InWindow(s[i], w, h)
  }

  /** The cross product of the vectors (ux, uy) and (vx, vy). */
  function Cross(ux: int, uy: int, vx: int, vy: int): int
  {
    ux * vy - uy * vx
  }

  /**
   * The scaled signed distance of p3 from the line through p1 and p2, written with the
   * line coefficients A = y1 - y2, B = x2 - x1, C = x1*y2 - y1*x2. It is the orientation
   * of the turn p1 -> p2 -> p3: positive to the left, negative to the right, zero on the line.
   */
  function Dist(p1: Point, p2: Point, p3: Point): (d: int)
    ensures d == Cross(p2.x - p1.x, p2.y - p1.y, p3.x - p1.x, p3.y - p1.y)
  {
    (p1.y - p2.y) * p3.x + (p2.x - p1.x) * p3.y + (p1.x * p2.y - p1.y * p2.x)
  }

  /** Both endpoints of a line lie on it. */
  lemma {:induction false} DistEndpoints(a: Point, b: Point)
    ensures Dist(a, b, a) == 0 && Dist(a, b, b) == 0
  {
  }

  /** A segment from a point to itself has every point on its line. */
  lemma DistDegenerate(a: Point, q: Point)
    ensures Dist(a, a, q) == 0
  {
  }

  /** Reversing a line flips the sign of every distance from it. */
  lemma DistSwap(a: Point, b: Point, c: Point)
    ensures Dist(b, a, c) == -Dist(a, b, c)
  {
  }

  /** The orientation of three points does not change when they are rotated. */
  lemma DistRotate(a: Point, b: Point, c: Point)
    ensures Dist(a, b, c) == Dist(b, c, a) == Dist(c, a, b)
  {
  }

  /**
   * For any point p, the three distances of p from the directed sides of a triangle add up
   * to the triangle's own orientation value (twice its signed area).
   */
  lemma AreaSplit(a: Point, b: Point, c: Point, p: Point)
    ensures Dist(a, b, p) + Dist(b, c, p) + Dist(c, a, p) == Dist(a, b, c)
  {
  }

  /** Zero counts as having the same sign as anything; only a strict +/- pair differs. */
  function SameSign(a: int, b: int): (r: bool)
    ensures r <==> !((a > 0 && b < 0) || (a < 0 && b > 0))
  {
    if a >= 0 && b >= 0 then true
    else if a <= 0 && b <= 0 then true
    else false
  }

  /** Floor square root by upward search from a root already known to be small enough. */
  function SqrtFrom(n: nat, r: nat): (s: nat)
    requires r * r <= n
    ensures s * s <= n < (s + 1) * (s + 1)
    decreases n - r * r
  {
    if (r + 1) * (r + 1) > n then r else SqrtFrom(n, r + 1)
  }

  /** The integer square root: the largest s with s * s <= n. */
  function FloorSqrt(n: nat): (s: nat)
    ensures s * s <= n < (s + 1) * (s + 1)
  {
    SqrtFrom(n, 0)
  }

  /** The floor square root is the only s with s * s <= n < (s + 1) * (s + 1). */
  lemma {:induction false} FloorSqrtUnique(n: nat, s: nat)
    requires s * s <= n < (s + 1) * (s + 1)
    ensures FloorSqrt(n) == s
  {
    var r := FloorSqrt(n);
    if r < s {
      MulMono(r + 1, s);
      assert false;
    } else if s < r {
      MulMono(s + 1, r);
      assert false;
    }
  }

  /** Squaring is monotone on naturals. */
  lemma MulMono(a: nat, b: nat)
    requires a <= b
    ensures a * a <= b * b
  {
    assert a * a <= a * b;
    assert a * b <= b * b;
  }

  /** A square is never negative. */
  lemma SquareNonneg(a: int)
    ensures a * a >= 0
  {
    if a < 0 {
      assert a * a == (-a) * (-a);
    }
  }

  /** The squared Euclidean distance between two points. */
  function SqLen(p1: Point, p2: Point): (n: nat)
  {
    SquareNonneg(p2.x - p1.x);
    SquareNonneg(p2.y - p1.y);
    (p2.x - p1.x) * (p2.x - p1.x) + (p2.y - p1.y) * (p2.y - p1.y)
  }

  /**
   * The Euclidean distance between two points, truncated to an integer: the floor square
   * root of the squared distance. (For window-sized coordinates the source's floating-point
   * square root followed by truncation gives exactly this value.)
   */
  function Pythagorean(p1: Point, p2: Point): (r: nat)
    ensures r * r <= SqLen(p1, p2) < (r + 1) * (r + 1)
  {
    FloorSqrt(SqLen(p1, p2))
  }

  /** The truncated distance does not depend on the order of its arguments. */
  lemma {:induction false} PythagoreanSymmetric(p: Point, q: Point)
    ensures Pythagorean(p, q) == Pythagorean(q, p)
  {
    assert (q.x - p.x) * (q.x - p.x) == (p.x - q.x) * (p.x - q.x);
    assert (q.y - p.y) * (q.y - p.y) == (p.y - q.y) * (p.y - q.y);
    assert SqLen(p, q) == SqLen(q, p);
  }

  /** The truncated distance is zero exactly between equal points. */
  lemma {:induction false} PythagoreanZero(p: Point, q: Point)
    ensures Pythagorean(p, q) == 0 <==> p == q
  {
    var dx, dy := q.x - p.x, q.y - p.y;
    SquareNonneg(dx);
    SquareNonneg(dy);
    if p != q {
      if dx != 0 {
        if dx < 0 { assert dx * dx == (-dx) * (-dx); MulMono(1, -dx); } else { MulMono(1, dx); }
      } else {
        assert dy != 0;
        if dy < 0 { assert dy * dy == (-dy) * (-dy); MulMono(1, -dy); } else { MulMono(1, dy); }
      }
      assert SqLen(p, q) >= 1;
      assert Pythagorean(p, q) != 0;
    } else {
      assert SqLen(p, q) == 0;
    }
  }

  /**
   * The program's point-in-triangle test: d1, d2, d3 are the distances of p from the
   * directed lines p1p2, p2p3 and p3p1. It rejects p only when d1 and d2, or d1 and d3,
   * are strictly of opposite signs; d2 and d3 are never compared, so a point on the line
   * through p1 and p2 (d1 == 0) is always accepted.
   */
  function PointInTriangle(p: Point, t: Tri): (r: bool)
    ensures r <==>
      var d1, d2, d3 := Dist(t.p1, t.p2, p), Dist(t.p2, t.p3, p), Dist(t.p3, t.p1, p);
      d1 == 0 || (d1 > 0 && d2 >= 0 && d3 >= 0) || (d1 < 0 && d2 <= 0 && d3 <= 0)
  {
    var d1 := Dist(t.p1, t.p2, p);
    var d2 := Dist(t.p2, t.p3, p);
    if (d1 > 0 && d2 < 0) || (d1 < 0 && d2 > 0) then false
    else
      var d3 := Dist(t.p3, t.p1, p);
      if (d1 > 0 && d3 < 0) || (d1 < 0 && d3 > 0) then false
      else true
  }

  /** Each corner of a triangle passes the point-in-triangle test. */
  lemma {:induction false} VerticesInTriangle(t: Tri)
    ensures PointInTriangle(t.p1, t) && PointInTriangle(t.p2, t) && PointInTriangle(t.p3, t)
  {
    DistEndpoints(t.p1, t.p2);
    DistEndpoints(t.p2, t.p3);
    DistEndpoints(t.p3, t.p1);
  }

  /** Every point of the line through the first two corners passes the test. */
  lemma FirstSideLineInTriangle(p: Point, t: Tri)
    requires Dist(t.p1, t.p2, p) == 0
    ensures PointInTriangle(p, t)
  {
  }

  /**
   * The test as the comment beside it describes it and as a triangle that is an unordered
   * set of corners needs it: no two of the three distances are strictly of opposite signs.
   */
  function PointInClosedTriangle(p: Point, t: Tri): (r: bool)
  {
    var d1, d2, d3 := Dist(t.p1, t.p2, p), Dist(t.p2, t.p3, p), Dist(t.p3, t.p1, p);
    SameSign(d1, d2) && SameSign(d1, d3) && SameSign(d2, d3)
  }

  /**
   * The corrected test does not depend on which corner is listed first, and for a
   * counter-clockwise triangle it accepts exactly the points on the inner side of all three
   * sides (the closed triangle).
   */
  lemma {:induction false} PointInClosedTriangleSpec(p: Point, t: Tri)
    ensures PointInClosedTriangle(p, t) == PointInClosedTriangle(p, Tri(t.p2, t.p3, t.p1))
    ensures Dist(t.p1, t.p2, t.p3) > 0 ==>
      (PointInClosedTriangle(p, t) <==>
        Dist(t.p1, t.p2, p) >= 0 && Dist(t.p2, t.p3, p) >= 0 && Dist(t.p3, t.p1, p) >= 0)
  {
    AreaSplit(t.p1, t.p2, t.p3, p);
  }

  /**
   * The program's test depends on the order of the corners: (20,0) lies on the line through
   * (0,0) and (10,0), outside the triangle, and is accepted when the triangle is listed from
   * (0,0) but rejected when the same triangle is listed from (10,0).
   */
  lemma PointInTriangleOrderDependent(p: Point, t: Tri)
    requires p == Point(20, 0) && t == Tri(Point(0, 0), Point(10, 0), Point(0, 10))
    ensures PointInTriangle(p, t)
    ensures !PointInTriangle(p, Tri(t.p2, t.p3, t.p1))
    ensures !PointInClosedTriangle(p, t)
  {
    ExampleOnBaseLine();
    ExampleRightOfHypotenuse();
    ExampleLeftOfLeg();
    OrderDependence(p, t);
  }

  /**
   * Whenever p is on the line of the first side but strictly on opposite sides of the other
   * two, the program's test accepts p, rejects it once the corners are rotated, and the
   * corrected test rejects it.
   */
  lemma OrderDependence(p: Point, t: Tri)
    requires Dist(t.p1, t.p2, p) == 0 && Dist(t.p2, t.p3, p) < 0 && Dist(t.p3, t.p1, p) > 0
    ensures PointInTriangle(p, t)
    ensures !PointInTriangle(p, Tri(t.p2, t.p3, t.p1))
    ensures !PointInClosedTriangle(p, t)
  {
  }

  /** (20,0) lies on the line through (0,0) and (10,0), the first side of the example triangle. */
  lemma ExampleOnBaseLine()
    ensures Dist(Point(0, 0), Point(10, 0), Point(20, 0)) == 0
  {
  }

  /** (20,0) lies to the right of the directed side (10,0) -> (0,10). */
  lemma ExampleRightOfHypotenuse()
    ensures Dist(Point(10, 0), Point(0, 10), Point(20, 0)) == -100
  {
  }

  /** (20,0) lies to the left of the directed side (0,10) -> (0,0). */
  lemma ExampleLeftOfLeg()
    ensures Dist(Point(0, 10), Point(0, 0), Point(20, 0)) == 200
  {
  }

  // ---------------------------------------------------------------------------------------
  // The strict interior, as trisect's comments describe the points it looks for
  // ---------------------------------------------------------------------------------------

  /**
   * p lies strictly inside t: strictly on the same side of all three directed sides, so a
   * point collinear with a side is rejected, and a triangle whose corners are collinear has
   * no inside at all.
   */
  predicate StrictlyInside(p: Point, t: Tri)
  {
    var d1, d2, d3 := Dist(t.p1, t.p2, p), Dist(t.p2, t.p3, p), Dist(t.p3, t.p1, p);
    (d1 > 0 && d2 > 0 && d3 > 0) || (d1 < 0 && d2 < 0 && d3 < 0)
  }

  /** A point strictly inside is accepted by the program's test, and is not a corner. */
  lemma {:induction false} StrictlyInsideAccepted(p: Point, t: Tri)
    requires StrictlyInside(p, t)
    ensures PointInTriangle(p, t) && PointInClosedTriangle(p, t) && p !in Vertices(t)
  {
    DistEndpoints(t.p1, t.p2);
    DistEndpoints(t.p2, t.p3);
  }

  /** The sign of a product from the signs of its factors. */
  lemma ProductSign(a: int, b: int)
    ensures a > 0 && b > 0 ==> a * b > 0
    ensures a < 0 && b < 0 ==> a * b > 0
    ensures a > 0 && b < 0 ==> a * b < 0
    ensures a < 0 && b > 0 ==> a * b < 0
    ensures a > 0 && b <= 0 ==> a * b <= 0
    ensures a < 0 && b >= 0 ==> a * b <= 0
  {
  }

  /** The x coordinate of q, weighted by the area of (a, b, p), from its barycentric weights. */
  lemma BarycentricX(a: Point, b: Point, p: Point, q: Point)
    ensures Dist(a, b, p) * q.x == Dist(b, p, q) * a.x + Dist(p, a, q) * b.x + Dist(a, b, q) * p.x
  {
  }

  /** The y coordinate of q, weighted by the area of (a, b, p), from its barycentric weights. */
  lemma BarycentricY(a: Point, b: Point, p: Point, q: Point)
    ensures Dist(a, b, p) * q.y == Dist(b, p, q) * a.y + Dist(p, a, q) * b.y + Dist(a, b, q) * p.y
  {
  }

  /** An affine function A x + B y + C respects weighted sums whose weights add up to d. */
  lemma {:induction false} AffineCombination(A: int, B: int, C: int, d: int, wa: int, wb: int, wp: int, q: Point, a: Point, b: Point, p: Point)
    requires d * q.x == wa * a.x + wb * b.x + wp * p.x
    requires d * q.y == wa * a.y + wb * b.y + wp * p.y
    requires d == wa + wb + wp
    ensures d * (A * q.x + B * q.y + C)
         == wa * (A * a.x + B * a.y + C) + wb * (A * b.x + B * b.y + C) + wp * (A * p.x + B * p.y + C)
  {
    calc {
      d * (A * q.x + B * q.y + C);
      A * (d * q.x) + B * (d * q.y) + C * d;
      A * (wa * a.x + wb * b.x + wp * p.x) + B * (wa * a.y + wb * b.y + wp * p.y) + C * (wa + wb + wp);
    }
  }

  /**
   * The distance of q from any line (u, v), weighted by the area of (a, b, p), is the
   * combination of the distances of a, b and p with q's barycentric weights.
   */
  lemma {:induction false} Barycentric(a: Point, b: Point, p: Point, q: Point, u: Point, v: Point)
    ensures Dist(a, b, p) * Dist(u, v, q)
         == Dist(b, p, q) * Dist(u, v, a) + Dist(p, a, q) * Dist(u, v, b) + Dist(a, b, q) * Dist(u, v, p)
  {
    BarycentricX(a, b, p, q);
    BarycentricY(a, b, p, q);
    AreaSplit(a, b, p, q);
    AffineCombination(u.y - v.y, v.x - u.x, u.x * v.y - u.y * v.x, Dist(a, b, p),
      Dist(b, p, q), Dist(p, a, q), Dist(a, b, q), q, a, b, p);
  }

  /**
   * Trisecting around a point p strictly inside t: whatever lies strictly inside the
   * triangle (t.p1, t.p2, p) lies strictly inside t.
   */
  lemma {:induction false} NestedInside(t: Tri, p: Point, q: Point)
    requires StrictlyInside(p, t) && StrictlyInside(q, Tri(t.p1, t.p2, p))
    ensures StrictlyInside(q, t)
  {
    var a, b, c := t.p1, t.p2, t.p3;
    var wa, wb, wp := Dist(b, p, q), Dist(p, a, q), Dist(a, b, q);
    var whole := Dist(a, b, c);
    AreaSplit(a, b, c, p);
    AreaSplit(a, b, p, q);
    DistRotate(a, b, c);
    DistEndpoints(b, c);
    DistEndpoints(c, a);
    Barycentric(a, b, p, q, b, c);
    Barycentric(a, b, p, q, c, a);
    ProductSign(wa, whole);
    ProductSign(wp, Dist(b, c, p));
    ProductSign(wb, whole);
    ProductSign(wp, Dist(c, a, p));
    ProductSign(Dist(a, b, p), Dist(b, c, q));
    ProductSign(Dist(a, b, p), Dist(c, a, q));
  }

  /** The same for the other two triangles, which are the first one of t's rotations. */
  lemma {:induction false} NestedInsideAll(t: Tri, p: Point, q: Point)
    requires StrictlyInside(p, t)
    ensures StrictlyInside(q, Tri(t.p1, t.p2, p)) ==> StrictlyInside(q, t)
    ensures StrictlyInside(q, Tri(t.p2, t.p3, p)) ==> StrictlyInside(q, t)
    ensures StrictlyInside(q, Tri(t.p3, t.p1, p)) ==> StrictlyInside(q, t)
  {
    if StrictlyInside(q, Tri(t.p1, t.p2, p)) {
      NestedInside(t, p, q);
    }
    if StrictlyInside(q, Tri(t.p2, t.p3, p)) {
      NestedInside(Tri(t.p2, t.p3, t.p1), p, q);
    }
    if StrictlyInside(q, Tri(t.p3, t.p1, p)) {
      NestedInside(Tri(t.p3, t.p1, t.p2), p, q);
    }
  }

  /** The splitting point itself is a corner of each of the three triangles around it. */
  lemma {:induction false} SplitPointNotInside(t: Tri, p: Point)
    ensures !StrictlyInside(p, Tri(t.p1, t.p2, p))
    ensures !StrictlyInside(p, Tri(t.p2, t.p3, p))
    ensures !StrictlyInside(p, Tri(t.p3, t.p1, p))
  {
    DistEndpoints(t.p2, p);
    DistEndpoints(t.p3, p);
    DistEndpoints(t.p1, p);
  }

  /**
   * A value whose d-weighted copy is a combination, with weights of one strict sign adding
   * up to d, of three values at most hi, is itself at most hi.
   */
  lemma {:induction false} WeightedAtMost(d: int, wa: int, wb: int, wc: int, va: int, vb: int, vc: int, v: int, hi: int)
    requires d == wa + wb + wc && d * v == wa * va + wb * vb + wc * vc
    requires (wa > 0 && wb > 0 && wc > 0) || (wa < 0 && wb < 0 && wc < 0)
    requires va <= hi && vb <= hi && vc <= hi
    ensures v <= hi
  {
    calc {
      d * (hi - v);
      d * hi - d * v;
      (wa + wb + wc) * hi - (wa * va + wb * vb + wc * vc);
      wa * hi + wb * hi + wc * hi - (wa * va + wb * vb + wc * vc);
      wa * (hi - va) + wb * (hi - vb) + wc * (hi - vc);
    }
    ProductSign(wa, hi - va);
    ProductSign(wb, hi - vb);
    ProductSign(wc, hi - vc);
    ProductSign(d, hi - v);
  }

  /** The same combination of three values between lo and hi is between lo and hi. */
  lemma {:induction false} WeightedBetween(d: int, wa: int, wb: int, wc: int, va: int, vb: int, vc: int, v: int, lo: int, hi: int)
    requires d == wa + wb + wc && d * v == wa * va + wb * vb + wc * vc
    requires (wa > 0 && wb > 0 && wc > 0) || (wa < 0 && wb < 0 && wc < 0)
    requires lo <= va <= hi && lo <= vb <= hi && lo <= vc <= hi
    ensures lo <= v <= hi
  {
    WeightedAtMost(d, wa, wb, wc, va, vb, vc, v, hi);
    assert d * -v == wa * -va + wb * -vb + wc * -vc;
    WeightedAtMost(d, wa, wb, wc, -va, -vb, -vc, -v, -lo);
  }

  /** A point strictly inside a triangle lies within any rectangle holding its corners. */
  lemma {:induction false} InsideWithin(q: Point, t: Tri, xLo: int, xHi: int, yLo: int, yHi: int)
    requires StrictlyInside(q, t)
    requires forall v :: v in Vertices(t) ==> xLo <= v.x <= xHi && yLo <= v.y <= yHi
    ensures xLo <= q.x <= xHi && yLo <= q.y <= yHi
  {
    var a, b, c := t.p1, t.p2, t.p3;
    assert a in Vertices(t) && b in Vertices(t) && c in Vertices(t);
    AreaSplit(a, b, c, q);
    BarycentricX(a, b, c, q);
    BarycentricY(a, b, c, q);
    WeightedBetween(Dist(a, b, c), Dist(b, c, q), Dist(c, a, q), Dist(a, b, q), a.x, b.x, c.x, q.x, xLo, xHi);
    WeightedBetween(Dist(a, b, c), Dist(b, c, q), Dist(c, a, q), Dist(a, b, q), a.y, b.y, c.y, q.y, yLo, yHi);
  }
}
