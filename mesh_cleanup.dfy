/**
 * The edge-flip cleanup of the triangulation program: check_shared_edge compares two
 * triangles and, when they share an edge whose opposite diagonal is shorter and crosses
 * it, replaces both by the two triangles on the other diagonal; tri_cleanup counts how
 * often that happens over all ordered pairs of stored triangles.
 *
 * The comparison is modelled twice: `CheckSharedEdge` is the program's nine-way case split
 * over share flags, statement for statement, and `SharedEdge` is the same decision stated
 * once, by which corners are shared. The two are proved equal. Both keep the program's two
 * slips in how the flags are set (see `BlamedCorner` and `SharedEdge`).
 */
module MeshCleanup {
  import opened Geometry

  /** The result of comparing two triangles: whether a flip happened, and both triangles afterwards. */
  datatype Outcome = Outcome(flipped: bool, t1: Tri, t2: Tri)

  /** The k-th corner of a triangle, counting from 1. */
  function Corner(t: Tri, k: int): Point
  {
    if k == 1 then t.p1 else if k == 2 then t.p2 else t.p3
  }

  /**
   * The corner of t2 that the program records as matching a corner p of t1 once it has
   * found p among t2's corners. Each test compares p.x with both the x and the y of a
   * corner, never p.y, and when no test succeeds the third corner is taken: the result is
   * the first of t2's first two corners that equals (p.x, p.x), or else the third.
   */
  function BlamedCorner(p: Point, t2: Tri): (k: int)
    ensures 1 <= k <= 3
    ensures k < 3 ==> Corner(t2, k) == Point(p.x, p.x)
    ensures k >= 2 ==> t2.p1 != Point(p.x, p.x)
    ensures k == 3 ==> t2.p2 != Point(p.x, p.x)
  {
    if p.x == t2.p1.x && p.x == t2.p1.y then 1
    else if p.x == t2.p2.x && p.x == t2.p2.y then 2
    else 3
  }

  /**
   * The corner of t2 taken as its far corner when the corners recorded for the shared edge
   * are k1 and k2: the third corner if corners 1 and 2 were recorded, the second if 1 and 3
   * were, and the first otherwise. For two different recorded corners that is the one
   * corner not recorded.
   */
  function FarCorner(t2: Tri, k1: int, k2: int): (o: Point)
    ensures o in Vertices(t2)
    ensures 1 <= k1 <= 3 && 1 <= k2 <= 3 && k1 != k2 ==> o == Corner(t2, 6 - k1 - k2)
  {
    var f1, f2, f3 := k1 == 1 || k2 == 1, k1 == 2 || k2 == 2, k1 == 3 || k2 == 3;
    if f1 && f2 then t2.p3 else if f1 && f3 then t2.p2 else t2.p1
  }

  /**
   * The flip decision for a shared edge e1-e2, t1's remaining corner a and t2's chosen
   * corner o: nothing changes when e1 and e2 are not strictly on opposite sides of the line
   * a-o, or when a-o is not strictly shorter than e1-e2; otherwise the triangles become
   * (e1, a, o) and (e2, a, o).
   */
  function FlipIfShorter(t1: Tri, t2: Tri, e1: Point, e2: Point, a: Point, o: Point): (r: Outcome)
    ensures r.flipped <==>
      ((Dist(a, o, e1) > 0 && Dist(a, o, e2) < 0) || (Dist(a, o, e1) < 0 && Dist(a, o, e2) > 0)) &&
      Pythagorean(a, o) < Pythagorean(e1, e2)
    ensures r.flipped ==> r.t1 == Tri(e1, a, o) && r.t2 == Tri(e2, a, o)
    ensures !r.flipped ==> r.t1 == t1 && r.t2 == t2
  {
    if SameSign(Dist(a, o, e1), Dist(a, o, e2)) then Outcome(false, t1, t2)
    else if Pythagorean(a, o) < Pythagorean(e1, e2) then Outcome(true, Tri(e1, a, o), Tri(e2, a, o))
    else Outcome(false, t1, t2)
  }

  /**
   * The corner flags of t2 record exactly the corners blamed for the shared corners of t1.
   */
  predicate FlagsRecord(t1: Tri, t2: Tri, s1: bool, s2: bool, s3: bool, f1: bool, f2: bool, f3: bool)
  {
    var b1, b2, b3 := BlamedCorner(t1.p1, t2), BlamedCorner(t1.p2, t2), BlamedCorner(t1.p3, t2);
    f1 == ((s1 && b1 == 1) || (s2 && b2 == 1) || (s3 && b3 == 1)) &&
    f2 == ((s1 && b1 == 2) || (s2 && b2 == 2) || (s3 && b3 == 2)) &&
    f3 == ((s1 && b1 == 3) || (s2 && b2 == 3) || (s3 && b3 == 3))
  }

  /**
   * check_shared_edge as a single rule. A corner of t1 is shared when it equals a corner of
   * t2. The third corner of t1 is only examined when exactly one of the first two was
   * shared, so three shared corners still count as two. With two shared corners the shared
   * edge is e1-e2 in t1's corner order, a is t1's other corner, and t2's far corner is
   * chosen from the corners `BlamedCorner` recorded.
   */
  function SharedEdge(t1: Tri, t2: Tri): (r: Outcome)
    ensures !r.flipped ==> r.t1 == t1 && r.t2 == t2
  {
    var s1 := t1.p1 in Vertices(t2);
    var s2 := t1.p2 in Vertices(t2);
    var s3 := s1 != s2 && t1.p3 in Vertices(t2);
    if !((s1 && s2) || s3) then Outcome(false, t1, t2)
    else
      var e1 := if s1 then t1.p1 else t1.p2;
      var e2 := if s1 && s2 then t1.p2 else t1.p3;
      var a := if s1 && s2 then t1.p3 else if s1 then t1.p2 else t1.p1;
      var o := FarCorner(t2, BlamedCorner(e1, t2), BlamedCorner(e2, t2));
      FlipIfShorter(t1, t2, e1, e2, a, o)
  }

  /**
   * The first half of check_shared_edge: a share flag for each corner of t1 found among t2's
   * corners (the third corner only examined after exactly one match), the number of
   * matches, and a flag for each corner of t2 that was blamed for a match.
   */
  method ShareFlags(t1: Tri, t2: Tri)
    returns (pointCount: int, t1p1Share: bool, t1p2Share: bool, t1p3Share: bool,
             t2p1Share: bool, t2p2Share: bool, t2p3Share: bool)
    ensures t1p1Share == (t1.p1 in Vertices(t2)) && t1p2Share == (t1.p2 in Vertices(t2))
    ensures t1p3Share == (t1p1Share != t1p2Share && t1.p3 in Vertices(t2))
    ensures pointCount == 2 <==> (t1p1Share && t1p2Share) || t1p3Share
    ensures pointCount == 2 ==> FlagsRecord(t1, t2, t1p1Share, t1p2Share, t1p3Share, t2p1Share, t2p2Share, t2p3Share)
  {
    pointCount := 0;
    t1p1Share, t1p2Share, t1p3Share := false, false, false;
    t2p1Share, t2p2Share, t2p3Share := false, false, false;

    if (t1.p1.x == t2.p1.x && t1.p1.y == t2.p1.y) || (t1.p1.x == t2.p2.x && t1.p1.y == t2.p2.y)
       || (t1.p1.x == t2.p3.x && t1.p1.y == t2.p3.y)
    {
      pointCount := pointCount + 1;
      t1p1Share := true;
      if t1.p1.x == t2.p1.x && t1.p1.x == t2.p1.y {
        t2p1Share := true;
      } else if t1.p1.x == t2.p2.x && t1.p1.x == t2.p2.y {
        t2p2Share := true;
      } else {
        t2p3Share := true;
      }
    }
    if (t1.p2.x == t2.p1.x && t1.p2.y == t2.p1.y) || (t1.p2.x == t2.p2.x && t1.p2.y == t2.p2.y)
       || (t1.p2.x == t2.p3.x && t1.p2.y == t2.p3.y)
    {
      pointCount := pointCount + 1;
      t1p2Share := true;
      if t1.p2.x == t2.p1.x && t1.p2.x == t2.p1.y {
        t2p1Share := true;
      } else if t1.p2.x == t2.p2.x && t1.p2.x == t2.p2.y {
        t2p2Share := true;
      } else {
        t2p3Share := true;
      }
    }
    if pointCount == 1 && ((t1.p3.x == t2.p1.x && t1.p3.y == t2.p1.y) || (t1.p3.x == t2.p2.x && t1.p3.y == t2.p2.y)
       || (t1.p3.x == t2.p3.x && t1.p3.y == t2.p3.y))
    {
      pointCount := pointCount + 1;
      t1p3Share := true;
      if t1.p3.x == t2.p1.x && t1.p3.x == t2.p1.y {
        t2p1Share := true;
      } else if t1.p3.x == t2.p2.x && t1.p3.x == t2.p2.y {
        t2p2Share := true;
      } else {
        t2p3Share := true;
      }
    }
  }

  /**
   * check_shared_edge, case by case: with exactly two corners of t1 found in t2, pick t1's
   * shared edge and remaining corner by t1's flags and t2's far corner by t2's flags, and flip
   * when the edge's endpoints straddle the new diagonal and the diagonal is shorter. The
   * reference parameters t1 and t2 are returned as r1 and r2.
   */
  method CheckSharedEdge(t1: Tri, t2: Tri) returns (flipped: bool, r1: Tri, r2: Tri)
    ensures Outcome(flipped, r1, r2) == SharedEdge(t1, t2)
  {
    var pointCount, t1p1Share, t1p2Share, t1p3Share, t2p1Share, t2p2Share, t2p3Share := ShareFlags(t1, t2);
    ghost var e1 := if t1p1Share then t1.p1 else t1.p2;
    ghost var e2 := if t1p1Share && t1p2Share then t1.p2 else t1.p3;
    ghost var a := if t1p1Share && t1p2Share then t1.p3 else if t1p1Share then t1.p2 else t1.p1;
    ghost var o := if t2p1Share && t2p2Share then t2.p3 else if t2p1Share && t2p3Share then t2.p2 else t2.p1;
    assert pointCount == 2 ==> SharedEdge(t1, t2) == FlipIfShorter(t1, t2, e1, e2, a, o);
    assert pointCount != 2 ==> SharedEdge(t1, t2) == Outcome(false, t1, t2);

    // Both lengths are truncated square roots and never negative, so the program's abs()
    // around them changes nothing.
    if pointCount == 2 {
      if t1p1Share && t1p2Share {
        var d1 := Pythagorean(t1.p1, t1.p2);
        if t2p1Share && t2p2Share {
          if SameSign(Dist(t1.p3, t2.p3, t1.p1), Dist(t1.p3, t2.p3, t1.p2)) {
            return false, t1, t2;
          }
          var d2 := Pythagorean(t1.p3, t2.p3);
          if d2 < d1 {
            var temp := Tri(t1.p1, t1.p2, t1.p3);
            return true, Tri(t1.p1, t1.p3, t2.p3), Tri(temp.p2, temp.p3, t2.p3);
          }
        } else if t2p1Share && t2p3Share {
          if SameSign(Dist(t1.p3, t2.p2, t1.p1), Dist(t1.p3, t2.p2, t1.p2)) {
            return false, t1, t2;
          }
          var d2 := Pythagorean(t1.p3, t2.p2);
          if d2 < d1 {
            var temp := Tri(t1.p1, t1.p2, t1.p3);
            return true, Tri(t1.p1, t1.p3, t2.p2), Tri(temp.p2, temp.p3, t2.p2);
          }
        } else {
          if SameSign(Dist(t1.p3, t2.p1, t1.p1), Dist(t1.p3, t2.p1, t1.p2)) {
            return false, t1, t2;
          }
          var d2 := Pythagorean(t1.p3, t2.p1);
          if d2 < d1 {
            var temp := Tri(t1.p1, t1.p2, t1.p3);
            return true, Tri(t1.p1, t1.p3, t2.p1), Tri(temp.p2, temp.p3, t2.p1);
          }
        }
      } else if t1p1Share && t1p3Share {
        var d1 := Pythagorean(t1.p1, t1.p3);
        if t2p1Share && t2p2Share {
          if SameSign(Dist(t1.p2, t2.p3, t1.p1), Dist(t1.p2, t2.p3, t1.p3)) {
            return false, t1, t2;
          }
          var d2 := Pythagorean(t1.p2, t2.p3);
          if d2 < d1 {
            var temp := Tri(t1.p1, t1.p2, t1.p3);
            return true, Tri(t1.p1, t1.p2, t2.p3), Tri(temp.p3, temp.p2, t2.p3);
          }
        } else if t2p1Share && t2p3Share {
          if SameSign(Dist(t1.p2, t2.p2, t1.p1), Dist(t1.p2, t2.p2, t1.p3)) {
            return false, t1, t2;
          }
          var d2 := Pythagorean(t1.p2, t2.p2);
          if d2 < d1 {
            var temp := Tri(t1.p1, t1.p2, t1.p3);
            return true, Tri(t1.p1, t1.p2, t2.p2), Tri(temp.p3, temp.p2, t2.p2);
          }
        } else {
          if SameSign(Dist(t1.p2, t2.p1, t1.p1), Dist(t1.p2, t2.p1, t1.p3)) {
            return false, t1, t2;
          }
          var d2 := Pythagorean(t1.p2, t2.p1);
          if d2 < d1 {
            var temp := Tri(t1.p1, t1.p2, t1.p3);
            return true, Tri(t1.p1, t1.p2, t2.p1), Tri(temp.p3, temp.p2, t2.p1);
          }
        }
      } else {
        var d1 := Pythagorean(t1.p2, t1.p3);
        if t2p1Share && t2p2Share {
          if SameSign(Dist(t1.p1, t2.p3, t1.p2), Dist(t1.p1, t2.p3, t1.p3)) {
            return false, t1, t2;
          }
          var d2 := Pythagorean(t1.p1, t2.p3);
          if d2 < d1 {
            var temp := Tri(t1.p1, t1.p2, t1.p3);
            return true, Tri(t1.p2, t1.p1, t2.p3), Tri(temp.p3, temp.p1, t2.p3);
          }
        } else if t2p1Share && t2p3Share {
          if SameSign(Dist(t1.p1, t2.p2, t1.p2), Dist(t1.p1, t2.p2, t1.p3)) {
            return false, t1, t2;
          }
          var d2 := Pythagorean(t1.p1, t2.p2);
          if d2 < d1 {
            var temp := Tri(t1.p1, t1.p2, t1.p3);
            return true, Tri(t1.p2, t1.p1, t2.p2), Tri(temp.p3, temp.p1, t2.p2);
          }
        } else {
          if SameSign(Dist(t1.p1, t2.p1, t1.p2), Dist(t1.p1, t2.p1, t1.p3)) {
            return false, t1, t2;
          }
          var d2 := Pythagorean(t1.p1, t2.p1);
          if d2 < d1 {
            var temp := Tri(t1.p1, t1.p2, t1.p3);
            return true, Tri(t1.p2, t1.p1, t2.p1), Tri(temp.p3, temp.p1, t2.p1);
          }
        }
      }
    }
    return false, t1, t2;
  }

  /** On a flip, the rule's pieces: the shared edge and t1's remaining corner make up t1, and the chosen corner is a corner of t2. */
  lemma {:induction false} FlipParts(t1: Tri, t2: Tri) returns (e1: Point, e2: Point, a: Point, o: Point)
    requires SharedEdge(t1, t2).flipped
    ensures SharedEdge(t1, t2) == FlipIfShorter(t1, t2, e1, e2, a, o)
    ensures Vertices(t1) == {e1, e2, a}
    ensures t1 == Tri(e1, e2, a) || t1 == Tri(e1, a, e2) || t1 == Tri(a, e1, e2)
    ensures e1 in Vertices(t2) && e2 in Vertices(t2) && o in Vertices(t2)
  {
    var s1 := t1.p1 in Vertices(t2);
    var s2 := t1.p2 in Vertices(t2);
    e1 := if s1 then t1.p1 else t1.p2;
    e2 := if s1 && s2 then t1.p2 else t1.p3;
    a := if s1 && s2 then t1.p3 else if s1 then t1.p2 else t1.p1;
    o := FarCorner(t2, BlamedCorner(e1, t2), BlamedCorner(e2, t2));
  }

  /**
   * A flip needs the old edge's endpoints strictly on opposite sides of the new diagonal and
   * a strictly shorter diagonal, so the four points involved are pairwise distinct.
   */
  lemma {:induction false} FlipDistinct(t1: Tri, t2: Tri, e1: Point, e2: Point, a: Point, o: Point)
    requires FlipIfShorter(t1, t2, e1, e2, a, o).flipped
    ensures (Dist(a, o, e1) > 0 && Dist(a, o, e2) < 0) || (Dist(a, o, e1) < 0 && Dist(a, o, e2) > 0)
    ensures Pythagorean(a, o) < Pythagorean(e1, e2)
    ensures e1 != e2 && e1 != a && e1 != o && e2 != a && e2 != o && a != o
  {
    DistEndpoints(a, o);
    DistDegenerate(a, e1);
  }

  /**
   * What a flip of check_shared_edge produces. Write the new triangles as (e1, a, o) and
   * (e2, a, o'): they share the new diagonal (a = the second corner of both, o = o'), their
   * first corners are the two distinct endpoints of the old shared edge, t1 was the old edge
   * plus a and t2 the old edge plus o, a is not a corner of t2 and o is not a corner of t1,
   * the old endpoints lie strictly on opposite sides of the line from a to o, and the new
   * diagonal is strictly shorter than the old edge.
   */
  lemma {:induction false} FlipShape(t1: Tri, t2: Tri)
    requires SharedEdge(t1, t2).flipped
    ensures var r := SharedEdge(t1, t2);
      r.t2.p2 == r.t1.p2 && r.t2.p3 == r.t1.p3 && r.t1.p1 != r.t2.p1
    ensures var r := SharedEdge(t1, t2);
      Vertices(t1) == {r.t1.p1, r.t2.p1, r.t1.p2} && Vertices(t2) == {r.t1.p1, r.t2.p1, r.t1.p3}
    ensures var r := SharedEdge(t1, t2);
      r.t1.p2 !in Vertices(t2) && r.t1.p3 !in Vertices(t1)
    ensures var r := SharedEdge(t1, t2);
      var e1, e2, a, o := r.t1.p1, r.t2.p1, r.t1.p2, r.t1.p3;
      ((Dist(a, o, e1) > 0 && Dist(a, o, e2) < 0) || (Dist(a, o, e1) < 0 && Dist(a, o, e2) > 0)) &&
      Pythagorean(a, o) < Pythagorean(e1, e2)
  {
    var e1, e2, a, o := FlipParts(t1, t2);
    FlipDistinct(t1, t2, e1, e2, a, o);
    ThreeDistinctCorners(t2, e1, e2, o);
  }

  /** Three distinct corners of a triangle are all of its corners. */
  lemma ThreeDistinctCorners(t: Tri, p: Point, q: Point, u: Point)
    requires p in Vertices(t) && q in Vertices(t) && u in Vertices(t)
    requires p != q && p != u && q != u
    ensures Vertices(t) == {p, q, u}
  {
  }

  /** check_shared_edge(t, t) never flips: the chosen corner of t is a corner of t itself. */
  lemma {:induction false} SelfPairNoFlip(t: Tri)
    ensures !SharedEdge(t, t).flipped
    ensures SharedEdge(t, t) == Outcome(false, t, t)
  {
    if SharedEdge(t, t).flipped {
      FlipShape(t, t);
      assert false;
    }
  }

  /** The corner of t2 that p equals, comparing both coordinates and checking the corners in order. */
  function MatchedCorner(p: Point, t2: Tri): int
  {
    if p == t2.p1 then 1 else if p == t2.p2 then 2 else 3
  }

  /**
   * check_shared_edge as its comments describe it: the corner of t2 matching each shared
   * corner of t1 is found by comparing x with x and y with y, and the third corner of t1 is
   * examined like the other two, so an edge is only considered when exactly two corners are
   * shared. A flip replaces that shared edge by the strictly shorter diagonal from t1's
   * unshared corner to a corner of t2.
   */
  function SharedEdgeIntended(t1: Tri, t2: Tri): (r: Outcome)
    ensures !r.flipped ==> r.t1 == t1 && r.t2 == t2
    ensures r.flipped ==>
      r.t1.p1 in Vertices(t1) && r.t1.p1 in Vertices(t2) && r.t2.p1 in Vertices(t1) && r.t2.p1 in Vertices(t2) &&
      r.t1.p2 == r.t2.p2 && r.t1.p2 in Vertices(t1) && r.t1.p2 !in Vertices(t2) &&
      r.t1.p3 == r.t2.p3 && r.t1.p3 in Vertices(t2) &&
      Pythagorean(r.t1.p2, r.t1.p3) < Pythagorean(r.t1.p1, r.t2.p1)
  {
    var s1, s2, s3 := t1.p1 in Vertices(t2), t1.p2 in Vertices(t2), t1.p3 in Vertices(t2);
    var count := (if s1 then 1 else 0) + (if s2 then 1 else 0) + (if s3 then 1 else 0);
    if count != 2 then Outcome(false, t1, t2)
    else
      var e1 := if s1 then t1.p1 else t1.p2;
      var e2 := if s1 && s2 then t1.p2 else t1.p3;
      var a := if s1 && s2 then t1.p3 else if s1 then t1.p2 else t1.p1;
      var o := FarCorner(t2, MatchedCorner(e1, t2), MatchedCorner(e2, t2));
      FlipIfShorter(t1, t2, e1, e2, a, o)
  }

  /**
   * The intended comparison applies the flip rule to the right corners: when t1 and t2 share
   * exactly the edge e1-e2 (listed in t1's order), a is t1's other corner and o is t2's
   * other corner, the outcome is the flip decision for e1, e2, a and o.
   */
  lemma {:induction false} IntendedFlipRule(t1: Tri, t2: Tri, e1: Point, e2: Point, a: Point, o: Point)
    requires t1 == Tri(e1, e2, a) || t1 == Tri(e1, a, e2) || t1 == Tri(a, e1, e2)
    requires Vertices(t2) == {e1, e2, o} && e1 != e2 && e1 != o && e2 != o
    requires a !in Vertices(t2)
    ensures SharedEdgeIntended(t1, t2) == FlipIfShorter(t1, t2, e1, e2, a, o)
  {
    assert e1 in Vertices(t2) && e2 in Vertices(t2) && o in Vertices(t2);
    assert FarCorner(t2, MatchedCorner(e1, t2), MatchedCorner(e2, t2)) == o;
  }

  /**
   * Every flip the program makes is one the intended comparison makes too, with the same
   * result: on a flip the corner it picks from t2 is t2's true far corner.
   */
  lemma {:induction false} WrittenFlipIsIntended(t1: Tri, t2: Tri)
    requires SharedEdge(t1, t2).flipped
    ensures SharedEdgeIntended(t1, t2) == SharedEdge(t1, t2)
  {
    var e1, e2, a, o := FlipParts(t1, t2);
    FlipDistinct(t1, t2, e1, e2, a, o);
    ThreeDistinctCorners(t2, e1, e2, o);
    IntendedFlipRule(t1, t2, e1, e2, a, o);
  }

  /**
   * Two triangles across the edge (0,0)-(10,0): the long edge should be flipped to the short
   * diagonal (5,1)-(5,-1), and the intended comparison does so. The program blames corner 3
   * of t2 for (10,0), because 10 differs from that corner's y, and so takes (10,0) itself as
   * t2's far corner; (10,0) lies on the diagonal it then tests, and no flip happens.
   */
  lemma MissedFlip(t1: Tri, t2: Tri)
    requires t1 == Tri(Point(0, 0), Point(10, 0), Point(5, 1))
    requires t2 == Tri(Point(0, 0), Point(10, 0), Point(5, -1))
    ensures !SharedEdge(t1, t2).flipped
    ensures SharedEdgeIntended(t1, t2) == Outcome(true, Tri(Point(0, 0), Point(5, 1), Point(5, -1)),
                                                         Tri(Point(10, 0), Point(5, 1), Point(5, -1)))
  {
    MissedFlipWritten(t1, t2);
    MissedFlipIntended(t1, t2);
  }

  lemma {:induction false} MissedFlipWritten(t1: Tri, t2: Tri)
    requires t1 == Tri(Point(0, 0), Point(10, 0), Point(5, 1))
    requires t2 == Tri(Point(0, 0), Point(10, 0), Point(5, -1))
    ensures !SharedEdge(t1, t2).flipped
  {
    EndpointBlamedAsFar(t1, t2);
  }

  /**
   * When the shared edge is the first side of both triangles, its first end has equal
   * coordinates and its second end does not, and the two ends differ in x, the program
   * takes the second end itself as t2's far corner, so no flip can happen.
   */
  lemma {:induction false} EndpointBlamedAsFar(t1: Tri, t2: Tri)
    requires t2.p1 == t1.p1 && t2.p2 == t1.p2
    requires t1.p1.x == t1.p1.y && t1.p2.x != t1.p2.y && t1.p2.x != t1.p1.x
    ensures !SharedEdge(t1, t2).flipped
  {
    var e1, e2, a := t1.p1, t1.p2, t1.p3;
    assert BlamedCorner(e1, t2) == 1 && BlamedCorner(e2, t2) == 3;
    assert SharedEdge(t1, t2) == FlipIfShorter(t1, t2, e1, e2, a, e2);
    NoFlipThroughEndpoint(t1, t2, e1, e2, a);
  }

  /** A candidate diagonal that ends at an endpoint of the shared edge is never taken. */
  lemma {:induction false} NoFlipThroughEndpoint(t1: Tri, t2: Tri, e1: Point, e2: Point, a: Point)
    ensures !FlipIfShorter(t1, t2, e1, e2, a, e2).flipped
  {
    DistEndpoints(a, e2);
  }

  lemma {:induction false} MissedFlipIntended(t1: Tri, t2: Tri)
    requires t1 == Tri(Point(0, 0), Point(10, 0), Point(5, 1))
    requires t2 == Tri(Point(0, 0), Point(10, 0), Point(5, -1))
    ensures SharedEdgeIntended(t1, t2) == Outcome(true, Tri(Point(0, 0), Point(5, 1), Point(5, -1)),
                                                         Tri(Point(10, 0), Point(5, 1), Point(5, -1)))
  {
    IntendedFlipRule(t1, t2, t1.p1, t1.p2, t1.p3, t2.p3);
    ExampleLeftEnd();
    ExampleRightEnd();
    ExampleDiagonal();
    ExampleOldEdge();
  }

  /** The shared edge's end (0,0) lies to the right of the diagonal (5,1) -> (5,-1). */
  lemma ExampleLeftEnd()
    ensures Dist(Point(5, 1), Point(5, -1), Point(0, 0)) == -10
  {
  }

  /** The shared edge's other end (10,0) lies to the left of the same diagonal. */
  lemma ExampleRightEnd()
    ensures Dist(Point(5, 1), Point(5, -1), Point(10, 0)) == 10
  {
  }

  /** The diagonal from (5,1) to (5,-1) has truncated length 2. */
  lemma ExampleDiagonal()
    ensures Pythagorean(Point(5, 1), Point(5, -1)) == 2
  {
    assert SqLen(Point(5, 1), Point(5, -1)) == 4;
    FloorSqrtUnique(4, 2);
  }

  /** The shared edge from (0,0) to (10,0) has truncated length 10. */
  lemma ExampleOldEdge()
    ensures Pythagorean(Point(0, 0), Point(10, 0)) == 10
  {
    assert SqLen(Point(0, 0), Point(10, 0)) == 100;
    FloorSqrtUnique(100, 10);
  }

  /**
   * One row of tri_cleanup: a working copy of a stored triangle is compared with each
   * stored triangle of ts in turn, and every flip replaces the copy (the other triangle is
   * a fresh copy each time and its replacement is dropped). The result is the final copy
   * and the number of flips, which is at most one per comparison.
   */
  function RowFlips(t: Tri, ts: seq<Tri>): (r: (Tri, nat))
    ensures r.1 <= |ts|
  {
    if ts == [] then (t, 0)
    else
      var (u, c) := RowFlips(t, ts[..|ts| - 1]);
      var o := SharedEdge(u, ts[|ts| - 1]);
      (o.t1, c + if o.flipped then 1 else 0)
  }

  /** The flips tri_cleanup counts: one row per triangle of `rows`, each against all of ts. */
  function CleanupFlips(rows: seq<Tri>, ts: seq<Tri>): (n: nat)
    ensures n <= |rows| * |ts|
  {
    if rows == [] then 0
    else
      MulSucc(|rows| - 1, |ts|);
      CleanupFlips(rows[..|rows| - 1], ts) + RowFlips(rows[|rows| - 1], ts).1
  }

  lemma MulSucc(a: nat, b: nat)
    ensures (a + 1) * b == a * b + b
  {
  }

  /** A row in which no comparison would flip the untouched triangle counts nothing and keeps the copy. */
  lemma {:induction false} QuietRow(t: Tri, ts: seq<Tri>)
    requires forall j :: 0 <= j < |ts| ==> !SharedEdge(t, ts[j]).flipped
    ensures RowFlips(t, ts) == (t, 0)
  {
    if ts != [] {
      QuietRow(t, ts[..|ts| - 1]);
    }
  }

  /**
   * When no ordered pair of stored triangles would flip on its own, tri_cleanup counts no
   * flips at all; in particular a single triangle, which is only compared with itself.
   */
  lemma {:induction false} QuietCleanup(rows: seq<Tri>, ts: seq<Tri>)
    requires forall i, j :: 0 <= i < |rows| && 0 <= j < |ts| ==> !SharedEdge(rows[i], ts[j]).flipped
    ensures CleanupFlips(rows, ts) == 0
  {
    if rows != [] {
      QuietCleanup(rows[..|rows| - 1], ts);
      QuietRow(rows[|rows| - 1], ts);
    }
  }

  /** A mesh of one triangle has nothing to clean up. */
  lemma {:induction false} SingleTriangleClean(t: Tri)
    ensures CleanupFlips([t], [t]) == 0
  {
    SelfPairNoFlip(t);
    QuietCleanup([t], [t]);
  }
}
