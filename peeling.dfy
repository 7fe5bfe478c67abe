/**
 * Hull peeling (2DHull): a convex hull is taken, every point lying on the line of any edge
 * drawn so far is removed, and this repeats while at least three points remain. Cluster
 * peeling takes the points nearest to the first point, ring by ring of truncated distance,
 * peels that cluster on its own, removes it from the point set and starts again.
 */
module Peeling {
  import opened Geometry
  import QuickHull

  // ---------------------------------------------------------------------------------------
  // Order-preserving filters
  // ---------------------------------------------------------------------------------------

  /** No point occurs twice. */
  predicate Distinct(s: seq<Point>)
  {
    forall i, j :: 0 <= i < j < |s| ==> s[i] != s[j]
  }

  /** The points of s for which keep holds, in their order in s. */
  function Filter(s: seq<Point>, keep: Point -> bool): (r: seq<Point>)
    ensures |r| <= |s|
  {
    if |s| == 0 then []
    else
      var rest := Filter(s[..|s| - 1], keep);
      if keep(s[|s| - 1]) then rest + [s[|s| - 1]] else rest
  }

  /** A point survives the filter exactly when it is in s and keep holds for it. */
  lemma {:induction false} FilterMembers(s: seq<Point>, keep: Point -> bool)
    ensures forall q {:trigger q in Filter(s, keep)} :: q in Filter(s, keep) <==> q in s && keep(q)
  {
    if |s| > 0 {
      assert s == s[..|s| - 1] + [s[|s| - 1]];
      FilterMembers(s[..|s| - 1], keep);
    }
  }

  /** Every point the filter keeps satisfies keep. */
  lemma {:induction false} FilterKeeps(s: seq<Point>, keep: Point -> bool)
    ensures forall i :: 0 <= i < |Filter(s, keep)| ==> keep(Filter(s, keep)[i])
  {
    FilterMembers(s, keep);
    forall i | 0 <= i < |Filter(s, keep)|
      ensures keep(Filter(s, keep)[i])
    {
      assert Filter(s, keep)[i] in Filter(s, keep);
    }
  }

  /** Filtering a concatenation filters each part. */
  lemma {:induction false} FilterSplit(a: seq<Point>, b: seq<Point>, keep: Point -> bool)
    ensures Filter(a + b, keep) == Filter(a, keep) + Filter(b, keep)
    decreases |b|
  {
    if |b| > 0 {
      var b' := b[..|b| - 1];
      assert (a + b)[..|a + b| - 1] == a + b';
      FilterSplit(a, b', keep);
    } else {
      assert a + b == a;
    }
  }

  /** A filter that drops some point of s is strictly shorter than s. */
  lemma {:induction false} FilterDrops(s: seq<Point>, keep: Point -> bool, q: Point)
    requires q in s && !keep(q)
    ensures |Filter(s, keep)| < |s|
  {
    var last := s[|s| - 1];
    assert s == s[..|s| - 1] + [last];
    if last != q {
      FilterDrops(s[..|s| - 1], keep, q);
    }
  }

  /** A filter that keeps every point of s is s itself. */
  lemma {:induction false} FilterAll(s: seq<Point>, keep: Point -> bool)
    requires forall q :: q in s ==> keep(q)
    ensures Filter(s, keep) == s
  {
    if |s| > 0 {
      assert s == s[..|s| - 1] + [s[|s| - 1]];
      FilterAll(s[..|s| - 1], keep);
    }
  }

  /** A filter that keeps no point of s is empty. */
  lemma {:induction false} FilterNone(s: seq<Point>, keep: Point -> bool)
    requires forall q :: q in s ==> !keep(q)
    ensures Filter(s, keep) == []
  {
    if |s| > 0 {
      assert s == s[..|s| - 1] + [s[|s| - 1]];
      FilterNone(s[..|s| - 1], keep);
    }
  }

  /** Filtering keeps the points distinct. */
  lemma {:induction false} FilterDistinct(s: seq<Point>, keep: Point -> bool)
    requires Distinct(s)
    ensures Distinct(Filter(s, keep))
  {
    if |s| > 0 {
      var init, last := s[..|s| - 1], s[|s| - 1];
      assert s == init + [last];
      FilterDistinct(init, keep);
      FilterMembers(init, keep);
      assert last !in init;
      assert last !in Filter(init, keep);
    }
  }

  /** Distinct points are as many as the set they form. */
  lemma {:induction false} DistinctCard(s: seq<Point>)
    requires Distinct(s)
    ensures |set q | q in s| == |s|
  {
    if |s| > 0 {
      var init, last := s[..|s| - 1], s[|s| - 1];
      assert s == init + [last];
      DistinctCard(init);
      assert (set q | q in s) == (set q | q in init) + {last};
    }
  }

  /** Points drawn from s inherit s's x range. */
  lemma {:induction false} SubsetXInWindow(a: seq<Point>, s: seq<Point>, w: int)
    requires QuickHull.XInWindow(s, w)
    requires forall q :: q in a ==> q in s
    ensures QuickHull.XInWindow(a, w)
  {
    forall i | 0 <= i < |a|
      ensures 0 <= a[i].x < w
    {
      assert a[i] in a;
      var k :| 0 <= k < |s| && s[k] == a[i];
    }
  }

  /** Points drawn from s inherit s's window. */
  lemma {:induction false} SubsetInWindow(a: seq<Point>, s: seq<Point>, w: int, h: int)
    requires AllInWindow(s, w, h)
    requires forall q :: q in a ==> q in s
    ensures AllInWindow(a, w, h)
  {
    forall i | 0 <= i < |a|
      ensures InWindow(a[i], w, h)
    {
      assert a[i] in a;
      var k :| 0 <= k < |s| && s[k] == a[i];
    }
  }

  // ---------------------------------------------------------------------------------------
  // peel
  // ---------------------------------------------------------------------------------------

  /** p lies on the infinite line through some edge of es. */
  predicate OnSomeLine(p: Point, es: seq<Edge>)
  {
    exists i :: 0 <= i < |es| && Dist(es[i].p1, es[i].p2, p) == 0
  }

  /** The points of pts on the line of no edge of es, in their order in pts. */
  function OffLines(pts: seq<Point>, es: seq<Edge>): (r: seq<Point>)
    ensures |r| <= |pts|
    ensures forall i :: 0 <= i < |r| ==> !OnSomeLine(r[i], es)
  {
    FilterKeeps(pts, q => !OnSomeLine(q, es));
    Filter(pts, q => !OnSomeLine(q, es))
  }

  /** A point is kept exactly when it is in pts and on the line of no edge of es. */
  lemma OffLinesMembers(pts: seq<Point>, es: seq<Edge>)
    ensures forall q {:trigger q in OffLines(pts, es)} :: q in OffLines(pts, es) <==> q in pts && !OnSomeLine(q, es)
  {
    FilterMembers(pts, q => !OnSomeLine(q, es));
  }

  /**
   * One round of peel removes every corner of the hull it has just drawn, since a corner
   * lies on the line of its own edge; in particular it removes at least one point.
   */
  lemma {:induction false} PeelRoundShrinks(pts: seq<Point>, edges: seq<Edge>, w: int)
    requires QuickHull.XInWindow(pts, w) && |pts| >= 3
    ensures forall i :: 0 <= i < |QuickHull.HullOf(pts, w)| ==>
      QuickHull.HullOf(pts, w)[i].p1 !in OffLines(pts, edges + QuickHull.HullOf(pts, w)) &&
      QuickHull.HullOf(pts, w)[i].p2 !in OffLines(pts, edges + QuickHull.HullOf(pts, w))
    ensures |OffLines(pts, edges + QuickHull.HullOf(pts, w))| < |pts|
  {
    var hull := QuickHull.HullOf(pts, w);
    var es := edges + hull;
    OffLinesMembers(pts, es);
    forall i | 0 <= i < |hull|
      ensures OnSomeLine(hull[i].p1, es) && OnSomeLine(hull[i].p2, es)
    {
      DistEndpoints(hull[i].p1, hull[i].p2);
      assert es[|edges| + i] == hull[i];
    }
    QuickHull.HullOfSpec(pts, w);
    var lo := hull[0].p1;
    assert lo in pts;
    FilterDrops(pts, q => !OnSomeLine(q, es), lo);
  }

  /**
   * The whole of peel on a point sequence and the edges drawn so far: while at least three
   * points remain, append their hull and keep only the points on none of the edge lines.
   * The result is the points left over and the edges afterwards.
   */
  function PeelOf(pts: seq<Point>, edges: seq<Edge>, w: int): (r: (seq<Point>, seq<Edge>))
    requires QuickHull.XInWindow(pts, w)
    ensures |r.0| <= 2
    ensures forall q {:trigger q in r.0} :: q in r.0 ==> q in pts
    ensures |edges| <= |r.1| && r.1[..|edges|] == edges
    ensures |pts| >= 3 ==> forall q :: q in r.0 ==> !OnSomeLine(q, r.1)
    decreases |pts|
  {
    if |pts| <= 2 then (pts, edges)
    else
      var es := edges + QuickHull.HullOf(pts, w);
      PeelRoundShrinks(pts, edges, w);
      var rest := OffLines(pts, es);
      OffLinesMembers(pts, es);
      SubsetXInWindow(rest, pts, w);
      var r := PeelOf(rest, es, w);
      assert r.1[..|edges|] == r.1[..|es|][..|edges|];
      r
  }

  /** Every edge peel appends runs between two of the points being peeled. */
  lemma {:induction false} PeelCorners(pts: seq<Point>, edges: seq<Edge>, w: int)
    requires QuickHull.XInWindow(pts, w)
    ensures forall i :: |edges| <= i < |PeelOf(pts, edges, w).1| ==>
      PeelOf(pts, edges, w).1[i].p1 in pts && PeelOf(pts, edges, w).1[i].p2 in pts
    decreases |pts|
  {
    if |pts| > 2 {
      var hull := QuickHull.HullOf(pts, w);
      var es := edges + hull;
      PeelRoundShrinks(pts, edges, w);
      var rest := OffLines(pts, es);
      OffLinesMembers(pts, es);
      SubsetXInWindow(rest, pts, w);
      PeelCorners(rest, es, w);
      QuickHull.HullOfCorners(pts, w);
      assert PeelOf(pts, edges, w).1 == PeelOf(rest, es, w).1;
      AppendedCorners(PeelOf(rest, es, w).1, edges, hull, rest, pts);
    }
  }

  /**
   * Edges appended after `edges`: first the hull, whose corners are points of pts, then
   * edges between points of rest, which are points of pts too.
   */
  lemma {:induction false} AppendedCorners(r: seq<Edge>, edges: seq<Edge>, hull: seq<Edge>, rest: seq<Point>, pts: seq<Point>)
    requires |edges + hull| <= |r| && r[..|edges + hull|] == edges + hull
    requires QuickHull.CornersWithin(hull, set q | q in pts)
    requires forall i :: |edges + hull| <= i < |r| ==> r[i].p1 in rest && r[i].p2 in rest
    requires forall q :: q in rest ==> q in pts
    ensures forall i :: |edges| <= i < |r| ==> r[i].p1 in pts && r[i].p2 in pts
  {
    var es := edges + hull;
    forall i | |edges| <= i < |r|
      ensures r[i].p1 in pts && r[i].p2 in pts
    {
      if i < |es| {
        assert r[i] == r[..|es|][i] == es[i] == hull[i - |edges|];
      }
    }
  }

  /** With fewer than three points peel draws nothing and keeps every point. */
  lemma {:induction false} PeelFewPoints(pts: seq<Point>, edges: seq<Edge>, w: int)
    requires QuickHull.XInWindow(pts, w) && |pts| < 3
    ensures PeelOf(pts, edges, w) == (pts, edges)
  {
  }

  // ---------------------------------------------------------------------------------------
  // cluster_peel
  // ---------------------------------------------------------------------------------------

  // The ring structure below is stated for any distance `far` from a centre; cluster_peel
  // uses the truncated Euclidean distance from the first point (DistanceFrom).

  /** The truncated distance from c, as cluster_peel measures it. */
  function DistanceFrom(c: Point): Point -> int
  {
    q => Pythagorean(c, q)
  }

  /** far puts c at distance 0 and every other point of pts at distance at least 1. */
  predicate Centred(pts: seq<Point>, c: Point, far: Point -> int)
  {
    far(c) == 0 && forall q :: q in pts && q != c ==> far(q) >= 1
  }

  /** Distinct points are apart under the truncated distance. */
  lemma {:induction false} DistanceCentred(pts: seq<Point>, c: Point)
    ensures Centred(pts, c, DistanceFrom(c))
  {
    PythagoreanZero(c, c);
    forall q | q in pts && q != c
      ensures DistanceFrom(c)(q) >= 1
    {
      PythagoreanZero(c, q);
    }
  }

  /** The points of pts at distance exactly d, in their order in pts. */
  function Ring(pts: seq<Point>, far: Point -> int, d: int): seq<Point>
  {
    Filter(pts, q => far(q) == d)
  }

  /** The points of pts at distance 1 to d - 1, ring after ring. */
  function Rings(pts: seq<Point>, far: Point -> int, d: int): seq<Point>
    decreases d
  {
    if d <= 1 then [] else Rings(pts, far, d - 1) + Ring(pts, far, d - 1)
  }

  /** The ring at d holds exactly the points at distance d. */
  lemma RingMembers(pts: seq<Point>, far: Point -> int, d: int)
    ensures forall q {:trigger q in Ring(pts, far, d)} :: q in Ring(pts, far, d) <==> q in pts && far(q) == d
  {
    FilterMembers(pts, q => far(q) == d);
  }

  /** The rings below d hold exactly the points at distance 1 to d - 1. */
  lemma {:induction false} RingsMembers(pts: seq<Point>, far: Point -> int, d: int)
    ensures forall q {:trigger q in Rings(pts, far, d)} :: q in Rings(pts, far, d) <==> q in pts && 1 <= far(q) < d
    decreases d
  {
    if d > 1 {
      RingsMembers(pts, far, d - 1);
      RingMembers(pts, far, d - 1);
    }
  }

  /** The points of pts at distance at least 1 and below d, in their order in pts. */
  function Within(pts: seq<Point>, far: Point -> int, d: int): seq<Point>
  {
    Filter(pts, q => 1 <= far(q) < d)
  }

  /** A distance no point of pts exceeds. */
  function Reach(pts: seq<Point>, far: Point -> int): nat
  {
    if |pts| == 0 then 0
    else
      var m := Reach(pts[..|pts| - 1], far);
      if far(pts[|pts| - 1]) > m then far(pts[|pts| - 1]) else m
  }

  /** No point of pts is farther than Reach. */
  lemma {:induction false} ReachBound(pts: seq<Point>, far: Point -> int)
    ensures forall q :: q in pts ==> far(q) <= Reach(pts, far)
  {
    if |pts| > 0 {
      var init, last := pts[..|pts| - 1], pts[|pts| - 1];
      assert pts == init + [last];
      ReachBound(init, far);
    }
  }

  /** The first k points of s, or all of s when it is shorter. */
  function Take(s: seq<Point>, k: int): (r: seq<Point>)
    ensures |r| == if k <= 0 then 0 else if |s| <= k then |s| else k
    ensures r <= s
  {
    if k <= 0 then [] else if |s| <= k then s else s[..k]
  }

  lemma {:induction false} TakeAppend(a: seq<Point>, b: seq<Point>, k: int)
    ensures Take(a + b, k) == if |a| >= k then Take(a, k) else a + Take(b, k - |a|)
  {
    if k > 0 && |a| < k && |a + b| > k {
      assert (a + b)[..k] == a + b[..k - |a|];
    } else if k > 0 && |a| >= k {
      assert (a + b)[..k] == a[..k];
    }
  }

  /** One more point scanned: it joins the ring when it is at distance d. */
  lemma {:induction false} RingScanStep(pts: seq<Point>, j: int, far: Point -> int, d: int)
    requires 0 <= j < |pts|
    ensures Ring(pts[..j + 1], far, d) == Ring(pts[..j], far, d) + (if far(pts[j]) == d then [pts[j]] else [])
  {
    assert pts[..j + 1][..j] == pts[..j];
  }

  /**
   * A scan that stops after j points, either at the end or once k points of the ring are
   * found, has found the first k points of the ring.
   */
  lemma {:induction false} RingScanCut(pts: seq<Point>, j: int, far: Point -> int, d: int, k: int)
    requires 0 <= j <= |pts|
    requires |Ring(pts[..j], far, d)| <= (if k >= 0 then k else 0)
    requires j == |pts| || |Ring(pts[..j], far, d)| >= k
    ensures Take(Ring(pts, far, d), k) == Ring(pts[..j], far, d)
  {
    assert pts == pts[..j] + pts[j..];
    FilterSplit(pts[..j], pts[j..], q => far(q) == d);
    TakeAppend(Ring(pts[..j], far, d), Ring(pts[j..], far, d), k);
    if j == |pts| {
      assert pts[j..] == [];
    }
  }

  /** The rings up to d2 begin with the rings up to d1. */
  lemma {:induction false} RingsExtend(pts: seq<Point>, far: Point -> int, d1: int, d2: int) returns (more: seq<Point>)
    requires d1 <= d2
    ensures Rings(pts, far, d2) == Rings(pts, far, d1) + more
    decreases d2 - d1
  {
    if d1 == d2 {
      more := [];
    } else {
      var m := RingsExtend(pts, far, d1, d2 - 1);
      if d2 <= 1 {
        more := [];
      } else {
        more := m + Ring(pts, far, d2 - 1);
      }
    }
  }

  /** The points within d + 1 are those within d and those on ring d. */
  lemma {:induction false} WithinStep(pts: seq<Point>, far: Point -> int, d: int)
    requires d >= 1
    ensures |Within(pts, far, d + 1)| == |Within(pts, far, d)| + |Ring(pts, far, d)|
  {
    if |pts| > 0 {
      WithinStep(pts[..|pts| - 1], far, d);
    }
  }

  /** The rings up to d hold exactly as many points as lie within d. */
  lemma {:induction false} RingsCount(pts: seq<Point>, far: Point -> int, d: int)
    requires d >= 1
    ensures |Rings(pts, far, d)| == |Within(pts, far, d)|
    decreases d
  {
    if d == 1 {
      FilterNone(pts, q => 1 <= far(q) < d);
    } else {
      RingsCount(pts, far, d - 1);
      WithinStep(pts, far, d - 1);
    }
  }

  /** Beyond every point, the points within range are all the points but the centre. */
  lemma {:induction false} WithinAll(pts: seq<Point>, c: Point, far: Point -> int, d: int)
    requires Distinct(pts) && c in pts && Centred(pts, c, far)
    requires forall q :: q in pts ==> far(q) < d
    ensures |Within(pts, far, d)| == |pts| - 1
  {
    var keep := q => 1 <= far(q) < d;
    var init, last := pts[..|pts| - 1], pts[|pts| - 1];
    assert pts == init + [last];
    if last == c {
      forall q | q in init
        ensures keep(q)
      {
        var k :| 0 <= k < |init| && init[k] == q;
        assert pts[k] != pts[|pts| - 1];
      }
      FilterAll(init, keep);
    } else {
      WithinAll(init, c, far, d);
    }
  }

  /** The rings come out in nondecreasing distance. */
  lemma {:induction false} RingsOrdered(pts: seq<Point>, far: Point -> int, d: int)
    ensures forall i, j :: 0 <= i < j < |Rings(pts, far, d)| ==>
      far(Rings(pts, far, d)[i]) <= far(Rings(pts, far, d)[j])
    decreases d
  {
    if d > 1 {
      RingsOrdered(pts, far, d - 1);
      RingsMembers(pts, far, d - 1);
      RingMembers(pts, far, d - 1);
      var a, b := Rings(pts, far, d - 1), Ring(pts, far, d - 1);
      var r := a + b;
      forall i, j | 0 <= i < j < |r|
        ensures far(r[i]) <= far(r[j])
      {
        if j < |a| {
          assert r[i] == a[i] && r[j] == a[j];
        } else if i < |a| {
          assert r[i] == a[i] && r[i] in a && r[j] == b[j - |a|] && r[j] in b;
        } else {
          assert r[i] == b[i - |a|] && r[i] in b && r[j] == b[j - |a|] && r[j] in b;
        }
      }
    }
  }

  /** Distinct points give distinct rings. */
  lemma {:induction false} RingsDistinct(pts: seq<Point>, far: Point -> int, d: int)
    requires Distinct(pts)
    ensures Distinct(Rings(pts, far, d))
    decreases d
  {
    if d > 1 {
      RingsDistinct(pts, far, d - 1);
      RingsMembers(pts, far, d - 1);
      RingMembers(pts, far, d - 1);
      var a, b := Rings(pts, far, d - 1), Ring(pts, far, d - 1);
      FilterDistinct(pts, q => far(q) == d - 1);
      var r := a + b;
      forall i, j | 0 <= i < j < |r|
        ensures r[i] != r[j]
      {
        if j < |a| {
          assert r[i] == a[i] && r[j] == a[j];
        } else if i < |a| {
          assert r[i] == a[i] && r[i] in a && r[j] == b[j - |a|] && r[j] in b;
        } else {
          assert r[i] == b[i - |a|] && r[j] == b[j - |a|];
        }
      }
    }
  }

  /** The number of points a cluster of the given size holds: at least the first point. */
  function Target(size: int): nat
  {
    if size >= 1 then size else 1
  }

  /** The points k clusters of the given size hold together. */
  function Needed(k: nat, size: int): nat
  {
    if k == 0 then 0 else Needed(k - 1, size) + Target(size)
  }

  /** k clusters hold k times a cluster's points. */
  lemma {:induction false} NeededIsProduct(k: nat, size: int)
    ensures Needed(k, size) == k * Target(size)
  {
    if k > 0 {
      NeededIsProduct(k - 1, size);
      assert k * Target(size) == (k - 1) * Target(size) + Target(size);
    }
  }

  /** Fewer clusters need no more points. */
  lemma {:induction false} NeededMono(j: nat, k: nat, size: int)
    requires j <= k
    ensures Needed(j, size) <= Needed(k, size)
    decreases k
  {
    if j < k {
      NeededMono(j, k - 1, size);
    }
  }

  /**
   * The points gathered around c: c itself, then the other points ring by ring of
   * distance (in their order within each ring), stopping once `size` points are gathered.
   */
  function Gather(pts: seq<Point>, c: Point, far: Point -> int, size: int): (cl: seq<Point>)
    ensures |cl| >= 1 && cl[0] == c
    ensures forall q {:trigger q in cl} :: q in cl ==> q == c || q in pts
  {
    var more := Take(Rings(pts, far, Reach(pts, far) + 1), size - 1);
    assert forall q :: q in more ==> q in pts by {
      assert forall q :: q in more ==> q in Rings(pts, far, Reach(pts, far) + 1);
      RingsMembers(pts, far, Reach(pts, far) + 1);
    }
    [c] + more
  }

  /** With enough distinct points the gathering has exactly `size` points (at least one). */
  lemma {:induction false} GatherSize(pts: seq<Point>, c: Point, far: Point -> int, size: int)
    requires Distinct(pts) && c in pts && Centred(pts, c, far) && |pts| >= size
    ensures |Gather(pts, c, far, size)| == Target(size)
  {
    var d := Reach(pts, far) + 1;
    assert forall q :: q in pts ==> far(q) < d by {
      ReachBound(pts, far);
    }
    var all := Rings(pts, far, d);
    assert |all| == |pts| - 1 by {
      RingsCount(pts, far, d);
      WithinAll(pts, c, far, d);
    }
    assert Gather(pts, c, far, size) == [c] + Take(all, size - 1);
  }

  /** Gathering from distinct points repeats no point. */
  lemma {:induction false} GatherDistinct(pts: seq<Point>, c: Point, far: Point -> int, size: int)
    requires Distinct(pts) && Centred(pts, c, far)
    ensures Distinct(Gather(pts, c, far, size))
  {
    var all := Rings(pts, far, Reach(pts, far) + 1);
    var cl := Gather(pts, c, far, size);
    assert cl == [c] + Take(all, size - 1);
    assert Distinct(all) && c !in all by {
      RingsDistinct(pts, far, Reach(pts, far) + 1);
      RingsMembers(pts, far, Reach(pts, far) + 1);
    }
    forall i, j | 0 <= i < j < |cl|
      ensures cl[i] != cl[j]
    {
      assert cl[j] == all[j - 1] && cl[j] in all;
      if i > 0 {
        assert cl[i] == all[i - 1];
      } else {
        RingsMembers(pts, far, Reach(pts, far) + 1);
      }
    }
  }

  /** The gathering comes out in nondecreasing distance from c. */
  lemma {:induction false} GatherOrdered(pts: seq<Point>, c: Point, far: Point -> int, size: int)
    requires Centred(pts, c, far)
    ensures forall i, j :: 0 <= i < j < |Gather(pts, c, far, size)| ==>
      far(Gather(pts, c, far, size)[i]) <= far(Gather(pts, c, far, size)[j])
  {
    var all := Rings(pts, far, Reach(pts, far) + 1);
    var cl := Gather(pts, c, far, size);
    assert cl == [c] + Take(all, size - 1);
    assert forall i, j :: 0 <= i < j < |all| ==> far(all[i]) <= far(all[j]) by {
      RingsOrdered(pts, far, Reach(pts, far) + 1);
    }
    forall i, j | 0 <= i < j < |cl|
      ensures far(cl[i]) <= far(cl[j])
    {
      assert cl[j] == all[j - 1] && cl[j] in all;
      if i > 0 {
        assert cl[i] == all[i - 1];
      } else {
        RingsMembers(pts, far, Reach(pts, far) + 1);
      }
    }
  }

  /** No point of pts left out of the gathering is nearer to c than a point taken. */
  lemma {:induction false} GatherNearest(pts: seq<Point>, c: Point, far: Point -> int, size: int)
    requires Centred(pts, c, far)
    ensures forall m, q :: m in Gather(pts, c, far, size) && q in pts && q !in Gather(pts, c, far, size) ==>
      far(m) <= far(q)
  {
    var all := Rings(pts, far, Reach(pts, far) + 1);
    var more := Take(all, size - 1);
    var cl := Gather(pts, c, far, size);
    assert cl == [c] + more;
    assert forall i, j :: 0 <= i < j < |all| ==> far(all[i]) <= far(all[j]) by {
      RingsOrdered(pts, far, Reach(pts, far) + 1);
    }
    forall m, q | m in cl && q in pts && q !in cl
      ensures far(m) <= far(q)
    {
      if m != c {
        assert q in all by {
          ReachBound(pts, far);
          RingsMembers(pts, far, Reach(pts, far) + 1);
        }
        var k :| 0 <= k < |all| && all[k] == q;
        var i :| 0 <= i < |cl| && cl[i] == m;
        assert m == all[i - 1];
      }
    }
  }

  /**
   * The cluster cluster_peel gathers from pts: the first point, then the nearest others by
   * truncated distance from it, `size` points in all (at least one).
   */
  function ClusterOf(pts: seq<Point>, size: int): (cl: seq<Point>)
    requires |pts| > 0
    ensures |cl| >= 1 && cl[0] == pts[0] && forall q {:trigger q in cl} :: q in cl ==> q in pts
  {
    Gather(pts, pts[0], DistanceFrom(pts[0]), size)
  }

  /** The rings out to the farthest point hold every other point, enough to fill the cluster. */
  lemma GatherFills(pts: seq<Point>, size: int)
    requires Distinct(pts) && |pts| >= size && |pts| > 0
    ensures |Take(Rings(pts, DistanceFrom(pts[0]), Reach(pts, DistanceFrom(pts[0])) + 1), size - 1)| >= size - 1
  {
    var far := DistanceFrom(pts[0]);
    var d := Reach(pts, far) + 1;
    DistanceCentred(pts, pts[0]);
    RingsCount(pts, far, d);
    ReachBound(pts, far);
    WithinAll(pts, pts[0], far, d);
  }

  /** What the gathering loop holds before scanning distance d: the first point, then the rings below d. */
  function Gathered(pts: seq<Point>, d: int, size: int): seq<Point>
    requires |pts| > 0
  {
    [pts[0]] + Take(Rings(pts, DistanceFrom(pts[0]), d), size - 1)
  }

  /** The rings below d and ring d make the rings below d + 1. */
  lemma {:induction false} RingsStep(pts: seq<Point>, far: Point -> int, d: int, size: int)
    requires d >= 1 && |Take(Rings(pts, far, d), size - 1)| < size - 1
    ensures Rings(pts, far, d) + Take(Ring(pts, far, d), size - 1 - |Rings(pts, far, d)|)
         == Take(Rings(pts, far, d + 1), size - 1)
  {
    assert Rings(pts, far, d + 1) == Rings(pts, far, d) + Ring(pts, far, d);
    TakeAppend(Rings(pts, far, d), Ring(pts, far, d), size - 1);
  }

  /** While the cluster is short, some point is still farther than the current distance. */
  lemma {:induction false} GatherUnfinished(pts: seq<Point>, d: int, size: int)
    requires Distinct(pts) && |pts| >= size && |pts| > 0
    requires 1 <= d <= Reach(pts, DistanceFrom(pts[0])) + 1 && |Gathered(pts, d, size)| < size
    ensures d <= Reach(pts, DistanceFrom(pts[0]))
  {
    var far := DistanceFrom(pts[0]);
    var filled := Take(Rings(pts, far, Reach(pts, far) + 1), size - 1);
    assert |filled| >= size - 1 by {
      GatherFills(pts, size);
    }
    assert |Gathered(pts, d, size)| == 1 + |Take(Rings(pts, far, d), size - 1)|;
  }

  /** While the cluster is short, scanning the ring at distance d extends it to distance d + 1. */
  lemma {:induction false} GatherNext(pts: seq<Point>, d: int, size: int)
    requires |pts| > 0 && d >= 1 && |Gathered(pts, d, size)| < size
    ensures Gathered(pts, d + 1, size) ==
      Gathered(pts, d, size) + Take(Ring(pts, DistanceFrom(pts[0]), d), size - |Gathered(pts, d, size)|)
  {
    var far := DistanceFrom(pts[0]);
    var inner, ring := Rings(pts, far, d), Ring(pts, far, d);
    assert Gathered(pts, d, size) == [pts[0]] + inner;
    var more := Take(ring, size - 1 - |inner|);
    assert Take(Rings(pts, far, d + 1), size - 1) == inner + more by {
      RingsStep(pts, far, d, size);
    }
    assert [pts[0]] + (inner + more) == ([pts[0]] + inner) + more;
  }

  /** Once the rings below d fill the cluster, further rings add nothing to it. */
  lemma {:induction false} GatherComplete(pts: seq<Point>, d: int, size: int)
    requires |pts| > 0 && 1 <= d <= Reach(pts, DistanceFrom(pts[0])) + 1
    requires |Gathered(pts, d, size)| >= size
    ensures Gathered(pts, d, size) == ClusterOf(pts, size)
  {
    var far := DistanceFrom(pts[0]);
    var more := RingsExtend(pts, far, d, Reach(pts, far) + 1);
    TakeAppend(Rings(pts, far, d), more, size - 1);
  }

  /**
   * With enough distinct points the cluster has `size` points (at least one), none twice,
   * in nondecreasing truncated distance from the first point, and no point left out is
   * nearer to it than a point taken.
   */
  lemma {:induction false} ClusterSpec(pts: seq<Point>, size: int)
    requires Distinct(pts) && |pts| >= size && |pts| > 0
    ensures |ClusterOf(pts, size)| == Target(size)
    ensures Distinct(ClusterOf(pts, size))
    ensures forall i, j :: 0 <= i < j < |ClusterOf(pts, size)| ==>
      Pythagorean(pts[0], ClusterOf(pts, size)[i]) <= Pythagorean(pts[0], ClusterOf(pts, size)[j])
    ensures forall m, q :: m in ClusterOf(pts, size) && q in pts && q !in ClusterOf(pts, size) ==>
      Pythagorean(pts[0], m) <= Pythagorean(pts[0], q)
  {
    var c, far := pts[0], DistanceFrom(pts[0]);
    DistanceCentred(pts, c);
    GatherSize(pts, c, far, size);
    GatherDistinct(pts, c, far, size);
    GatherOrdered(pts, c, far, size);
    GatherNearest(pts, c, far, size);
  }

  /** The points of pts not in cl, in their order in pts. */
  function Without(pts: seq<Point>, cl: seq<Point>): (r: seq<Point>)
    ensures |r| <= |pts|
    ensures forall i :: 0 <= i < |r| ==> r[i] !in cl
  {
    FilterKeeps(pts, q => q !in cl);
    Filter(pts, q => q !in cl)
  }

  /** A point is kept exactly when it is in pts and not in cl. */
  lemma WithoutMembers(pts: seq<Point>, cl: seq<Point>)
    ensures forall q {:trigger q in Without(pts, cl)} :: q in Without(pts, cl) <==> q in pts && q !in cl
  {
    FilterMembers(pts, q => q !in cl);
  }

  /** Removing distinct points that all occur among distinct points removes exactly that many. */
  lemma {:induction false} WithoutCount(pts: seq<Point>, cl: seq<Point>)
    requires Distinct(pts) && Distinct(cl)
    requires forall q :: q in cl ==> q in pts
    ensures |Without(pts, cl)| == |pts| - |cl|
  {
    var rest := Without(pts, cl);
    FilterDistinct(pts, q => q !in cl);
    WithoutMembers(pts, cl);
    DistinctCard(pts);
    DistinctCard(cl);
    DistinctCard(rest);
    var P, C, R := set q | q in pts, set q | q in cl, set q | q in rest;
    assert R == P - C;
    assert P == R + C && R * C == {};
  }

  /** One round of cluster_peel leaves distinct points, one cluster fewer. */
  lemma {:induction false} ClusterRound(pts: seq<Point>, size: int)
    requires Distinct(pts) && |pts| >= size && |pts| > 0
    ensures Distinct(Without(pts, ClusterOf(pts, size)))
    ensures |Without(pts, ClusterOf(pts, size))| == |pts| - Target(size)
  {
    var cl := ClusterOf(pts, size);
    ClusterSpec(pts, size);
    WithoutCount(pts, cl);
    FilterDistinct(pts, q => q !in cl);
  }

  /**
   * One round of cluster_peel on the points and the edges drawn so far: gather a cluster
   * around the first point, peel it, and keep the points outside the cluster. The points
   * kept are in the window, distinct and one cluster fewer.
   */
  function ClusterRoundOf(pts: seq<Point>, edges: seq<Edge>, w: int, size: int): (r: (seq<Point>, seq<Edge>))
    requires QuickHull.XInWindow(pts, w) && Distinct(pts) && |pts| >= size && |pts| > 0
    ensures QuickHull.XInWindow(r.0, w) && Distinct(r.0)
    ensures |r.0| == |pts| - Target(size)
    ensures forall q {:trigger q in r.0} :: q in r.0 ==> q in pts
    ensures |edges| <= |r.1| && r.1[..|edges|] == edges
  {
    var cl := ClusterOf(pts, size);
    ClusterRound(pts, size);
    SubsetXInWindow(cl, pts, w);
    var rest := Without(pts, cl);
    WithoutMembers(pts, cl);
    SubsetXInWindow(rest, pts, w);
    (rest, PeelOf(cl, edges, w).1)
  }

  /** The points one round keeps are exactly the points outside its cluster. */
  lemma ClusterRoundKeeps(pts: seq<Point>, edges: seq<Edge>, w: int, size: int)
    requires QuickHull.XInWindow(pts, w) && Distinct(pts) && |pts| >= size && |pts| > 0
    ensures forall q {:trigger q in ClusterRoundOf(pts, edges, w, size).0} :: q in ClusterRoundOf(pts, edges, w, size).0 <==> q in pts && q !in ClusterOf(pts, size)
  {
    WithoutMembers(pts, ClusterOf(pts, size));
  }

  /**
   * k rounds of cluster_peel: k - 1 rounds, then one more on what they leave. With enough
   * distinct points every round removes exactly one cluster's worth of points.
   */
  function ClusterPeelOf(pts: seq<Point>, edges: seq<Edge>, w: int, size: int, k: nat): (r: (seq<Point>, seq<Edge>))
    requires QuickHull.XInWindow(pts, w) && Distinct(pts) && |pts| >= Needed(k, size)
    ensures QuickHull.XInWindow(r.0, w) && Distinct(r.0)
    ensures |r.0| == |pts| - Needed(k, size)
    ensures forall q {:trigger q in r.0} :: q in r.0 ==> q in pts
    ensures |edges| <= |r.1| && r.1[..|edges|] == edges
    decreases k
  {
    if k == 0 then (pts, edges)
    else
      var before := ClusterPeelOf(pts, edges, w, size, k - 1);
      var r := ClusterRoundOf(before.0, before.1, w, size);
      assert r.1[..|edges|] == r.1[..|before.1|][..|edges|];
      r
  }

  /** Round k + 1 of cluster_peel works on what the first k rounds leave. */
  lemma ClusterPeelNext(pts: seq<Point>, edges: seq<Edge>, w: int, size: int, k: nat)
    requires QuickHull.XInWindow(pts, w) && Distinct(pts) && |pts| >= Needed(k + 1, size)
    ensures |pts| >= Needed(k, size)
    ensures |ClusterPeelOf(pts, edges, w, size, k).0| >= Target(size)
    ensures ClusterPeelOf(pts, edges, w, size, k + 1) ==
      ClusterRoundOf(ClusterPeelOf(pts, edges, w, size, k).0, ClusterPeelOf(pts, edges, w, size, k).1, w, size)
  {
  }

  /**
   * cluster_peel's gathering loop: starting from the first point of pts, scan pts for
   * distance 1, 2, ... from it, appending each point at that truncated distance, and
   * stop as soon as `size` points are gathered.
   */
  method GatherCluster(pts: seq<Point>, size: int) returns (clusterPoints: seq<Point>)
    requires Distinct(pts) && |pts| >= size && |pts| > 0
    ensures clusterPoints == ClusterOf(pts, size)
  {
    ghost var reach := Reach(pts, DistanceFrom(pts[0]));
    var dist := 1;
    clusterPoints := [pts[0]];
    while |clusterPoints| < size
      invariant 1 <= dist <= reach + 1
      invariant clusterPoints == Gathered(pts, dist, size)
      decreases reach + 1 - dist
    {
      clusterPoints := GatherRing(pts, clusterPoints, dist, size);
      dist := dist + 1;
    }
    assert clusterPoints == ClusterOf(pts, size) by {
      GatherComplete(pts, dist, size);
    }
  }

  /** One round of the gathering loop: the ring at `dist` is scanned while the cluster is short. */
  method GatherRing(pts: seq<Point>, gathered: seq<Point>, dist: int, size: int) returns (clusterPoints: seq<Point>)
    requires Distinct(pts) && |pts| >= size && |pts| > 0
    requires 1 <= dist <= Reach(pts, DistanceFrom(pts[0])) + 1
    requires gathered == Gathered(pts, dist, size) && |gathered| < size
    ensures dist <= Reach(pts, DistanceFrom(pts[0]))
    ensures clusterPoints == Gathered(pts, dist + 1, size)
  {
    GatherUnfinished(pts, dist, size);
    assert gathered[0] == pts[0];
    GatherNext(pts, dist, size);
    clusterPoints := ScanRing(pts, gathered, dist, size);
  }

  /**
   * One pass of cluster_peel's scan over pts for the points at distance `dist` from the
   * first gathered point, appending each point found there until `size` are gathered.
   */
  method ScanRing(pts: seq<Point>, gathered: seq<Point>, dist: int, size: int) returns (clusterPoints: seq<Point>)
    requires |gathered| >= 1
    ensures clusterPoints ==
      gathered + Take(Ring(pts, DistanceFrom(gathered[0]), dist), size - |gathered|)
  {
    ghost var far := DistanceFrom(gathered[0]);
    clusterPoints := gathered;
    var j := 0;
    while j < |pts|
      invariant 0 <= j <= |pts|
      invariant clusterPoints == gathered + Ring(pts[..j], far, dist)
      invariant |clusterPoints| <= if |gathered| >= size then |gathered| else size
    {
      if |clusterPoints| >= size {
        break;
      }
      var p := pts[j];
      if Pythagorean(clusterPoints[0], p) == dist {
        clusterPoints := clusterPoints + [p];
      }
      RingScanStep(pts, j, far, dist);
      j := j + 1;
    }
    RingScanCut(pts, j, far, dist, size - |gathered|);
  }

  /** cluster_peel's removal: the points of pts not in the cluster, in order. */
  method Remaining(pts: seq<Point>, cl: seq<Point>) returns (newPoints: seq<Point>)
    ensures newPoints == Without(pts, cl)
  {
    newPoints := [];
    for i := 0 to |pts|
      invariant newPoints == Without(pts[..i], cl)
    {
      var p1 := pts[i];
      var pointExists := false;
      for j := 0 to |cl|
        invariant pointExists <==> p1 in cl[..j]
      {
        var p2 := cl[j];
        if p1.x == p2.x && p1.y == p2.y {
          pointExists := true;
        }
        assert cl[..j + 1] == cl[..j] + [cl[j]];
      }
      assert cl[..|cl|] == cl;
      assert pts[..i + 1][..i] == pts[..i];
      if !pointExists {
        newPoints := newPoints + [p1];
      }
    }
    assert pts[..|pts|] == pts;
  }

  // ---------------------------------------------------------------------------------------
  // The program state
  // ---------------------------------------------------------------------------------------

  /** The global state of the hull program. */
  class HullPeeler {
    var w: int
    var h: int
    var n: int
    var clusters: int
    var points: seq<Point>
    var edges: seq<Edge>
    var clustering: bool

    /** The points are distinct and in the window; the cluster settings are usable. */
    predicate Valid()
      reads this
    {
      AllInWindow(points, w, h) && Distinct(points) && n >= 0 && clusters >= 1
    }

    /** The program's start-up settings (a 1000 by 800 window, 100 points, 5 clusters) over the given points. */
    constructor(points: seq<Point>)
      requires AllInWindow(points, 1000, 800) && Distinct(points)
      ensures Valid()
      ensures w == 1000 && h == 800 && n == 100 && clusters == 5
      ensures this.points == points && edges == [] && !clustering
    {
      w, h, n, clusters := 1000, 800, 100, 5;
      this.points := points;
      edges, clustering := [], false;
    }

    /** convex_hull: append the hull of pts to the stored edges. */
    method ConvexHull(pts: seq<Point>)
      requires QuickHull.XInWindow(pts, w)
      modifies this`edges
      ensures edges == old(edges) + QuickHull.HullOf(pts, w)
    {
      var added := QuickHull.ConvexHull(pts, w);
      edges := edges + added;
    }

    /** peel's test of one point against every stored edge, stopping at the first whose line holds it. */
    method OnAnyLine(p: Point) returns (pointExists: bool)
      ensures pointExists <==> OnSomeLine(p, edges)
    {
      pointExists := false;
      for i := 0 to |edges|
        invariant forall k :: 0 <= k < i ==> Dist(edges[k].p1, edges[k].p2, p) != 0
      {
        var e := edges[i];
        var a := e.p1.y - e.p2.y;
        var b := e.p2.x - e.p1.x;
        var c := e.p1.x * e.p2.y - e.p1.y * e.p2.x;
        var d := a * p.x + b * p.y + c;
        if d == 0 {
          assert Dist(edges[i].p1, edges[i].p2, p) == 0;
          pointExists := true;
          break;
        }
      }
    }

    /** One round of peel's filter: the points of pts on no stored edge's line, in order. */
    method Survivors(pts: seq<Point>) returns (newPoints: seq<Point>)
      ensures newPoints == OffLines(pts, edges)
    {
      newPoints := [];
      for i := 0 to |pts|
        invariant newPoints == OffLines(pts[..i], edges)
      {
        var p := pts[i];
        var pointExists := OnAnyLine(p);
        assert pts[..i + 1][..i] == pts[..i];
        if !pointExists {
          newPoints := newPoints + [p];
        }
      }
      assert pts[..|pts|] == pts;
    }

    /**
     * peel: while more than two points remain, append their hull and keep the points on no
     * stored edge's line. Outside clustering the stored points are cleared afterwards.
     */
    method Peel(pts: seq<Point>)
      requires QuickHull.XInWindow(pts, w)
      modifies this`edges, this`points
      ensures edges == PeelOf(pts, old(edges), w).1
      ensures points == if clustering then old(points) else []
    {
      var current := pts;
      while |current| > 2
        invariant QuickHull.XInWindow(current, w)
        invariant PeelOf(current, edges, w) == PeelOf(pts, old(edges), w)
        invariant points == old(points)
        decreases |current|
      {
        ghost var before := edges;
        ConvexHull(current);
        PeelRoundShrinks(current, before, w);
        var newPoints := Survivors(current);
        OffLinesMembers(current, edges);
        SubsetXInWindow(newPoints, current, w);
        current := newPoints;
      }
      if !clustering {
        points := [];
      }
    }

    /**
     * cluster_peel: `clusters` times, gather n / clusters points around the first stored
     * point, peel them, and remove them from the stored points.
     */
    method ClusterPeel()
      requires Valid() && |points| >= Needed(clusters, n / clusters)
      modifies this`points, this`edges, this`clustering
      ensures Valid() && !clustering
      ensures (points, edges) == ClusterPeelOf(old(points), old(edges), w, n / clusters, clusters)
    {
      clustering := true;
      ghost var pts, es := points, edges;
      var size, rounds := n / clusters, clusters;
      assert QuickHull.XInWindow(pts, w);
      for i := 0 to rounds
        invariant Valid() && clustering
        invariant |pts| >= Needed(i, size)
        invariant (points, edges) == ClusterPeelOf(pts, es, w, size, i)
      {
        assert |pts| >= Needed(i + 1, size) by {
          NeededMono(i + 1, rounds, size);
        }
        NextCluster(pts, es, size, i);
      }
      clustering := false;
    }

    /** Round i + 1 of cluster_peel, after i rounds have run on pts and es. */
    method NextCluster(ghost pts: seq<Point>, ghost es: seq<Edge>, size: int, ghost i: nat)
      requires Valid() && clustering
      requires QuickHull.XInWindow(pts, w) && Distinct(pts) && |pts| >= Needed(i + 1, size)
      requires (points, edges) == ClusterPeelOf(pts, es, w, size, i)
      modifies this`points, this`edges
      ensures Valid() && clustering
      ensures (points, edges) == ClusterPeelOf(pts, es, w, size, i + 1)
    {
      ClusterPeelNext(pts, es, w, size, i);
      PeelOneCluster(size);
    }

    /**
     * The body of cluster_peel's loop: gather a cluster around the first stored point, peel
     * it, and keep only the stored points outside it.
     */
    method PeelOneCluster(size: int)
      requires Valid() && clustering && |points| >= size && |points| > 0
      modifies this`points, this`edges
      ensures Valid() && clustering
      ensures (points, edges) == ClusterRoundOf(old(points), old(edges), w, size)
    {
      ghost var pts := points;
      ClusterRound(pts, size);
      var clusterPoints := GatherCluster(points, size);
      SubsetInWindow(clusterPoints, pts, w, h);
      Peel(clusterPoints);
      var newPoints := Remaining(points, clusterPoints);
      WithoutMembers(pts, clusterPoints);
      SubsetInWindow(newPoints, pts, w, h);
      points := newPoints;
    }
  }
}
