/**
 * The integer predicates of the divide-and-conquer convex hull
 * (A2/convex_hull.py): quadrant classification, the angular comparator
 * used around the fixed centre `mid = [0, 0]`, the signed triangle area
 * with the three orientation tests built on it, and the two scans over a
 * list of points (`is_colinear`, `point_checker_for_equal_points`).
 *
 * Points have integer coordinates. `triangle_area` divides an integer by
 * two, so it is modelled exactly as a `real`; `EPSILON` is Python's
 * `sys.float_info.epsilon`, which is exactly 2^-52.
 */
module ConvexHull {

  datatype Point = Point(x: int, y: int)

  /** The centre used by `compare`, the module-level `mid = [0, 0]`. */
  const Mid: Point := Point(0, 0)

  /** `sys.float_info.epsilon`, the gap between 1.0 and the next double: 2^-52. */
  const Epsilon: real := 1.0 / 4503599627370496.0

  // ---------------------------------------------------------------------------
  // quadrant and compare
  // ---------------------------------------------------------------------------

  /** The quadrant of `p`; a point on an axis goes to the first case that accepts it. */
  function Quadrant(p: Point): (q: int)
    ensures 1 <= q <= 4
    ensures q == 1 <==> p.x >= 0 && p.y >= 0
    ensures q == 2 <==> p.x < 0 && p.y >= 0
    ensures q == 3 <==> p.x <= 0 && p.y < 0
    ensures q == 4 <==> p.x > 0 && p.y < 0
  {
    if p.x >= 0 && p.y >= 0 then 1
    else if p.x <= 0 && p.y >= 0 then 2
    else if p.x <= 0 && p.y <= 0 then 3
    else 4
  }

  /**
   * The comparator handed to `cmp_to_key`: points are first ordered by the
   * quadrant they lie in relative to `Mid`, and within one quadrant by the
   * sign of a cross product. It never answers 0.
   */
  function Compare(p1: Point, q1: Point): (r: int)
    ensures r == -1 || r == 1
  {
    var p := Point(p1.x - Mid.x, p1.y - Mid.y);
    var q := Point(q1.x - Mid.x, q1.y - Mid.y);
    var one := Quadrant(p);
    var two := Quadrant(q);
    if one != two then
      (if one < two then -1 else 1)
    else if p.y * q.x < q.y * p.x then -1
    else 1
  }

  /** A point never compares below itself: `compare(p, p)` is 1. */
  lemma CompareSelf(p: Point)
    ensures Compare(p, p) == 1
  {
  }

  /** Points in different quadrants are ordered by quadrant number. */
  lemma CompareAcrossQuadrants(p: Point, q: Point)
    requires Quadrant(p) != Quadrant(q)
    ensures Compare(p, q) == -1 <==> Quadrant(p) < Quadrant(q)
  {
  }

  /**
   * Within one quadrant, `p` comes first exactly when the turn
   * Mid -> p -> q is clockwise in the sense of `IsClockwise`.
   */
  lemma CompareWithinQuadrant(p: Point, q: Point)
    requires Quadrant(p) == Quadrant(q)
    ensures Compare(p, q) == -1 <==> IsClockwise(Mid, p, q)
  {
    TwiceAreaFromMid(p, q);
    ClockwiseSign(Mid, p, q);
  }

  /** If `p` sorts before `q`, then `q` does not sort before `p`. */
  lemma CompareAntisymmetric(p: Point, q: Point)
    ensures Compare(p, q) == -1 ==> Compare(q, p) == 1
  {
  }

  // ---------------------------------------------------------------------------
  // triangle_area and the orientation predicates
  // ---------------------------------------------------------------------------

  /** Twice the signed area: the integer numerator of `triangle_area`. */
  function TwiceArea(a: Point, b: Point, c: Point): int
  {
    (c.x - b.x) * (b.y - a.y) - (b.x - a.x) * (c.y - b.y)
  }

  /**
   * The signed area is minus the shoelace formula: the source's sign
   * convention makes a counter-clockwise turn in the usual y-up axes
   * negative (see `AreaUnitExample`).
   */
  function TriangleArea(a: Point, b: Point, c: Point): (area: real)
    ensures area * 2.0 == -(a.x * (b.y - c.y) + b.x * (c.y - a.y) + c.x * (a.y - b.y)) as real
  {
    TwiceArea(a, b, c) as real / 2.0
  }

  predicate IsClockwise(a: Point, b: Point, c: Point)
  {
    TriangleArea(a, b, c) < -Epsilon
  }

  predicate IsCounterClockwise(a: Point, b: Point, c: Point)
  {
    TriangleArea(a, b, c) > Epsilon
  }

  predicate Collinear(a: Point, b: Point, c: Point)
  {
    var area := TriangleArea(a, b, c);
    (if area < 0.0 then -area else area) <= Epsilon
  }

  /** The unit triangle (0,0), (1,0), (0,1) has area -1/2. */
  lemma AreaUnitExample()
    ensures TriangleArea(Point(0, 0), Point(1, 0), Point(0, 1)) == -0.5
  {
  }

  lemma TwiceAreaFromMid(p: Point, q: Point)
    ensures TwiceArea(Mid, p, q) == q.x * p.y - q.y * p.x
  {
  }

  /** Swapping the last two points negates the area. */
  lemma AreaSwap(a: Point, b: Point, c: Point)
    ensures TriangleArea(a, c, b) == -TriangleArea(a, b, c)
  {
    assert TwiceArea(a, c, b) == -TwiceArea(a, b, c) by {
      assert (b.x - c.x) * (c.y - a.y) - (c.x - a.x) * (b.y - c.y)
          == -((c.x - b.x) * (b.y - a.y) - (b.x - a.x) * (c.y - b.y));
    }
  }

  /** Rotating the three points cyclically leaves the area unchanged. */
  lemma AreaRotate(a: Point, b: Point, c: Point)
    ensures TriangleArea(b, c, a) == TriangleArea(a, b, c)
  {
    assert TwiceArea(b, c, a) == TwiceArea(a, b, c) by {
      assert (a.x - c.x) * (c.y - b.y) - (c.x - b.x) * (a.y - c.y)
          == (c.x - b.x) * (b.y - a.y) - (b.x - a.x) * (c.y - b.y);
    }
  }

  /** A degenerate triangle (two equal corners) has zero area. */
  lemma AreaDegenerate(a: Point, b: Point, c: Point)
    requires a == b || b == c || a == c
    ensures TriangleArea(a, b, c) == 0.0
  {
    if a == c {
      assert TwiceArea(a, b, c) == (a.x - b.x) * (b.y - a.y) - (b.x - a.x) * (a.y - b.y);
    }
  }

  /**
   * With integer corners the area is a multiple of 1/2, and Epsilon is below
   * 1/2, so each orientation test reduces to the sign of the integer `TwiceArea`.
   */
  lemma ClockwiseSign(a: Point, b: Point, c: Point)
    ensures IsClockwise(a, b, c) <==> TwiceArea(a, b, c) < 0
    ensures IsCounterClockwise(a, b, c) <==> TwiceArea(a, b, c) > 0
    ensures Collinear(a, b, c) <==> TwiceArea(a, b, c) == 0
  {
    var n := TwiceArea(a, b, c);
    assert n < 0 ==> n as real <= -1.0;
    assert n > 0 ==> n as real >= 1.0;
  }

  /** Every triple is exactly one of clockwise, counter-clockwise, collinear. */
  lemma ExactlyOneOrientation(a: Point, b: Point, c: Point)
    ensures IsClockwise(a, b, c) || IsCounterClockwise(a, b, c) || Collinear(a, b, c)
    ensures !(IsClockwise(a, b, c) && IsCounterClockwise(a, b, c))
    ensures !(IsClockwise(a, b, c) && Collinear(a, b, c))
    ensures !(IsCounterClockwise(a, b, c) && Collinear(a, b, c))
  {
  }

  // ---------------------------------------------------------------------------
  // Scans over a list of points
  // ---------------------------------------------------------------------------

  predicate AllSameX(points: seq<Point>)
  {
    forall i :: 0 <= i < |points| ==> points[i].x == points[0].x
  }

  predicate AllSameY(points: seq<Point>)
  {
    forall i :: 0 <= i < |points| ==> points[i].y == points[0].y
  }

  /**
   * `is_colinear`: walks adjacent pairs, clearing `vert` on the first change
   * of x and `ho` on the first change of y, and answers false as soon as both
   * are cleared. It accepts exactly the vertical and the horizontal lines
   * (so never a diagonal one), and every list of at most one point.
   */
  method IsColinear(points: seq<Point>) returns (r: bool)
    ensures r <==> AllSameX(points) || AllSameY(points)
  {
    var ho := true;
    var vert := true;
    var i := 0;
    while i < |points| - 1
      invariant 0 <= i <= |points| || (|points| == 0 && i == 0)
      invariant vert <==> forall k :: 0 <= k <= i && k < |points| ==> points[k].x == points[0].x
      invariant ho <==> forall k :: 0 <= k <= i && k < |points| ==> points[k].y == points[0].y
      invariant vert || ho
    {
      if points[i].x != points[i + 1].x {
        vert := false;
      }
      if points[i].y != points[i + 1].y {
        ho := false;
      }
      if !vert && !ho {
        return false;
      }
      i := i + 1;
    }
    return true;
  }

  /**
   * `point_checker_for_equal_points`: true iff `p2.x` is at least every x in
   * `points` or at most every x in `points`, i.e. the vertical line through
   * `p2` has no point of the list strictly on both sides.
   */
  method PointCheckerForEqualPoints(points: seq<Point>, p2: Point) returns (r: bool)
    ensures r <==> ((forall i :: 0 <= i < |points| ==> points[i].x <= p2.x) ||
                    (forall i :: 0 <= i < |points| ==> p2.x <= points[i].x))
  {
    var correct1 := true;
    var correct2 := true;
    for k := 0 to |points|
      invariant correct1 <==> forall i :: 0 <= i < k ==> points[i].x <= p2.x
      invariant correct2 <==> forall i :: 0 <= i < k ==> p2.x <= points[i].x
    {
      if p2.x < points[k].x {
        correct1 := false;
      } else if p2.x > points[k].x {
        correct2 := false;
      }
    }
    r := correct1 || correct2;
  }
}
