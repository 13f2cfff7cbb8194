/** The point helpers of src/aoc/tools.py: Manhattan distance, vector
    addition and Bresenham's line between two lattice points. */
module Geometry {
  import opened PyInt

  type Point = (int, int)

  /** `manhattan_distance(p1, p2)`. */
  function Manhattan(p1: Point, p2: Point): (d: nat)
    ensures d == 0 <==> p1 == p2
  {
    Abs(p1.0 - p2.0) + Abs(p1.1 - p2.1)
  }

  /** The distance is a metric: symmetric, and no shorter than going round
      through a third point would allow. */
  lemma ManhattanMetric(p: Point, q: Point, r: Point)
    ensures Manhattan(p, q) == Manhattan(q, p)
    ensures Manhattan(p, r) <= Manhattan(p, q) + Manhattan(q, r)
  {
  }

  /** `add_vec(v1, v2)`. */
  function AddVec(v1: Point, v2: Point): (r: Point)
    ensures r.0 - v1.0 == v2.0 && r.1 - v1.1 == v2.1
  {
    (v1.0 + v2.0, v1.1 + v2.1)
  }

  /** Moving two points by the same vector keeps their distance, and the
      distance of a move is the size of the vector. */
  lemma AddVecKeepsDistance(p: Point, q: Point, v: Point)
    ensures Manhattan(AddVec(p, v), AddVec(q, v)) == Manhattan(p, q)
    ensures Manhattan(p, AddVec(p, v)) == Manhattan((0, 0), v)
  {
  }

  /** Two points are adjacent in the eight-neighbourhood (or equal). */
  predicate Adjacent(p: Point, q: Point) {
    Abs(p.0 - q.0) <= 1 && Abs(p.1 - q.1) <= 1
  }

  /** Each point is a king's move away from the one before, and not the same. */
  predicate Chained(ps: seq<Point>) {
    forall k :: 0 < k < |ps| ==> Adjacent(ps[k - 1], ps[k]) && ps[k - 1] != ps[k]
  }

  lemma ChainedSnoc(ps: seq<Point>, p: Point)
    requires Chained(ps)
    requires ps != [] ==> Adjacent(ps[|ps| - 1], p) && ps[|ps| - 1] != p
    ensures Chained(ps + [p])
  {
  }

  /** `bresenham_line(p1, p2)`: the points from `p1` to `p2` inclusive, each
      a king's move away from the one before.  Every iteration moves, so
      the line has at most `|dx| + |dy| + 1` points. */
  method BresenhamLine(p1: Point, p2: Point) returns (points: seq<Point>)
    ensures |points| >= 1 && points[0] == p1 && points[|points| - 1] == p2
    ensures Chained(points)
    ensures |points| <= Abs(p2.0 - p1.0) + Abs(p2.1 - p1.1) + 1
  {
    var (x1, y1) := p1;
    var (x2, y2) := p2;
    points := [];
    var dx: int, dy: int := Abs(x2 - x1), -(Abs(y2 - y1) as int);
    var sx: int := if x1 < x2 then 1 else -1;
    var sy: int := if y1 < y2 then 1 else -1;
    var err: int := dx + dy;
    // i and j count the steps taken along each axis
    ghost var a, b := dx, -dy;
    ghost var i, j := 0, 0;
    while true
      invariant 0 <= i <= a && 0 <= j <= b
      invariant x1 == p1.0 + sx * i && y1 == p1.1 + sy * j
      invariant err == a * (j + 1) - b * (i + 1)
      invariant |points| <= i + j
      invariant points == [] || (Adjacent(points[|points| - 1], (x1, y1)) && points[|points| - 1] != (x1, y1))
      invariant points == [] ==> i == 0 && j == 0
      invariant points != [] ==> points[0] == p1
      invariant Chained(points)
      decreases (a - i) + (b - j)
    {
      ChainedSnoc(points, (x1, y1));
      points := points + [(x1, y1)];
      if x1 == x2 && y1 == y2 {
        break;
      }
      ghost var before := (x1, y1);
      ghost var steps := i + j;
      var e2 := 2 * err;
      AxisDone(p1.0, sx, i, a, x2);
      AxisDone(p1.1, sy, j, b, y2);
      AxisStepBounds(a, b, i, j, e2, x1 == x2, y1 == y2);
      if e2 >= dy {
        err := err + dy;
        x1 := x1 + sx;
        assert b * (i + 2) == b * (i + 1) + b;
        i := i + 1;
      }
      if e2 <= dx {
        err := err + dx;
        y1 := y1 + sy;
        assert a * (j + 2) == a * (j + 1) + a;
        j := j + 1;
      }
      assert i + j > steps;
      assert Adjacent(before, (x1, y1)) && before != (x1, y1);
    }
  }

  /** Along one axis, the walk from `start` in direction `s` is at `target`
      exactly after `a` steps. */
  lemma AxisDone(start: int, s: int, i: int, a: int, target: int)
    requires s == 1 || s == -1
    requires target == start + s * a
    ensures start + s * i == target <==> i == a
  {
  }

  /** The arithmetic behind Bresenham's loop: with `e2 = 2 * err`, at least
      one axis steps, and an axis already at its end does not step. */
  lemma AxisStepBounds(a: int, b: int, i: int, j: int, e2: int, xDone: bool, yDone: bool)
    requires 0 <= i <= a && 0 <= j <= b
    requires e2 == 2 * (a * (j + 1) - b * (i + 1))
    requires xDone <==> i == a
    requires yDone <==> j == b
    requires !(xDone && yDone)
    ensures e2 >= -b || e2 <= a
    ensures i == a ==> e2 < -b
    ensures j == b ==> e2 > a
  {
    if i == a {
      assert j + 1 <= b;
      assert a * (j + 1) <= a * b;
    }
    if j == b {
      assert i + 1 <= a;
      assert b * (i + 1) <= b * a;
    }
  }
}
