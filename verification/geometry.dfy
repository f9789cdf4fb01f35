/** World-space points and the outline generators of the drawing component.
    Coordinates are mathematical reals: this abstracts IEEE single-precision
    floats, so `start.x + (end.x - start.x)` is exactly `end.x` here. */
module Geometry {
  import opened Wrappers

  datatype Point = Point(x: real, y: real, z: real)

  /** `Vector3.zero`, the default value of an unset position field. */
  const Origin: Point := Point(0.0, 0.0, 0.0)

  /** Number of angular segments of a circle outline. */
  const Segments: nat := 36

  /** A projected pointer position is moved onto the drawing plane z = 0. */
  function OnDrawingPlane(p: Point): Point
  {
    p.(z := 0.0)
  }

  function SqDist(a: Point, b: Point): (d: real)
    ensures d >= 0.0
  {
    var dx := a.x - b.x;
    var dy := a.y - b.y;
    var dz := a.z - b.z;
    dx * dx + dy * dy + dz * dz
  }

  /** The distance test of a held frame: `Vector3.Distance(current, previous) > minDistance`,
      stated on squared distances. `None` is the +infinity sentinel, which is
      farther than any threshold. */
  predicate MovedFarEnough(previous: Option<Point>, current: Point, minDistance: real)
  {
    || previous.None?
    || minDistance < 0.0
    || SqDist(current, previous.value) > minDistance * minDistance
  }

  lemma SquareMonotone(a: real, b: real)
    requires 0.0 <= a && a < b
    ensures a * a < b * b
  {
    MulNonNeg(a, b - a);
    MulPos(b, b - a);
    var p := a * (b - a);
    var q := b * (b - a);
    assert p + q == b * b - a * a;
  }

  /** Sign facts about one product, kept apart so that the solver meets
      each nonlinear term alone. */
  lemma MulNonNeg(x: real, y: real)
    requires x >= 0.0 && y >= 0.0
    ensures x * y >= 0.0
  {
  }

  lemma MulPos(x: real, y: real)
    requires x > 0.0 && y > 0.0
    ensures x * y > 0.0
  {
  }

  /** The squared comparison agrees with comparing the true Euclidean
      distance `d` (any non-negative square root of the squared distance). */
  lemma MovedFarEnoughIsDistanceTest(previous: Point, current: Point, d: real, minDistance: real)
    requires d >= 0.0 && d * d == SqDist(current, previous)
    ensures MovedFarEnough(Some(previous), current, minDistance) <==> d > minDistance
  {
    if minDistance >= 0.0 {
      if d > minDistance {
        SquareMonotone(minDistance, d);
      } else if d < minDistance {
        SquareMonotone(d, minDistance);
      }
    }
  }

  /** The closed rectangle outline dragged from corner `start` to corner `end`,
      drawn in the plane of `start`. */
  function DrawSquare(start: Point, end: Point): (corners: seq<Point>)
    ensures |corners| == 5
    ensures corners[0] == start && corners[4] == start
    ensures corners[1] == Point(start.x, end.y, start.z)
    ensures corners[2] == Point(end.x, end.y, start.z)
    ensures corners[3] == Point(end.x, start.y, start.z)
    ensures forall i :: 0 <= i < 4 ==> corners[i].x == corners[i + 1].x || corners[i].y == corners[i + 1].y
  {
    var width := end.x - start.x;
    var height := end.y - start.y;
    [ Point(start.x, start.y, start.z),
      Point(start.x, start.y + height, start.z),
      Point(start.x + width, start.y + height, start.z),
      Point(start.x + width, start.y, start.z),
      Point(start.x, start.y, start.z) ]
  }

  /** Pressing at (0,0) and dragging to (2,3) in Square mode. */
  lemma SquareDragExample()
    ensures DrawSquare(Point(0.0, 0.0, 0.0), Point(2.0, 3.0, 0.0))
         == [Point(0.0, 0.0, 0.0), Point(0.0, 3.0, 0.0), Point(2.0, 3.0, 0.0),
             Point(2.0, 0.0, 0.0), Point(0.0, 0.0, 0.0)]
  {
  }

  /** The engine's floating-point primitives the circle needs: a square root
      and the (cos, sin) of the i-th multiple of 360/Segments degrees. */
  datatype FloatOps = FloatOps(sqrt: real -> real, cosSin: nat -> (real, real))

  /** What the circle proof assumes of those primitives (exact, unlike floats). */
  ghost predicate SoundFloatOps(f: FloatOps)
  {
    && (forall x: real :: x >= 0.0 ==> f.sqrt(x) >= 0.0 && f.sqrt(x) * f.sqrt(x) == x)
    && (forall i: nat :: i <= Segments ==> f.cosSin(i).0 * f.cosSin(i).0 + f.cosSin(i).1 * f.cosSin(i).1 == 1.0)
    && f.cosSin(Segments) == f.cosSin(0)
  }

  function Midpoint(a: Point, b: Point): Point
  {
    Point((a.x + b.x) / 2.0, (a.y + b.y) / 2.0, (a.z + b.z) / 2.0)
  }

  /** The circle whose diameter is the drag from `start` to `end`, as
      Segments + 1 points (the last repeats the first angle). */
  function DrawCircle(start: Point, end: Point, f: FloatOps): (points: seq<Point>)
    ensures |points| == Segments + 1
    ensures forall i :: 0 <= i < |points| ==> points[i].z == Midpoint(start, end).z
  {
    var radius := f.sqrt(SqDist(start, end)) / 2.0;
    var center := Midpoint(start, end);
    seq(Segments + 1, i requires 0 <= i <= Segments =>
      Point(center.x + f.cosSin(i).0 * radius, center.y + f.cosSin(i).1 * radius, center.z))
  }

  /** One outline point at angle (c, s) on the unit circle, scaled by r around `center`. */
  lemma OnCircle(center: Point, c: real, s: real, r: real, dsq: real)
    requires c * c + s * s == 1.0
    requires (2.0 * r) * (2.0 * r) == dsq
    ensures 4.0 * SqDist(Point(center.x + c * r, center.y + s * r, center.z), center) == dsq
  {
    var p := Point(center.x + c * r, center.y + s * r, center.z);
    assert p.x - center.x == c * r && p.y - center.y == s * r && p.z - center.z == 0.0;
    assert SqDist(p, center) == (c * r) * (c * r) + (s * r) * (s * r);
    assert (c * r) * (c * r) == (c * c) * (r * r);
    assert (s * r) * (s * r) == (s * s) * (r * r);
    assert (c * c) * (r * r) + (s * s) * (r * r) == (c * c + s * s) * (r * r);
    assert 4.0 * (r * r) == (2.0 * r) * (2.0 * r);
  }

  /** With exact primitives, every point of the circle outline lies at half
      the drag distance from the midpoint, and the outline is closed. */
  lemma CircleIsClosedAndEquidistant(start: Point, end: Point, f: FloatOps)
    requires SoundFloatOps(f)
    ensures var points := DrawCircle(start, end, f);
      && points[0] == points[Segments]
      && forall i :: 0 <= i < |points| ==> 4.0 * SqDist(points[i], Midpoint(start, end)) == SqDist(start, end)
  {
    var dsq := SqDist(start, end);
    var d := f.sqrt(dsq);
    assert d * d == dsq by { assert dsq >= 0.0; }
    CircleIsClosed(start, end, f);
    CircleIsEquidistant(start, end, f, d);
  }

  lemma CircleIsClosed(start: Point, end: Point, f: FloatOps)
    requires f.cosSin(Segments) == f.cosSin(0)
    ensures DrawCircle(start, end, f)[0] == DrawCircle(start, end, f)[Segments]
  {
  }

  lemma CircleIsEquidistant(start: Point, end: Point, f: FloatOps, d: real)
    requires d == f.sqrt(SqDist(start, end)) && d * d == SqDist(start, end)
    requires forall i: nat :: i <= Segments ==> f.cosSin(i).0 * f.cosSin(i).0 + f.cosSin(i).1 * f.cosSin(i).1 == 1.0
    ensures var points := DrawCircle(start, end, f);
      forall i :: 0 <= i < |points| ==> 4.0 * SqDist(points[i], Midpoint(start, end)) == SqDist(start, end)
  {
    var points := DrawCircle(start, end, f);
    forall i | 0 <= i < |points|
      ensures 4.0 * SqDist(points[i], Midpoint(start, end)) == SqDist(start, end)
    {
      CirclePointOnRadius(start, end, f, i, d);
    }
  }

  lemma CirclePointOnRadius(start: Point, end: Point, f: FloatOps, i: nat, d: real)
    requires i <= Segments
    requires d == f.sqrt(SqDist(start, end)) && d * d == SqDist(start, end)
    requires f.cosSin(i).0 * f.cosSin(i).0 + f.cosSin(i).1 * f.cosSin(i).1 == 1.0
    ensures 4.0 * SqDist(DrawCircle(start, end, f)[i], Midpoint(start, end)) == SqDist(start, end)
  {
    var center := Midpoint(start, end);
    var radius := d / 2.0;
    var cs := f.cosSin(i);
    assert DrawCircle(start, end, f)[i] == Point(center.x + cs.0 * radius, center.y + cs.1 * radius, center.z);
    assert (2.0 * radius) * (2.0 * radius) == d * d;
    OnCircle(center, cs.0, cs.1, radius, SqDist(start, end));
  }
}
