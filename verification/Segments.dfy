/** Points and segments of `territory.py`, over exact reals.

    A position is a (longitude, latitude) pair.  The source compares against the
    fixed tolerance 1e-12; the tolerance is a parameter here, so that a statement
    can name the value it is about: TOLERANCE where the source's own answers
    matter, 0.0 where the exact geometry does. */
module Segments {

  /** The constant 1e-12 of `_point_on_segment`. */
  const TOLERANCE: real := 0.000000000001

  datatype Point = Point(x: real, y: real)

  function Min(a: real, b: real): real {
    if b < a then b else a
  }

  function Max(a: real, b: real): real {
    if b > a then b else a
  }

  function Abs(a: real): real {
    if a < 0.0 then -a else a
  }

  function Cross(p: Point, a: Point, b: Point): real {
    (p.x - a.x) * (b.y - a.y) - (p.y - a.y) * (b.x - a.x)
  }

  /** `_point_on_segment` */
  predicate PointOnSegment(p: Point, a: Point, b: Point, tol: real) {
    if Abs(Cross(p, a, b)) > tol then
      false
    else
      && Min(a.x, b.x) - tol <= p.x <= Max(a.x, b.x) + tol
      && Min(a.y, b.y) - tol <= p.y <= Max(a.y, b.y) + tol
  }

  /** Membership in the closed segment, without tolerance. */
  predicate OnSegment(p: Point, a: Point, b: Point) {
    PointOnSegment(p, a, b, 0.0)
  }

  /** `_orientation` */
  function Orientation(a: Point, b: Point, c: Point): real {
    (b.y - a.y) * (c.x - b.x) - (b.x - a.x) * (c.y - b.y)
  }

  predicate OppositeSigns(u: real, v: real) {
    (u > 0.0 && v < 0.0) || (u < 0.0 && v > 0.0)
  }

  /** `_segments_intersect` */
  predicate SegmentsIntersect(a: Point, b: Point, c: Point, d: Point, tol: real) {
    if PointOnSegment(a, c, d, tol) then true
    else if PointOnSegment(b, c, d, tol) then true
    else if PointOnSegment(c, a, b, tol) then true
    else if PointOnSegment(d, a, b, tol) then true
    else
      var o1 := Orientation(a, b, c);
      var o2 := Orientation(a, b, d);
      var o3 := Orientation(c, d, a);
      var o4 := Orientation(c, d, b);
      OppositeSigns(o1, o2) && OppositeSigns(o3, o4)
  }

  /** The point at parameter t of the line through a and b. */
  function At(a: Point, b: Point, t: real): Point {
    Point(a.x + t * (b.x - a.x), a.y + t * (b.y - a.y))
  }

  ghost predicate ShareAPoint(a: Point, b: Point, c: Point, d: Point) {
    exists p :: OnSegment(p, a, b) && OnSegment(p, c, d)
  }

  /** The tolerance is a millionth of a millionth: a point 0.9e-12 beside a segment of length one counts as on it,
      one 1.1e-12 beside it does not, and the same holds past its end. */
  lemma TolerancePinned()
    ensures var a, b := Point(0.0, 0.0), Point(1.0, 0.0);
            && PointOnSegment(Point(0.5, 0.0000000000009), a, b, TOLERANCE)
            && !PointOnSegment(Point(0.5, 0.0000000000011), a, b, TOLERANCE)
            && PointOnSegment(Point(1.0000000000009, 0.0), a, b, TOLERANCE)
            && !PointOnSegment(Point(1.0000000000011, 0.0), a, b, TOLERANCE)
  {
  }

  // ---------------------------------------------------------------- parameters

  lemma ProductNonNegative(x: real, y: real)
    requires x >= 0.0 && y >= 0.0
    ensures x * y >= 0.0
  {
  }

  /** A fraction of a distance is at most the distance. */
  lemma Portion(t: real, d: real)
    requires 0.0 <= t <= 1.0 && d >= 0.0
    ensures 0.0 <= t * d <= d
  {
    ProductNonNegative(t, d);
    ProductNonNegative(1.0 - t, d);
    assert (1.0 - t) * d == d - t * d;
  }

  lemma Stretch(t: real, u: real, v: real)
    requires 0.0 <= t <= 1.0 && u <= v
    ensures 0.0 <= t * v - t * u <= v - u
  {
    var d := v - u;
    Portion(t, d);
    assert t * d == t * v - t * u;
  }

  /** Interpolating between two numbers stays between them. */
  lemma Between(u: real, v: real, t: real)
    requires 0.0 <= t <= 1.0
    ensures Min(u, v) <= u + t * (v - u) <= Max(u, v)
  {
    if u <= v {
      Stretch(t, u, v);
    } else {
      Stretch(t, v, u);
    }
    assert t * (v - u) == t * v - t * u;
  }

  lemma AtIsOnSegment(a: Point, b: Point, t: real)
    requires 0.0 <= t <= 1.0
    ensures OnSegment(At(a, b, t), a, b)
  {
    Between(a.x, b.x, t);
    Between(a.y, b.y, t);
    var p := At(a, b, t);
    assert (p.x - a.x) * (b.y - a.y) == t * (b.x - a.x) * (b.y - a.y);
    assert (p.y - a.y) * (b.x - a.x) == t * (b.x - a.x) * (b.y - a.y);
  }

  /** The sign of a quotient, from a product. */
  lemma QuotientNonNegative(t: real, d: real, n: real)
    requires t * d == n
    requires (d > 0.0 && n >= 0.0) || (d < 0.0 && n <= 0.0)
    ensures t >= 0.0
    ensures n != 0.0 ==> t > 0.0
  {
  }

  /** Dividing a distance inside an interval by the interval's length gives a fraction. */
  lemma Fraction(u: real, v: real, w: real) returns (t: real)
    requires u != v
    requires Min(u, v) <= w <= Max(u, v)
    ensures 0.0 <= t <= 1.0
    ensures t * (v - u) == w - u
  {
    t := (w - u) / (v - u);
    QuotientNonNegative(t, v - u, w - u);
    assert (1.0 - t) * (v - u) == v - w;
    QuotientNonNegative(1.0 - t, v - u, v - w);
  }

  lemma CancelFactor(k: real, u: real, v: real)
    requires k != 0.0
    requires k * u == k * v
    ensures u == v
  {
    assert k * (u - v) == 0.0;
  }

  /** If the first coordinate of p is at parameter t of a line, so is the second. */
  lemma SecondCoordinate(px: real, py: real, dx: real, dy: real, t: real)
    requires dx != 0.0 && px == t * dx
    requires px * dy == py * dx
    ensures py == t * dy
  {
    calc {
      dx * py;
      px * dy;
      (t * dx) * dy;
      dx * (t * dy);
    }
    CancelFactor(dx, py, t * dy);
  }

  /** Every point of a closed segment has a parameter in [0, 1]. */
  lemma ParameterOf(p: Point, a: Point, b: Point) returns (t: real)
    requires OnSegment(p, a, b)
    ensures 0.0 <= t <= 1.0
    ensures p == At(a, b, t)
  {
    if a.x != b.x {
      t := Fraction(a.x, b.x, p.x);
      SecondCoordinate(p.x - a.x, p.y - a.y, b.x - a.x, b.y - a.y, t);
    } else if a.y != b.y {
      t := Fraction(a.y, b.y, p.y);
    } else {
      t := 0.0;
    }
  }

  /** The direction of a segment does not matter, at any tolerance. */
  lemma SegmentReversal(p: Point, a: Point, b: Point, tol: real)
    ensures PointOnSegment(p, a, b, tol) == PointOnSegment(p, b, a, tol)
  {
    assert Cross(p, b, a) == -Cross(p, a, b);
  }

  // ------------------------------------------------- crossing segments share a point

  /** Solving for the meeting point of two lines with independent directions r and q:
      w + t*q and s*r are the same vector. */
  lemma MeetingCoordinate(r1: real, r2: real, q1: real, q2: real, w1: real, w2: real, s: real, t: real)
    requires r1 * q2 - r2 * q1 != 0.0
    requires s * (r1 * q2 - r2 * q1) == w1 * q2 - w2 * q1
    requires t * (r1 * q2 - r2 * q1) == w1 * r2 - w2 * r1
    ensures s * r1 == w1 + t * q1
  {
    var k := r1 * q2 - r2 * q1;
    calc {
      k * (s * r1);
      (s * k) * r1;
      (w1 * q2 - w2 * q1) * r1;
      w1 * q2 * r1 - w2 * q1 * r1;
      w1 * (r1 * q2 - r2 * q1) + (w1 * r2 - w2 * r1) * q1;
      w1 * k + (t * k) * q1;
      k * (w1 + t * q1);
    }
    CancelFactor(k, s * r1, w1 + t * q1);
  }

  /** Two numbers of opposite sign: the fraction at which the line between them is zero. */
  lemma ZeroFraction(u: real, v: real) returns (t: real)
    requires OppositeSigns(u, v)
    ensures 0.0 < t < 1.0
    ensures t * (u - v) == u
  {
    t := u / (u - v);
    QuotientNonNegative(t, u - v, u);
    assert (1.0 - t) * (u - v) == -v;
    QuotientNonNegative(1.0 - t, u - v, -v);
  }

  lemma ProperCrossingMeets(a: Point, b: Point, c: Point, d: Point) returns (p: Point)
    requires OppositeSigns(Orientation(a, b, c), Orientation(a, b, d))
    requires OppositeSigns(Orientation(c, d, a), Orientation(c, d, b))
    ensures OnSegment(p, a, b) && OnSegment(p, c, d)
  {
    var t := ZeroFraction(Orientation(a, b, c), Orientation(a, b, d));
    var s := ZeroFraction(Orientation(c, d, a), Orientation(c, d, b));
    var r1, r2, q1, q2 := b.x - a.x, b.y - a.y, d.x - c.x, d.y - c.y;
    var w1, w2 := c.x - a.x, c.y - a.y;
    var k := r1 * q2 - r2 * q1;
    assert Orientation(a, b, c) - Orientation(a, b, d) == k;
    assert Orientation(c, d, a) - Orientation(c, d, b) == -k;
    assert Orientation(a, b, c) == w1 * r2 - w2 * r1;
    assert Orientation(c, d, a) == w2 * q1 - w1 * q2;
    assert s * k == w1 * q2 - w2 * q1 by {
      assert s * (-k) == -(s * k);
    }
    MeetingCoordinate(r1, r2, q1, q2, w1, w2, s, t);
    assert s * r2 == w2 + t * q2 by {
      assert r2 * q1 - r1 * q2 == -k;
      assert s * (r2 * q1 - r1 * q2) == -(s * k);
      assert t * (r2 * q1 - r1 * q2) == -(t * k);
      MeetingCoordinate(r2, r1, q2, q1, w2, w1, s, t);
    }
    p := At(a, b, s);
    assert p == At(c, d, t);
    AtIsOnSegment(a, b, s);
    AtIsOnSegment(c, d, t);
  }

  // ------------------------------------------------- a shared point is always detected

  /** The orientation of a segment against a moving point is affine in the point. */
  lemma OrientationIsAffine(a: Point, b: Point, c: Point, d: Point, t: real)
    ensures Orientation(a, b, At(c, d, t))
         == Orientation(a, b, c) + t * (Orientation(a, b, d) - Orientation(a, b, c))
  {
    var p := At(c, d, t);
    assert (b.y - a.y) * (p.x - b.x) == (b.y - a.y) * (c.x - b.x) + t * ((b.y - a.y) * (d.x - c.x));
    assert (b.x - a.x) * (p.y - b.y) == (b.x - a.x) * (c.y - b.y) + t * ((b.x - a.x) * (d.y - c.y));
    assert Orientation(a, b, d) - Orientation(a, b, c)
        == (b.y - a.y) * (d.x - c.x) - (b.x - a.x) * (d.y - c.y);
  }

  lemma OrientationIsMinusCross(a: Point, b: Point, p: Point)
    ensures Orientation(a, b, p) == Cross(p, a, b)
  {
  }

  /** A point on the line through two distinct points has a parameter there. */
  lemma LineParameter(p: Point, a: Point, b: Point) returns (u: real)
    requires a != b
    requires Cross(p, a, b) == 0.0
    ensures p == At(a, b, u)
  {
    if a.x != b.x {
      u := (p.x - a.x) / (b.x - a.x);
      SecondCoordinate(p.x - a.x, p.y - a.y, b.x - a.x, b.y - a.y, u);
    } else {
      u := (p.y - a.y) / (b.y - a.y);
      SecondCoordinate(p.y - a.y, p.x - a.x, b.y - a.y, b.x - a.x, u);
    }
  }

  /** On one line: if the parameters of c and d straddle [0, 1], then a lies between c and d. */
  lemma StraddlingContainsStart(a: Point, b: Point, c: Point, d: Point, u: real, v: real)
    requires c == At(a, b, u) && d == At(a, b, v)
    requires (u < 0.0 && v > 0.0) || (u > 0.0 && v < 0.0)
    ensures OnSegment(a, c, d)
  {
    var w := ZeroFraction(u, v);
    assert w * (u - v) == u;
    assert u + w * (v - u) == 0.0 by { assert w * (v - u) == -(w * (u - v)); }
    assert At(c, d, w).x == a.x by {
      assert d.x - c.x == (v - u) * (b.x - a.x);
      assert c.x + w * (d.x - c.x) == a.x + (u + w * (v - u)) * (b.x - a.x);
    }
    assert At(c, d, w).y == a.y by {
      assert d.y - c.y == (v - u) * (b.y - a.y);
      assert c.y + w * (d.y - c.y) == a.y + (u + w * (v - u)) * (b.y - a.y);
    }
    AtIsOnSegment(c, d, w);
  }

  lemma ParametersAgree(a: Point, b: Point, s: real, s': real)
    requires a != b
    requires At(a, b, s) == At(a, b, s')
    ensures s == s'
  {
    if a.x != b.x {
      CancelFactor(b.x - a.x, s, s');
    } else {
      CancelFactor(b.y - a.y, s, s');
    }
  }

  /** Segments on a common line that share a point contain an end point of one another. */
  lemma CollinearOverlap(a: Point, b: Point, c: Point, d: Point, p: Point)
    requires OnSegment(p, a, b) && OnSegment(p, c, d)
    requires Cross(c, a, b) == 0.0 && Cross(d, a, b) == 0.0
    ensures OnSegment(a, c, d) || OnSegment(c, a, b) || OnSegment(d, a, b)
  {
    if a == b {
      assert p == a;
    } else {
      var u := LineParameter(c, a, b);
      var v := LineParameter(d, a, b);
      var s := ParameterOf(p, a, b);
      var t := ParameterOf(p, c, d);
      ComposeParameters(a, b, u, v, t);
      ParametersAgree(a, b, s, u + t * (v - u));
      OverlapByParameters(a, b, u, v, t);
    }
  }

  lemma ComposeParameters(a: Point, b: Point, u: real, v: real, t: real)
    ensures At(At(a, b, u), At(a, b, v), t) == At(a, b, u + t * (v - u))
  {
    var c, d := At(a, b, u), At(a, b, v);
    assert d.x - c.x == (v - u) * (b.x - a.x);
    assert d.y - c.y == (v - u) * (b.y - a.y);
  }

  lemma OverlapByParameters(a: Point, b: Point, u: real, v: real, t: real)
    requires 0.0 <= t <= 1.0
    requires 0.0 <= u + t * (v - u) <= 1.0
    ensures var c, d := At(a, b, u), At(a, b, v);
            OnSegment(a, c, d) || OnSegment(c, a, b) || OnSegment(d, a, b)
  {
    if 0.0 <= u <= 1.0 {
      AtIsOnSegment(a, b, u);
    } else if 0.0 <= v <= 1.0 {
      AtIsOnSegment(a, b, v);
    } else {
      Between(u, v, t);
      StraddlingContainsStart(a, b, At(a, b, u), At(a, b, v), u, v);
    }
  }

  /** An affine value that vanishes strictly inside has ends of opposite sign, or is zero throughout. */
  lemma VanishesInside(o1: real, o2: real, t: real)
    requires 0.0 < t < 1.0
    requires o1 + t * (o2 - o1) == 0.0
    ensures OppositeSigns(o1, o2) || (o1 == 0.0 && o2 == 0.0)
  {
    assert (1.0 - t) * o1 == t * (-o2);
    if o1 == 0.0 {
      CancelFactor(t, o2, 0.0);
    } else {
      // o1 and -o2 are in the positive ratio t : 1 - t
      var ratio := (1.0 - t) / t;
      QuotientNonNegative(ratio, t, 1.0 - t);
      assert t * (ratio * o1) == t * (-o2);
      CancelFactor(t, ratio * o1, -o2);
    }
  }

  /** Off the ends of (c, d), a shared point gives (c, d) ends on opposite sides of the line (a, b),
      or all of it on that line. */
  lemma SharedPointSeparates(a: Point, b: Point, c: Point, d: Point, p: Point)
    requires OnSegment(p, a, b) && OnSegment(p, c, d)
    requires p != c && p != d
    ensures || OppositeSigns(Orientation(a, b, c), Orientation(a, b, d))
            || (Cross(c, a, b) == 0.0 && Cross(d, a, b) == 0.0)
  {
    var t := ParameterOf(p, c, d);
    assert t != 0.0;
    assert t != 1.0;
    OrientationIsAffine(a, b, c, d, t);
    OrientationIsMinusCross(a, b, p);
    OrientationIsMinusCross(a, b, c);
    OrientationIsMinusCross(a, b, d);
    VanishesInside(Orientation(a, b, c), Orientation(a, b, d), t);
  }

  lemma SharedPointDetected(a: Point, b: Point, c: Point, d: Point, p: Point)
    requires OnSegment(p, a, b) && OnSegment(p, c, d)
    ensures SegmentsIntersect(a, b, c, d, 0.0)
  {
    if p != a && p != b && p != c && p != d {
      SharedPointSeparates(a, b, c, d, p);
      SharedPointSeparates(c, d, a, b, p);
      if Cross(c, a, b) == 0.0 && Cross(d, a, b) == 0.0 {
        CollinearOverlap(a, b, c, d, p);
      } else if Cross(a, c, d) == 0.0 && Cross(b, c, d) == 0.0 {
        CollinearOverlap(c, d, a, b, p);
      }
    }
  }

  /** With the tolerance read as zero, `_segments_intersect` decides exactly whether two closed
      segments have a common point, degenerate and collinear segments included. */
  lemma SegmentsIntersectIffShareAPoint(a: Point, b: Point, c: Point, d: Point)
    ensures SegmentsIntersect(a, b, c, d, 0.0) <==> ShareAPoint(a, b, c, d)
  {
    if ShareAPoint(a, b, c, d) {
      var p :| OnSegment(p, a, b) && OnSegment(p, c, d);
      SharedPointDetected(a, b, c, d, p);
    }
    if SegmentsIntersect(a, b, c, d, 0.0) {
      EndsAreOnSegment(a, b);
      EndsAreOnSegment(c, d);
      if !OnSegment(a, c, d) && !OnSegment(b, c, d) && !OnSegment(c, a, b) && !OnSegment(d, a, b) {
        var p := ProperCrossingMeets(a, b, c, d);
      }
    }
  }

  lemma EndsAreOnSegment(a: Point, b: Point)
    ensures OnSegment(a, a, b) && OnSegment(b, a, b)
  {
    assert Cross(b, a, b) == 0.0;
  }
}
