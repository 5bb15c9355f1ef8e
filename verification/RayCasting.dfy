/** Point in ring by ray casting (`_point_in_ring` of `territory.py`).

    A ring is a closed sequence of at least four positions, as section 3.1.6 of
    RFC 7946 requires and `_ring` enforces. */
module RayCasting {
  import opened Segments

  type Ring = seq<Point>

  /** What `_ring` accepts. */
  predicate ValidRing(ring: Ring) {
    |ring| >= 4 && ring[0] == ring[|ring| - 1]
  }

  predicate Closed(ring: Ring) {
    |ring| >= 1 && ring[0] == ring[|ring| - 1]
  }

  datatype Edge = Edge(a: Point, b: Point) {
    function Flip(): Edge { Edge(b, a) }
  }

  function Edges(ring: Ring): (es: seq<Edge>)
    requires |ring| >= 1
  {
    seq(|ring| - 1, i requires 0 <= i < |ring| - 1 => Edge(ring[i], ring[i + 1]))
  }

  /** The half-open rule: an end exactly at the level counts as below it. */
  predicate Straddles(y: real, e: Edge) {
    (e.a.y > y) != (e.b.y > y)
  }

  function CrossingX(y: real, e: Edge): real
    requires e.a.y != e.b.y
  {
    (e.b.x - e.a.x) * (y - e.a.y) / (e.b.y - e.a.y) + e.a.x
  }

  /** The ray from p towards the east crosses the edge. */
  predicate Crosses(p: Point, e: Edge) {
    Straddles(p.y, e) && p.x < CrossingX(p.y, e)
  }

  /** The ray from p crosses an odd number of the edges. */
  predicate Odd(p: Point, es: seq<Edge>) {
    if es == [] then false
    else Odd(p, es[..|es| - 1]) != Crosses(p, es[|es| - 1])
  }

  predicate OnEdges(p: Point, es: seq<Edge>, tol: real) {
    exists i :: 0 <= i < |es| && PointOnSegment(p, es[i].a, es[i].b, tol)
  }

  /** Inside or on the border: the answer `_point_in_ring` is for. */
  predicate InRing(p: Point, ring: Ring, tol: real)
    requires |ring| >= 1
  {
    OnEdges(p, Edges(ring), tol) || Odd(p, Edges(ring))
  }

  /** `_point_in_ring`: one pass that stops at the first edge holding the point. */
  method PointInRing(p: Point, ring: Ring, tol: real) returns (inside: bool)
    requires |ring| >= 1
    ensures inside == InRing(p, ring, tol)
  {
    inside := false;
    ghost var es := Edges(ring);
    for i := 0 to |ring| - 1
      invariant inside == Odd(p, es[..i])
      invariant forall j :: 0 <= j < i ==> !PointOnSegment(p, es[j].a, es[j].b, tol)
    {
      var edge := Edge(ring[i], ring[i + 1]);
      assert es[i] == edge;
      assert es[..i + 1][..i] == es[..i];
      if PointOnSegment(p, edge.a, edge.b, tol) {
        return true;
      }
      if Straddles(p.y, edge) {
        if p.x < CrossingX(p.y, edge) {
          inside := !inside;
        }
      }
    }
    assert es[..|ring| - 1] == es;
  }

  // ------------------------------------------------------------ one edge

  lemma ScaledQuotient(w: real, t: real, n: real, d: real)
    requires d != 0.0 && t * d == n
    ensures w * n / d == w * t
  {
    var q := w * n / d;
    assert q * d == w * n;
    assert d * q == d * (w * t) by {
      assert w * n == w * (t * d) == d * (w * t);
    }
    CancelFactor(d, q, w * t);
  }

  /** The crossing of a level, from the level's parameter along the edge. */
  lemma CrossingAt(y: real, e: Edge, t: real)
    requires e.a.y != e.b.y
    requires t * (e.b.y - e.a.y) == y - e.a.y
    ensures CrossingX(y, e) == e.a.x + t * (e.b.x - e.a.x)
    ensures Point(CrossingX(y, e), y) == At(e.a, e.b, t)
  {
    ScaledQuotient(e.b.x - e.a.x, t, y - e.a.y, e.b.y - e.a.y);
  }

  /** The crossing point of a straddled level lies on the edge. */
  lemma CrossingIsOnEdge(y: real, e: Edge)
    requires Straddles(y, e)
    ensures OnSegment(Point(CrossingX(y, e), y), e.a, e.b)
    ensures Min(e.a.x, e.b.x) <= CrossingX(y, e) <= Max(e.a.x, e.b.x)
  {
    var t := Fraction(e.a.y, e.b.y, y);
    CrossingAt(y, e, t);
    AtIsOnSegment(e.a, e.b, t);
    Between(e.a.x, e.b.x, t);
  }

  lemma FromTheOtherEnd(u: real, v: real, t: real, w: real)
    requires t * (v - u) == w - u
    ensures (1.0 - t) * (u - v) == w - v
  {
    assert (1.0 - t) * (u - v) == (u - v) + t * (v - u);
  }

  lemma CrossingReversal(y: real, e: Edge)
    requires e.a.y != e.b.y
    ensures CrossingX(y, e) == CrossingX(y, e.Flip())
  {
    var t := (y - e.a.y) / (e.b.y - e.a.y);
    assert t * (e.b.y - e.a.y) == y - e.a.y;
    CrossingAt(y, e, t);
    FromTheOtherEnd(e.a.y, e.b.y, t, y);
    CrossingAt(y, e.Flip(), 1.0 - t);
    FromTheOtherEnd(e.a.x, e.b.x, t, CrossingX(y, e));
  }

  lemma CrossesReversal(p: Point, e: Edge)
    ensures Crosses(p, e) == Crosses(p, e.Flip())
  {
    if Straddles(p.y, e) {
      CrossingReversal(p.y, e);
    }
  }

  // ------------------------------------------------------------ parity of a closed ring

  /** If, edge by edge, two points differ in crossing exactly where a property of the vertices
      changes, then along a chain of edges the parities differ exactly when the property differs
      between the two ends. */
  lemma {:induction false} Telescope(p: Point, q: Point, ring: Ring, n: nat, g: Point -> bool)
    requires n < |ring|
    requires forall e :: e in Edges(ring) ==> (Crosses(p, e) != Crosses(q, e)) == (g(e.a) != g(e.b))
    ensures (Odd(p, Edges(ring)[..n]) != Odd(q, Edges(ring)[..n])) == (g(ring[0]) != g(ring[n]))
  {
    if n > 0 {
      Telescope(p, q, ring, n - 1, g);
      var es := Edges(ring);
      assert es[..n][..n - 1] == es[..n - 1];
      assert es[n - 1] in es;
    }
  }

  lemma {:induction false} ClosedParityAgrees(p: Point, q: Point, ring: Ring, g: Point -> bool)
    requires Closed(ring)
    requires forall e :: e in Edges(ring) ==> (Crosses(p, e) != Crosses(q, e)) == (g(e.a) != g(e.b))
    ensures Odd(p, Edges(ring)) == Odd(q, Edges(ring))
  {
    Telescope(p, q, ring, |ring| - 1, g);
    assert Edges(ring)[..|ring| - 1] == Edges(ring);
  }

  lemma {:induction false} NoCrossing(p: Point, es: seq<Edge>)
    requires forall e :: e in es ==> !Crosses(p, e)
    ensures !Odd(p, es)
  {
    if es != [] {
      NoCrossing(p, es[..|es| - 1]);
      assert es[|es| - 1] in es;
    }
  }

  // ------------------------------------------------------------ the bounding box

  /** Every vertex lies more than `tol` on one fixed side of p. */
  predicate Beyond(p: Point, ring: Ring, tol: real) {
    || (forall v :: v in ring ==> p.x < v.x - tol)
    || (forall v :: v in ring ==> p.x > v.x + tol)
    || (forall v :: v in ring ==> p.y < v.y - tol)
    || (forall v :: v in ring ==> p.y > v.y + tol)
  }

  lemma EdgeEnds(ring: Ring, e: Edge)
    requires |ring| >= 1 && e in Edges(ring)
    ensures e.a in ring && e.b in ring
  {
    var i :| 0 <= i < |Edges(ring)| && Edges(ring)[i] == e;
    assert e.a == ring[i] && e.b == ring[i + 1];
  }

  /** West of the ring every straddled edge is crossed; a closed ring has evenly many of them. */
  lemma {:induction false} WestOfRing(p: Point, ring: Ring)
    requires Closed(ring)
    requires forall v :: v in ring ==> p.x < v.x
    ensures !Odd(p, Edges(ring))
  {
    var q := EastOf(p, ring);
    forall e | e in Edges(ring)
      ensures (Crosses(p, e) != Crosses(q, e)) == ((e.a.y > p.y) != (e.b.y > p.y))
    {
      EdgeEnds(ring, e);
      if Straddles(p.y, e) {
        CrossingIsOnEdge(p.y, e);
      }
    }
    ClosedParityAgrees(p, q, ring, (v: Point) => v.y > p.y);
    forall e | e in Edges(ring) ensures !Crosses(q, e) {
      EdgeEnds(ring, e);
      if Straddles(q.y, e) {
        CrossingIsOnEdge(q.y, e);
      }
    }
    NoCrossing(q, Edges(ring));
  }

  /** A point on p's level, east of every vertex. */
  function EastOf(p: Point, ring: Ring): (q: Point)
    ensures q.y == p.y
    ensures forall v :: v in ring ==> q.x > v.x
  {
    if ring == [] then p
    else
      var q := EastOf(p, ring[..|ring| - 1]);
      var last := ring[|ring| - 1];
      if q.x > last.x then q else Point(last.x + 1.0, p.y)
  }

  /** Ray casting answers "outside" for every point beyond the tolerance of the ring's box. */
  lemma BeyondIsOutside(p: Point, ring: Ring, tol: real)
    requires tol >= 0.0
    requires Closed(ring)
    requires Beyond(p, ring, tol)
    ensures !InRing(p, ring, tol)
  {
    var es := Edges(ring);
    forall i | 0 <= i < |es|
      ensures !PointOnSegment(p, es[i].a, es[i].b, tol)
    {
      assert es[i] in es;
      EdgeEnds(ring, es[i]);
    }
    if forall v :: v in ring ==> p.x < v.x - tol {
      WestOfRing(p, ring);
    } else {
      forall e | e in es ensures !Crosses(p, e) {
        EdgeEnds(ring, e);
        if Straddles(p.y, e) {
          CrossingIsOnEdge(p.y, e);
        }
      }
      NoCrossing(p, es);
    }
  }

  // ------------------------------------------------------------ only the curve matters

  /** The same closed curve, started at its k-th vertex. */
  function Rotate(ring: Ring, k: nat): Ring
    requires |ring| >= 1 && k < |ring|
  {
    ring[k..|ring| - 1] + ring[..k + 1]
  }

  /** The same closed curve, walked backwards. */
  function Reverse(ring: Ring): (r: Ring)
    ensures |r| == |ring|
  {
    seq(|ring|, i requires 0 <= i < |ring| => ring[|ring| - 1 - i])
  }

  lemma {:induction false} OddConcat(p: Point, xs: seq<Edge>, ys: seq<Edge>)
    ensures Odd(p, xs + ys) == (Odd(p, xs) != Odd(p, ys))
  {
    if ys == [] {
      assert xs + ys == xs;
    } else {
      OddConcat(p, xs, ys[..|ys| - 1]);
      assert (xs + ys)[..|xs + ys| - 1] == xs + ys[..|ys| - 1];
    }
  }

  lemma RotateEdges(ring: Ring, k: nat)
    requires Closed(ring) && k < |ring|
    ensures Edges(Rotate(ring, k)) == Edges(ring)[k..] + Edges(ring)[..k]
  {
    var r := Rotate(ring, k);
    var n := |ring| - 1;
    assert |r| == |ring|;
    forall i | 0 <= i < n
      ensures Edges(r)[i] == (Edges(ring)[k..] + Edges(ring)[..k])[i]
    {
      if i < n - k {
        assert r[i] == ring[k + i];
        if i + 1 < n - k {
          assert r[i + 1] == ring[k + i + 1];
        } else {
          assert r[i + 1] == ring[0] == ring[n];
        }
      } else {
        assert r[i] == ring[i - (n - k)];
        assert r[i + 1] == ring[i + 1 - (n - k)];
      }
    }
  }

  /** Being on one of the edges does not depend on their order. */
  lemma OnEdgesSwap(p: Point, xs: seq<Edge>, ys: seq<Edge>, tol: real)
    ensures OnEdges(p, xs + ys, tol) ==> OnEdges(p, ys + xs, tol)
  {
    var es, es' := xs + ys, ys + xs;
    if i :| 0 <= i < |es| && PointOnSegment(p, es[i].a, es[i].b, tol) {
      var j := if i < |xs| then i + |ys| else i - |xs|;
      assert es'[j] == es[i];
    }
  }

  /** Starting the ring at another vertex never changes the answer. */
  lemma RotationInvariance(p: Point, ring: Ring, k: nat, tol: real)
    requires Closed(ring) && k < |ring|
    ensures Closed(Rotate(ring, k))
    ensures InRing(p, Rotate(ring, k), tol) == InRing(p, ring, tol)
  {
    var es := Edges(ring);
    var before, after := es[..k], es[k..];
    RotateEdges(ring, k);
    assert es == before + after;
    OddConcat(p, before, after);
    OddConcat(p, after, before);
    OnEdgesSwap(p, before, after, tol);
    OnEdgesSwap(p, after, before, tol);
  }

  /** es read backwards, each edge flipped */
  function Backwards(es: seq<Edge>): (r: seq<Edge>)
    ensures |r| == |es|
    ensures forall i :: 0 <= i < |es| ==> r[i] == es[|es| - 1 - i].Flip()
  {
    seq(|es|, i requires 0 <= i < |es| => es[|es| - 1 - i].Flip())
  }

  lemma {:induction false} OddBackwards(p: Point, es: seq<Edge>)
    ensures Odd(p, Backwards(es)) == Odd(p, es)
  {
    if es != [] {
      var front, last := es[..|es| - 1], es[|es| - 1];
      OddBackwards(p, front);
      CrossesReversal(p, last);
      assert Backwards(es) == [last.Flip()] + Backwards(front);
      OddConcat(p, [last.Flip()], Backwards(front));
      assert Odd(p, [last.Flip()]) == Crosses(p, last.Flip()) by {
        assert [last.Flip()][..0] == [];
      }
    }
  }

  /** Walking the ring in the other direction never changes the answer. */
  lemma ReversalInvariance(p: Point, ring: Ring, tol: real)
    requires |ring| >= 1
    ensures InRing(p, Reverse(ring), tol) == InRing(p, ring, tol)
  {
    var es := Edges(ring);
    var es' := Edges(Reverse(ring));
    assert es' == Backwards(es);
    OddBackwards(p, es);
    if OnEdges(p, es, tol) {
      var i :| 0 <= i < |es| && PointOnSegment(p, es[i].a, es[i].b, tol);
      SegmentReversal(p, es[i].a, es[i].b, tol);
      assert es'[|es| - 1 - i] == es[i].Flip();
    }
    if OnEdges(p, es', tol) {
      var i :| 0 <= i < |es'| && PointOnSegment(p, es'[i].a, es'[i].b, tol);
      SegmentReversal(p, es'[i].a, es'[i].b, tol);
      assert es[|es| - 1 - i] == es'[i].Flip();
    }
  }

  // ------------------------------------------------------------ constancy off the border

  /** Moving along a level without meeting the edge does not change whether it is crossed. */
  lemma LevelMove(e: Edge, y: real, x1: real, x2: real)
    requires x1 <= x2
    requires forall x :: x1 <= x <= x2 ==> !OnSegment(Point(x, y), e.a, e.b)
    ensures Crosses(Point(x1, y), e) == Crosses(Point(x2, y), e)
  {
    if Straddles(y, e) {
      CrossingIsOnEdge(y, e);
    }
  }

  /** The vertices passed when a ray from abscissa x rises from y1 to y2. */
  predicate Swept(v: Point, x: real, y1: real, y2: real) {
    y1 < v.y <= y2 && v.x > x
  }

  /** For an edge going from the east of x to x or its west: where it meets abscissa x, and on
      which side of that height it crosses a level east of x. */
  lemma Descent(e: Edge, x: real) returns (h: real)
    requires e.a.x > x >= e.b.x
    ensures OnSegment(Point(x, h), e.a, e.b)
    ensures Min(e.a.y, e.b.y) <= h <= Max(e.a.y, e.b.y)
    ensures forall y :: e.a.y < e.b.y ==> (CrossingX(y, e) > x <==> y < h)
    ensures forall y :: e.a.y > e.b.y ==> (CrossingX(y, e) > x <==> y > h)
  {
    var t := Fraction(e.a.x, e.b.x, x);
    h := e.a.y + t * (e.b.y - e.a.y);
    Between(e.a.y, e.b.y, t);
    AtIsOnSegment(e.a, e.b, t);
    assert At(e.a, e.b, t) == Point(x, h);
    forall y | e.a.y != e.b.y
      ensures e.a.y < e.b.y ==> (CrossingX(y, e) > x <==> y < h)
      ensures e.a.y > e.b.y ==> (CrossingX(y, e) > x <==> y > h)
    {
      CrossingSide(e, x, t, h, y);
    }
  }

  lemma CrossingSide(e: Edge, x: real, t: real, h: real, y: real)
    requires e.a.x > e.b.x && e.a.y != e.b.y
    requires x == e.a.x + t * (e.b.x - e.a.x)
    requires h == e.a.y + t * (e.b.y - e.a.y)
    ensures e.a.y < e.b.y ==> (CrossingX(y, e) > x <==> y < h)
    ensures e.a.y > e.b.y ==> (CrossingX(y, e) > x <==> y > h)
  {
    var d := e.b.y - e.a.y;
    var s := (y - e.a.y) / d;
    assert s * d == y - e.a.y;
    CrossingAt(y, e, s);
    assert CrossingX(y, e) - x == (t - s) * (e.a.x - e.b.x);
    assert h - y == (t - s) * d;
    SignOfProduct(t - s, e.a.x - e.b.x);
    SignOfProduct(t - s, d);
  }

  lemma SignOfProduct(u: real, d: real)
    requires d != 0.0
    ensures d > 0.0 ==> (u * d > 0.0 <==> u > 0.0)
    ensures d < 0.0 ==> (u * d < 0.0 <==> u > 0.0)
  {
    if u < 0.0 {
      assert (-u) * d == -(u * d);
    }
  }

  lemma RiseEastToWest(e: Edge, x: real, y1: real, y2: real)
    requires y1 <= y2
    requires e.a.x > x >= e.b.x
    requires forall y :: y1 <= y <= y2 ==> !OnSegment(Point(x, y), e.a, e.b)
    ensures (Crosses(Point(x, y1), e) != Crosses(Point(x, y2), e)) == Swept(e.a, x, y1, y2)
  {
    var h := Descent(e, x);
    assert h < y1 || h > y2;
    if Straddles(y1, e) { assert Crosses(Point(x, y1), e) == (CrossingX(y1, e) > x); }
    if Straddles(y2, e) { assert Crosses(Point(x, y2), e) == (CrossingX(y2, e) > x); }
  }

  /** Rising along abscissa x without meeting the edge: the crossing changes exactly when one
      end of the edge, but not the other, is passed by the ray. */
  lemma Rise(e: Edge, x: real, y1: real, y2: real)
    requires y1 <= y2
    requires forall y :: y1 <= y <= y2 ==> !OnSegment(Point(x, y), e.a, e.b)
    ensures (Crosses(Point(x, y1), e) != Crosses(Point(x, y2), e))
         == (Swept(e.a, x, y1, y2) != Swept(e.b, x, y1, y2))
  {
    var p1, p2 := Point(x, y1), Point(x, y2);
    if e.a.x > x >= e.b.x {
      RiseEastToWest(e, x, y1, y2);
    } else if e.b.x > x >= e.a.x {
      forall y | y1 <= y <= y2 ensures !OnSegment(Point(x, y), e.b, e.a) {
        SegmentReversal(Point(x, y), e.a, e.b, 0.0);
      }
      RiseEastToWest(e.Flip(), x, y1, y2);
      CrossesReversal(p1, e);
      CrossesReversal(p2, e);
    } else {
      if Straddles(y1, e) { CrossingIsOnEdge(y1, e); }
      if Straddles(y2, e) { CrossingIsOnEdge(y2, e); }
    }
  }

  /** A latitude/longitude rectangle: a territory's bounds or a precision cell. */
  datatype Box = Box(south: real, west: real, north: real, east: real) {
    predicate Valid() { south <= north && west <= east }

    predicate Contains(p: Point) {
      south <= p.y <= north && west <= p.x <= east
    }

    predicate Border(p: Point) {
      Contains(p) && (p.x == west || p.x == east || p.y == south || p.y == north)
    }
  }

  /** No point of the rectangle is on the ring. */
  ghost predicate Avoids(ring: Ring, box: Box)
    requires |ring| >= 1
  {
    forall e, p :: e in Edges(ring) && box.Contains(p) ==> !OnSegment(p, e.a, e.b)
  }

  lemma LevelParity(ring: Ring, y: real, x1: real, x2: real)
    requires Closed(ring)
    requires x1 <= x2
    requires Avoids(ring, Box(y, x1, y, x2))
    ensures Odd(Point(x1, y), Edges(ring)) == Odd(Point(x2, y), Edges(ring))
  {
    var p, q := Point(x1, y), Point(x2, y);
    forall e | e in Edges(ring) ensures Crosses(p, e) == Crosses(q, e) {
      forall x | x1 <= x <= x2 ensures !OnSegment(Point(x, y), e.a, e.b) {
        assert Box(y, x1, y, x2).Contains(Point(x, y));
      }
      LevelMove(e, y, x1, x2);
    }
    ClosedParityAgrees(p, q, ring, (v: Point) => true);
  }

  lemma RiseParity(ring: Ring, x: real, y1: real, y2: real)
    requires Closed(ring)
    requires y1 <= y2
    requires Avoids(ring, Box(y1, x, y2, x))
    ensures Odd(Point(x, y1), Edges(ring)) == Odd(Point(x, y2), Edges(ring))
  {
    var p, q := Point(x, y1), Point(x, y2);
    forall e | e in Edges(ring)
      ensures (Crosses(p, e) != Crosses(q, e)) == (Swept(e.a, x, y1, y2) != Swept(e.b, x, y1, y2))
    {
      forall y | y1 <= y <= y2 ensures !OnSegment(Point(x, y), e.a, e.b) {
        assert Box(y1, x, y2, x).Contains(Point(x, y));
      }
      Rise(e, x, y1, y2);
    }
    ClosedParityAgrees(p, q, ring, (v: Point) => Swept(v, x, y1, y2));
  }

  /** Ray casting gives one and the same answer throughout a rectangle that no edge of the ring
      enters: the parity can only change by crossing the curve. */
  lemma ConstantOffTheBorder(ring: Ring, box: Box, p: Point, q: Point)
    requires Closed(ring)
    requires Avoids(ring, box)
    requires box.Contains(p) && box.Contains(q)
    ensures InRing(p, ring, 0.0) == InRing(q, ring, 0.0)
  {
    var level := Box(p.y, Min(p.x, q.x), p.y, Max(p.x, q.x));
    var rise := Box(Min(p.y, q.y), q.x, Max(p.y, q.y), q.x);
    forall e, z | e in Edges(ring) && (level.Contains(z) || rise.Contains(z))
      ensures !OnSegment(z, e.a, e.b)
    {
      assert box.Contains(z);
    }
    LevelParity(ring, p.y, Min(p.x, q.x), Max(p.x, q.x));
    RiseParity(ring, q.x, Min(p.y, q.y), Max(p.y, q.y));
    assert Odd(p, Edges(ring)) == Odd(Point(q.x, p.y), Edges(ring)) == Odd(q, Edges(ring));
    assert !OnEdges(p, Edges(ring), 0.0) && !OnEdges(q, Edges(ring), 0.0) by {
      forall i | 0 <= i < |Edges(ring)|
        ensures !OnSegment(p, Edges(ring)[i].a, Edges(ring)[i].b)
        ensures !OnSegment(q, Edges(ring)[i].a, Edges(ring)[i].b)
      {
        assert Edges(ring)[i] in Edges(ring);
      }
    }
  }

  // ------------------------------------------------------------ points inside

  /** The edge comes down through the level, or goes up through it. */
  predicate Descends(y: real, e: Edge) {
    e.a.y > y && e.b.y <= y
  }

  predicate Ascends(y: real, e: Edge) {
    e.a.y <= y && e.b.y > y
  }

  /** The point is strictly to one side of the edge's line: left of it seen from `a` to `b`, or right. */
  predicate StrictlyLeft(p: Point, e: Edge) {
    Cross(p, e.a, e.b) < 0.0
  }

  predicate StrictlyRight(p: Point, e: Edge) {
    Cross(p, e.a, e.b) > 0.0
  }

  lemma QuotientSign(n: real, d: real)
    requires d != 0.0
    ensures d > 0.0 ==> (n / d > 0.0 <==> n > 0.0)
    ensures d < 0.0 ==> (n / d > 0.0 <==> n < 0.0)
  {
    var q := n / d;
    assert q * d == n;
    SignOfProduct(q, d);
  }

  /** Where the crossing is, by the side of the line the point is on. */
  lemma CrossingBySide(p: Point, e: Edge)
    requires e.a.y != e.b.y
    ensures CrossingX(p.y, e) - p.x == -Cross(p, e.a, e.b) / (e.b.y - e.a.y)
  {
    var d := e.b.y - e.a.y;
    var n := (e.b.x - e.a.x) * (p.y - e.a.y);
    assert CrossingX(p.y, e) == n / d + e.a.x;
    assert -Cross(p, e.a, e.b) == n - (p.x - e.a.x) * d;
    SplitQuotient(n, p.x - e.a.x, d);
  }

  lemma SplitQuotient(n: real, m: real, d: real)
    requires d != 0.0
    ensures (n - m * d) / d == n / d - m
  {
    var q := n / d;
    assert q * d == n;
    assert (q - m) * d == n - m * d;
    CancelFactor(d, (n - m * d) / d, q - m);
  }

  lemma CrossesBySide(p: Point, e: Edge)
    ensures StrictlyLeft(p, e) ==> (Crosses(p, e) <==> Ascends(p.y, e))
    ensures StrictlyRight(p, e) ==> (Crosses(p, e) <==> Descends(p.y, e))
  {
    if e.a.y != e.b.y {
      CrossingBySide(p, e);
      QuotientSign(-Cross(p, e.a, e.b), e.b.y - e.a.y);
    }
  }

  /** With every edge on the same side, a single passage through the level decides. */
  lemma {:induction false} OnePassage(p: Point, es: seq<Edge>, k: nat, left: bool)
    requires k < |es|
    requires forall i :: 0 <= i < |es| ==> if left then StrictlyLeft(p, es[i]) else StrictlyRight(p, es[i])
    requires forall i :: 0 <= i < |es| ==> ((if left then Ascends(p.y, es[i]) else Descends(p.y, es[i])) <==> i == k)
    ensures Odd(p, es)
  {
    var n := |es| - 1;
    CrossesBySide(p, es[n]);
    if k == n {
      forall i | 0 <= i < n ensures !Crosses(p, es[..n][i]) {
        CrossesBySide(p, es[i]);
      }
      NoCrossing(p, es[..n]);
    } else {
      OnePassage(p, es[..n], k, left);
    }
  }

  /** A point on the same side of every edge is inside a ring that goes once through its level on that side;
      at any tolerance, since the border counts as inside. */
  lemma SameSideIsInside(p: Point, ring: Ring, k: nat, left: bool, tol: real)
    requires |ring| >= 1 && k < |ring| - 1
    requires forall e :: e in Edges(ring) ==> if left then StrictlyLeft(p, e) else StrictlyRight(p, e)
    requires forall i :: 0 <= i < |ring| - 1 ==>
               ((if left then Ascends(p.y, Edges(ring)[i]) else Descends(p.y, Edges(ring)[i])) <==> i == k)
    ensures InRing(p, ring, tol)
  {
    var es := Edges(ring);
    forall i | 0 <= i < |es| ensures if left then StrictlyLeft(p, es[i]) else StrictlyRight(p, es[i]) {
      assert es[i] in es;
    }
    OnePassage(p, es, k, left);
  }

  function Triangle(a: Point, b: Point, c: Point): Ring {
    [a, b, c, a]
  }

  function Mean3(a: Point, b: Point, c: Point, u: real, v: real, w: real): Point {
    Point(u * a.x + v * b.x + w * c.x, u * a.y + v * b.y + w * c.y)
  }

  lemma CrossOfMix(v: real, w: real, b1: real, b2: real, c1: real, c2: real)
    ensures (v * b1 + w * c1) * b2 - (v * b2 + w * c2) * b1 == w * (c1 * b2 - c2 * b1)
  {
  }

  /** The side of a mean of three points, seen from the line through the first two. */
  lemma SideOfMean(a: Point, b: Point, c: Point, u: real, v: real, w: real)
    requires u + v + w == 1.0
    ensures Cross(Mean3(a, b, c, u, v, w), a, b) == w * Cross(c, a, b)
  {
    var p := Mean3(a, b, c, u, v, w);
    var b1, b2, c1, c2 := b.x - a.x, b.y - a.y, c.x - a.x, c.y - a.y;
    MeanFromCorner(a.x, b.x, c.x, u, v, w);
    MeanFromCorner(a.y, b.y, c.y, u, v, w);
    assert p.x - a.x == v * b1 + w * c1 && p.y - a.y == v * b2 + w * c2;
    CrossOfMix(v, w, b1, b2, c1, c2);
  }

  lemma MeanFromCorner(a: real, b: real, c: real, u: real, v: real, w: real)
    requires u + v + w == 1.0
    ensures u * a + v * b + w * c - a == v * (b - a) + w * (c - a)
  {
    assert u == 1.0 - v - w;
  }

  lemma CrossCycles(a: Point, b: Point, c: Point)
    ensures Cross(c, a, b) == Cross(a, b, c) == Cross(b, c, a)
  {
  }

  lemma PositiveTimes(u: real, x: real)
    requires u > 0.0
    ensures (u * x > 0.0 <==> x > 0.0) && (u * x < 0.0 <==> x < 0.0)
  {
    SignOfProduct(x, u);
    SignOfProduct(-x, u);
    assert (-x) * u == -(x * u);
  }

  /** A strictly positive mean of three levels is strictly below some of them and above others, or all are equal. */
  lemma BetweenLevels(a: real, b: real, c: real, u: real, v: real, w: real)
    requires u > 0.0 && v > 0.0 && w > 0.0 && u + v + w == 1.0
    requires !(a == b == c)
    ensures var y := u * a + v * b + w * c;
            (a > y || b > y || c > y) && (a <= y || b <= y || c <= y)
  {
    var y := u * a + v * b + w * c;
    MeanAround(a, b, c, u, v, w, y);
    Balanced(u, v, w, a - y, b - y, c - y);
  }

  /** How far a weighted mean is from a level, by the distances of its parts. */
  lemma MeanAround(a: real, b: real, c: real, u: real, v: real, w: real, y: real)
    requires u + v + w == 1.0
    ensures u * a + v * b + w * c - y == u * (a - y) + v * (b - y) + w * (c - y)
  {
    assert u * (a - y) == u * a - u * y;
    assert v * (b - y) == v * b - v * y;
    assert w * (c - y) == w * c - w * y;
    assert u * y + v * y + w * y == (u + v + w) * y == y;
  }

  lemma Balanced(u: real, v: real, w: real, r: real, s: real, t: real)
    requires u > 0.0 && v > 0.0 && w > 0.0
    requires u * r + v * s + w * t == 0.0
    ensures r == s == t == 0.0 || ((r > 0.0 || s > 0.0 || t > 0.0) && (r < 0.0 || s < 0.0 || t < 0.0))
  {
    PositiveTimes(u, r);
    PositiveTimes(v, s);
    PositiveTimes(w, t);
  }

  lemma NotFlat(a: Point, b: Point, c: Point)
    requires (c.x - a.x) * (b.y - a.y) != (c.y - a.y) * (b.x - a.x)
    ensures !(a.y == b.y == c.y)
  {
  }

  /** Every strictly positive weighted mean of the corners of a triangle that is not flat is inside it, at any
      tolerance and whichever way round its ring goes. */
  lemma TriangleHolds(a: Point, b: Point, c: Point, u: real, v: real, w: real, tol: real)
    requires u > 0.0 && v > 0.0 && w > 0.0 && u + v + w == 1.0
    requires (c.x - a.x) * (b.y - a.y) != (c.y - a.y) * (b.x - a.x)
    ensures InRing(Mean3(a, b, c, u, v, w), Triangle(a, b, c), tol)
  {
    var p := Mean3(a, b, c, u, v, w);
    var d := Cross(c, a, b);
    CrossCycles(a, b, c);
    SideOfMean(a, b, c, u, v, w);
    SideOfMean(b, c, a, v, w, u);
    SideOfMean(c, a, b, w, u, v);
    PositiveTimes(u, d);
    PositiveTimes(v, d);
    PositiveTimes(w, d);
    NotFlat(a, b, c);
    BetweenLevels(a.y, b.y, c.y, u, v, w);
    TriangleBySide(p, a, b, c, d < 0.0, tol);
  }

  lemma TriangleBySide(p: Point, a: Point, b: Point, c: Point, left: bool, tol: real)
    requires left ==> Cross(p, a, b) < 0.0 && Cross(p, b, c) < 0.0 && Cross(p, c, a) < 0.0
    requires !left ==> Cross(p, a, b) > 0.0 && Cross(p, b, c) > 0.0 && Cross(p, c, a) > 0.0
    requires a.y > p.y || b.y > p.y || c.y > p.y
    requires a.y <= p.y || b.y <= p.y || c.y <= p.y
    ensures InRing(p, Triangle(a, b, c), tol)
  {
    var ring := Triangle(a, b, c);
    var es := Edges(ring);
    assert es == [Edge(a, b), Edge(b, c), Edge(c, a)];
    var above := [a.y > p.y, b.y > p.y, c.y > p.y, a.y > p.y];
    var k: nat := if left then (if !above[0] && above[1] then 0 else if !above[1] && above[2] then 1 else 2)
                  else (if above[0] && !above[1] then 0 else if above[1] && !above[2] then 1 else 2);
    SameSideIsInside(p, ring, k, left, tol);
  }

  /** The corners of a box, counterclockwise from the south-west. */
  function Frame(box: Box): Ring {
    [Point(box.west, box.south), Point(box.east, box.south), Point(box.east, box.north),
     Point(box.west, box.north), Point(box.west, box.south)]
  }

  lemma NegativeProduct(u: real, v: real)
    requires u < 0.0 && v > 0.0
    ensures u * v < 0.0
  {
    PositiveTimes(v, u);
  }

  /** Every point strictly within a box is inside its frame, whichever way round and wherever it starts. */
  lemma FrameHolds(box: Box, p: Point, k: nat, tol: real)
    requires box.west < p.x < box.east && box.south < p.y < box.north
    requires k <= 4
    ensures InRing(p, Frame(box), tol)
    ensures InRing(p, Rotate(Frame(box), k), tol) && InRing(p, Reverse(Frame(box)), tol)
  {
    var ring := Frame(box);
    var sw, se, ne, nw := ring[0], ring[1], ring[2], ring[3];
    var es := Edges(ring);
    assert es == [Edge(sw, se), Edge(se, ne), Edge(ne, nw), Edge(nw, sw)];
    NegativeProduct(box.south - p.y, box.east - box.west);
    NegativeProduct(p.x - box.east, box.north - box.south);
    NegativeProduct(p.y - box.north, box.east - box.west);
    NegativeProduct(box.west - p.x, box.north - box.south);
    assert Cross(p, sw, se) == (box.south - p.y) * (box.east - box.west);
    assert Cross(p, se, ne) == (p.x - box.east) * (box.north - box.south);
    assert Cross(p, ne, nw) == (p.y - box.north) * (box.east - box.west);
    assert Cross(p, nw, sw) == (box.west - p.x) * (box.north - box.south);
    SameSideIsInside(p, ring, 1, true, tol);
    RotationInvariance(p, ring, k, tol);
    ReversalInvariance(p, ring, tol);
  }

  /** The edge goes from one side of the level to the other, and meets it east of `west` up to `east`. */
  ghost predicate Cuts(e: Edge, y: real, west: real, east: real) {
    && (e.a.y > y) != (e.b.y > y)
    && exists x :: west < x <= east && OnSegment(Point(x, y), e.a, e.b)
  }

  lemma ZeroQuotient(d: real)
    requires d != 0.0
    ensures -0.0 / d == 0.0
  {
  }

  lemma CutsIff(e: Edge, p: Point, q: Point)
    requires p.y == q.y && p.x <= q.x
    ensures Cuts(e, p.y, p.x, q.x) <==> Crosses(p, e) != Crosses(q, e)
  {
    if Straddles(p.y, e) {
      CrossingIsOnEdge(p.y, e);
      forall x | OnSegment(Point(x, p.y), e.a, e.b) ensures x == CrossingX(p.y, e) {
        CrossingBySide(Point(x, p.y), e);
        ZeroQuotient(e.b.y - e.a.y);
      }
      if p.x < CrossingX(p.y, e) <= q.x {
        assert OnSegment(Point(CrossingX(p.y, e), p.y), e.a, e.b);
      }
    }
  }

  lemma {:induction false} OneCut(p: Point, q: Point, es: seq<Edge>, k: nat)
    requires p.y == q.y && p.x <= q.x && k < |es|
    requires forall i :: 0 <= i < |es| ==> (Cuts(es[i], p.y, p.x, q.x) <==> i == k)
    ensures Odd(p, es) != Odd(q, es)
  {
    var n := |es| - 1;
    CutsIff(es[n], p, q);
    if k == n {
      NoCut(p, q, es[..n]);
    } else {
      OneCut(p, q, es[..n], k);
    }
  }

  lemma {:induction false} NoCut(p: Point, q: Point, es: seq<Edge>)
    requires p.y == q.y && p.x <= q.x
    requires forall i :: 0 <= i < |es| ==> !Cuts(es[i], p.y, p.x, q.x)
    ensures Odd(p, es) == Odd(q, es)
  {
    if es != [] {
      var n := |es| - 1;
      CutsIff(es[n], p, q);
      NoCut(p, q, es[..n]);
    }
  }

  /** Passing through one edge of a ring changes the answer: of two points level with each other, both off the
      border, with a single edge passing between them, exactly one is inside. */
  lemma OneEdgeBetween(p: Point, q: Point, ring: Ring, k: nat, tol: real)
    requires |ring| >= 1 && k < |ring| - 1
    requires p.y == q.y && p.x <= q.x
    requires forall e :: e in Edges(ring) ==> !PointOnSegment(p, e.a, e.b, tol) && !PointOnSegment(q, e.a, e.b, tol)
    requires forall i :: 0 <= i < |ring| - 1 ==> (Cuts(Edges(ring)[i], p.y, p.x, q.x) <==> i == k)
    ensures InRing(p, ring, tol) != InRing(q, ring, tol)
  {
    var es := Edges(ring);
    forall i | 0 <= i < |es|
      ensures !PointOnSegment(p, es[i].a, es[i].b, tol) && !PointOnSegment(q, es[i].a, es[i].b, tol)
    {
      assert es[i] in es;
    }
    OneCut(p, q, es, k);
  }
}
