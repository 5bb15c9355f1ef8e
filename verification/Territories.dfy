/** Polygons, bounding boxes and precision cells of `territory.py`. */
module Territories {
  import opened Basics
  import opened Segments
  import opened RayCasting

  /** The outer ring followed by the holes. */
  type Polygon = seq<Ring>

  /** What `_polygon` accepts. */
  predicate ValidPolygon(polygon: Polygon) {
    polygon != [] && forall i :: 0 <= i < |polygon| ==> ValidRing(polygon[i])
  }

  /** `_point_in_polygon` */
  predicate PointInPolygon(p: Point, polygon: Polygon, tol: real)
    requires ValidPolygon(polygon)
  {
    && InRing(p, polygon[0], tol)
    && forall i :: 1 <= i < |polygon| ==> !InRing(p, polygon[i], tol)
  }

  predicate Covers(box: Box, polygon: Polygon) {
    forall r, v :: r in polygon && v in r ==> box.Contains(v)
  }

  datatype Territory = Territory(id: string, name: string, level: string,
                                 country: Option<string>, parent: Option<string>,
                                 polygons: seq<Polygon>, bounds: Box) {
    /** What `territory_from_feature` builds: valid polygons, and bounds that hold every position. */
    predicate Valid() {
      forall polygon :: polygon in polygons ==> ValidPolygon(polygon) && Covers(bounds, polygon)
    }

    /** The ray-casting part of `Territory.contains`. */
    predicate ContainsByRays(p: Point, tol: real)
      requires Valid()
    {
      exists i :: 0 <= i < |polygons| && PointInPolygon(p, polygons[i], tol)
    }

    /** `Territory.contains`: the bounding box first. */
    predicate Contains(p: Point, tol: real)
      requires Valid()
    {
      if !bounds.Contains(p) then false else ContainsByRays(p, tol)
    }

    /** The point is farther than `tol` outside the bounds on some side. */
    predicate FarOutside(p: Point, tol: real) {
      || p.x < bounds.west - tol || p.x > bounds.east + tol
      || p.y < bounds.south - tol || p.y > bounds.north + tol
    }
  }

  // ------------------------------------------------------------ `_bounds`

  function Positions(polygons: seq<Polygon>): seq<Point> {
    if polygons == [] then [] else Concat(polygons[0]) + Positions(polygons[1..])
  }

  function Concat(rings: seq<Ring>): seq<Point> {
    if rings == [] then [] else rings[0] + Concat(rings[1..])
  }

  /** `_bounds` over the listed positions: the smallest box that holds them all. */
  function BoundsOf(points: seq<Point>): (box: Box)
    requires points != []
    ensures forall p :: p in points ==> box.Contains(p)
    ensures exists p :: p in points && p.y == box.south
    ensures exists p :: p in points && p.x == box.west
    ensures exists p :: p in points && p.y == box.north
    ensures exists p :: p in points && p.x == box.east
  {
    var p := points[|points| - 1];
    if |points| == 1 then
      Box(p.y, p.x, p.y, p.x)
    else
      var b := BoundsOf(points[..|points| - 1]);
      assert points == points[..|points| - 1] + [p];
      Box(Min(b.south, p.y), Min(b.west, p.x), Max(b.north, p.y), Max(b.east, p.x))
  }

  lemma {:induction false} ConcatHolds(rings: seq<Ring>, r: Ring, v: Point)
    requires r in rings && v in r
    ensures v in Concat(rings)
  {
    if r != rings[0] {
      ConcatHolds(rings[1..], r, v);
    }
  }

  lemma {:induction false} PositionsHold(polygons: seq<Polygon>, polygon: Polygon, r: Ring, v: Point)
    requires polygon in polygons && r in polygon && v in r
    ensures v in Positions(polygons)
  {
    if polygon == polygons[0] {
      ConcatHolds(polygon, r, v);
    } else {
      PositionsHold(polygons[1..], polygon, r, v);
    }
  }

  /** Bounds computed by `_bounds` make a valid territory of valid polygons. */
  lemma BoundsMakeTerritory(t: Territory)
    requires forall polygon :: polygon in t.polygons ==> ValidPolygon(polygon)
    requires Positions(t.polygons) != []
    requires t.bounds == BoundsOf(Positions(t.polygons))
    ensures t.Valid()
  {
    forall polygon, r, v | polygon in t.polygons && r in polygon && v in r
      ensures t.bounds.Contains(v)
    {
      PositionsHold(t.polygons, polygon, r, v);
    }
  }

  // ------------------------------------------------------------ the box in front of the rays

  lemma OutsideIsBeyond(p: Point, t: Territory, ring: Ring, tol: real)
    requires tol >= 0.0
    requires forall v :: v in ring ==> t.bounds.Contains(v)
    requires t.FarOutside(p, tol)
    ensures Beyond(p, ring, tol)
  {
  }

  /** The bounding box never changes the answer inside it, nor farther than the tolerance outside it. */
  lemma BoxAgreesWithRays(t: Territory, p: Point, tol: real)
    requires t.Valid() && tol >= 0.0
    requires t.bounds.Contains(p) || t.FarOutside(p, tol)
    ensures t.Contains(p, tol) == t.ContainsByRays(p, tol)
  {
    if !t.bounds.Contains(p) {
      forall i | 0 <= i < |t.polygons|
        ensures !PointInPolygon(p, t.polygons[i], tol)
      {
        var polygon := t.polygons[i];
        assert Covers(t.bounds, polygon) && polygon[0] in polygon;
        OutsideIsBeyond(p, t, polygon[0], tol);
        BeyondIsOutside(p, polygon[0], tol);
      }
    }
  }

  /** Read without tolerance, the box is a pure optimisation: it agrees with the rays everywhere. */
  lemma BoxIsExact(t: Territory, p: Point)
    requires t.Valid()
    ensures t.Contains(p, 0.0) == t.ContainsByRays(p, 0.0)
  {
    BoxAgreesWithRays(t, p, 0.0);
  }

  /** Only the tolerance of the border test can make the rays claim a point outside the box. */
  lemma OutsideOnlyByTouch(p: Point, t: Territory, ring: Ring, tol: real)
    requires tol >= 0.0
    requires ValidRing(ring)
    requires forall v :: v in ring ==> t.bounds.Contains(v)
    requires !t.bounds.Contains(p)
    ensures InRing(p, ring, tol) == OnEdges(p, Edges(ring), tol)
  {
    OutsideIsBeyond(p, t, ring, 0.0);
    BeyondIsOutside(p, ring, 0.0);
  }

  /** p is within the tolerance of the polygon's outer ring and of none of its holes. */
  predicate Touches(polygon: Polygon, p: Point, tol: real)
    requires ValidPolygon(polygon)
  {
    && OnEdges(p, Edges(polygon[0]), tol)
    && forall i :: 1 <= i < |polygon| ==> !OnEdges(p, Edges(polygon[i]), tol)
  }

  lemma OutsideTouchIff(t: Territory, polygon: Polygon, p: Point, tol: real)
    requires t.Valid() && polygon in t.polygons && tol >= 0.0
    requires !t.bounds.Contains(p)
    ensures PointInPolygon(p, polygon, tol) <==> Touches(polygon, p, tol)
  {
    assert Covers(t.bounds, polygon);
    forall i | 0 <= i < |polygon|
      ensures InRing(p, polygon[i], tol) == OnEdges(p, Edges(polygon[i]), tol)
    {
      assert polygon[i] in polygon;
      OutsideOnlyByTouch(p, t, polygon[i], tol);
    }
  }

  /** Exactly when the box changes the answer of the rays, at any tolerance. */
  lemma BoxChangesAnswerIff(t: Territory, p: Point, tol: real)
    requires t.Valid() && tol >= 0.0
    ensures t.Contains(p, tol) != t.ContainsByRays(p, tol)
       <==> && !t.bounds.Contains(p)
            && exists i :: 0 <= i < |t.polygons| && Touches(t.polygons[i], p, tol)
  {
    if !t.bounds.Contains(p) {
      forall i | 0 <= i < |t.polygons|
        ensures PointInPolygon(p, t.polygons[i], tol) <==> Touches(t.polygons[i], p, tol)
      {
        OutsideTouchIff(t, t.polygons[i], p, tol);
      }
    }
  }

  const UNIT_SQUARE: Ring := [Point(0.0, 0.0), Point(1.0, 0.0), Point(1.0, 1.0), Point(0.0, 1.0), Point(0.0, 0.0)]

  /** At the source's own tolerance the box does change an answer: a point a tenth of the tolerance
      west of a unit square counts as on its border, but the box refuses it first. */
  lemma BoxIsNotExactAtTolerance()
    ensures var t := Territory("a", "a", "municipality", None, None, [[UNIT_SQUARE]], Box(0.0, 0.0, 1.0, 1.0));
            var p := Point(-0.0000000000001, 0.5);
            t.Valid() && t.ContainsByRays(p, TOLERANCE) && !t.Contains(p, TOLERANCE)
  {
    var t := Territory("a", "a", "municipality", None, None, [[UNIT_SQUARE]], Box(0.0, 0.0, 1.0, 1.0));
    var p := Point(-0.0000000000001, 0.5);
    var es := Edges(UNIT_SQUARE);
    assert es[3] == Edge(Point(0.0, 1.0), Point(0.0, 0.0));
    assert Cross(p, es[3].a, es[3].b) == 0.0000000000001;
    assert PointOnSegment(p, es[3].a, es[3].b, TOLERANCE);
    assert PointInPolygon(p, t.polygons[0], TOLERANCE);
  }

  // ------------------------------------------------------------ rectangle and segments

  /** `_rectangle_edges` */
  function RectangleEdges(cell: Box): (es: seq<Edge>) {
    var sw, se := Point(cell.west, cell.south), Point(cell.east, cell.south);
    var ne, nw := Point(cell.east, cell.north), Point(cell.west, cell.north);
    [Edge(sw, se), Edge(se, ne), Edge(ne, nw), Edge(nw, sw)]
  }

  /** `_rectangle_corners` */
  function Corners(cell: Box): seq<Point> {
    [Point(cell.west, cell.south), Point(cell.east, cell.south),
     Point(cell.east, cell.north), Point(cell.west, cell.north)]
  }

  /** `_ring_intersects_rectangle` */
  predicate RingIntersectsRectangle(ring: Ring, cell: Box, tol: real)
    requires |ring| >= 1
  {
    exists e, r :: e in Edges(ring) && r in RectangleEdges(cell) && SegmentsIntersect(e.a, e.b, r.a, r.b, tol)
  }

  /** `_polygon_intersects_rectangle` */
  predicate PolygonIntersectsRectangle(polygon: Polygon, cell: Box, tol: real)
    requires ValidPolygon(polygon)
  {
    if exists c :: c in Corners(cell) && PointInPolygon(c, polygon, tol) then
      true
    else if exists v :: v in polygon[0] && cell.Contains(v) then
      true
    else
      exists i :: 0 <= i < |polygon| && RingIntersectsRectangle(polygon[i], cell, tol)
  }

  /** `territory_intersects_cell` */
  predicate TerritoryIntersectsCell(t: Territory, cell: Box, tol: real)
    requires t.Valid()
  {
    if || cell.north < t.bounds.south || cell.south > t.bounds.north
       || cell.east < t.bounds.west || cell.west > t.bounds.east
    then
      false
    else
      exists i :: 0 <= i < |t.polygons| && PolygonIntersectsRectangle(t.polygons[i], cell, tol)
  }

  ghost predicate OnRing(p: Point, ring: Ring)
    requires |ring| >= 1
  {
    exists e :: e in Edges(ring) && OnSegment(p, e.a, e.b)
  }

  lemma BorderIffOnRectangleEdge(cell: Box, p: Point)
    requires cell.Valid()
    ensures cell.Border(p) <==> exists r :: r in RectangleEdges(cell) && OnSegment(p, r.a, r.b)
  {
    var es := RectangleEdges(cell);
    assert es[0] in es && es[1] in es && es[2] in es && es[3] in es;
    if cell.Border(p) {
      var side := if p.y == cell.south then es[0]
                  else if p.x == cell.east then es[1]
                  else if p.y == cell.north then es[2]
                  else es[3];
      assert Cross(p, side.a, side.b) == 0.0;
      assert OnSegment(p, side.a, side.b);
    }
  }

  /** Without tolerance, a ring test is true exactly when a point of the ring is on the cell's border. */
  lemma RingTestIffOnBorder(ring: Ring, cell: Box)
    requires |ring| >= 1 && cell.Valid()
    ensures RingIntersectsRectangle(ring, cell, 0.0) <==> exists p :: cell.Border(p) && OnRing(p, ring)
  {
    if RingIntersectsRectangle(ring, cell, 0.0) {
      var e, r :| e in Edges(ring) && r in RectangleEdges(cell) && SegmentsIntersect(e.a, e.b, r.a, r.b, 0.0);
      SegmentsIntersectIffShareAPoint(e.a, e.b, r.a, r.b);
      var p :| OnSegment(p, e.a, e.b) && OnSegment(p, r.a, r.b);
      BorderIffOnRectangleEdge(cell, p);
      assert cell.Border(p) && OnRing(p, ring);
    }
    if p :| cell.Border(p) && OnRing(p, ring) {
      BorderIffOnRectangleEdge(cell, p);
      var e :| e in Edges(ring) && OnSegment(p, e.a, e.b);
      var r :| r in RectangleEdges(cell) && OnSegment(p, r.a, r.b);
      SegmentsIntersectIffShareAPoint(e.a, e.b, r.a, r.b);
    }
  }

  // ------------------------------------------------------------ leaving a rectangle

  /** A coordinate that moves from u towards v is still within [lo, hi] at parameter s. */
  predicate Within(lo: real, hi: real, u: real, v: real, s: real) {
    lo <= u + s * (v - u) <= hi
  }

  /** How far one coordinate can go from u towards v before it leaves [lo, hi]. */
  lemma ExitFraction(lo: real, hi: real, u: real, v: real) returns (s: real)
    requires lo < u < hi
    ensures 0.0 <= s <= 1.0
    ensures lo <= v <= hi ==> s == 1.0
    ensures v > hi ==> u + s * (v - u) == hi
    ensures v < lo ==> u + s * (v - u) == lo
    ensures forall s' :: 0.0 <= s' <= s ==> Within(lo, hi, u, v, s')
  {
    if lo <= v <= hi {
      s := 1.0;
      forall s' | 0.0 <= s' <= s ensures Within(lo, hi, u, v, s') {
        Between(u, v, s');
      }
    } else if v > hi {
      s := FractionTo(lo, hi, u, v, hi);
    } else {
      s := FractionTo(lo, hi, u, v, lo);
    }
  }

  /** How far one coordinate can go until it reaches that side. */
  lemma FractionTo(lo: real, hi: real, u: real, v: real, side: real) returns (s: real)
    requires lo < u < hi && lo <= side <= hi
    requires v < side <= u || u <= side < v
    ensures 0.0 <= s <= 1.0
    ensures u + s * (v - u) == side
    ensures forall s' :: 0.0 <= s' <= s ==> Within(lo, hi, u, v, s')
  {
    s := Fraction(u, v, side);
    forall s' | 0.0 <= s' <= s ensures Within(lo, hi, u, v, s') {
      WithinUntil(lo, hi, u, v, s, s');
    }
  }

  lemma WithinUntil(lo: real, hi: real, u: real, v: real, s: real, s': real)
    requires lo < u < hi
    requires 0.0 <= s' <= s
    requires Within(lo, hi, u, v, s)
    ensures Within(lo, hi, u, v, s')
  {
    var d := v - u;
    Monotone(s', s, d);
    assert lo <= u + s * d <= hi;
  }

  lemma Monotone(s': real, s: real, d: real)
    requires 0.0 <= s' <= s
    ensures d >= 0.0 ==> 0.0 <= s' * d <= s * d
    ensures d <= 0.0 ==> s * d <= s' * d <= 0.0
  {
    if d >= 0.0 {
      ProductNonNegative(s', d);
      ProductNonNegative(s - s', d);
      assert (s - s') * d == s * d - s' * d;
    }
    if d <= 0.0 {
      ProductNonNegative(s', -d);
      ProductNonNegative(s - s', -d);
      assert (s - s') * (-d) == s' * d - s * d;
    }
  }

  /** A segment from strictly inside a rectangle to outside meets its border. */
  lemma ExitPoint(cell: Box, q: Point, a: Point) returns (s: real)
    requires cell.Contains(q) && !cell.Border(q)
    requires !cell.Contains(a)
    ensures 0.0 <= s <= 1.0
    ensures cell.Border(At(q, a, s))
  {
    var sx := ExitFraction(cell.west, cell.east, q.x, a.x);
    var sy := ExitFraction(cell.south, cell.north, q.y, a.y);
    s := if sx <= sy then sx else sy;
    assert Within(cell.west, cell.east, q.x, a.x, s);
    assert Within(cell.south, cell.north, q.y, a.y, s);
  }

  lemma TowardsStart(a: Point, b: Point, t: real, s: real)
    ensures At(At(a, b, t), a, s) == At(a, b, t * (1.0 - s))
  {
    var w := At(a, b, t);
    OneCoordinate(a.x, b.x, t, s);
    OneCoordinate(a.y, b.y, t, s);
    assert At(w, a, s).x == w.x + s * (a.x - w.x);
    assert At(w, a, s).y == w.y + s * (a.y - w.y);
  }

  lemma OneCoordinate(u: real, v: real, t: real, s: real)
    ensures var w := u + t * (v - u); w + s * (u - w) == u + (t * (1.0 - s)) * (v - u)
  {
    var w := u + t * (v - u);
    assert s * (u - w) == -(s * t) * (v - u);
    assert (t * (1.0 - s)) * (v - u) == t * (v - u) - (s * t) * (v - u);
  }

  lemma EndInside(cell: Box, a: Point, b: Point)
    requires cell.Contains(a)
    requires forall p :: cell.Border(p) ==> !OnSegment(p, a, b)
    ensures cell.Contains(b)
  {
    if !cell.Contains(b) {
      EndsAreOnSegment(a, b);
      var s := ExitPoint(cell, a, b);
      AtIsOnSegment(a, b, s);
      assert false;
    }
  }

  /** A segment that starts outside a rectangle and misses its border misses the rectangle. */
  lemma StaysOutside(cell: Box, a: Point, b: Point, q: Point)
    requires !cell.Contains(a)
    requires forall p :: cell.Border(p) ==> !OnSegment(p, a, b)
    requires OnSegment(q, a, b)
    ensures !cell.Contains(q)
  {
    if cell.Contains(q) {
      var t := ParameterOf(q, a, b);
      var s := ExitPoint(cell, q, a);
      var m := t * (1.0 - s);
      assert 0.0 <= m <= 1.0 by { Monotone(t, 1.0, 1.0 - s); }
      TowardsStart(a, b, t, s);
      AtIsOnSegment(a, b, m);
      assert false;
    }
  }

  lemma {:induction false} AllOrNoneInside(ring: Ring, cell: Box, n: nat)
    requires n < |ring|
    requires forall p :: cell.Border(p) ==> !OnRing(p, ring)
    ensures cell.Contains(ring[n]) == cell.Contains(ring[0])
  {
    if n > 0 {
      AllOrNoneInside(ring, cell, n - 1);
      var e := Edges(ring)[n - 1];
      assert e in Edges(ring);
      forall p | cell.Border(p) ensures !OnSegment(p, e.a, e.b) && !OnSegment(p, e.b, e.a) {
        SegmentReversal(p, e.a, e.b, 0.0);
      }
      if cell.Contains(e.a) {
        EndInside(cell, e.a, e.b);
      } else if cell.Contains(e.b) {
        EndInside(cell, e.b, e.a);
      }
    }
  }

  /** A ring with no vertex in the cell and no point on its border has no point in the cell at all. */
  lemma RingAvoidsCell(ring: Ring, cell: Box)
    requires |ring| >= 1
    requires forall p :: cell.Border(p) ==> !OnRing(p, ring)
    requires !cell.Contains(ring[0])
    ensures Avoids(ring, cell)
  {
    forall e, q | e in Edges(ring) && cell.Contains(q)
      ensures !OnSegment(q, e.a, e.b)
    {
      var i :| 0 <= i < |Edges(ring)| && Edges(ring)[i] == e;
      AllOrNoneInside(ring, cell, i);
      forall p | cell.Border(p) ensures !OnSegment(p, e.a, e.b) {
        assert !OnRing(p, ring);
      }
      if OnSegment(q, e.a, e.b) {
        StaysOutside(cell, e.a, e.b, q);
      }
    }
  }

  /** A ring wholly inside the cell does not contain the cell's corner. */
  lemma InnerRingMissesCorner(ring: Ring, cell: Box)
    requires ValidRing(ring)
    requires forall p :: cell.Border(p) ==> !OnRing(p, ring)
    requires cell.Contains(ring[0])
    ensures !InRing(Point(cell.west, cell.south), ring, 0.0)
  {
    forall v | v in ring ensures cell.west < v.x {
      var i :| 0 <= i < |ring| && ring[i] == v;
      AllOrNoneInside(ring, cell, i);
      VertexOnRing(ring, i);
    }
    BeyondIsOutside(Point(cell.west, cell.south), ring, 0.0);
  }

  lemma VertexOnRing(ring: Ring, i: nat)
    requires |ring| >= 2 && i < |ring|
    ensures OnRing(ring[i], ring)
  {
    var j := if i == 0 then 0 else i - 1;
    var e := Edges(ring)[j];
    assert e in Edges(ring);
    EndsAreOnSegment(e.a, e.b);
  }

  // ------------------------------------------------------------ what the cell test means

  /** The cell and the polygon have a point in common: a point of the polygon's area, a point of its
      outer ring, or a point of some ring on the cell's border. */
  ghost predicate Meets(polygon: Polygon, cell: Box)
    requires ValidPolygon(polygon)
  {
    || (exists p :: cell.Contains(p) && PointInPolygon(p, polygon, 0.0))
    || (exists p :: cell.Contains(p) && OnRing(p, polygon[0]))
    || (exists i, p :: 0 <= i < |polygon| && cell.Border(p) && OnRing(p, polygon[i]))
  }

  lemma TestImpliesMeets(polygon: Polygon, cell: Box)
    requires ValidPolygon(polygon) && cell.Valid()
    requires PolygonIntersectsRectangle(polygon, cell, 0.0)
    ensures Meets(polygon, cell)
  {
    if c :| c in Corners(cell) && PointInPolygon(c, polygon, 0.0) {
      assert cell.Contains(c);
    } else if v :| v in polygon[0] && cell.Contains(v) {
      var i :| 0 <= i < |polygon[0]| && polygon[0][i] == v;
      VertexOnRing(polygon[0], i);
    } else {
      var i :| 0 <= i < |polygon| && RingIntersectsRectangle(polygon[i], cell, 0.0);
      RingTestIffOnBorder(polygon[i], cell);
      var p :| cell.Border(p) && OnRing(p, polygon[i]);
    }
  }

  lemma NothingOnBorder(polygon: Polygon, cell: Box, i: nat)
    requires ValidPolygon(polygon) && cell.Valid() && i < |polygon|
    requires !PolygonIntersectsRectangle(polygon, cell, 0.0)
    ensures forall p :: cell.Border(p) ==> !OnRing(p, polygon[i])
  {
    RingTestIffOnBorder(polygon[i], cell);
  }

  /** Off every ring the ray-casting answer is the same all over the cell, so what holds of one
      point of the cell holds of its corner. */
  lemma AreaReachesCorner(polygon: Polygon, cell: Box, q: Point)
    requires ValidPolygon(polygon) && cell.Valid()
    requires forall i, p :: 0 <= i < |polygon| && cell.Border(p) ==> !OnRing(p, polygon[i])
    requires !cell.Contains(polygon[0][0])
    requires cell.Contains(q) && PointInPolygon(q, polygon, 0.0)
    ensures PointInPolygon(Point(cell.west, cell.south), polygon, 0.0)
  {
    var corner := Point(cell.west, cell.south);
    RingAvoidsCell(polygon[0], cell);
    ConstantOffTheBorder(polygon[0], cell, q, corner);
    forall i | 1 <= i < |polygon|
      ensures !InRing(corner, polygon[i], 0.0)
    {
      if cell.Contains(polygon[i][0]) {
        InnerRingMissesCorner(polygon[i], cell);
      } else {
        RingAvoidsCell(polygon[i], cell);
        ConstantOffTheBorder(polygon[i], cell, q, corner);
      }
    }
  }

  lemma AreaReachesCell(polygon: Polygon, cell: Box, q: Point)
    requires ValidPolygon(polygon) && cell.Valid()
    requires cell.Contains(q) && PointInPolygon(q, polygon, 0.0)
    ensures PolygonIntersectsRectangle(polygon, cell, 0.0)
  {
    assert Corners(cell)[0] in Corners(cell);
    if !PolygonIntersectsRectangle(polygon, cell, 0.0) {
      forall i | 0 <= i < |polygon|
        ensures forall p :: cell.Border(p) ==> !OnRing(p, polygon[i])
      {
        NothingOnBorder(polygon, cell, i);
      }
      assert polygon[0][0] in polygon[0];
      AreaReachesCorner(polygon, cell, q);
    }
  }

  lemma OuterRingReachesCell(polygon: Polygon, cell: Box, q: Point)
    requires ValidPolygon(polygon) && cell.Valid()
    requires cell.Contains(q) && OnRing(q, polygon[0])
    ensures PolygonIntersectsRectangle(polygon, cell, 0.0)
  {
    if !PolygonIntersectsRectangle(polygon, cell, 0.0) {
      NothingOnBorder(polygon, cell, 0);
      assert polygon[0][0] in polygon[0];
      RingAvoidsCell(polygon[0], cell);
      assert false;
    }
  }

  /** Without tolerance, the three partial tests of `_polygon_intersects_rectangle` (corners of the
      cell, vertices of the outer ring, edges against edges) decide exactly whether the cell and the
      polygon have a point in common. */
  lemma PolygonTestIffMeets(polygon: Polygon, cell: Box)
    requires ValidPolygon(polygon) && cell.Valid()
    ensures PolygonIntersectsRectangle(polygon, cell, 0.0) <==> Meets(polygon, cell)
  {
    if PolygonIntersectsRectangle(polygon, cell, 0.0) {
      TestImpliesMeets(polygon, cell);
    } else if p :| cell.Contains(p) && PointInPolygon(p, polygon, 0.0) {
      AreaReachesCell(polygon, cell, p);
    } else if p :| cell.Contains(p) && OnRing(p, polygon[0]) {
      OuterRingReachesCell(polygon, cell, p);
    } else if i, p :| 0 <= i < |polygon| && cell.Border(p) && OnRing(p, polygon[i]) {
      NothingOnBorder(polygon, cell, i);
    }
  }

  lemma RingPointsInBounds(ring: Ring, box: Box, p: Point)
    requires |ring| >= 1
    requires forall v :: v in ring ==> box.Contains(v)
    requires OnRing(p, ring)
    ensures box.Contains(p)
  {
    var e :| e in Edges(ring) && OnSegment(p, e.a, e.b);
    EdgeEnds(ring, e);
  }

  lemma MeetsOnlyInBounds(t: Territory, polygon: Polygon, cell: Box)
    requires t.Valid() && polygon in t.polygons
    requires Meets(polygon, cell)
    ensures exists p :: cell.Contains(p) && t.bounds.Contains(p)
  {
    assert Covers(t.bounds, polygon);
    if p :| cell.Contains(p) && PointInPolygon(p, polygon, 0.0) {
      assert polygon[0] in polygon;
      if !t.bounds.Contains(p) {
        OutsideIsBeyond(p, t, polygon[0], 0.0);
        BeyondIsOutside(p, polygon[0], 0.0);
        assert false;
      }
    } else if p :| cell.Contains(p) && OnRing(p, polygon[0]) {
      assert polygon[0] in polygon;
      RingPointsInBounds(polygon[0], t.bounds, p);
    } else {
      var i, p :| 0 <= i < |polygon| && cell.Border(p) && OnRing(p, polygon[i]);
      assert polygon[i] in polygon;
      RingPointsInBounds(polygon[i], t.bounds, p);
    }
  }

  /** `territory_intersects_cell` is exact too: its test of the two boxes loses nothing. */
  lemma TerritoryTestIffMeets(t: Territory, cell: Box)
    requires t.Valid() && cell.Valid()
    ensures TerritoryIntersectsCell(t, cell, 0.0)
       <==> exists i :: 0 <= i < |t.polygons| && Meets(t.polygons[i], cell)
  {
    forall i | 0 <= i < |t.polygons|
      ensures PolygonIntersectsRectangle(t.polygons[i], cell, 0.0) <==> Meets(t.polygons[i], cell)
    {
      PolygonTestIffMeets(t.polygons[i], cell);
    }
    if i :| 0 <= i < |t.polygons| && Meets(t.polygons[i], cell) {
      MeetsOnlyInBounds(t, t.polygons[i], cell);
    }
  }

  /** A territory that contains a point is compatible with every cell around that point. */
  lemma ContainingTerritoryIsCompatible(t: Territory, p: Point, cell: Box)
    requires t.Valid() && cell.Valid()
    requires cell.Contains(p) && t.Contains(p, 0.0)
    ensures TerritoryIntersectsCell(t, cell, 0.0)
  {
    TerritoryTestIffMeets(t, cell);
    var i :| 0 <= i < |t.polygons| && PointInPolygon(p, t.polygons[i], 0.0);
    assert Meets(t.polygons[i], cell);
  }

  // ------------------------------------------------------------ what territories hold

  /** A point strictly inside a triangular or rectangular hole is not in the polygon, whatever its other rings. */
  lemma HoleIsOutside(polygon: Polygon, i: nat, p: Point, tol: real)
    requires ValidPolygon(polygon) && 1 <= i < |polygon|
    requires || (exists a, b, c, u, v, w :: polygon[i] == Triangle(a, b, c) && StrictMean(p, a, b, c, u, v, w))
             || (exists box: Box ::
                   polygon[i] == Frame(box) && box.west < p.x < box.east && box.south < p.y < box.north)
    ensures !PointInPolygon(p, polygon, tol)
  {
    if a, b, c, u, v, w :| polygon[i] == Triangle(a, b, c) && StrictMean(p, a, b, c, u, v, w) {
      TriangleHolds(a, b, c, u, v, w, tol);
    } else {
      var box: Box :| polygon[i] == Frame(box) && box.west < p.x < box.east && box.south < p.y < box.north;
      FrameHolds(box, p, 0, tol);
    }
  }

  /** The point is a strictly positive weighted mean of the corners of a triangle that is not flat. */
  predicate StrictMean(p: Point, a: Point, b: Point, c: Point, u: real, v: real, w: real) {
    && u > 0.0 && v > 0.0 && w > 0.0 && u + v + w == 1.0
    && p == Mean3(a, b, c, u, v, w)
    && (c.x - a.x) * (b.y - a.y) != (c.y - a.y) * (b.x - a.x)
  }

  lemma MeanWithin(a: real, b: real, c: real, u: real, v: real, w: real, lo: real, hi: real)
    requires u > 0.0 && v > 0.0 && w > 0.0 && u + v + w == 1.0
    requires lo <= a <= hi && lo <= b <= hi && lo <= c <= hi
    ensures lo <= u * a + v * b + w * c <= hi
  {
    MeanAround(a, b, c, u, v, w, lo);
    MeanAround(a, b, c, u, v, w, hi);
    ProductNonNegative(u, a - lo);
    ProductNonNegative(v, b - lo);
    ProductNonNegative(w, c - lo);
    NonPositiveShare(u, a - hi);
    NonPositiveShare(v, b - hi);
    NonPositiveShare(w, c - hi);
  }

  lemma NonPositiveShare(u: real, x: real)
    requires u > 0.0 && x <= 0.0
    ensures u * x <= 0.0
  {
    ProductNonNegative(u, -x);
    assert u * (-x) == -(u * x);
  }

  /** A territory with a triangular polygon contains every strict mean of its corners, bounding box included. */
  lemma TriangleTerritoryContains(t: Territory, p: Point, a: Point, b: Point, c: Point,
                                  u: real, v: real, w: real, tol: real)
    requires t.Valid() && [Triangle(a, b, c)] in t.polygons
    requires StrictMean(p, a, b, c, u, v, w)
    ensures t.Contains(p, tol)
  {
    CornersInBounds(t, a, b, c);
    MeanInBox(t.bounds, a, b, c, u, v, w);
    TriangleHolds(a, b, c, u, v, w, tol);
    SoleRingHolds(t, Triangle(a, b, c), p, tol);
  }

  lemma MeanInBox(box: Box, a: Point, b: Point, c: Point, u: real, v: real, w: real)
    requires u > 0.0 && v > 0.0 && w > 0.0 && u + v + w == 1.0
    requires box.Contains(a) && box.Contains(b) && box.Contains(c)
    ensures box.Contains(Mean3(a, b, c, u, v, w))
  {
    MeanWithin(a.x, b.x, c.x, u, v, w, box.west, box.east);
    MeanWithin(a.y, b.y, c.y, u, v, w, box.south, box.north);
  }

  lemma CornersInBounds(t: Territory, a: Point, b: Point, c: Point)
    requires t.Valid() && [Triangle(a, b, c)] in t.polygons
    ensures t.bounds.Contains(a) && t.bounds.Contains(b) && t.bounds.Contains(c)
  {
    var ring := Triangle(a, b, c);
    assert a in ring && b in ring && c in ring;
    assert ring in [ring] && Covers(t.bounds, [ring]);
  }

  lemma SoleRingHolds(t: Territory, ring: Ring, p: Point, tol: real)
    requires t.Valid() && |ring| >= 1 && [ring] in t.polygons && InRing(p, ring, tol)
    ensures t.ContainsByRays(p, tol)
  {
    var i :| 0 <= i < |t.polygons| && t.polygons[i] == [ring];
    assert PointInPolygon(p, t.polygons[i], tol);
  }

  /** A point strictly within a rectangle and farther than the tolerance from a rectangular hole is in the polygon. */
  lemma FramedPolygonHolds(outer: Box, hole: Box, p: Point, tol: real)
    requires outer.Valid() && hole.Valid() && tol >= 0.0
    requires outer.west < p.x < outer.east && outer.south < p.y < outer.north
    requires p.x < hole.west - tol || p.x > hole.east + tol || p.y < hole.south - tol || p.y > hole.north + tol
    ensures PointInPolygon(p, [Frame(outer), Frame(hole)], tol)
  {
    FrameHolds(outer, p, 0, tol);
    BeyondIsOutside(p, Frame(hole), tol);
  }
}
