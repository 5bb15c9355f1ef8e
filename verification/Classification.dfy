/** `TerritoryIndex`: which territory a published position belongs to, given its precision. */
module Classification {
  import opened Basics
  import opened Segments
  import opened RayCasting
  import opened Territories

  datatype Problem = PositionOutOfRange | PrecisionOutOfRange | SeveralTerritories

  datatype Status = Exact | Compatible | Ambiguous | Outside

  datatype Verdict = Verdict(status: Status, exact: Option<Territory>, compatible: seq<Territory>, cell: Option<Box>)

  function PowerOfTwo(n: nat): (r: real)
    ensures r >= 1.0
  {
    if n == 0 then 1.0 else 2.0 * PowerOfTwo(n - 1)
  }

  predicate InRange(p: Point) {
    -90.0 <= p.y <= 90.0 && -180.0 <= p.x <= 180.0
  }

  /** `precision_cell`: a square of side 2^(32 - bits) / 10^7 degrees around the position, cut at the
      limits of the coordinates. */
  function PrecisionCell(p: Point, bits: int): (r: Result<Box, Problem>)
    ensures r.Ok? <==> InRange(p) && 0 <= bits <= 32
    ensures r.Ok? ==> r.value.Valid() && r.value.Contains(p)
  {
    if !InRange(p) then Err(PositionOutOfRange)
    else if !(0 <= bits <= 32) then Err(PrecisionOutOfRange)
    else
      var half := PowerOfTwo(32 - bits) / 10000000.0 / 2.0;
      Ok(Box(Max(-90.0, p.y - half), Max(-180.0, p.x - half), Min(90.0, p.y + half), Min(180.0, p.x + half)))
  }

  /** A wider cell for fewer bits. */
  lemma {:induction false} FewerBitsWiden(p: Point, bits: nat, fewer: nat)
    requires InRange(p) && fewer <= bits <= 32
    ensures forall q :: PrecisionCell(p, bits).value.Contains(q) ==> PrecisionCell(p, fewer).value.Contains(q)
    decreases bits - fewer
  {
    if fewer < bits {
      FewerBitsWiden(p, bits, fewer + 1);
      assert PowerOfTwo(32 - fewer) == 2.0 * PowerOfTwo(32 - (fewer + 1));
    }
  }

  predicate DistinctIds(territories: seq<Territory>) {
    forall i, j :: 0 <= i < j < |territories| ==> territories[i].id != territories[j].id
  }

  /** What the constructor of `TerritoryIndex` accepts. */
  predicate ValidIndex(index: seq<Territory>) {
    DistinctIds(index) && forall i :: 0 <= i < |index| ==> index[i].Valid()
  }

  /** The territories `find` reports; an empty level stands for every level. */
  ghost function FoundAt(p: Point, level: string, tol: real): Territory -> bool {
    (t: Territory) => t.Valid() && (level == "" || t.level == level) && t.Contains(p, tol)
  }

  /** The territories whose cell test succeeds. */
  ghost function NearTo(cell: Box, level: string, tol: real): Territory -> bool {
    (t: Territory) => t.Valid() && t.level == level && TerritoryIntersectsCell(t, cell, tol)
  }

  /** In order, the members of the index with a property. */
  ghost function Filter(index: seq<Territory>, keep: Territory -> bool): (r: seq<Territory>)
    ensures forall t :: t in r <==> t in index && keep(t)
    ensures |r| <= |index|
  {
    if index == [] then []
    else
      var front, last := Filter(index[..|index| - 1], keep), index[|index| - 1];
      assert index == index[..|index| - 1] + [last];
      if keep(last) then front + [last] else front
  }

  /** `TerritoryIndex.find` for a present position: territories in index order. */
  method Find(index: seq<Territory>, p: Point, level: string, tol: real) returns (r: Result<seq<Territory>, Problem>)
    requires ValidIndex(index)
    ensures r == if InRange(p) then Ok(Filter(index, FoundAt(p, level, tol))) else Err(PositionOutOfRange)
  {
    if !InRange(p) {
      return Err(PositionOutOfRange);
    }
    var matches: seq<Territory> := [];
    ghost var keep := FoundAt(p, level, tol);
    for i := 0 to |index|
      invariant matches == Filter(index[..i], keep)
    {
      assert index[..i + 1][..i] == index[..i];
      if level != "" && index[i].level != level {
        continue;
      }
      if index[i].Contains(p, tol) {
        matches := matches + [index[i]];
      }
    }
    assert index[..|index|] == index;
    return Ok(matches);
  }

  /** `TerritoryIndex.classify`, over the territories found at the level and those met by the cell. */
  method Classify(index: seq<Territory>, position: Option<Point>, level: string, bits: Option<int>, tol: real)
    returns (r: Result<Verdict, Problem>)
    requires ValidIndex(index)
    ensures position.None? ==> r == Ok(Verdict(Outside, None, [], None))
    ensures position.Some? ==> r == Judge(index, position.value, level, bits, tol)
  {
    if position.None? {
      return Ok(Verdict(Outside, None, [], None));
    }
    var p := position.value;
    var found := Find(index, p, level, tol);
    if found.Err? {
      return Err(found.error);
    }
    var exact := found.value;
    if |exact| > 1 {
      return Err(SeveralTerritories);
    }
    if |exact| == 1 {
      if bits.None? {
        return Ok(Verdict(Exact, Some(exact[0]), exact, None));
      }
      var around := PrecisionCell(p, bits.value);
      if around.Err? {
        return Err(around.error);
      }
      return Ok(Verdict(Exact, Some(exact[0]), exact, Some(around.value)));
    }
    if bits.None? {
      return Ok(Verdict(Outside, None, [], None));
    }
    var cell := PrecisionCell(p, bits.value);
    if cell.Err? {
      return Err(cell.error);
    }
    var compatible: seq<Territory> := [];
    ghost var near := NearTo(cell.value, level, tol);
    for i := 0 to |index|
      invariant compatible == Filter(index[..i], near)
    {
      assert index[..i + 1][..i] == index[..i];
      if index[i].level == level && TerritoryIntersectsCell(index[i], cell.value, tol) {
        compatible := compatible + [index[i]];
      }
    }
    assert index[..|index|] == index;
    assert compatible == Near(index, cell.value, level, tol);
    var status := if |compatible| == 1 then Compatible else if |compatible| > 1 then Ambiguous else Outside;
    return Ok(Verdict(status, None, compatible, Some(cell.value)));
  }

  ghost function Inside(index: seq<Territory>, p: Point, level: string, tol: real): seq<Territory> {
    Filter(index, FoundAt(p, level, tol))
  }

  ghost function Near(index: seq<Territory>, cell: Box, level: string, tol: real): seq<Territory> {
    Filter(index, NearTo(cell, level, tol))
  }

  /** The verdict as a function of the two filtered lists. */
  ghost function Judge(index: seq<Territory>, p: Point, level: string, bits: Option<int>,
                       tol: real): Result<Verdict, Problem> {
    var inside := Inside(index, p, level, tol);
    if !InRange(p) then Err(PositionOutOfRange)
    else if |inside| > 1 then Err(SeveralTerritories)
    else if bits.Some? && PrecisionCell(p, bits.value).Err? then Err(PrecisionOutOfRange)
    else
      var cell := if bits.Some? then Some(PrecisionCell(p, bits.value).value) else None;
      if |inside| == 1 then Ok(Verdict(Exact, Some(inside[0]), inside, cell))
      else if cell.None? then Ok(Verdict(Outside, None, [], None))
      else
        var near := Near(index, cell.value, level, tol);
        Ok(Verdict(if |near| == 1 then Compatible else if |near| > 1 then Ambiguous else Outside, None, near, cell))
  }

  // ------------------------------------------------------------ what a verdict means, exactly

  /** Some polygon of the territory has a point in common with the cell. */
  ghost predicate Reaches(t: Territory, cell: Box)
    requires t.Valid()
  {
    exists i :: 0 <= i < |t.polygons| && Meets(t.polygons[i], cell)
  }

  lemma NearIsReach(index: seq<Territory>, cell: Box, level: string, t: Territory)
    requires ValidIndex(index) && cell.Valid()
    ensures t in Near(index, cell, level, 0.0) <==> t in index && t.level == level && Reaches(t, cell)
  {
    if t in index {
      TerritoryTestIffMeets(t, cell);
    }
  }

  lemma {:induction false} FilterKeepsIdsDistinct(index: seq<Territory>, keep: Territory -> bool)
    requires DistinctIds(index)
    ensures DistinctIds(Filter(index, keep))
  {
    if index != [] {
      var rest, last := index[..|index| - 1], index[|index| - 1];
      FilterKeepsIdsDistinct(rest, keep);
      var front := Filter(rest, keep);
      forall i | 0 <= i < |front| ensures front[i].id != last.id {
        assert front[i] in front;
        var j :| 0 <= j < |rest| && rest[j] == front[i];
        assert index[j] == front[i];
      }
    }
  }

  lemma {:induction false} AtMostOne(index: seq<Territory>, keep: Territory -> bool)
    requires ValidIndex(index)
    ensures |Filter(index, keep)| > 1 <==> exists t, u :: t in index && u in index && t != u && keep(t) && keep(u)
    ensures |Filter(index, keep)| == 1 <==> exists t :: Filter(index, keep) == [t]
    ensures |Filter(index, keep)| == 0 <==> forall t :: t in index ==> !keep(t)
  {
    var r := Filter(index, keep);
    FilterKeepsIdsDistinct(index, keep);
    if |r| > 1 {
      assert r[0] in r && r[1] in r && r[0].id != r[1].id;
    } else if |r| == 1 {
      assert r == [r[0]];
      assert r[0] in r;
    } else {
      forall t | t in index ensures !keep(t) { assert t !in r; }
    }
  }

  /** Without tolerance: classification fails exactly when two territories of the level contain the
      position; otherwise the exact territory is the one that contains it, if any, and that territory
      shares a point with the position's precision cell, however wide. */
  lemma ExactMeaning(index: seq<Territory>, p: Point, level: string, bits: int)
    requires ValidIndex(index) && level != ""
    requires InRange(p) && 0 <= bits <= 32
    ensures var r := Judge(index, p, level, Some(bits), 0.0);
            && (r.Err? <==> exists t, u :: t in index && u in index && t != u && t.level == u.level == level
                                           && t.Contains(p, 0.0) && u.Contains(p, 0.0))
            && (r.Ok? ==>
                && (forall t :: r.value.exact == Some(t) <==> t in index && t.level == level && t.Contains(p, 0.0))
                && (r.value.status == Exact <==> r.value.exact.Some?)
                && (r.value.exact.Some? ==> Reaches(r.value.exact.value, PrecisionCell(p, bits).value)))
  {
    var inside := Inside(index, p, level, 0.0);
    var keep := FoundAt(p, level, 0.0);
    AtMostOne(index, keep);
    if |inside| == 1 {
      assert inside[0] in inside;
      var cell := PrecisionCell(p, bits).value;
      ContainingTerritoryIsCompatible(inside[0], p, cell);
      TerritoryTestIffMeets(inside[0], cell);
    }
  }

  /** Without tolerance, a position that no territory of the level contains is Compatible, Ambiguous
      or Outside as exactly one, several or none of them shares a point with its precision cell. */
  lemma InexactMeaning(index: seq<Territory>, p: Point, level: string, bits: int)
    requires ValidIndex(index) && level != ""
    requires InRange(p) && 0 <= bits <= 32
    requires forall t :: t in index && t.level == level ==> !t.Contains(p, 0.0)
    ensures var cell := PrecisionCell(p, bits).value;
            var r := Judge(index, p, level, Some(bits), 0.0);
            && r.Ok? && r.value.cell == Some(cell)
            && (forall t :: t in r.value.compatible <==> t in index && t.level == level && Reaches(t, cell))
            && (r.value.status == Compatible <==> exists t :: r.value.compatible == [t])
            && (r.value.status == Outside <==> forall t :: t in index && t.level == level ==> !Reaches(t, cell))
            && (r.value.status == Ambiguous <==>
                  exists t, u :: && t in index && u in index && t != u && t.level == u.level == level
                                 && Reaches(t, cell) && Reaches(u, cell))
  {
    var cell := PrecisionCell(p, bits).value;
    var near := Near(index, cell, level, 0.0);
    var keep := NearTo(cell, level, 0.0);
    AtMostOne(index, FoundAt(p, level, 0.0));
    AtMostOne(index, keep);
    forall t | t in index ensures keep(t) <==> t.level == level && Reaches(t, cell) {
      NearIsReach(index, cell, level, t);
    }
    if |near| >= 1 {
      assert near[0] in near;
    }
  }

  // ------------------------------------------------------------ cells and verdicts in plain terms

  /** Half the side of a cell in degrees: half a unit of the transmitted integers, ten million of which are a degree,
      for all 32 bits, and twice as much for each bit less. */
  function HalfSide(bits: int): real
    decreases 32 - bits
  {
    if bits >= 32 then 0.00000005 else 2.0 * HalfSide(bits + 1)
  }

  lemma {:induction false} HalfSideIsHalf(bits: int)
    requires 0 <= bits <= 32
    ensures HalfSide(bits) == PowerOfTwo(32 - bits) / 10000000.0 / 2.0
    decreases 32 - bits
  {
    if bits < 32 {
      HalfSideIsHalf(bits + 1);
      assert PowerOfTwo(32 - bits) == 2.0 * PowerOfTwo(32 - (bits + 1));
    }
  }

  /** A cell is refused for a place that is none on the globe and for other numbers of bits; else it holds the places
      of the globe no farther from the position than half its side, north or south and east or west. */
  lemma {:induction false} CellHolds(p: Point, bits: int, q: Point)
    ensures PrecisionCell(p, bits) == Err(PositionOutOfRange)
       <==> p.y < -90.0 || p.y > 90.0 || p.x < -180.0 || p.x > 180.0
    ensures PrecisionCell(p, bits) == Err(PrecisionOutOfRange)
       <==> -90.0 <= p.y <= 90.0 && -180.0 <= p.x <= 180.0 && (bits < 0 || bits > 32)
    ensures PrecisionCell(p, bits).Ok? ==>
              (PrecisionCell(p, bits).value.Contains(q)
               <==> && -90.0 <= q.y <= 90.0 && -180.0 <= q.x <= 180.0
                    && p.x - HalfSide(bits) <= q.x <= p.x + HalfSide(bits)
                    && p.y - HalfSide(bits) <= q.y <= p.y + HalfSide(bits))
  {
    if PrecisionCell(p, bits).Ok? {
      HalfSideIsHalf(bits);
    }
  }

  /** With 13 bits, a side of 524288 units. */
  lemma ThirteenBits()
    ensures HalfSide(13) == 0.0262144
  {
    assert HalfSide(30) == 0.0000002;
    assert HalfSide(26) == 0.0000032;
    assert HalfSide(22) == 0.0000512;
    assert HalfSide(18) == 0.0008192;
  }

  /** One territory is listed before another. */
  ghost predicate ListedBefore(index: seq<Territory>, t: Territory, u: Territory) {
    exists k, l :: 0 <= k < l < |index| && index[k] == t && index[l] == u
  }

  lemma StillBefore(front: seq<Territory>, last: Territory, t: Territory, u: Territory)
    ensures ListedBefore(front, t, u) ==> ListedBefore(front + [last], t, u)
    ensures t in front ==> ListedBefore(front + [last], t, last)
  {
    var index := front + [last];
    if k, l :| 0 <= k < l < |front| && front[k] == t && front[l] == u {
      assert index[k] == t && index[l] == u;
    }
    if t in front {
      var k :| 0 <= k < |front| && front[k] == t;
      assert index[k] == t && index[|front|] == last;
    }
  }

  /** The members of a selection are in the order of the index. */
  lemma {:induction false} FilterInOrder(index: seq<Territory>, keep: Territory -> bool, i: nat, j: nat)
    requires i < j < |Filter(index, keep)|
    ensures ListedBefore(index, Filter(index, keep)[i], Filter(index, keep)[j])
  {
    var n := |index| - 1;
    var front, last := index[..n], index[n];
    var kept := Filter(front, keep);
    assert index == front + [last];
    if j < |kept| {
      FilterInOrder(front, keep, i, j);
      StillBefore(front, last, kept[i], kept[j]);
    } else {
      assert kept[i] in kept;
      StillBefore(front, last, kept[i], last);
    }
  }

  /** The territory is of the level, and holds the position. */
  predicate Holds(t: Territory, level: string, p: Point, tol: real) {
    t.Valid() && (level == "" || t.level == level) && t.Contains(p, tol)
  }

  /** The territory is of the level, and its cell test succeeds. */
  predicate IsNear(t: Territory, level: string, cell: Box, tol: real) {
    t.Valid() && t.level == level && TerritoryIntersectsCell(t, cell, tol)
  }

  /** What a verdict says, at any tolerance and with any precision or none. */
  ghost predicate TellsVerdict(v: Verdict, index: seq<Territory>, p: Point, level: string, bits: Option<int>,
                               tol: real) {
    && (v.cell.Some? <==> bits.Some?)
    && (bits.Some? ==> PrecisionCell(p, bits.value) == Ok(v.cell.value))
    && (forall t :: v.exact == Some(t) <==> t in index && Holds(t, level, p, tol))
    && (v.status == Exact <==> v.exact.Some?)
    && (v.exact.Some? ==> v.compatible == [v.exact.value])
    && (v.exact.None? && bits.None? ==> v.status == Outside && v.compatible == [])
    && (v.exact.None? && bits.Some? ==>
          && (forall t :: t in v.compatible <==> t in index && IsNear(t, level, v.cell.value, tol))
          && (v.status == Compatible <==> |v.compatible| == 1)
          && (v.status == Ambiguous <==> |v.compatible| >= 2)
          && (v.status == Outside <==> v.compatible == []))
  }

  lemma VerdictTells(index: seq<Territory>, p: Point, level: string, bits: Option<int>, tol: real)
    requires ValidIndex(index)
    ensures var r := Judge(index, p, level, bits, tol);
            var somewhere := -90.0 <= p.y <= 90.0 && -180.0 <= p.x <= 180.0;
            var twice := exists t, u ::
                           t in index && u in index && t != u && Holds(t, level, p, tol) && Holds(u, level, p, tol);
            && (r == Err(PositionOutOfRange) <==> !somewhere)
            && (r == Err(SeveralTerritories) <==> somewhere && twice)
            && (r == Err(PrecisionOutOfRange) <==> somewhere && !twice && bits.Some? && !(0 <= bits.value <= 32))
            && (r.Ok? ==> TellsVerdict(r.value, index, p, level, bits, tol))
  {
    var keep := FoundAt(p, level, tol);
    var inside := Inside(index, p, level, tol);
    forall t ensures keep(t) <==> Holds(t, level, p, tol) {}
    AtMostOne(index, keep);
    if |inside| == 1 {
      assert inside[0] in inside;
    }
  }
}
