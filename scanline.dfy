/** The crossing collector polygon_horiz_intersections (mainwindow.cpp:55-79):
    the x coordinates where the closed edge list meets the scanline at height y,
    with its rule for vertices lying on the scanline, sorted ascending. */
module Scanline {
  import opened Geometry
  import opened Sorting
  import opened EdgeList

  /** What the loop records for edge cur, the edge before it being prev: the
      intersection's x, except that when cur starts on the scanline it is
      recorded only if the outline does not keep going the same vertical way
      through that start point (mainwindow.cpp:62-74). */
  function EdgeCrossing(prev: Line, cur: Line, y: int): (r: seq<real>)
    ensures |r| <= 1
  {
    match SegmLineIntersection(cur, HorizLine(y))
    case None => []
    case Some(p) =>
      if cur.p1.y == y then
        var p0, p1, p2 := prev.p1, cur.p1, cur.p2;
        if (p1.y - p0.y) * (p2.y - p1.y) <= 0 then [p.x] else []
      else [p.x]
  }

  /** The edge the loop holds in prev_edge when it reaches edge i: the last
      edge for i = 0, otherwise edge i - 1. */
  function PrevEdge(edges: seq<Line>, i: nat): Line
    requires i < |edges|
  {
    edges[Pred(|edges|, i)]
  }

  /** The list res after the first k loop iterations, in recording order. */
  function CollectedUpTo(edges: seq<Line>, y: int, k: nat): (r: seq<real>)
    requires k <= |edges|
  {
    if k == 0 then []
    else CollectedUpTo(edges, y, k - 1) + EdgeCrossing(PrevEdge(edges, k - 1), edges[k - 1], y)
  }

  /** The list res when the loop is done, before sorting. */
  function Collected(edges: seq<Line>, y: int): (r: seq<real>) {
    CollectedUpTo(edges, y, |edges|)
  }

  /** The value polygon_horiz_intersections returns. */
  function ScanlineCrossings(edges: seq<Line>, y: int): (r: seq<real>)
    ensures IsSorted(r) && multiset(r) == multiset(Collected(edges, y))
  {
    Sort(Collected(edges, y))
  }

  /** Each edge records at most one crossing. */
  lemma {:induction false} CollectedLength(edges: seq<Line>, y: int, k: nat)
    requires k <= |edges|
    ensures |CollectedUpTo(edges, y, k)| <= k
  {
    if k > 0 {
      CollectedLength(edges, y, k - 1);
    }
  }

  /** Every recorded value is the x of a point where one of the first k edges
      meets the scanline. */
  lemma {:induction false} CollectedFromEdges(edges: seq<Line>, y: int, k: nat)
    requires k <= |edges|
    ensures forall v :: v in CollectedUpTo(edges, y, k) ==>
      exists j :: 0 <= j < k && SegmLineIntersection(edges[j], HorizLine(y)) == Some(PointF(v, y as real))
  {
    if k > 0 {
      CollectedFromEdges(edges, y, k - 1);
      var e := edges[k - 1];
      var inter := SegmLineIntersection(e, HorizLine(y));
      if inter.Some? {
        HorizIntersectionPresent(e, y);
        assert inter == Some(PointF(inter.value.x, y as real));
      }
    }
  }

  /** What a single edge records, by the position of its end points. */
  lemma EdgeCrossingCases(prev: Line, cur: Line, y: int)
    ensures cur.p1.y == cur.p2.y || y < Min(cur.p1.y, cur.p2.y) || Max(cur.p1.y, cur.p2.y) < y ==>
      EdgeCrossing(prev, cur, y) == []
    ensures Min(cur.p1.y, cur.p2.y) < y < Max(cur.p1.y, cur.p2.y) ==>
      |EdgeCrossing(prev, cur, y)| == 1 &&
      Min(cur.p1.x, cur.p2.x) as real <= EdgeCrossing(prev, cur, y)[0] <= Max(cur.p1.x, cur.p2.x) as real
    ensures cur.p1.y != y && cur.p2.y == y ==> EdgeCrossing(prev, cur, y) == [cur.p2.x as real]
    ensures cur.p1.y == y && cur.p2.y != y ==>
      EdgeCrossing(prev, cur, y) == if (y - prev.p1.y) * (cur.p2.y - y) <= 0 then [cur.p1.x as real] else []
  {
    HorizIntersectionAbsent(cur, y);
    if SegmLineIntersection(cur, HorizLine(y)).Some? {
      HorizIntersectionPresent(cur, y);
    }
  }

  /** An edge that crosses the scanline strictly between its end points
      records the x of the point at parameter HorizParam along it. */
  lemma InteriorCrossing(prev: Line, cur: Line, y: int)
    requires Min(cur.p1.y, cur.p2.y) < y < Max(cur.p1.y, cur.p2.y)
    ensures EdgeCrossing(prev, cur, y) == [Lerp(cur.p1, Sub(cur.p2, cur.p1), HorizParam(cur, y)).x]
  {
    HorizIntersectionAbsent(cur, y);
    HorizIntersectionParam(cur, y);
  }

  /** The vertex rule at a vertex b on the scanline whose neighbours a and c
      are off it: the edge into b records b.x, and the edge out of b records it
      again only if b is a peak or a valley. So a vertex the outline passes
      through counts once and an extremum counts twice. */
  lemma VertexRule(z: Point, a: Point, b: Point, c: Point, y: int)
    requires b.y == y && a.y != y && c.y != y
    ensures EdgeCrossing(Line(z, a), Line(a, b), y) == [b.x as real]
    ensures EdgeCrossing(Line(a, b), Line(b, c), y) + EdgeCrossing(Line(z, a), Line(a, b), y) ==
      if (a.y < y) == (c.y < y) then [b.x as real, b.x as real] else [b.x as real]
  {
    EdgeCrossingCases(Line(z, a), Line(a, b), y);
    EdgeCrossingCases(Line(a, b), Line(b, c), y);
    MulSign(y - a.y, c.y - y);
  }

  /** At a vertex b on the scanline reached along a horizontal edge from a,
      the horizontal edge records nothing and the edge leaving b towards c off
      the scanline always records b.x, whichever way it goes. */
  lemma FlatVertexRule(z: Point, a: Point, b: Point, c: Point, y: int)
    requires a.y == y && b.y == y && c.y != y
    ensures EdgeCrossing(Line(z, a), Line(a, b), y) == []
    ensures EdgeCrossing(Line(a, b), Line(b, c), y) == [b.x as real]
  {
    EdgeCrossingCases(Line(z, a), Line(a, b), y);
    EdgeCrossingCases(Line(a, b), Line(b, c), y);
  }

  /** The crossing collector of mainwindow.cpp:55-79. QList::last needs a
      non-empty edge list. */
  method PolygonHorizIntersections(edges: seq<Line>, y: int) returns (res: seq<real>)
    requires |edges| >= 1
    ensures res == ScanlineCrossings(edges, y)
    ensures IsSorted(res) && multiset(res) == multiset(Collected(edges, y))
    ensures |res| <= |edges|
  {
    var horizline := HorizLine(y);
    res := [];
    var prevEdge := edges[|edges| - 1];
    for i := 0 to |edges|
      invariant res == CollectedUpTo(edges, y, i)
      invariant prevEdge == if i == 0 then edges[|edges| - 1] else edges[i - 1]
    {
      var curEdge := edges[i];
      var ointer := SegmLineIntersection(curEdge, horizline);
      if ointer.Some? {
        if curEdge.p1.y == y {
          var p0, p1, p2 := prevEdge.p1, curEdge.p1, curEdge.p2;
          if (p1.y - p0.y) * (p2.y - p1.y) <= 0 {
            res := res + [ointer.value.x];
          }
        } else {
          res := res + [ointer.value.x];
        }
      }
      prevEdge := edges[i];
    }
    CollectedLength(edges, y, |edges|);
    res := Sort(res);
  }
}
