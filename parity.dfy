/** How many crossings the collector records on one scanline of a closed
    polygon. The fill loop (mainwindow.cpp:115-117) reads the crossings in
    pairs, xinters[i] and xinters[i + 1], so it needs an even count. The count
    is even whenever no edge of the polygon lies on the scanline (EvenCrossings);
    an edge lying along the scanline can make it odd (OddCrossingsStaircase). */
module Parity {
  import opened Geometry
  import opened Sorting
  import opened EdgeList
  import opened Scanline

  /** No edge of the closed polygon has both end points on the scanline y. */
  predicate NoEdgeOnScanline(poly: seq<Point>, y: int) {
    forall k :: 0 <= k < |poly| ==> !(poly[k].y == y && poly[Pred(|poly|, k)].y == y)
  }

  /** A side bit per vertex: for a vertex off the scanline, whether it is
      below it (larger y); for a vertex on it, whether the vertex before it is
      above it (smaller y). Each edge records a crossing exactly when the bits
      at its two ends differ. */
  predicate Side(poly: seq<Point>, y: int, k: nat)
    requires k < |poly|
  {
    if poly[k].y == y then poly[Pred(|poly|, k)].y < y else poly[k].y > y
  }

  lemma EdgeParity(poly: seq<Point>, y: int, i: nat)
    requires i < |poly| && NoEdgeOnScanline(poly, y)
    ensures |EdgeCrossing(PrevEdge(Edges(poly), i), Edges(poly)[i], y)| ==
      if Side(poly, y, i) != Side(poly, y, Pred(|poly|, i)) then 1 else 0
  {
    var n := |poly|;
    var u, v, p := poly[Pred(n, i)], poly[i], poly[Pred(n, Pred(n, i))];
    assert Edges(poly)[i] == Line(u, v);
    assert PrevEdge(Edges(poly), i) == Line(p, u);
    assert !(v.y == y && u.y == y);
    assert !(u.y == y && p.y == y);
    EdgeCrossingCases(Line(p, u), Line(u, v), y);
    MulSign(y - p.y, v.y - y);
  }

  /** After the first m edges, the count is odd exactly when the side bit of
      vertex m - 1 differs from that of the last vertex. */
  lemma {:induction false} CountParity(poly: seq<Point>, y: int, m: nat)
    requires 1 <= m <= |poly| && NoEdgeOnScanline(poly, y)
    ensures |CollectedUpTo(Edges(poly), y, m)| % 2 ==
      if Side(poly, y, m - 1) != Side(poly, y, |poly| - 1) then 1 else 0
  {
    EdgeParity(poly, y, m - 1);
    if m > 1 {
      CountParity(poly, y, m - 1);
    }
  }

  /** With no edge lying on the scanline, every scanline of a closed polygon
      has an even number of crossings. */
  lemma EvenCrossings(poly: seq<Point>, y: int)
    requires |poly| >= 1 && NoEdgeOnScanline(poly, y)
    ensures |Collected(Edges(poly), y)| % 2 == 0
    ensures |ScanlineCrossings(Edges(poly), y)| % 2 == 0
  {
    CountParity(poly, y, |poly|);
    var c := Collected(Edges(poly), y);
    assert |multiset(Sort(c))| == |multiset(c)|;
  }

  /** A polygon without horizontal edges has an even number of crossings on
      every scanline, so the fill can pair them up on every row. */
  lemma EvenWithoutHorizontalEdges(poly: seq<Point>)
    requires |poly| >= 1
    requires forall k :: 0 <= k < |poly| ==> poly[k].y != poly[Pred(|poly|, k)].y
    ensures forall y :: |ScanlineCrossings(Edges(poly), y)| % 2 == 0
  {
    forall y
      ensures |ScanlineCrossings(Edges(poly), y)| % 2 == 0
    {
      EvenCrossings(poly, y);
    }
  }

  /** The collector on five edges, written out edge by edge. */
  lemma CollectedFive(es: seq<Line>, y: int)
    requires |es| == 5
    ensures Collected(es, y) ==
      EdgeCrossing(es[4], es[0], y) + EdgeCrossing(es[0], es[1], y) + EdgeCrossing(es[1], es[2], y) +
      EdgeCrossing(es[2], es[3], y) + EdgeCrossing(es[3], es[4], y)
  {
    assert PrevEdge(es, 0) == es[4];
    assert CollectedUpTo(es, y, 1) == EdgeCrossing(es[4], es[0], y);
    assert CollectedUpTo(es, y, 2) == CollectedUpTo(es, y, 1) + EdgeCrossing(es[0], es[1], y);
    assert CollectedUpTo(es, y, 3) == CollectedUpTo(es, y, 2) + EdgeCrossing(es[1], es[2], y);
    assert CollectedUpTo(es, y, 4) == CollectedUpTo(es, y, 3) + EdgeCrossing(es[2], es[3], y);
    assert CollectedUpTo(es, y, 5) == CollectedUpTo(es, y, 4) + EdgeCrossing(es[3], es[4], y);
  }

  /** The simple polygon (0,0), (0,1), (1,1), (1,2), (3,0), moved by (dx, dy). */
  function Staircase(dx: int, dy: int): (poly: seq<Point>)
    ensures |poly| == 5
  {
    [Point(dx, dy), Point(dx, dy + 1), Point(dx + 1, dy + 1), Point(dx + 1, dy + 2), Point(dx + 3, dy)]
  }

  /** The slope from (1,2) to (3,0) is halfway down one unit above the base. */
  lemma StaircaseParam(dx: int, dy: int)
    ensures HorizParam(Line(Point(dx + 1, dy + 2), Point(dx + 3, dy)), dy + 1) == 0.5
  {
    DivUnit(-1, -2);
  }

  /** The slope from (1,2) to (3,0) crosses that scanline at x = 2. */
  lemma StaircaseSlope(dx: int, dy: int, prev: Line)
    ensures EdgeCrossing(prev, Line(Point(dx + 1, dy + 2), Point(dx + 3, dy)), dy + 1) == [(dx + 2) as real]
  {
    var s := Line(Point(dx + 1, dy + 2), Point(dx + 3, dy));
    InteriorCrossing(prev, s, dy + 1);
    StaircaseParam(dx, dy);
    var v := Sub(s.p2, s.p1);
    assert v == Point(2, -2);
    assert Lerp(s.p1, v, 0.5).x == (dx + 1) as real + 0.5 * 2.0;
  }

  /** The staircase polygon has its edge from (0,1) to (1,1) on the scanline
      one unit above its base, and the collector records three crossings
      there: the outline reaches the scanline at (0,1), leaves it at (1,1) and
      crosses it once more on the edge (1,2)-(3,0). The fill loop would then
      read xinters[3], past the end of the list. */
  lemma OddCrossingsStaircase(dx: int, dy: int)
    ensures ScanlineCrossings(Edges(Staircase(dx, dy)), dy + 1) ==
      [dx as real, (dx + 1) as real, (dx + 2) as real]
  {
    var y := dy + 1;
    var poly := Staircase(dx, dy);
    var es := Edges(poly);
    var p0, p1, p2, p3, p4 := poly[0], poly[1], poly[2], poly[3], poly[4];
    var e0, e1, e2, e3, e4 := Line(p4, p0), Line(p0, p1), Line(p1, p2), Line(p2, p3), Line(p3, p4);
    assert es == [e0, e1, e2, e3, e4];
    CollectedFive(es, y);
    assert EdgeCrossing(e4, e0, y) == [] by { EdgeCrossingCases(e4, e0, y); }
    assert EdgeCrossing(e0, e1, y) == [dx as real] by { EdgeCrossingCases(e0, e1, y); }
    FlatVertexRule(p0, p1, p2, p3, y);
    StaircaseSlope(dx, dy, e3);
    var c := [dx as real, (dx + 1) as real, (dx + 2) as real];
    assert Collected(es, y) == c;
    SortOfSorted(c);
  }
}
