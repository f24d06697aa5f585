/** The scanline span fill of on_gen_btn_clicked (mainwindow.cpp:92-123): the
    polygon's edge list is built, every row of its bounding rectangle asks the
    crossing collector for its sorted crossings, and each pair of crossings
    paints a horizontal run of pixels straight into the image's RGB32 buffer. */
module Raster {
  import opened Geometry
  import opened Sorting
  import opened EdgeList
  import opened Scanline

  /** A QRgb value: a 32-bit unsigned pixel in the RGB32 image buffer. */
  newtype Rgb = x: int | 0 <= x < 0x1_0000_0000

  lemma MulMono(a: int, b: int, w: nat)
    ensures a <= b ==> a * w <= b * w
  {
    if a <= b {
      assert b * w == a * w + (b - a) * w;
      assert (b - a) * w >= 0;
    }
  }

  /** The buffer index y * width + x of pixel (y, x) in a width by height
      image (mainwindow.cpp:119); every pixel inside the image has a cell of the
      buffer. */
  function Cell(width: nat, height: nat, row: int, col: int): (k: int)
    ensures 0 <= row < height && 0 <= col < width ==> 0 <= k < width * height
  {
    MulMono(row + 1, height, width);
    MulMono(0, row, width);
    assert (row + 1) * width == row * width + width;
    row * width + col
  }

  /** Every buffer cell is the cell of a pixel inside the image. */
  lemma CellOnto(width: nat, height: nat, k: int)
    requires 0 <= k < width * height
    ensures 0 <= k / width < height && 0 <= k % width < width
    ensures Cell(width, height, k / width, k % width) == k
  {
    assert width > 0;
    var r := k / width;
    assert r * width + k % width == k;
    MulMono(height, r, width);
  }

  /** Column col of row r sits at offset col from the start of row y when r is
      y, and outside row y's columns otherwise. */
  lemma RowOffset(width: nat, height: nat, r: int, col: int, y: int)
    requires 0 <= col < width
    ensures r == y ==> Cell(width, height, r, col) - y * width == col
    ensures r != y ==> !(0 <= Cell(width, height, r, col) - y * width < width)
  {
    MulMono(r, y - 1, width);
    MulMono(y + 1, r, width);
    assert (y - 1) * width == y * width - width;
    assert (y + 1) * width == y * width + width;
  }

  /** The conversion of a double to int in the source: truncation toward zero. */
  function Trunc(v: real): (r: int)
    ensures v >= 0.0 ==> 0 <= r && r as real <= v < r as real + 1.0
    ensures v < 0.0 ==> r <= 0 && r as real - 1.0 < v <= r as real
  {
    if v >= 0.0 then v.Floor else -((-v).Floor)
  }

  /** The first column of the run that starts at crossing v (mainwindow.cpp:116). */
  function SpanBegin(v: real): (xbeg: int) {
    Trunc(v + 0.5)
  }

  /** The column after the run that ends at crossing v (mainwindow.cpp:117). */
  function SpanEnd(v: real): (xend: int) {
    Trunc(v + 1.5)
  }

  /** A run begins at the pixel nearest to its left crossing and ends, inclusive,
      at the pixel nearest to its right crossing. */
  lemma SpanRounding(v: real)
    requires v >= 0.0
    ensures v - 0.5 < SpanBegin(v) as real <= v + 0.5
    ensures SpanEnd(v) == SpanBegin(v) + 1
  {
  }

  /** A crossing within the image's columns gives a run within them. */
  lemma SpanInside(v: real, width: nat)
    requires 0.0 <= v <= (width - 1) as real
    ensures 0 <= SpanBegin(v) < width
    ensures 0 < SpanEnd(v) <= width
  {
    SpanRounding(v);
  }

  /** Column col lies in the run of one of the first n pairs of crossings. */
  predicate PairsCover(xs: seq<real>, col: int, n: nat)
    requires 2 * n <= |xs|
  {
    n > 0 && (PairsCover(xs, col, n - 1) || SpanBegin(xs[2 * n - 2]) <= col < SpanEnd(xs[2 * n - 1]))
  }

  /** Column col is painted on a row whose crossings are xs. */
  predicate Covered(xs: seq<real>, col: int) {
    PairsCover(xs, col, |xs| / 2)
  }

  /** A row with no crossings is left alone. */
  lemma CoveredEmpty(col: int)
    ensures !Covered([], col)
  {
  }

  /** For crossings at or right of column 0, pair i paints the columns from
      SpanBegin(xs[2i]) through SpanBegin(xs[2i+1]), both included: from the
      pixel nearest its left crossing to the pixel nearest its right one. */
  lemma {:induction false} CoveredPair(xs: seq<real>, col: int, n: nat)
    requires 2 * n <= |xs|
    requires forall k :: 0 <= k < |xs| ==> xs[k] >= 0.0
    ensures PairsCover(xs, col, n) <==>
      exists i :: 0 <= i < n && SpanBegin(xs[2 * i]) <= col <= SpanBegin(xs[2 * i + 1])
  {
    if n > 0 {
      CoveredPair(xs, col, n - 1);
      SpanRounding(xs[2 * n - 1]);
      var last := n - 1;
      assert 2 * last == 2 * n - 2 && 2 * last + 1 == 2 * n - 1;
      if exists i :: 0 <= i < n && SpanBegin(xs[2 * i]) <= col <= SpanBegin(xs[2 * i + 1]) {
        var i :| 0 <= i < n && SpanBegin(xs[2 * i]) <= col <= SpanBegin(xs[2 * i + 1]);
        if i < last {
          assert PairsCover(xs, col, n - 1);
        }
      }
    }
  }

  /** The innermost loop (mainwindow.cpp:118-121): paint the cells
      y * width + x of row y for x from xbeg up to but not including xend. */
  method FillSpan(bits: array<Rgb>, width: nat, y: int, xbeg: int, xend: int, color: Rgb)
    requires xbeg < xend ==> 0 <= y * width + xbeg && y * width + xend <= bits.Length
    modifies bits
    ensures forall k :: 0 <= k < bits.Length ==>
      bits[k] == if y * width + xbeg <= k < y * width + xend then color else old(bits[k])
  {
    var x := xbeg;
    while x < xend
      invariant x == xbeg || xbeg <= x <= xend
      invariant forall k :: 0 <= k < bits.Length ==>
        bits[k] == if y * width + xbeg <= k < y * width + x then color else old(bits[k])
      decreases xend - x
    {
      bits[y * width + x] := color;
      x := x + 1;
    }
  }

  /** The pair loop (mainwindow.cpp:115-122): every crossing at an even index
      opens a run that the next crossing closes, on the cells of row y. The
      source reads xs[i + 1], so the number of crossings must be even; it clamps
      nothing, so the crossings must lie within the image's columns and a row
      with crossings within its rows. */
  method FillRow(bits: array<Rgb>, width: nat, height: nat, y: int, xs: seq<real>, color: Rgb)
    requires bits.Length == width * height
    requires |xs| % 2 == 0
    requires forall k :: 0 <= k < |xs| ==> 0.0 <= xs[k] <= (width - 1) as real
    requires |xs| > 0 ==> 0 <= y < height
    modifies bits
    ensures forall k :: 0 <= k < bits.Length ==>
      bits[k] == if Covered(xs, k - y * width) then color else old(bits[k])
  {
    if |xs| > 0 {
      MulMono(y + 1, height, width);
      assert (y + 1) * width == y * width + width;
      MulMono(0, y, width);
    }
    var i := 0;
    while i < |xs|
      invariant 0 <= i <= |xs| && i % 2 == 0
      invariant forall k :: 0 <= k < bits.Length ==>
        bits[k] == if PairsCover(xs, k - y * width, i / 2) then color else old(bits[k])
    {
      var xbeg := SpanBegin(xs[i]);
      var xend := SpanEnd(xs[i + 1]);
      SpanInside(xs[i], width);
      SpanInside(xs[i + 1], width);
      FillSpan(bits, width, y, xbeg, xend, color);
      assert 2 * ((i + 2) / 2) - 2 == i;
      i := i + 2;
    }
  }

  /** A column covered by crossings within the image's columns is one of them. */
  lemma {:induction false} CoveredColumns(xs: seq<real>, width: nat, col: int, n: nat)
    requires 2 * n <= |xs|
    requires forall k :: 0 <= k < |xs| ==> 0.0 <= xs[k] <= (width - 1) as real
    ensures PairsCover(xs, col, n) ==> 0 <= col < width
  {
    if n > 0 {
      CoveredColumns(xs, width, col, n - 1);
      SpanInside(xs[2 * n - 2], width);
      SpanInside(xs[2 * n - 1], width);
    }
  }

  /** A row fill, seen pixel by pixel: the pixel (r, c) is painted exactly
      when it lies on row y and the row's crossings cover column c. */
  lemma RowPixel(width: nat, height: nat, y: int, xs: seq<real>, r: int, c: int)
    requires forall k :: 0 <= k < |xs| ==> 0.0 <= xs[k] <= (width - 1) as real
    requires 0 <= r < height && 0 <= c < width
    ensures Covered(xs, Cell(width, height, r, c) - y * width) <==> r == y && Covered(xs, c)
  {
    RowOffset(width, height, r, c, y);
    CoveredColumns(xs, width, Cell(width, height, r, c) - y * width, |xs| / 2);
  }

  /** So the pixels of row y that its crossings cover change and no other
      pixel does. */
  lemma RowUpdate(width: nat, height: nat, y: int, xs: seq<real>, color: Rgb, before: seq<Rgb>, after: seq<Rgb>)
    requires |before| == width * height && |after| == width * height
    requires forall k :: 0 <= k < |xs| ==> 0.0 <= xs[k] <= (width - 1) as real
    requires forall k :: 0 <= k < |after| ==>
      after[k] == if Covered(xs, k - y * width) then color else before[k]
    ensures forall r, c :: 0 <= r < height && 0 <= c < width ==>
      after[Cell(width, height, r, c)] == if r == y && Covered(xs, c) then color else before[Cell(width, height, r, c)]
  {
    forall r, c | 0 <= r < height && 0 <= c < width
      ensures after[Cell(width, height, r, c)] == if r == y && Covered(xs, c) then color else before[Cell(width, height, r, c)]
    {
      RowPixel(width, height, y, xs, r, c);
    }
  }

  predicate Inside(p: Point, width: int, height: int) {
    0 <= p.x < width && 0 <= p.y < height
  }

  predicate EdgesInside(edges: seq<Line>, width: int, height: int) {
    forall j :: 0 <= j < |edges| ==> Inside(edges[j].p1, width, height) && Inside(edges[j].p2, width, height)
  }

  /** With every end point inside the image, every crossing lies within its
      columns, and only rows inside it have crossings. */
  lemma CrossingsInside(edges: seq<Line>, width: int, height: int, y: int)
    requires EdgesInside(edges, width, height)
    ensures forall v :: v in ScanlineCrossings(edges, y) ==> 0.0 <= v <= (width - 1) as real
    ensures ScanlineCrossings(edges, y) != [] ==> 0 <= y < height
  {
    var c := Collected(edges, y);
    var s := ScanlineCrossings(edges, y);
    CollectedFromEdges(edges, y, |edges|);
    forall v | v in s
      ensures 0.0 <= v <= (width - 1) as real && 0 <= y < height
    {
      assert v in multiset(s);
      assert v in c;
      var j :| 0 <= j < |edges| && SegmLineIntersection(edges[j], HorizLine(y)) == Some(PointF(v, y as real));
      HorizIntersectionPresent(edges[j], y);
      HorizIntersectionAbsent(edges[j], y);
    }
    if s != [] {
      assert s[0] in s;
    }
  }

  /** The row loop (mainwindow.cpp:113-123) over rows ay to ay + h - 1. */
  method ScanFill(bits: array<Rgb>, width: nat, height: nat, edges: seq<Line>, ay: int, h: int, color: Rgb)
    requires bits.Length == width * height
    requires |edges| >= 1
    requires EdgesInside(edges, width, height)
    requires forall y :: ay <= y < ay + h ==> |ScanlineCrossings(edges, y)| % 2 == 0
    modifies bits
    ensures forall r, c :: 0 <= r < height && 0 <= c < width ==>
      bits[Cell(width, height, r, c)] ==
        if ay <= r < ay + h && Covered(ScanlineCrossings(edges, r), c) then color
        else old(bits[Cell(width, height, r, c)])
  {
    var y := ay;
    while y < ay + h
      invariant y == ay || ay <= y <= ay + h
      invariant forall r, c :: 0 <= r < height && 0 <= c < width ==>
        bits[Cell(width, height, r, c)] ==
          if ay <= r < y && Covered(ScanlineCrossings(edges, r), c) then color
          else old(bits[Cell(width, height, r, c)])
      decreases ay + h - y
    {
      var xinters := PolygonHorizIntersections(edges, y);
      CrossingsInside(edges, width, height, y);
      assert |xinters| % 2 == 0;
      assert forall k :: 0 <= k < |xinters| ==> 0.0 <= xinters[k] <= (width - 1) as real by {
        forall k | 0 <= k < |xinters|
          ensures 0.0 <= xinters[k] <= (width - 1) as real
        {
          assert xinters[k] in xinters;
        }
      }
      ghost var before := bits[..];
      FillRow(bits, width, height, y, xinters, color);
      RowUpdate(width, height, y, xinters, color, before, bits[..]);
      y := y + 1;
    }
  }

  /** The least y of the polygon's vertices: the top of its bounding rectangle. */
  function MinY(poly: seq<Point>): (m: int)
    requires |poly| >= 1
    ensures forall k :: 0 <= k < |poly| ==> m <= poly[k].y
    ensures exists k :: 0 <= k < |poly| && poly[k].y == m
  {
    if |poly| == 1 then poly[0].y
    else
      var m := MinY(poly[..|poly| - 1]);
      assert forall k :: 0 <= k < |poly| - 1 ==> poly[..|poly| - 1][k] == poly[k];
      Min(m, poly[|poly| - 1].y)
  }

  /** The greatest y of the polygon's vertices: the bottom of its bounding rectangle. */
  function MaxY(poly: seq<Point>): (m: int)
    requires |poly| >= 1
    ensures forall k :: 0 <= k < |poly| ==> poly[k].y <= m
    ensures exists k :: 0 <= k < |poly| && poly[k].y == m
  {
    if |poly| == 1 then poly[0].y
    else
      var m := MaxY(poly[..|poly| - 1]);
      assert forall k :: 0 <= k < |poly| - 1 ==> poly[..|poly| - 1][k] == poly[k];
      Max(m, poly[|poly| - 1].y)
  }

  /** No edge meets a scanline above or below every vertex. */
  lemma {:induction false} NoCrossingsOff(poly: seq<Point>, y: int, k: nat)
    requires 1 <= |poly| && k <= |poly|
    requires y < MinY(poly) || MaxY(poly) < y
    ensures CollectedUpTo(Edges(poly), y, k) == []
  {
    if k > 0 {
      NoCrossingsOff(poly, y, k - 1);
      var es := Edges(poly);
      var u, v := poly[Pred(|poly|, k - 1)], poly[k - 1];
      assert es[k - 1] == Line(u, v);
      assert MinY(poly) <= u.y <= MaxY(poly) && MinY(poly) <= v.y <= MaxY(poly);
      HorizIntersectionAbsent(Line(u, v), y);
      assert EdgeCrossing(PrevEdge(es, k - 1), es[k - 1], y) == [];
    }
  }

  /** So scanning only the rows of the bounding rectangle misses nothing. */
  lemma OutsideBoundingRows(poly: seq<Point>, y: int)
    requires |poly| >= 1
    requires y < MinY(poly) || MaxY(poly) < y
    ensures ScanlineCrossings(Edges(poly), y) == []
  {
    NoCrossingsOff(poly, y, |poly|);
  }

  /** The fill of on_gen_btn_clicked (mainwindow.cpp:102-123): build the edge
      list, take the rows ay = MinY to ay + h - 1 = MaxY of the bounding
      rectangle (QRect's height counts both end rows), and fill them. A pixel
      ends up painted exactly when its column is covered by its row's crossings;
      every other pixel keeps its value. */
  method DrawPolygon(bits: array<Rgb>, width: nat, height: nat, poly: seq<Point>, color: Rgb)
    requires bits.Length == width * height
    requires |poly| >= 1
    requires forall k :: 0 <= k < |poly| ==> Inside(poly[k], width, height)
    requires forall y :: MinY(poly) <= y <= MaxY(poly) ==> |ScanlineCrossings(Edges(poly), y)| % 2 == 0
    modifies bits
    ensures forall r, c :: 0 <= r < height && 0 <= c < width ==>
      bits[Cell(width, height, r, c)] ==
        if Covered(ScanlineCrossings(Edges(poly), r), c) then color else old(bits[Cell(width, height, r, c)])
  {
    var edges := BuildEdges(poly);
    var ay := MinY(poly);
    var h := MaxY(poly) - ay + 1;
    ScanFill(bits, width, height, edges, ay, h, color);
    forall r | r < ay || ay + h <= r
      ensures ScanlineCrossings(edges, r) == []
    {
      OutsideBoundingRows(poly, r);
    }
  }
}
