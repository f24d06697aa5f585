# Scanline polygon fill of cg-lab2

cg-lab2 is a small Qt program. It draws random polygons into an RGB32 image
with a scanline fill written by hand, and times that fill against Qt's own
renderers. This project models the fill in `mainwindow.cpp` and proves
properties of it. The fill has four parts:

- **Intersection test** (`det`, `segm_line_intersection`, `horiz_line`). It finds
  where a polygon edge meets the horizontal line at height y, with exact integer
  determinants and a real parameter t.
- **Crossing collector** (`polygon_horiz_intersections`). It walks the closed
  edge list while remembering the previous edge. It applies a rule for vertices
  that lie on the scanline, and it returns the crossings' x coordinates in
  ascending order.
- **Edge list.** `on_gen_btn_clicked` builds the list with the closing edge
  (last, first) first, then every consecutive pair.
- **Span fill.** For each row of the polygon's bounding rectangle the fill pairs
  up the crossings. It paints the cells `y * width + x` of the image buffer from
  `int(x_i + 0.5)` up to but not including `int(x_{i+1} + 1.5)`.

Modules, in dependency order:

- `Geometry` (`geometry.dfy`) holds points, lines, `Det`, `HorizLine` and
  `SegmLineIntersection`. It also proves the horizontal-line special case: the
  intersection is absent exactly when the edge is horizontal or misses the
  height, and a present one is the edge's point at a parameter in [0, 1].
- `Sorting` (`sorting.dfy`) holds the ascending permutation that stands for
  `std::sort`, and proves that it is unique.
- `EdgeList` (`edges.dfy`) holds the edge list as a function, and the loop that
  builds it as a method proved against that function.
- `Scanline` (`scanline.dfy`) holds the collector loop as a method, proved
  against the functions `CollectedUpTo`/`ScanlineCrossings`, plus the vertex
  rule.
- `Parity` (`parity.dfy`) proves when the number of crossings on a scanline is
  even, and shows a polygon where it is odd.
- `Raster` (`raster.dfy`) holds the three nested fill loops as methods over an
  `array<Rgb>` buffer, proved against the predicate `Covered`, plus
  `DrawPolygon`, the whole fill of one polygon.

Behaviours of the code worth stating plainly:

- The vertex rule records a start point on the scanline when
  `(p1.y - p0.y) * (p2.y - p1.y) <= 0`, so a product of zero also records.
- The rows run from `ay` to `ay + h - 1`. A `QRect` built from points counts
  both end rows in its height, so this is every y from the least vertex y to the
  greatest, both included.
- Each run bound is a crossing rounded half up to the nearest column: the start
  truncates x + 0.5 and the end, one past the last painted column, truncates
  x + 1.5. Runs are not clipped to the image, and every polygon, triangles
  included, goes through the same general fill.

Two things the source does silently are stated here as preconditions:

- **Even crossing count.** The pair loop reads `xinters[i + 1]`, so every
  scanline needs an even number of crossings. `Parity.EvenCrossings` proves the
  count is even on every scanline that no edge lies along, and
  `Parity.EvenWithoutHorizontalEdges` extends that to every row of a polygon
  without horizontal edges. `Parity.OddCrossingsStaircase` shows that an edge
  lying along the scanline can make the count odd. The simple polygon (0,0),
  (0,1), (1,1), (1,2), (3,0), moved anywhere, gets three crossings one unit above
  its base, at offsets 0, 1 and 2 from its left side. For such a polygon the source reads past the end of
  the list.
- **In-bounds writes.** Nothing clamps a write, so the fill requires every vertex
  to lie inside the image. `Raster.CrossingsInside` then shows that every write
  lands inside the buffer.

## Model

| member | source | states |
|---|---|---|
| Geometry.Det | mainwindow.cpp:25-27 | definition: `col0.x * col1.y - col0.y * col1.x` |
| Geometry.HorizLine | mainwindow.cpp:51-53 | definition: the line through (0, y) and (1, y); both its points have height y and they differ |
| Geometry.SegmLineIntersection | mainwindow.cpp:29-49 | definition: None when `d == 0`, `d * d1 < 0` or `abs(d1) > abs(d)`, otherwise `p0 + (d1 / d) * (p1 - p0)`; a found point has `d != 0` |
| Geometry.DetAntisymmetric | mainwindow.cpp:25-27 | swapping the two columns of `det` negates it |
| Geometry.HorizDets | mainwindow.cpp:34-42 | against `horiz_line(y)` the two determinants reduce to `d = -(p1.y - p0.y)` and `d1 = p0.y - y` |
| Geometry.HorizIntersectionForm | mainwindow.cpp:29-53 | the intersection with a horizontal line is rejected when `d == 0`, `d * d1 < 0` or `abs(d1) > abs(d)`; otherwise it is `p0 + (d1 / d) * (p1 - p0)` |
| Geometry.IntersectionOnBoth | mainwindow.cpp:29-49 | a found intersection has `d != 0` and t in [0, 1]; it is the point of the segment at t, and it lies on the line |
| Geometry.HorizIntersectionAbsent | mainwindow.cpp:36-45 | the intersection with `horiz_line(y)` is absent exactly when the edge is horizontal or y lies outside its closed y range |
| Geometry.HorizIntersectionParam | mainwindow.cpp:43-48 | a present intersection comes from a non-horizontal edge spanning y; its t lies in [0, 1] and is the fraction of the way to height y |
| Geometry.HorizIntersectionPresent | mainwindow.cpp:43-48 | a present intersection has y equal to the scanline and x between the end points' x; at t = 0 it is p0 and at t = 1 it is p1 |
| Sorting.Sort | mainwindow.cpp:77 | the result is ascending and a permutation of the input |
| Sorting.SortedUnique | mainwindow.cpp:77 | two ascending sequences with the same elements are equal, so the sorted result is determined by the multiset sorted |
| Sorting.SortOfSorted | mainwindow.cpp:77 | sorting leaves an ascending list as it is |
| EdgeList.Edges | mainwindow.cpp:102-107 | definition: one edge per vertex, edge i running from the vertex before i (cyclically) to vertex i |
| EdgeList.BuildEdges | mainwindow.cpp:102-107 | the built list is `Edges(poly)`: one edge per vertex, (last, first) first and (poly[i-1], poly[i]) after it |
| EdgeList.EdgesChain | mainwindow.cpp:102-107 | the edge list is a closed chain, each edge starting where the one before it (cyclically) ends, and its end points give the polygon back |
| EdgeList.ChainEdges | mainwindow.cpp:102-107 | every closed chain of edges is the edge list of its end points |
| Scanline.EdgeCrossing | mainwindow.cpp:62-74 | definition: what one loop step records for edge cur after prev; the intersection's x, except that a start point on the scanline records only under the `<= 0` rule; at most one value |
| Scanline.CollectedUpTo | mainwindow.cpp:55-76 | definition: the list `res` after the first k steps, each step appending edge k's record with its previous edge (the last edge for edge 0) |
| Scanline.ScanlineCrossings | mainwindow.cpp:55-79 | definition: the recorded list sorted; ascending and a permutation of the recorded crossings |
| Scanline.PolygonHorizIntersections | mainwindow.cpp:55-79 | the result is `ScanlineCrossings(edges, y)`, ascending, a permutation of the crossings recorded in edge order, and no longer than the edge list |
| Scanline.CollectedLength | mainwindow.cpp:60-76 | each edge records at most one crossing |
| Scanline.CollectedFromEdges | mainwindow.cpp:60-76 | every recorded value is the x of a point where some edge meets the scanline at height y |
| Scanline.EdgeCrossingCases | mainwindow.cpp:36-74 | a horizontal edge, or one missing the scanline, records nothing; an edge crossing strictly inside records one x between its end points' x; an edge ending on the scanline records its end x; an edge starting on it records its start x only under the `<= 0` rule |
| Scanline.InteriorCrossing | mainwindow.cpp:62-73 | an edge crossing strictly between its end points records the x of its point at the fraction of the way to height y |
| Scanline.VertexRule | mainwindow.cpp:64-73 | at a vertex on the scanline between two vertices off it, the incoming edge records its x; the two edges together record it once at a pass-through vertex and twice at a peak or valley |
| Scanline.FlatVertexRule | mainwindow.cpp:64-73 | at the end of an edge lying on the scanline, that edge records nothing and the next edge records the vertex's x whichever way it goes |
| Parity.EdgeParity | mainwindow.cpp:60-76 | with no edge on the scanline, an edge records a crossing exactly when the side bits at its two ends differ |
| Parity.CountParity | mainwindow.cpp:60-76 | after m edges the count is odd exactly when the side bits of vertex m - 1 and of the last vertex differ |
| Parity.EvenCrossings | mainwindow.cpp:55-79 | with no edge lying on the scanline, both the recorded and the sorted crossings are even in number |
| Parity.EvenWithoutHorizontalEdges | mainwindow.cpp:55-79 | a polygon without horizontal edges has an even number of crossings on every scanline |
| Parity.CollectedFive | mainwindow.cpp:59-76 | on five edges the recorded list is the five edges' records in order, the first edge's taken with the last edge as its previous edge |
| Parity.StaircaseSlope | mainwindow.cpp:62-73 | the staircase's slope from (1,2) to (3,0) crosses the line one unit above its base at x = 2 |
| Parity.OddCrossingsStaircase | mainwindow.cpp:55-79 | every translate of the simple polygon (0,0), (0,1), (1,1), (1,2), (3,0) gets the three crossings x, x+1, x+2 one unit above its base |
| Raster.Cell | mainwindow.cpp:119 | the buffer index of a pixel inside the image lies within the buffer |
| Raster.CellOnto | mainwindow.cpp:119 | every buffer index is the index of exactly the pixel (k / width, k % width) |
| Raster.RowOffset | mainwindow.cpp:119 | the pixel (r, c) sits at offset c from the start of row y when r = y, and outside row y's columns otherwise |
| Raster.Trunc | mainwindow.cpp:116-117 | the double-to-int conversion truncates toward zero: the result is the integer part of its argument |
| Raster.SpanBegin | mainwindow.cpp:116 | definition: `int(x + 0.5)`, the first column of a run |
| Raster.SpanEnd | mainwindow.cpp:117 | definition: `int(x + 1.5)`, the column after the last of a run |
| Raster.PairsCover | mainwindow.cpp:115-121 | definition: column c lies in the run `[SpanBegin(xs[2i]), SpanEnd(xs[2i+1]))` of one of the first n pairs |
| Raster.Covered | mainwindow.cpp:115-121 | definition: column c lies in the run of some pair of the row's crossings |
| Raster.SpanRounding | mainwindow.cpp:116-117 | for a crossing x >= 0, `int(x + 0.5)` is x rounded to the nearest integer and `int(x + 1.5)` is one more |
| Raster.SpanInside | mainwindow.cpp:116-117 | a crossing within the image's columns gives run bounds within them |
| Raster.CoveredPair | mainwindow.cpp:115-121 | for crossings >= 0, pair i paints the columns from the pixel nearest its left crossing to the pixel nearest its right one, both included |
| Raster.CoveredColumns | mainwindow.cpp:115-121 | crossings within the image's columns cover only columns of the image |
| Raster.CoveredEmpty | mainwindow.cpp:115 | a row without crossings paints nothing |
| Raster.FillSpan | mainwindow.cpp:118-121 | the cells y * width + x for x from xbeg up to but not including xend take the colour, and every other cell keeps its value |
| Raster.FillRow | mainwindow.cpp:115-122 | with an even number of crossings inside the image, exactly the cells of row y whose columns the pairs cover take the colour |
| Raster.RowPixel | mainwindow.cpp:115-122 | a row fill reaches pixel (r, c) exactly when r = y and the crossings cover c |
| Raster.RowUpdate | mainwindow.cpp:113-123 | a row fill, pixel by pixel: only row y changes, and only where its crossings cover it |
| Raster.CrossingsInside | mainwindow.cpp:113-121 | with every end point inside the image, every crossing lies within its columns, and only its rows have crossings |
| Raster.ScanFill | mainwindow.cpp:113-123 | after the row loop over ay to ay + h - 1, a pixel has the colour exactly when its row is in range and covered by that row's crossings; otherwise it is unchanged |
| Raster.MinY | mainwindow.cpp:109-111 | the top of the bounding rectangle is the least vertex y |
| Raster.MaxY | mainwindow.cpp:109-111 | the bottom row of the bounding rectangle (ay + h - 1) is the greatest vertex y |
| Raster.NoCrossingsOff | mainwindow.cpp:60-76 | on a scanline above or below every vertex no edge records anything |
| Raster.OutsideBoundingRows | mainwindow.cpp:109-113 | rows outside the bounding rectangle have no crossings, so scanning only its rows misses nothing |
| Raster.DrawPolygon | mainwindow.cpp:102-123 | for a polygon inside the image with an even crossing count on its rows, the fill paints exactly the pixels whose columns their row's crossings cover, in the given colour, and leaves every other pixel as it was |

## Left out

- The UI slots around the fill are not modelled, for any of the renderers:
  the image allocation and the white fill, the `QGraphicsScene` display, the
  `QPainter` and OpenGL renderers, the `QElapsedTimer` timing and the label text
  (mainwindow.cpp:80-100, 124-294). They are display and benchmarking plumbing.
- `random_point` and `random_polygon` (mainwindow.cpp:11-23) are not modelled:
  they only draw random numbers, so the polygon is an input of `DrawPolygon`.
- The per-pixel colour `rng.generate()` is not modelled. One given `Rgb` colour
  stands for it, the value the source's comment offers as an alternative.
  Randomness is outside the model.
- `QPolygon::boundingRect` and `QRect::getRect` are not part of this model.
  `DrawPolygon` uses their documented result: top `MinY`, height
  `MaxY - MinY + 1`.
- `std::sort` is represented by its result, the unique ascending permutation
  `Sort`, and not by its algorithm.
- Doubles are exact reals, so IEEE rounding of t and of the crossing x is not
  modelled. `int` arithmetic is unbounded, so an overflow of `det` or of
  `d * d1` for huge coordinates is not modelled either.
- The thousand-polygon loop (mainwindow.cpp:162-187) is not modelled: it repeats
  the same fill into one buffer, and each fill's frame is already stated by
  `DrawPolygon`.
- `mainwindow.h` is not part of this model. It only declares the class and its
  slots.
- Raster.FillRow: requires every crossing to lie in [0, width - 1], which is
  enough for in-bounds writes but slightly more than the loop needs.
- Raster.DrawPolygon: requires every vertex to lie inside the image and every
  row of the bounding rectangle to have an even crossing count. Without them
  the source writes or reads out of bounds, and the model does not describe
  that behaviour.
