/** Integer points, lines and the segment/line intersection test of mainwindow.cpp.
    Coordinates are unbounded integers; the doubles of the source are exact reals. */
module Geometry {

  datatype Option<T> = None | Some(value: T)

  /** An integer point, as QPoint. */
  datatype Point = Point(x: int, y: int)

  /** A point with real coordinates, standing for QPointF. */
  datatype PointF = PointF(x: real, y: real)

  /** A directed segment from p1 to p2, as QLine. */
  datatype Line = Line(p1: Point, p2: Point)

  function Sub(a: Point, b: Point): Point { Point(a.x - b.x, a.y - b.y) }

  function Neg(a: Point): Point { Point(-a.x, -a.y) }

  function ToF(p: Point): PointF { PointF(p.x as real, p.y as real) }

  function Abs(a: int): int { if a < 0 then -a else a }

  function Min(a: int, b: int): int { if a <= b then a else b }

  function Max(a: int, b: int): int { if a <= b then b else a }

  /** The real point p + t * v, as QPointF(p) + t * QPointF(v). */
  function Lerp(p: Point, v: Point, t: real): PointF {
    PointF(p.x as real + t * (v.x as real), p.y as real + t * (v.y as real))
  }

  /** Determinant of the 2x2 matrix whose columns are col0 and col1. */
  function Det(col0: Point, col1: Point): (d: int) {
    col0.x * col1.y - col0.y * col1.x
  }

  lemma DetAntisymmetric(a: Point, b: Point)
    ensures Det(a, b) == -Det(b, a)
  {
  }

  /** The line through (0, y) and (1, y). */
  function HorizLine(y: int): (l: Line)
    ensures l.p1.y == y && l.p2.y == y && l.p1 != l.p2
  {
    Line(Point(0, y), Point(1, y))
  }

  /** The point where segment s meets the (infinite) line l, if any; parallel
      lines never meet, and a meeting point outside s is rejected. */
  function SegmLineIntersection(s: Line, l: Line): (r: Option<PointF>)
    ensures r.Some? ==> Det(Sub(l.p2, l.p1), Neg(Sub(s.p2, s.p1))) != 0
  {
    var p0, p1, q0, q1 := s.p1, s.p2, l.p1, l.p2;
    var p1p0 := Sub(p1, p0);
    var q1q0 := Sub(q1, q0);
    var d := Det(q1q0, Neg(p1p0));
    if d == 0 then None
    else
      var p0q0 := Sub(p0, q0);
      var d1 := Det(q1q0, p0q0);
      if d * d1 < 0 || Abs(d1) > Abs(d) then None
      else
        var t := (d1 as real) / (d as real);
        Some(Lerp(p0, p1p0, t))
  }

  /** Scalar cross product of two real vectors. */
  function DetF(a: PointF, b: PointF): real { a.x * b.y - a.y * b.x }

  /** The fraction of the way along s at which it meets the line l. */
  function IntersectParam(s: Line, l: Line): real
    requires Det(Sub(l.p2, l.p1), Neg(Sub(s.p2, s.p1))) != 0
  {
    (Det(Sub(l.p2, l.p1), Sub(s.p1, l.p1)) as real) / (Det(Sub(l.p2, l.p1), Neg(Sub(s.p2, s.p1))) as real)
  }

  lemma DivMul(a: real, b: real)
    requires b != 0.0
    ensures (a / b) * b == a
  {
  }

  /** n / d lies in [0, 1] when n and d have the same sign and |n| <= |d|. */
  lemma DivUnit(n: int, d: int)
    requires d != 0 && d * n >= 0 && Abs(n) <= Abs(d)
    ensures 0.0 <= (n as real) / (d as real) <= 1.0
  {
    MulSign(d, n);
    if d > 0 {
      assert 0 <= n <= d;
      assert (n as real) / (d as real) <= (d as real) / (d as real);
    } else {
      assert d <= n <= 0;
      assert ((-n) as real) / ((-d) as real) <= ((-d) as real) / ((-d) as real);
      assert (n as real) / (d as real) == ((-n) as real) / ((-d) as real);
    }
  }

  /** The real identity behind "the intersection lies on l". */
  lemma CrossVanishes(ax: real, ay: real, ux: real, uy: real, cx: real, cy: real, t: real)
    requires t * (ay * ux - ax * uy) == ax * cy - ay * cx
    ensures ax * (cy + t * uy) - ay * (cx + t * ux) == 0.0
  {
    calc {
      ax * (cy + t * uy) - ay * (cx + t * ux);
      (ax * cy - ay * cx) + t * (ax * uy - ay * ux);
      t * (ay * ux - ax * uy) + t * (ax * uy - ay * ux);
      0.0;
    }
  }

  /** A found intersection is the point at parameter t in [0, 1] of s, and it
      lies on the line l. */
  lemma IntersectionOnBoth(s: Line, l: Line)
    requires SegmLineIntersection(s, l).Some?
    ensures Det(Sub(l.p2, l.p1), Neg(Sub(s.p2, s.p1))) != 0
    ensures 0.0 <= IntersectParam(s, l) <= 1.0
    ensures SegmLineIntersection(s, l).value == Lerp(s.p1, Sub(s.p2, s.p1), IntersectParam(s, l))
    ensures var r, q0, q1 := SegmLineIntersection(s, l).value, ToF(l.p1), ToF(l.p2);
      DetF(PointF(q1.x - q0.x, q1.y - q0.y), PointF(r.x - q0.x, r.y - q0.y)) == 0.0
  {
    var p1p0, q1q0 := Sub(s.p2, s.p1), Sub(l.p2, l.p1);
    var d := Det(q1q0, Neg(p1p0));
    var d1 := Det(q1q0, Sub(s.p1, l.p1));
    var t := IntersectParam(s, l);
    DivUnit(d1, d);
    DivMul(d1 as real, d as real);
    var r := SegmLineIntersection(s, l).value;
    assert r == Lerp(s.p1, p1p0, t);
    var ax, ay := q1q0.x as real, q1q0.y as real;
    var ux, uy := p1p0.x as real, p1p0.y as real;
    var cx, cy := (s.p1.x - l.p1.x) as real, (s.p1.y - l.p1.y) as real;
    assert (d as real) == ay * ux - ax * uy;
    assert (d1 as real) == ax * cy - ay * cx;
    CrossVanishes(ax, ay, ux, uy, cx, cy, t);
    assert r.x - (l.p1.x as real) == cx + t * ux;
    assert r.y - (l.p1.y as real) == cy + t * uy;
  }

  /** Against a horizontal test line the two determinants reduce to the edge's
      vertical extent and the start point's height above the line. */
  lemma HorizDets(s: Line, y: int)
    ensures Det(Sub(HorizLine(y).p2, HorizLine(y).p1), Neg(Sub(s.p2, s.p1))) == -(s.p2.y - s.p1.y)
    ensures Det(Sub(HorizLine(y).p2, HorizLine(y).p1), Sub(s.p1, HorizLine(y).p1)) == s.p1.y - y
  {
  }

  /** Where edge s crosses height y, as a fraction of the way from s.p1 to s.p2. */
  function HorizParam(s: Line, y: int): real
    requires s.p1.y != s.p2.y
  {
    ((y - s.p1.y) as real) / ((s.p2.y - s.p1.y) as real)
  }

  /** The intersection with a horizontal line, written with the two reduced determinants. */
  lemma HorizIntersectionForm(s: Line, y: int)
    ensures var d, d1 := -(s.p2.y - s.p1.y), s.p1.y - y;
      SegmLineIntersection(s, HorizLine(y)) ==
        if d == 0 || d * d1 < 0 || Abs(d1) > Abs(d) then None
        else Some(Lerp(s.p1, Sub(s.p2, s.p1), (d1 as real) / (d as real)))
  {
    HorizDets(s, y);
  }

  /** Sign of a product of two integers. */
  lemma MulSign(a: int, b: int)
    ensures a * b < 0 <==> (a < 0 && b > 0) || (a > 0 && b < 0)
    ensures a * b <= 0 <==> a == 0 || b == 0 || (a < 0 && b > 0) || (a > 0 && b < 0)
  {
    if a > 0 && b > 0 {
      assert a * b > 0;
    } else if a < 0 && b < 0 {
      assert a * b == (-a) * (-b);
      assert (-a) * (-b) > 0;
    } else if a > 0 && b < 0 {
      assert a * (-b) > 0;
    } else if a < 0 && b > 0 {
      assert (-a) * b > 0;
    }
  }

  /** An edge misses the horizontal line at y exactly when it is horizontal or
      y lies outside the closed range of its end points' heights. */
  lemma HorizIntersectionAbsent(s: Line, y: int)
    ensures SegmLineIntersection(s, HorizLine(y)).None? <==>
      s.p1.y == s.p2.y || y < Min(s.p1.y, s.p2.y) || Max(s.p1.y, s.p2.y) < y
  {
    HorizIntersectionForm(s, y);
    var d, d1 := -(s.p2.y - s.p1.y), s.p1.y - y;
    MulSign(d, d1);
  }

  /** a + t * dx lies between a and a + dx for t in [0, 1]. */
  lemma LerpBetween(a: real, dx: real, t: real)
    requires 0.0 <= t <= 1.0
    ensures dx >= 0.0 ==> a <= a + t * dx <= a + dx
    ensures dx < 0.0 ==> a + dx <= a + t * dx <= a
  {
    if dx >= 0.0 {
      assert t * dx <= 1.0 * dx;
    } else {
      assert t * (-dx) <= 1.0 * (-dx);
    }
  }

  lemma NegDiv(a: real, b: real)
    requires b != 0.0
    ensures (-a) / (-b) == a / b
  {
  }

  /** The source's t = d1 / d is the edge parameter of height y. */
  lemma HorizParamIsT(s: Line, y: int)
    requires s.p1.y != s.p2.y
    ensures ((s.p1.y - y) as real) / ((-(s.p2.y - s.p1.y)) as real) == HorizParam(s, y)
    ensures HorizParam(s, y) * ((s.p2.y - s.p1.y) as real) == (y - s.p1.y) as real
  {
    NegDiv((y - s.p1.y) as real, (s.p2.y - s.p1.y) as real);
    DivMul((y - s.p1.y) as real, (s.p2.y - s.p1.y) as real);
  }

  /** A present intersection is the point of the edge at parameter HorizParam, in [0, 1]. */
  lemma HorizIntersectionParam(s: Line, y: int)
    requires SegmLineIntersection(s, HorizLine(y)).Some?
    ensures s.p1.y != s.p2.y && Min(s.p1.y, s.p2.y) <= y <= Max(s.p1.y, s.p2.y)
    ensures 0.0 <= HorizParam(s, y) <= 1.0
    ensures SegmLineIntersection(s, HorizLine(y)).value == Lerp(s.p1, Sub(s.p2, s.p1), HorizParam(s, y))
  {
    HorizIntersectionAbsent(s, y);
    HorizIntersectionForm(s, y);
    DivUnit(s.p1.y - y, -(s.p2.y - s.p1.y));
    HorizParamIsT(s, y);
  }

  /** A non-zero factor cancels. */
  lemma Cancel(a: real, b: real, c: real)
    requires c != 0.0 && a * c == b * c
    ensures a == b
  {
    assert (a - b) * c == 0.0;
  }

  /** The point at parameter t of the segment p..q, where t is the fraction of
      its height at which y lies. */
  lemma LerpAtHeight(p: Point, q: Point, y: int, t: real)
    requires p.y != q.y && 0.0 <= t <= 1.0
    requires t * ((q.y - p.y) as real) == (y - p.y) as real
    ensures Lerp(p, Sub(q, p), t).y == y as real
    ensures Min(p.x, q.x) as real <= Lerp(p, Sub(q, p), t).x <= Max(p.x, q.x) as real
    ensures y == p.y ==> Lerp(p, Sub(q, p), t) == ToF(p)
    ensures y == q.y ==> Lerp(p, Sub(q, p), t) == ToF(q)
  {
    var dy := (q.y - p.y) as real;
    LerpBetween(p.x as real, (q.x - p.x) as real, t);
    if y == p.y {
      Cancel(t, 0.0, dy);
    }
    if y == q.y {
      Cancel(t, 1.0, dy);
    }
  }

  /** A present intersection lies on the scanline, between the end points' x;
      when the scanline passes through p1 it is p1, and through p2 it is p2. */
  lemma HorizIntersectionPresent(s: Line, y: int)
    requires SegmLineIntersection(s, HorizLine(y)).Some?
    ensures SegmLineIntersection(s, HorizLine(y)).value.y == y as real
    ensures var r := SegmLineIntersection(s, HorizLine(y)).value;
      Min(s.p1.x, s.p2.x) as real <= r.x <= Max(s.p1.x, s.p2.x) as real
    ensures y == s.p1.y ==> SegmLineIntersection(s, HorizLine(y)).value == ToF(s.p1)
    ensures y == s.p2.y ==> SegmLineIntersection(s, HorizLine(y)).value == ToF(s.p2)
  {
    HorizIntersectionParam(s, y);
    HorizParamIsT(s, y);
    LerpAtHeight(s.p1, s.p2, y, HorizParam(s, y));
  }
}
