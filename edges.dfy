/** The closed edge list that on_gen_btn_clicked builds from the polygon
    (mainwindow.cpp:102-107): the closing edge (last, first) comes first, then
    each consecutive pair (poly[i-1], poly[i]). */
module EdgeList {
  import opened Geometry

  /** The index before i in a cyclic sequence of length n. */
  function Pred(n: nat, i: nat): (r: nat)
    requires i < n
    ensures r < n
  {
    if i == 0 then n - 1 else i - 1
  }

  /** Edge i ends at vertex i and starts at the vertex before it. */
  function EdgeAt(poly: seq<Point>, i: nat): Line
    requires i < |poly|
  {
    Line(poly[Pred(|poly|, i)], poly[i])
  }

  /** The edges of the closed polygon, in the order the source builds them. */
  function Edges(poly: seq<Point>): (es: seq<Line>)
    ensures |es| == |poly|
  {
    seq(|poly|, i requires 0 <= i < |poly| => EdgeAt(poly, i))
  }

  /** Each edge starts where the edge before it (cyclically) ends. */
  predicate ClosedChain(edges: seq<Line>) {
    forall i :: 0 <= i < |edges| ==> edges[i].p1 == edges[Pred(|edges|, i)].p2
  }

  /** The end points of the edges, one per edge. */
  function Ends(edges: seq<Line>): (vs: seq<Point>)
    ensures |vs| == |edges|
  {
    seq(|edges|, i requires 0 <= i < |edges| => edges[i].p2)
  }

  /** The edge list of a polygon is a closed chain through its vertices, and
      reading off the end points gives the polygon back. */
  lemma EdgesChain(poly: seq<Point>)
    ensures ClosedChain(Edges(poly))
    ensures Ends(Edges(poly)) == poly
  {
  }

  /** Conversely every closed chain of edges is the edge list of its end points. */
  lemma ChainEdges(edges: seq<Line>)
    requires ClosedChain(edges)
    ensures Edges(Ends(edges)) == edges
  {
    var es := Edges(Ends(edges));
    forall i | 0 <= i < |edges|
      ensures es[i] == edges[i]
    {
      assert edges[i].p1 == edges[Pred(|edges|, i)].p2;
    }
  }

  /** The edge-building loop of mainwindow.cpp:102-107. QList::last needs a
      non-empty polygon. */
  method BuildEdges(poly: seq<Point>) returns (edges: seq<Line>)
    requires |poly| >= 1
    ensures edges == Edges(poly)
    ensures |edges| == |poly| && edges[0] == Line(poly[|poly| - 1], poly[0])
    ensures forall i :: 1 <= i < |poly| ==> edges[i] == Line(poly[i - 1], poly[i])
  {
    edges := [Line(poly[|poly| - 1], poly[0])];
    for i := 1 to |poly|
      invariant edges == Edges(poly)[..i]
    {
      edges := edges + [Line(poly[i - 1], poly[i])];
    }
  }
}
