/** The containment test a slot's polygon is checked with
    (core_ai/detector.py, line 81: `cv2.pointPolygonTest(pts, (cx, cy), False) >= 0`).

    With distance measurement off the test answers +1 inside, 0 on the boundary and
    -1 outside. It is modelled here on integer points: the boundary is the set of
    points on some edge of the closed polygon, and inside is decided by casting a
    horizontal ray towards +x and counting the edges it crosses. */
module Geometry {

  datatype Point = Point(x: int, y: int)

  /** The vertices in order; the last one is joined back to the first. */
  type Polygon = seq<Point>

  /** The index of the vertex that ends edge `i` of a closed polygon with `n` vertices. */
  function Next(n: nat, i: nat): nat
    requires i < n
  {
    if i + 1 == n then 0 else i + 1
  }

  /** Twice the signed area of the triangle a, b, p: zero exactly when p is on the line ab. */
  function Cross(a: Point, b: Point, p: Point): int {
    (b.x - a.x) * (p.y - a.y) - (b.y - a.y) * (p.x - a.x)
  }

  /** p lies on the closed segment from a to b. */
  predicate OnSegment(a: Point, b: Point, p: Point) {
    Cross(a, b, p) == 0
    && (a.x <= p.x <= b.x || b.x <= p.x <= a.x)
    && (a.y <= p.y <= b.y || b.y <= p.y <= a.y)
  }

  predicate OnEdge(poly: Polygon, i: nat, p: Point)
    requires i < |poly|
  {
    OnSegment(poly[i], poly[Next(|poly|, i)], p)
  }

  predicate OnBoundary(poly: Polygon, p: Point) {
    exists i :: 0 <= i < |poly| && OnEdge(poly, i, p)
  }

  /** v lies strictly above the horizontal line through p. */
  predicate Above(v: Point, p: Point) {
    v.y > p.y
  }

  /** The segment from a to b has one end above p's row and the other not. */
  predicate Straddles(a: Point, b: Point, p: Point) {
    Above(a, p) != Above(b, p)
  }

  /** The ray from p towards +x meets a straddling segment: with `lo` the end not
      above p's row and `hi` the end above it, p lies left of the segment. */
  predicate RayMeets(a: Point, b: Point, p: Point)
    requires Straddles(a, b, p)
  {
    var lo := if Above(b, p) then a else b;
    var hi := if Above(b, p) then b else a;
    (p.x - lo.x) * (hi.y - lo.y) < (p.y - lo.y) * (hi.x - lo.x)
  }

  predicate Crosses(poly: Polygon, i: nat, p: Point)
    requires i < |poly|
  {
    var a, b := poly[i], poly[Next(|poly|, i)];
    Straddles(a, b, p) && RayMeets(a, b, p)
  }

  /** The number of edges among the first `n` that the ray from p crosses. */
  function CrossingCount(poly: Polygon, p: Point, n: nat): nat
    requires n <= |poly|
  {
    if n == 0 then 0
    else CrossingCount(poly, p, n - 1) + if Crosses(poly, n - 1, p) then 1 else 0
  }

  /** The number of edges among the first `n` that straddle p's row. */
  function StraddleCount(poly: Polygon, p: Point, n: nat): nat
    requires n <= |poly|
  {
    if n == 0 then 0
    else StraddleCount(poly, p, n - 1) + if Straddles(poly[n - 1], poly[Next(|poly|, n - 1)], p) then 1 else 0
  }

  /** +1 inside, 0 on the boundary, -1 outside. */
  function PointPolygonTest(poly: Polygon, p: Point): (r: int)
    ensures -1 <= r <= 1
  {
    if OnBoundary(poly, p) then 0
    else if CrossingCount(poly, p, |poly|) % 2 == 1 then 1
    else -1
  }

  /** The inclusive test the detector uses: inside or on the boundary. */
  predicate InsideOrOnEdge(poly: Polygon, p: Point) {
    PointPolygonTest(poly, p) >= 0
  }

  /** Every point of every edge, vertices included, counts as inside. */
  lemma EdgePointsAreInside(poly: Polygon, i: nat, p: Point)
    requires i < |poly| && OnEdge(poly, i, p)
    ensures PointPolygonTest(poly, p) == 0 && InsideOrOnEdge(poly, p)
  {
  }

  lemma VerticesAreInside(poly: Polygon, i: nat)
    requires i < |poly|
    ensures PointPolygonTest(poly, poly[i]) == 0
  {
    assert OnEdge(poly, i, poly[i]);
  }

  predicate AllRightOf(poly: Polygon, p: Point) { forall v :: v in poly ==> v.x > p.x }
  predicate AllLeftOf(poly: Polygon, p: Point) { forall v :: v in poly ==> v.x < p.x }
  predicate AllAbove(poly: Polygon, p: Point) { forall v :: v in poly ==> v.y > p.y }
  predicate AllBelow(poly: Polygon, p: Point) { forall v :: v in poly ==> v.y < p.y }

  /** A point outside the polygon's bounding box, on any side, tests as outside. */
  lemma OutsideBoundingBox(poly: Polygon, p: Point)
    requires AllRightOf(poly, p) || AllLeftOf(poly, p) || AllAbove(poly, p) || AllBelow(poly, p)
    ensures PointPolygonTest(poly, p) == -1
  {
    forall i | 0 <= i < |poly|
      ensures !OnEdge(poly, i, p)
    {
      assert poly[i] in poly && poly[Next(|poly|, i)] in poly;
    }
    if AllRightOf(poly, p) {
      CrossesIffStraddles(poly, p, |poly|);
      StraddleCountIsEven(poly, p);
    } else {
      NoCrossings(poly, p, |poly|);
    }
  }

  /** Left of every vertex, the ray crosses every straddling edge. */
  lemma {:induction false} CrossesIffStraddles(poly: Polygon, p: Point, n: nat)
    requires n <= |poly| && AllRightOf(poly, p)
    ensures CrossingCount(poly, p, n) == StraddleCount(poly, p, n)
  {
    if n > 0 {
      CrossesIffStraddles(poly, p, n - 1);
      var a, b := poly[n - 1], poly[Next(|poly|, n - 1)];
      assert a in poly && b in poly;
      if Straddles(a, b, p) {
        var lo := if Above(b, p) then a else b;
        var hi := if Above(b, p) then b else a;
        RayFromLeftMeets(lo, hi, p);
      }
    }
  }

  /** Right of every vertex, or above or below all of them, the ray crosses nothing. */
  lemma {:induction false} NoCrossings(poly: Polygon, p: Point, n: nat)
    requires n <= |poly|
    requires AllLeftOf(poly, p) || AllAbove(poly, p) || AllBelow(poly, p)
    ensures CrossingCount(poly, p, n) == 0
  {
    if n > 0 {
      NoCrossings(poly, p, n - 1);
      var a, b := poly[n - 1], poly[Next(|poly|, n - 1)];
      assert a in poly && b in poly;
      if Straddles(a, b, p) && AllLeftOf(poly, p) {
        var lo := if Above(b, p) then a else b;
        var hi := if Above(b, p) then b else a;
        RayFromRightMisses(lo, hi, p);
      }
    }
  }

  lemma RayFromLeftMeets(lo: Point, hi: Point, p: Point)
    requires lo.y <= p.y < hi.y && lo.x > p.x && hi.x > p.x
    ensures (p.x - lo.x) * (hi.y - lo.y) < (p.y - lo.y) * (hi.x - lo.x)
  {
    var u, w, t, h := lo.x - p.x, hi.x - p.x, p.y - lo.y, hi.y - lo.y;
    assert t * w >= 0;
    assert u * (h - t) > 0;
    assert (p.x - lo.x) * (hi.y - lo.y) == -u * h;
    assert (p.y - lo.y) * (hi.x - lo.x) == t * w - t * u;
  }

  lemma RayFromRightMisses(lo: Point, hi: Point, p: Point)
    requires lo.y <= p.y < hi.y && lo.x < p.x && hi.x < p.x
    ensures (p.x - lo.x) * (hi.y - lo.y) >= (p.y - lo.y) * (hi.x - lo.x)
  {
    var u, w, t, h := p.x - lo.x, p.x - hi.x, p.y - lo.y, hi.y - lo.y;
    assert t * w >= 0;
    assert u * (h - t) > 0;
    assert (p.x - lo.x) * (hi.y - lo.y) == u * h;
    assert (p.y - lo.y) * (hi.x - lo.x) == t * u - t * w;
  }

  /** Along the open path of the first `n` vertices, the number of straddling
      edges is odd exactly when the path ends on the other side of p's row. */
  lemma {:induction false} PathStraddleParity(poly: Polygon, p: Point, n: nat)
    requires 1 <= n <= |poly|
    ensures StraddleCount(poly, p, n - 1) % 2 == if Above(poly[0], p) != Above(poly[n - 1], p) then 1 else 0
  {
    if n > 1 {
      PathStraddleParity(poly, p, n - 1);
      assert Next(|poly|, n - 2) == n - 1;
    }
  }

  /** A closed polygon returns to its start, so its edges straddle p's row an even number of times. */
  lemma StraddleCountIsEven(poly: Polygon, p: Point)
    ensures StraddleCount(poly, p, |poly|) % 2 == 0
  {
    if |poly| > 0 {
      PathStraddleParity(poly, p, |poly|);
    }
  }

  /** A ten-by-ten square used by the examples below. */
  const Square: Polygon := [Point(0, 0), Point(10, 0), Point(10, 10), Point(0, 10)]

  /** A point on an edge of the square tests 0, so it counts as inside. */
  lemma SquareEdgePoint()
    ensures PointPolygonTest(Square, Point(5, 0)) == 0
  {
    EdgePointsAreInside(Square, 0, Point(5, 0));
  }

  /** The centre of the square tests +1. */
  lemma SquareCentre()
    ensures PointPolygonTest(Square, Point(5, 5)) == 1
  {
    var centre := Point(5, 5);
    assert Next(4, 0) == 1 && Next(4, 1) == 2 && Next(4, 2) == 3 && Next(4, 3) == 0;
    forall i | 0 <= i < 4
      ensures !OnEdge(Square, i, centre)
    {
      if i == 0 {
        assert Cross(Square[0], Square[1], centre) == 50;
      } else if i == 1 {
        assert Cross(Square[1], Square[2], centre) == 50;
      } else if i == 2 {
        assert Cross(Square[2], Square[3], centre) == 50;
      } else {
        assert Cross(Square[3], Square[0], centre) == 50;
      }
    }
    assert !Crosses(Square, 0, centre) && Crosses(Square, 1, centre);
    assert !Crosses(Square, 2, centre) && !Crosses(Square, 3, centre);
    assert CrossingCount(Square, centre, 4) == 1;
  }

  /** An axis-aligned rectangle, counter-clockwise from its lower-left corner. */
  function Rectangle(x0: int, y0: int, x1: int, y1: int): (r: Polygon)
    ensures |r| == 4
  {
    [Point(x0, y0), Point(x1, y0), Point(x1, y1), Point(x0, y1)]
  }

  /** Every point strictly inside any axis-aligned rectangle tests +1: the ray
      crosses the right side only. */
  lemma RectangleInterior(x0: int, y0: int, x1: int, y1: int, p: Point)
    requires x0 < p.x < x1 && y0 < p.y < y1
    ensures PointPolygonTest(Rectangle(x0, y0, x1, y1), p) == 1
  {
    var r := Rectangle(x0, y0, x1, y1);
    assert r[0] == Point(x0, y0) && r[1] == Point(x1, y0) && r[2] == Point(x1, y1) && r[3] == Point(x0, y1);
    assert Next(4, 0) == 1 && Next(4, 1) == 2 && Next(4, 2) == 3 && Next(4, 3) == 0;
    forall i | 0 <= i < 4
      ensures !OnEdge(r, i, p)
    {
    }
    RayFromLeftMeets(r[1], r[2], p);
    RayFromRightMisses(r[0], r[3], p);
    assert !Crosses(r, 0, p) && Crosses(r, 1, p) && !Crosses(r, 2, p) && !Crosses(r, 3, p);
    assert CrossingCount(r, p, 1) == 0;
    assert CrossingCount(r, p, 2) == 1;
    assert CrossingCount(r, p, 3) == 1;
    assert CrossingCount(r, p, 4) == 1;
  }

  /** A diamond whose vertex (10, 5) lies on the ray from (3, 5): the edges
      meeting there count as one crossing, since a vertex on the ray's row
      counts as below it, and the point tests +1. */
  lemma DiamondRayThroughVertex()
    ensures PointPolygonTest([Point(5, 0), Point(10, 5), Point(5, 10), Point(0, 5)], Point(3, 5)) == 1
  {
    var d, p := [Point(5, 0), Point(10, 5), Point(5, 10), Point(0, 5)], Point(3, 5);
    assert Next(4, 0) == 1 && Next(4, 1) == 2 && Next(4, 2) == 3 && Next(4, 3) == 0;
    forall i | 0 <= i < 4
      ensures !OnEdge(d, i, p)
    {
      if i == 0 {
        assert Cross(d[0], d[1], p) == 35;
      } else if i == 1 {
        assert Cross(d[1], d[2], p) == 35;
      } else if i == 2 {
        assert Cross(d[2], d[3], p) == 15;
      } else {
        assert Cross(d[3], d[0], p) == 15;
      }
    }
    assert CrossingCount(d, p, 1) == 0;
    assert CrossingCount(d, p, 2) == 1;
    assert CrossingCount(d, p, 3) == 1;
    assert CrossingCount(d, p, 4) == 1;
  }

  /** A point beyond the square's right side tests -1. */
  lemma SquareOutside()
    ensures PointPolygonTest(Square, Point(15, 5)) == -1
  {
    OutsideBoundingBox(Square, Point(15, 5));
  }
}
