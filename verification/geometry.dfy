/** Tile and quadrilateral overlap tests and tile bounds in world
    coordinates (js/geometry.js). Coordinates are exact reals; the floating
    point of the JavaScript code is not modelled. */
module Geometry {

  datatype Point = Point(x: real, y: real)

  /** The four vertices of a quadrilateral, in the order given. */
  datatype Quad = Quad(p0: Point, p1: Point, p2: Point, p3: Point)

  /** How a tile lies with respect to an edge or a quadrilateral. */
  datatype Overlap = Outside | Inside | Intersecting

  /** The same quadrilateral with its vertex list started one later. */
  function Rotate(q: Quad): (r: Quad)
    ensures r.p3 == q.p0 && r.p0 == q.p1
  {
    Quad(q.p1, q.p2, q.p3, q.p0)
  }

  function MinX(q: Quad): real
  {
    var a := if q.p0.x <= q.p1.x then q.p0.x else q.p1.x;
    var b := if q.p2.x <= q.p3.x then q.p2.x else q.p3.x;
    if a <= b then a else b
  }

  function MaxX(q: Quad): real
  {
    var a := if q.p0.x >= q.p1.x then q.p0.x else q.p1.x;
    var b := if q.p2.x >= q.p3.x then q.p2.x else q.p3.x;
    if a >= b then a else b
  }

  function MinY(q: Quad): real
  {
    var a := if q.p0.y <= q.p1.y then q.p0.y else q.p1.y;
    var b := if q.p2.y <= q.p3.y then q.p2.y else q.p3.y;
    if a <= b then a else b
  }

  function MaxY(q: Quad): real
  {
    var a := if q.p0.y >= q.p1.y then q.p0.y else q.p1.y;
    var b := if q.p2.y >= q.p3.y then q.p2.y else q.p3.y;
    if a >= b then a else b
  }

  /** boundingBoxesOverlap: false when all four vertices lie strictly to one
      side of the rectangle `low`..`high` in one coordinate. So the boxes
      overlap exactly when the quadrilateral's extent reaches the rectangle
      on every side. */
  function BoundingBoxesOverlap(q: Quad, low: Point, high: Point): (r: bool)
    ensures r <==> MaxX(q) >= low.x && MaxY(q) >= low.y && MinX(q) <= high.x && MinY(q) <= high.y
  {
    if q.p0.x < low.x && q.p1.x < low.x && q.p2.x < low.x && q.p3.x < low.x then false
    else if q.p0.y < low.y && q.p1.y < low.y && q.p2.y < low.y && q.p3.y < low.y then false
    else if q.p0.x > high.x && q.p1.x > high.x && q.p2.x > high.x && q.p3.x > high.x then false
    else if q.p0.y > high.y && q.p1.y > high.y && q.p2.y > high.y && q.p3.y > high.y then false
    else true
  }

  /** The vertex order does not matter to the bounding-box test. */
  lemma BoundingBoxesOverlapRotation(q: Quad, low: Point, high: Point)
    ensures BoundingBoxesOverlap(Rotate(q), low, high) == BoundingBoxesOverlap(q, low, high)
  {
  }

  /** The signed value of point `p` against the line through `a` and `b`:
      its dot product with the normal `(b.y - a.y, a.x - b.x)`, less that of
      `a`. */
  function EdgeValue(a: Point, b: Point, p: Point): real
  {
    var nx := b.y - a.y;
    var ny := a.x - b.x;
    var d := nx * a.x + ny * a.y;
    nx * p.x + ny * p.y - d
  }

  /** The edge value is the cross product of `b - a` and `p - a`, negated. */
  lemma EdgeValueIsCrossProduct(a: Point, b: Point, p: Point)
    ensures EdgeValue(a, b, p) == (b.y - a.y) * (p.x - a.x) - (b.x - a.x) * (p.y - a.y)
  {
  }

  /** Measuring the offset at `b` instead of `a` gives the same line. */
  lemma OffsetAtEitherEnd(a: Point, b: Point)
    ensures (b.y - a.y) * b.x + (a.x - b.x) * b.y == (b.y - a.y) * a.x + (a.x - b.x) * a.y
  {
  }

  /** Reversing the edge negates every value. */
  lemma EdgeValueSwap(a: Point, b: Point, p: Point)
    ensures EdgeValue(b, a, p) == -EdgeValue(a, b, p)
  {
    EdgeValueIsCrossProduct(a, b, p);
    EdgeValueIsCrossProduct(b, a, p);
    assert (a.y - b.y) * (p.x - b.x) == (a.y - b.y) * (p.x - a.x) + (a.y - b.y) * (a.x - b.x);
    assert (a.x - b.x) * (p.y - b.y) == (a.x - b.x) * (p.y - a.y) + (a.x - b.x) * (a.y - b.y);
  }

  /** edgeTileOverlap: the tile is OUTSIDE the edge when all four corners
      have a negative value, INSIDE when all four are positive, and
      INTERSECTING otherwise, a corner on the line included. */
  function EdgeTileOverlap(a: Point, b: Point, low: Point, high: Point): (r: Overlap)
    ensures r == Outside <==>
              EdgeValue(a, b, Point(low.x, low.y)) < 0.0 && EdgeValue(a, b, Point(low.x, high.y)) < 0.0 &&
              EdgeValue(a, b, Point(high.x, low.y)) < 0.0 && EdgeValue(a, b, Point(high.x, high.y)) < 0.0
    ensures r == Inside <==>
              EdgeValue(a, b, Point(low.x, low.y)) > 0.0 && EdgeValue(a, b, Point(low.x, high.y)) > 0.0 &&
              EdgeValue(a, b, Point(high.x, low.y)) > 0.0 && EdgeValue(a, b, Point(high.x, high.y)) > 0.0
  {
    var nx := b.y - a.y;
    var ny := a.x - b.x;
    var d := nx * a.x + ny * a.y;
    var loLo := nx * low.x + ny * low.y - d;
    var loHi := nx * low.x + ny * high.y - d;
    var hiLo := nx * high.x + ny * low.y - d;
    var hiHi := nx * high.x + ny * high.y - d;
    assert loLo == EdgeValue(a, b, Point(low.x, low.y));
    assert loHi == EdgeValue(a, b, Point(low.x, high.y));
    assert hiLo == EdgeValue(a, b, Point(high.x, low.y));
    assert hiHi == EdgeValue(a, b, Point(high.x, high.y));
    if loLo < 0.0 && loHi < 0.0 && hiLo < 0.0 && hiHi < 0.0 then Outside
    else if loLo > 0.0 && loHi > 0.0 && hiLo > 0.0 && hiHi > 0.0 then Inside
    else Intersecting
  }

  function Opposite(o: Overlap): Overlap
  {
    match o
    case Outside => Inside
    case Inside => Outside
    case Intersecting => Intersecting
  }

  /** Swapping the endpoints exchanges OUTSIDE and INSIDE and keeps
      INTERSECTING. */
  lemma EdgeTileOverlapSwap(a: Point, b: Point, low: Point, high: Point)
    ensures EdgeTileOverlap(b, a, low, high) == Opposite(EdgeTileOverlap(a, b, low, high))
  {
    EdgeValueSwap(a, b, Point(low.x, low.y));
    EdgeValueSwap(a, b, Point(low.x, high.y));
    EdgeValueSwap(a, b, Point(high.x, low.y));
    EdgeValueSwap(a, b, Point(high.x, high.y));
  }

  /** An edge of length zero has no normal: every tile intersects it. */
  lemma DegenerateEdgeIntersects(a: Point, low: Point, high: Point)
    ensures EdgeTileOverlap(a, a, low, high) == Intersecting
  {
  }

  /** A point of the rectangle `low`..`high`. */
  predicate InRectangle(p: Point, low: Point, high: Point)
  {
    low.x <= p.x <= high.x && low.y <= p.y <= high.y
  }

  /** Scaling by a non-negative factor keeps a value between the scaled
      ends of its interval; the scaled values are returned. */
  lemma ScaleUp(n: real, lo: real, v: real, hi: real) returns (a: real, b: real, c: real)
    requires lo <= v <= hi && n >= 0.0
    ensures a == n * lo && b == n * v && c == n * hi
    ensures a <= b <= c
  {
    a, b, c := n * lo, n * v, n * hi;
    assert n * (v - lo) >= 0.0;
    assert n * (hi - v) >= 0.0;
  }

  /** Scaling by a negative factor reverses the interval. */
  lemma ScaleDown(n: real, lo: real, v: real, hi: real) returns (a: real, b: real, c: real)
    requires lo <= v <= hi && n < 0.0
    ensures a == n * lo && b == n * v && c == n * hi
    ensures c <= b <= a
  {
    a, b, c := n * lo, n * v, n * hi;
    assert n * (v - hi) >= 0.0;
    assert n * (lo - v) >= 0.0;
  }

  /** A linear function of a point of the rectangle is bounded below by its
      value at some corner and above by its value at some corner. */
  lemma LinearBetweenCorners(nx: real, ny: real, d: real, low: Point, high: Point, p: Point)
    requires InRectangle(p, low, high)
    ensures var v := nx * p.x + ny * p.y - d;
            var c := nx * low.x + ny * low.y - d;
            var e := nx * low.x + ny * high.y - d;
            var f := nx * high.x + ny * low.y - d;
            var g := nx * high.x + ny * high.y - d;
            (v >= c || v >= e || v >= f || v >= g) && (v <= c || v <= e || v <= f || v <= g)
  {
    var xl, xp, xh, yl, yp, yh;
    if nx >= 0.0 {
      xl, xp, xh := ScaleUp(nx, low.x, p.x, high.x);
    } else {
      xl, xp, xh := ScaleDown(nx, low.x, p.x, high.x);
    }
    if ny >= 0.0 {
      yl, yp, yh := ScaleUp(ny, low.y, p.y, high.y);
    } else {
      yl, yp, yh := ScaleDown(ny, low.y, p.y, high.y);
    }
    CornerBounds(xl, xp, xh, yl, yp, yh, d);
  }

  /** Whatever the order of each pair of ends, a sum lies between two of
      the four corner sums. */
  lemma CornerBounds(xl: real, xp: real, xh: real, yl: real, yp: real, yh: real, d: real)
    requires (xl <= xp <= xh) || (xh <= xp <= xl)
    requires (yl <= yp <= yh) || (yh <= yp <= yl)
    ensures var v := xp + yp - d;
            (v >= xl + yl - d || v >= xl + yh - d || v >= xh + yl - d || v >= xh + yh - d) &&
            (v <= xl + yl - d || v <= xl + yh - d || v <= xh + yl - d || v <= xh + yh - d)
  {
  }

  /** The edge value of a point of the rectangle is bounded below by the
      value at some corner and above by the value at some corner. */
  lemma EdgeValueBetweenCorners(a: Point, b: Point, low: Point, high: Point, p: Point)
    requires InRectangle(p, low, high)
    ensures var c := EdgeValue(a, b, Point(low.x, low.y));
            var e := EdgeValue(a, b, Point(low.x, high.y));
            var f := EdgeValue(a, b, Point(high.x, low.y));
            var g := EdgeValue(a, b, Point(high.x, high.y));
            var v := EdgeValue(a, b, p);
            (v >= c || v >= e || v >= f || v >= g) && (v <= c || v <= e || v <= f || v <= g)
  {
    var nx := b.y - a.y;
    var ny := a.x - b.x;
    LinearBetweenCorners(nx, ny, nx * a.x + ny * a.y, low, high, p);
  }

  /** An INSIDE verdict puts the whole tile strictly on the positive side of
      the edge's line, and an OUTSIDE verdict strictly on the negative
      side. */
  lemma EdgeVerdictCoversTile(a: Point, b: Point, low: Point, high: Point, p: Point)
    requires InRectangle(p, low, high)
    ensures EdgeTileOverlap(a, b, low, high) == Inside ==> EdgeValue(a, b, p) > 0.0
    ensures EdgeTileOverlap(a, b, low, high) == Outside ==> EdgeValue(a, b, p) < 0.0
  {
    EdgeValueBetweenCorners(a, b, low, high, p);
  }

  /** The four edges, each from one vertex to the next, the last closing
      the loop. */
  function Edges(q: Quad): (e: seq<(Point, Point)>)
    ensures |e| == 4
    ensures e[0] == (q.p0, q.p1) && e[1] == (q.p1, q.p2) && e[2] == (q.p2, q.p3) && e[3] == (q.p3, q.p0)
  {
    [(q.p0, q.p1), (q.p1, q.p2), (q.p2, q.p3), (q.p3, q.p0)]
  }

  /** The verdicts of the four edges against a tile, in edge order. */
  function EdgeVerdicts(q: Quad, upperLeft: Point, lowerRight: Point): (v: seq<Overlap>)
    ensures |v| == 4
    ensures forall i :: 0 <= i < 4 ==> v[i] == EdgeTileOverlap(Edges(q)[i].0, Edges(q)[i].1, upperLeft, lowerRight)
  {
    [EdgeTileOverlap(q.p0, q.p1, upperLeft, lowerRight), EdgeTileOverlap(q.p1, q.p2, upperLeft, lowerRight),
     EdgeTileOverlap(q.p2, q.p3, upperLeft, lowerRight), EdgeTileOverlap(q.p3, q.p0, upperLeft, lowerRight)]
  }

  /** quadTileOverlap: OUTSIDE when the bounding boxes miss or some edge has
      the tile outside; INSIDE when every edge has it inside; otherwise
      INTERSECTING. */
  function QuadTileOverlap(q: Quad, upperLeft: Point, lowerRight: Point): (r: Overlap)
    ensures r == Outside <==>
              !BoundingBoxesOverlap(q, upperLeft, lowerRight) || Outside in EdgeVerdicts(q, upperLeft, lowerRight)
    ensures r == Inside <==>
              BoundingBoxesOverlap(q, upperLeft, lowerRight) &&
              EdgeVerdicts(q, upperLeft, lowerRight) == [Inside, Inside, Inside, Inside]
  {
    if !BoundingBoxesOverlap(q, upperLeft, lowerRight) then Outside
    else
      var a := EdgeTileOverlap(q.p0, q.p1, upperLeft, lowerRight);
      var b := EdgeTileOverlap(q.p1, q.p2, upperLeft, lowerRight);
      var c := EdgeTileOverlap(q.p2, q.p3, upperLeft, lowerRight);
      var d := EdgeTileOverlap(q.p3, q.p0, upperLeft, lowerRight);
      assert EdgeVerdicts(q, upperLeft, lowerRight) == [a, b, c, d];
      if a == Outside || b == Outside || c == Outside || d == Outside then Outside
      else if a == Inside && b == Inside && c == Inside && d == Inside then Inside
      else Intersecting
  }

  /** Starting the vertex list at another vertex does not change the
      verdict. */
  lemma QuadTileOverlapRotation(q: Quad, upperLeft: Point, lowerRight: Point)
    ensures QuadTileOverlap(Rotate(q), upperLeft, lowerRight) == QuadTileOverlap(q, upperLeft, lowerRight)
  {
    BoundingBoxesOverlapRotation(q, upperLeft, lowerRight);
  }

  /** An INSIDE verdict puts every point of the tile strictly on the positive
      side of all four edges. */
  lemma InsideTileIsInsideEveryEdge(q: Quad, upperLeft: Point, lowerRight: Point, p: Point, i: nat)
    requires QuadTileOverlap(q, upperLeft, lowerRight) == Inside
    requires InRectangle(p, upperLeft, lowerRight) && i < 4
    ensures EdgeValue(Edges(q)[i].0, Edges(q)[i].1, p) > 0.0
  {
    assert EdgeVerdicts(q, upperLeft, lowerRight)[i] == Inside;
    EdgeVerdictCoversTile(Edges(q)[i].0, Edges(q)[i].1, upperLeft, lowerRight, p);
  }

  /** When some edge has the tile outside, every point of the tile is
      strictly on the negative side of that edge. */
  lemma OutsideEdgeSeparatesTile(q: Quad, upperLeft: Point, lowerRight: Point, p: Point, i: nat)
    requires i < 4 && EdgeTileOverlap(Edges(q)[i].0, Edges(q)[i].1, upperLeft, lowerRight) == Outside
    requires InRectangle(p, upperLeft, lowerRight)
    ensures QuadTileOverlap(q, upperLeft, lowerRight) == Outside
    ensures EdgeValue(Edges(q)[i].0, Edges(q)[i].1, p) < 0.0
  {
    assert EdgeVerdicts(q, upperLeft, lowerRight)[i] == Outside;
    EdgeVerdictCoversTile(Edges(q)[i].0, Edges(q)[i].1, upperLeft, lowerRight, p);
  }

  /** World coordinates grow downwards, so a quadrilateral listed
      counter-clockwise as seen on screen has its interior on the positive
      side of each edge: for the edge going down the left side of the unit
      square, a tile within the square is INSIDE and a tile to its left is
      OUTSIDE. */
  lemma ScreenOrientationExample()
    ensures EdgeTileOverlap(Point(0.0, 0.0), Point(0.0, 1.0), Point(0.25, 0.25), Point(0.75, 0.75)) == Inside
    ensures EdgeTileOverlap(Point(0.0, 0.0), Point(0.0, 1.0), Point(-1.0, 0.0), Point(-0.5, 1.0)) == Outside
  {
  }

  /** `Math.pow(2, zoom)` for a whole zoom level, negative levels included. */
  function Pow2(zoom: int): (z: real)
    ensures z > 0.0
    decreases if zoom < 0 then -zoom else zoom
  {
    if zoom == 0 then 1.0
    else if zoom > 0 then 2.0 * Pow2(zoom - 1)
    else Pow2(zoom + 1) / 2.0
  }

  /** One zoom level more doubles the scale, at every level. */
  lemma Pow2Step(zoom: int)
    ensures Pow2(zoom + 1) == 2.0 * Pow2(zoom)
  {
  }

  /** getTileRange: the upper-left and lower-right world coordinates of tile
      `(x, y)` at a zoom level; a tile spans 256 world units at zoom 0 and
      half as many at each level further in. */
  function GetTileRange(x: real, y: real, zoom: int): (r: (Point, Point))
    ensures r.0.x < r.1.x && r.0.y < r.1.y
    ensures r.1.x - r.0.x == 256.0 / Pow2(zoom) && r.1.y - r.0.y == 256.0 / Pow2(zoom)
    ensures r.0.x * Pow2(zoom) == x * 256.0 && r.0.y * Pow2(zoom) == y * 256.0
  {
    var z := Pow2(zoom);
    (Point(x * 256.0 / z, y * 256.0 / z), Point((x + 1.0) * 256.0 / z, (y + 1.0) * 256.0 / z))
  }

  /** Neighbouring tiles share their common edge. */
  lemma AdjacentTilesShareEdges(x: real, y: real, zoom: int)
    ensures GetTileRange(x + 1.0, y, zoom).0.x == GetTileRange(x, y, zoom).1.x
    ensures GetTileRange(x, y + 1.0, zoom).0.y == GetTileRange(x, y, zoom).1.y
  {
  }

  /** At the next zoom level the four children of a tile split it in half
      each way: the first child starts at its corner, the last ends at its
      opposite corner, and they meet at its centre. */
  lemma ChildTilesSubdivide(x: real, y: real, zoom: int)
    ensures GetTileRange(2.0 * x, 2.0 * y, zoom + 1).0 == GetTileRange(x, y, zoom).0
    ensures GetTileRange(2.0 * x + 1.0, 2.0 * y + 1.0, zoom + 1).1 == GetTileRange(x, y, zoom).1
    ensures GetTileRange(2.0 * x, 2.0 * y, zoom + 1).1 == GetTileRange(2.0 * x + 1.0, 2.0 * y + 1.0, zoom + 1).0
  {
    Pow2Step(zoom);
    var z := Pow2(zoom);
    assert Pow2(zoom + 1) == 2.0 * z;
    HalfOfDouble(x * 256.0, z);
    HalfOfDouble(y * 256.0, z);
    HalfOfDouble((x + 1.0) * 256.0, z);
    HalfOfDouble((y + 1.0) * 256.0, z);
    assert (2.0 * x) * 256.0 == 2.0 * (x * 256.0);
    assert (2.0 * y) * 256.0 == 2.0 * (y * 256.0);
    assert (2.0 * x + 1.0 + 1.0) * 256.0 == 2.0 * ((x + 1.0) * 256.0);
    assert (2.0 * y + 1.0 + 1.0) * 256.0 == 2.0 * ((y + 1.0) * 256.0);
  }

  lemma HalfOfDouble(u: real, z: real)
    requires z > 0.0
    ensures (2.0 * u) / (2.0 * z) == u / z
  {
  }

  /** The single tile at zoom 0 covers the world square 0..256. */
  lemma WorldTile()
    ensures GetTileRange(0.0, 0.0, 0) == (Point(0.0, 0.0), Point(256.0, 256.0))
  {
  }
}
