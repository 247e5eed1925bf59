/** Coordinate pairs shared by the geometry helpers. */
module Geometry {

  /** A point `(x, y)`; Python floats are modelled as reals, equality is value equality. */
  datatype Point = Point(x: real, y: real)

  /** `[p for p in points if p[0] == x0]`: the points on the vertical line x = x0, in order. */
  function WithX(points: seq<Point>, x0: real): (c: seq<Point>)
    ensures |c| <= |points|
    ensures forall p :: p in c <==> p in points && p.x == x0
  {
    if points == [] then []
    else (if points[0].x == x0 then [points[0]] else []) + WithX(points[1..], x0)
  }
}
