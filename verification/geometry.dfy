/** Points of the design domain and the distances the optimizer compares. */
module Geometry {
  import opened Base

  datatype Point = Point(x: real, y: real)

  /** Square of the Euclidean distance; comparing squares avoids a square root. */
  function DistSq(p: Point, q: Point): (d: real)
    ensures d >= 0.0
  {
    var dx := q.x - p.x;
    var dy := q.y - p.y;
    SquareNonNeg(dx);
    SquareNonNeg(dy);
    dx * dx + dy * dy
  }

  /** The point halfway between p and q. */
  function Midpoint(p: Point, q: Point): (m: Point)
    ensures 2.0 * m.x == p.x + q.x && 2.0 * m.y == p.y + q.y
    ensures DistSq(m, p) == DistSq(m, q)
  {
    Point((p.x + q.x) / 2.0, (p.y + q.y) / 2.0)
  }
}
