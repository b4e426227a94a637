/** Screen points and rectangles in integer pixel coordinates. */
module Geometry {

  datatype Point = Point(x: int, y: int)

  /** A rectangle given by its top-left corner and its extent, the shape
      `(x, y, w, h)` used for screenshot regions. */
  datatype Rect = Rect(x: int, y: int, w: int, h: int)

  function Add(a: Point, b: Point): Point {
    Point(a.x + b.x, a.y + b.y)
  }

  function Max(a: int, b: int): int { if a >= b then a else b }

  function Min(a: int, b: int): int { if a <= b then a else b }

  /** Python's `//` for a positive divisor: Dafny's `/` is Euclidean, which
      coincides with floor division whenever the divisor is positive. */
  function FloorDiv(a: int, d: int): (q: int)
    requires d > 0
    ensures d * q <= a < d * q + d
  {
    a / d
  }
}
