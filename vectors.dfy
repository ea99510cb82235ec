/** Two-component vectors (glm::vec2) over the reals. Floating-point rounding
    is not modelled: the arithmetic below is exact. */
module Vectors {

  datatype Vec2 = Vec2(x: real, y: real)

  function Add(a: Vec2, b: Vec2): Vec2 { Vec2(a.x + b.x, a.y + b.y) }

  function Sub(a: Vec2, b: Vec2): Vec2 { Vec2(a.x - b.x, a.y - b.y) }

  function Neg(a: Vec2): Vec2 { Vec2(-a.x, -a.y) }

  function Scale(s: real, a: Vec2): Vec2 { Vec2(s * a.x, s * a.y) }

  function Dot(a: Vec2, b: Vec2): real { a.x * b.x + a.y * b.y }

  /** The vector rotated a quarter turn counter-clockwise: (-y, x). */
  function Perp(a: Vec2): Vec2 { Vec2(-a.y, a.x) }

  /** The 2D cross product a.x * b.y - a.y * b.x. */
  function Cross(a: Vec2, b: Vec2): real { a.x * b.y - a.y * b.x }

  const Zero: Vec2 := Vec2(0.0, 0.0)

  /** glm::min */
  function Min(a: real, b: real): (r: real)
    ensures r <= a && r <= b && (r == a || r == b)
  {
    if b < a then b else a
  }

  /** glm::max */
  function Max(a: real, b: real): (r: real)
    ensures r >= a && r >= b && (r == a || r == b)
  {
    if a < b then b else a
  }
}
