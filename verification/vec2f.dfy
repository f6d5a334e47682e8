/**
  The 2-D vector primitive used for agent positions and movements.
  Coordinates are reals; the single-precision rounding of the original
  `float` fields is not modelled.
 */
module Vec2f {

  /** A position or displacement on the plane. */
  datatype Vec2 = Vec2(x: real, y: real)

  const Zero: Vec2 := Vec2(0.0, 0.0)

  function Add(a: Vec2, b: Vec2): Vec2 {
    Vec2(a.x + b.x, a.y + b.y)
  }

  function Sub(a: Vec2, b: Vec2): Vec2 {
    Vec2(a.x - b.x, a.y - b.y)
  }

  function Scale(a: Vec2, k: real): Vec2 {
    Vec2(a.x * k, a.y * k)
  }

  /** The squared Euclidean length; never negative, and zero only for the zero vector. */
  function SquaredLength(v: Vec2): (r: real)
    ensures r >= 0.0
    ensures r == 0.0 <==> v == Zero
  {
    var px := v.x * v.x;
    var py := v.y * v.y;
    SquareSign(v.x, px);
    SquareSign(v.y, py);
    px + py
  }

  /** A square is never negative, and zero only for a zero base. */
  lemma SquareSign(a: real, q: real)
    requires q == a * a
    ensures q >= 0.0
    ensures q == 0.0 <==> a == 0.0
  {
    if a < 0.0 {
      PositiveProduct(-a, -a, q);
    } else if a > 0.0 {
      PositiveProduct(a, a, q);
    } else {
      ZeroProduct(a, a, q);
    }
  }

  lemma PositiveProduct(a: real, b: real, q: real)
    requires q == a * b
    requires a > 0.0 && b > 0.0
    ensures q > 0.0
  {
  }

  lemma ZeroProduct(a: real, b: real, q: real)
    requires q == a * b
    requires a == 0.0
    ensures q == 0.0
  {
  }
}
