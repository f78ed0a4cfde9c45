/**
 * The two-dimensional value types the modelled code takes from its geometry library:
 * points and vectors, sizes and axis-aligned rectangles. Coordinates are exact reals.
 */
module Geometry {

  /** An immutable point or vector; `==` is the library's `equals` (both components exactly equal). */
  datatype Vector2 = Vector2(x: real, y: real)

  /** The origin, `Vector2.ZERO`. */
  const ZERO: Vector2 := Vector2(0.0, 0.0)

  /**
   * The square of the Euclidean distance. The model compares squared distances where the
   * source compares `distance` values: both are non-negative, so the order is the same
   * (see SquareMonotone).
   */
  function DistanceSquared(a: Vector2, b: Vector2): real
  {
    (a.x - b.x) * (a.x - b.x) + (a.y - b.y) * (a.y - b.y)
  }

  /** Comparing two non-negative lengths is the same as comparing their squares. */
  lemma SquareMonotone(a: real, b: real)
    requires a >= 0.0 && b >= 0.0
    ensures a < b <==> a * a < b * b
  {
    if a < b {
      MulPositive(b - a, b);
      MulNonNegative(b - a, a);
    } else {
      MulNonNegative(a - b, a);
      MulNonNegative(a - b, b);
    }
  }

  lemma MulNonNegative(x: real, y: real)
    requires x >= 0.0 && y >= 0.0
    ensures x * y >= 0.0
  {
  }

  lemma MulPositive(x: real, y: real)
    requires x > 0.0 && y > 0.0
    ensures x * y > 0.0
  {
  }

  /** A width and a height. */
  datatype Dimension2 = Dimension2(width: real, height: real)

  /** An axis-aligned rectangle given by its two corners. */
  datatype Bounds2 = Bounds2(minX: real, minY: real, maxX: real, maxY: real)
  {
    function Width(): real { maxX - minX }
    function Height(): real { maxY - minY }
  }
}
