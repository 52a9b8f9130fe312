/**
 * The engine's value types and the few Mathf / Random helpers the game logic uses.
 * Floating-point numbers are modelled as `real`, so rounding is not modelled.
 */
module UnityMath {

  datatype Vector2 = Vector2(x: real, y: real)

  datatype Vector3 = Vector3(x: real, y: real, z: real)

  const Zero2 := Vector2(0.0, 0.0)
  const Zero3 := Vector3(0.0, 0.0, 0.0)

  /** The implicit conversion Vector2 -> Vector3 (z becomes 0). */
  function To3(v: Vector2): Vector3 {
    Vector3(v.x, v.y, 0.0)
  }

  /** The implicit conversion Vector3 -> Vector2 (z is dropped). */
  function To2(v: Vector3): Vector2 {
    Vector2(v.x, v.y)
  }

  /** A RectTransform's local rectangle. */
  datatype Rect = Rect(xMin: real, yMin: real, xMax: real, yMax: real)

  /** Mathf.Abs */
  function Abs(x: real): (r: real)
    ensures r >= 0.0
    ensures r == x || r == -x
  {
    if x < 0.0 then -x else x
  }

  /** Mathf.Clamp: the lower bound is compared first, then the upper one. */
  function Clamp(value: real, min: real, max: real): (r: real)
    ensures min <= max ==> min <= r <= max
    ensures min <= value <= max ==> r == value
    ensures value < min ==> r == min
  {
    if value < min then min else if value > max then max else value
  }

  /** `v` lies between `a` and `b`, in whichever order they are given. */
  predicate Between(v: real, a: real, b: real) {
    (a <= v <= b) || (b <= v <= a)
  }

  /**
   * Random.Range(min, max) on floats: the random draw is the parameter `u` in [0, 1],
   * and the result is the point that far along from `min` to `max`.
   */
  function RandomRange(min: real, max: real, u: real): (r: real)
    requires 0.0 <= u <= 1.0
    ensures Between(r, min, max)
  {
    var d := max - min;
    var step := d * u;
    ScaleBounds(d, u);
    assert d >= 0.0 ==> 0.0 <= step <= d;
    assert d <= 0.0 ==> d <= step <= 0.0;
    min + step
  }

  lemma MulNonNegative(a: real, b: real)
    requires 0.0 <= a && 0.0 <= b
    ensures 0.0 <= a * b
  {
  }

  /** Scaling by a factor in [0, 1] moves a number towards 0 and never past it. */
  lemma ScaleBounds(d: real, u: real)
    requires 0.0 <= u <= 1.0
    ensures d >= 0.0 ==> 0.0 <= d * u <= d
    ensures d <= 0.0 ==> d <= d * u <= 0.0
  {
    if d >= 0.0 {
      MulNonNegative(d, u);
      MulNonNegative(d, 1.0 - u);
    } else {
      MulNonNegative(-d, u);
      MulNonNegative(-d, 1.0 - u);
    }
  }

  /** A symmetric draw Random.Range(-m, m) never leaves [-|m|, |m|]. */
  lemma SymmetricRangeBound(m: real, u: real)
    requires 0.0 <= u <= 1.0
    ensures -Abs(m) <= RandomRange(-m, m, u) <= Abs(m)
  {
  }
}
