/**
 * The hole's model (Zones/DropZones/Hole/HoleModel.cs): the size of the elliptic hole and the
 * test whether a point, in the hole image's local coordinates, lies on it.
 */
module Hole {
  import opened UnityMath

  class HoleModel {
    /** The hole's full width and height, in the image's local units. */
    var EllipseSize: Vector2

    constructor ()
      ensures EllipseSize == Zero2
    {
      EllipseSize := Zero2;
    }

    /** Half of EllipseSize: the ellipse's half-axes. */
    function HalfSize(): Vector2
      reads this
    {
      Vector2(EllipseSize.x / 2.0, EllipseSize.y / 2.0)
    }

    /**
     * IsPointInsideEllipse: a hole with a non-positive half-axis contains nothing; otherwise the point
     * is inside when its coordinates, each divided by the half-axis, have a squared length of at most 1.
     * The centre of a hole with a positive size is always inside.
     */
    function IsPointInsideEllipse(localPoint: Vector2): (inside: bool)
      reads this
      ensures EllipseSize.x <= 0.0 || EllipseSize.y <= 0.0 ==> !inside
      ensures EllipseSize.x > 0.0 && EllipseSize.y > 0.0 && localPoint == Zero2 ==> inside
    {
      var halfSize := HalfSize();
      if halfSize.x <= 0.0 || halfSize.y <= 0.0 then false
      else
        var normX := localPoint.x / halfSize.x;
        var normY := localPoint.y / halfSize.y;
        normX * normX + normY * normY <= 1.0
    }
  }

  /** A number within [-1, 1] has a square of at most 1. */
  lemma SquareAtMostOne(n: real)
    requires -1.0 <= n <= 1.0
    ensures n * n <= 1.0
  {
    if n >= 0.0 {
      assert n * n <= n * 1.0;
    } else {
      assert n * n <= (-n) * 1.0;
    }
  }

  /** A number beyond [-1, 1] has a square above 1. */
  lemma SquareAboveOne(n: real)
    requires n > 1.0 || n < -1.0
    ensures n * n > 1.0
  {
    if n > 1.0 {
      assert n * n > n * 1.0;
    } else {
      assert n * n > (-n) * 1.0;
    }
  }

  /** A coordinate within its half-axis normalises into [-1, 1]; one beyond it, out of it. */
  lemma NormaliseWithin(a: real, h: real)
    requires h > 0.0
    ensures -h <= a <= h <==> -1.0 <= a / h <= 1.0
  {
    assert (a / h) * h == a;
    if a / h > 1.0 {
      assert (a / h) * h > 1.0 * h;
    } else if a / h < -1.0 {
      assert (a / h) * h < -1.0 * h;
    }
  }

  /** On a point's own axis the test reduces to the coordinate's distance from the centre. */
  lemma OnAxis(a: real, ha: real, hb: real)
    requires ha > 0.0 && hb > 0.0
    ensures (a / ha) * (a / ha) + (0.0 / hb) * (0.0 / hb) <= 1.0 <==> Abs(a) <= ha
  {
    NormaliseWithin(a, ha);
    if Abs(a) <= ha {
      SquareAtMostOne(a / ha);
    } else {
      SquareAboveOne(a / ha);
    }
  }

  /** A coordinate beyond its half-axis puts the point outside, whatever the other coordinate. */
  lemma OutsideBeyondAxis(a: real, b: real, ha: real, hb: real)
    requires ha > 0.0 && hb > 0.0 && Abs(a) > ha
    ensures (a / ha) * (a / ha) + (b / hb) * (b / hb) > 1.0
  {
    NormaliseWithin(a, ha);
    SquareAboveOne(a / ha);
    assert (b / hb) * (b / hb) >= 0.0;
  }

  /** Scaling normalised coordinates by a factor in [0, 1] keeps their squared length within 1. */
  lemma ShrinkNormalised(nx: real, ny: real, t: real)
    requires nx * nx + ny * ny <= 1.0 && 0.0 <= t <= 1.0
    ensures (t * nx) * (t * nx) + (t * ny) * (t * ny) <= 1.0
  {
    assert (t * nx) * (t * nx) + (t * ny) * (t * ny) == (t * t) * (nx * nx + ny * ny);
    assert t * t <= t * 1.0;
    assert nx * nx + ny * ny >= 0.0;
    MulNonNegative(1.0 - t * t, nx * nx + ny * ny);
  }

  /** Every point inside lies within the ellipse's bounding box. */
  lemma {:induction false} InsideWithinBounds(m: HoleModel, p: Vector2)
    requires m.IsPointInsideEllipse(p)
    ensures Abs(p.x) <= m.HalfSize().x && Abs(p.y) <= m.HalfSize().y
  {
    if Abs(p.x) > m.HalfSize().x {
      OutsideBeyondAxis(p.x, p.y, m.HalfSize().x, m.HalfSize().y);
    }
    if Abs(p.y) > m.HalfSize().y {
      OutsideBeyondAxis(p.y, p.x, m.HalfSize().y, m.HalfSize().x);
    }
  }

  /**
   * On either axis of a hole with a positive size, a point is inside exactly when it lies within
   * that axis's half-size of the centre: the hole's extent is its EllipseSize.
   */
  lemma {:induction false} InsideOnAxes(m: HoleModel, a: real)
    requires m.EllipseSize.x > 0.0 && m.EllipseSize.y > 0.0
    ensures m.IsPointInsideEllipse(Vector2(a, 0.0)) <==> Abs(a) <= m.EllipseSize.x / 2.0
    ensures m.IsPointInsideEllipse(Vector2(0.0, a)) <==> Abs(a) <= m.EllipseSize.y / 2.0
  {
    var h := m.HalfSize();
    OnAxis(a, h.x, h.y);
    OnAxis(a, h.y, h.x);
    assert (0.0 / h.x) * (0.0 / h.x) + (a / h.y) * (a / h.y) == (a / h.y) * (a / h.y) + (0.0 / h.x) * (0.0 / h.x);
  }

  /** Moving a point inside straight towards the centre keeps it inside. */
  lemma {:induction false} InsideTowardsCentre(m: HoleModel, p: Vector2, t: real)
    requires m.IsPointInsideEllipse(p) && 0.0 <= t <= 1.0
    ensures m.IsPointInsideEllipse(Vector2(t * p.x, t * p.y))
  {
    var h := m.HalfSize();
    ShrinkNormalised(p.x / h.x, p.y / h.y, t);
    assert (t * p.x) / h.x == t * (p.x / h.x);
    assert (t * p.y) / h.y == t * (p.y / h.y);
  }

  /** Mirroring a point in either axis does not change whether it is inside. */
  lemma {:induction false} InsideSymmetric(m: HoleModel, p: Vector2)
    ensures m.IsPointInsideEllipse(Vector2(-p.x, p.y)) == m.IsPointInsideEllipse(p)
    ensures m.IsPointInsideEllipse(Vector2(p.x, -p.y)) == m.IsPointInsideEllipse(p)
  {
    var h := m.HalfSize();
    if h.x > 0.0 && h.y > 0.0 {
      assert (-p.x) / h.x == -(p.x / h.x);
      assert (-p.y) / h.y == -(p.y / h.y);
    }
  }
}
