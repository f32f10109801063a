/** The analytic area integrator: the area of the intersection of the unit
    circle with an axis-aligned rectangle in its first quadrant, and the
    per-pixel coverage of a circle of any radius built on it. */
module Coverage {
  import opened FloatMath

  function Min(a: real, b: real): real {
    if a < b then a else b
  }

  /** `circle(x) = sqrtf(1 - x*x)`: the height of the unit circle above `x`. */
  function Circle(m: Libm, x: real): (c: real)
    ensures Sound(m) && x * x <= 1.0 ==> 0.0 <= c && x * x + c * c == 1.0
  {
    Sqrt(m, 1.0 - x * x)
  }

  /** `int_circle(x)`: the antiderivative of `circle`,
      `0.5 * (sqrt(1 - x*x) * x + asin(x))`. */
  function IntCircle(m: Libm, x: real): real {
    0.5 * (Sqrt(m, 1.0 - x * x) * x + Asin(m, x))
  }

  /** `rounded_corner_area(x, y, w, h)`: the area of the rectangle
      [x, x+w] x [y, y+h] that lies inside the unit circle. Its two early exits
      are exact: a rectangle whose near corner is outside the circle has no
      area inside it, and (with a sound square root) a rectangle of the first
      quadrant whose far corner is inside the circle lies wholly inside it. */
  function RoundedCornerArea(m: Libm, x: real, y: real, w: real, h: real): (area: real)
    ensures x * x + y * y >= 1.0 ==> area == 0.0
    ensures (Sound(m) && 0.0 <= x && 0.0 <= y && 0.0 <= w && 0.0 <= h
             && (x + w) * (x + w) + (y + h) * (y + h) <= 1.0) ==> area == w * h
  {
    FarCornerInside(m, x, y, w, h);
    if x * x + y * y >= 1.0 then 0.0
    else
      var x1 := Min(x + w, 1.0);
      var y1 := Min(y + h, 1.0);
      var cy1 := Circle(m, y1);
      if cy1 >= x1 then w * h
      else
        // the strip [x, cy1] lies under the arc for the full height h
        var strip := if cy1 > x then (cy1 - x) * h else 0.0;
        var x' := if cy1 > x then cy1 else x;
        // the rest is integrated up to where the arc drops below y
        var cy := Circle(m, y);
        var x1' := if cy < x1 then cy else x1;
        strip + (IntCircle(m, x1') - IntCircle(m, x') - (x1' - x') * y)
  }

  /** The covered fraction of the rectangle: its area inside the unit
      circle divided by its own area `w*h`. */
  function CoveredFraction(m: Libm, x: real, y: real, w: real, h: real): real
    requires w != 0.0 && h != 0.0
  {
    NonZeroProduct(w, h);
    RoundedCornerArea(m, x, y, w, h) / (w * h)
  }

  /** A rectangle whose near corner is outside the unit circle is not
      covered at all. */
  lemma FractionOutside(m: Libm, x: real, y: real, w: real, h: real)
    requires w != 0.0 && h != 0.0
    requires x * x + y * y >= 1.0
    ensures CoveredFraction(m, x, y, w, h) == 0.0
  {
  }

  /** With a sound square root, a rectangle of the first quadrant whose far
      corner is inside the unit circle is fully covered. */
  lemma FractionInside(m: Libm, x: real, y: real, w: real, h: real)
    requires Sound(m) && 0.0 <= x && 0.0 <= y && 0.0 < w && 0.0 < h
    requires (x + w) * (x + w) + (y + h) * (y + h) <= 1.0
    ensures CoveredFraction(m, x, y, w, h) == 1.0
  {
    NonZeroProduct(w, h);
    SelfQuotient(RoundedCornerArea(m, x, y, w, h), w * h);
  }

  /** `rounded_corner(radius, x, y, w, h)`: the integrator scaled to a circle
      of the given radius (every length divided by `radius`) and normalised by
      the scaled rectangle's area. */
  function RoundedCorner(m: Libm, radius: real, x: real, y: real, w: real, h: real): real
    requires radius != 0.0 && w != 0.0 && h != 0.0
  {
    ScaledRectangle(radius, x, y, w, h);
    CoveredFraction(m, x / radius, y / radius, w / radius, h / radius)
  }

  /** The point (x, y) lies on or inside the circle of `radius` centred on
      the origin. */
  predicate WithinCircle(radius: real, x: real, y: real)
    requires radius != 0.0
  {
    (x / radius) * (x / radius) + (y / radius) * (y / radius) <= 1.0
  }

  /** The point (x, y) lies on or outside the circle of `radius` centred on
      the origin. */
  predicate BeyondCircle(radius: real, x: real, y: real)
    requires radius != 0.0
  {
    (x / radius) * (x / radius) + (y / radius) * (y / radius) >= 1.0
  }

  /** A rectangle whose near corner is outside the circle of `radius` has
      coverage 0. */
  lemma CoverageOutside(m: Libm, radius: real, x: real, y: real, w: real, h: real)
    requires radius != 0.0 && w != 0.0 && h != 0.0
    requires BeyondCircle(radius, x, y)
    ensures RoundedCorner(m, radius, x, y, w, h) == 0.0
  {
    ScaledRectangle(radius, x, y, w, h);
    FractionOutside(m, x / radius, y / radius, w / radius, h / radius);
  }

  /** With a sound square root, a rectangle of the first quadrant whose far
      corner is inside the circle of `radius` has coverage 1. */
  lemma CoverageInside(m: Libm, radius: real, x: real, y: real, w: real, h: real)
    requires Sound(m)
    requires 0.0 < radius && 0.0 <= x && 0.0 <= y && 0.0 < w && 0.0 < h
    requires WithinCircle(radius, x + w, y + h)
    ensures RoundedCorner(m, radius, x, y, w, h) == 1.0
  {
    ScaledRectangle(radius, x, y, w, h);
    FractionInside(m, x / radius, y / radius, w / radius, h / radius);
  }

  /** Dividing a rectangle by a radius keeps non-zero extents non-zero; for a
      positive radius it keeps a rectangle of the first quadrant there and
      moves its far corner to `((x+w)/radius, (y+h)/radius)`. */
  lemma ScaledRectangle(radius: real, x: real, y: real, w: real, h: real)
    requires radius != 0.0
    ensures w != 0.0 ==> w / radius != 0.0
    ensures h != 0.0 ==> h / radius != 0.0
    ensures x / radius + w / radius == (x + w) / radius
    ensures y / radius + h / radius == (y + h) / radius
    ensures 0.0 < radius && 0.0 <= x && 0.0 <= y && 0.0 < w && 0.0 < h ==>
      0.0 <= x / radius && 0.0 <= y / radius && 0.0 < w / radius && 0.0 < h / radius
  {
  }

  /** Coverage of the unit pixel cell (x, y) by the circle of `radius`
      centred on the origin, as the mask writers call `rounded_corner` (with
      the default `w = h = 1`). */
  function PixelCoverage(m: Libm, radius: nat, x: nat, y: nat): real
    requires 0 < radius
  {
    RoundedCorner(m, radius as real, x as real, y as real, 1.0, 1.0)
  }

  lemma SelfQuotient(a: real, b: real)
    requires b != 0.0 && a == b
    ensures a / b == 1.0
  {
  }

  lemma NonZeroProduct(a: real, b: real)
    requires a != 0.0 && b != 0.0
    ensures a * b != 0.0
  {
  }

  /** With a sound square root, the far-corner test of `rounded_corner_area`
      succeeds for every rectangle of the first quadrant whose far corner lies
      inside the circle, and the near-corner exit can then only be taken by a
      rectangle of zero width. */
  lemma {:induction false} FarCornerInside(m: Libm, x: real, y: real, w: real, h: real)
    ensures (Sound(m) && 0.0 <= x && 0.0 <= y && 0.0 <= w && 0.0 <= h
             && (x + w) * (x + w) + (y + h) * (y + h) <= 1.0) ==>
            && Circle(m, Min(y + h, 1.0)) >= Min(x + w, 1.0)
            && (x * x + y * y >= 1.0 ==> w == 0.0)
  {
    if Sound(m) && 0.0 <= x && 0.0 <= y && 0.0 <= w && 0.0 <= h
      && (x + w) * (x + w) + (y + h) * (y + h) <= 1.0
    {
      var x1, y1 := x + w, y + h;
      if x * x + y * y >= 1.0 {
        Collapsed(x, y, w, h);
      }
      AtMostOne(x1, y1 * y1);
      AtMostOne(y1, x1 * x1);
      assert Min(x + w, 1.0) == x1 && Min(y + h, 1.0) == y1;
      CircleAbove(m, x1, y1);
    }
  }

  /** With a sound square root, `circle(y) >= x` holds for every point (x, y)
      of the first quadrant inside the circle. */
  lemma CircleAbove(m: Libm, x: real, y: real)
    requires Sound(m)
    requires 0.0 <= x && x * x + y * y <= 1.0
    ensures x <= Circle(m, y)
  {
    SqrtAtLeast(m, 1.0 - y * y, x);
  }

  lemma Collapsed(x: real, y: real, w: real, h: real)
    requires 0.0 <= x && 0.0 <= y && 0.0 <= w && 0.0 <= h
    requires (x + w) * (x + w) + (y + h) * (y + h) <= 1.0 <= x * x + y * y
    ensures w == 0.0
  {
    SquareGrows(x, w);
    SquareGrows(y, h);
    assert (x + w) * (x + w) == x * x;
  }

  lemma SquareGrows(a: real, d: real)
    requires 0.0 <= a && 0.0 <= d
    ensures a * a <= (a + d) * (a + d)
    ensures (a + d) * (a + d) == a * a ==> d == 0.0
  {
    assert (a + d) * (a + d) == a * a + 2.0 * a * d + d * d;
    assert 0.0 <= a * d;
    if d != 0.0 {
      assert 0.0 < d * d;
    }
  }

  lemma AtMostOne(a: real, rest: real)
    requires 0.0 <= a && 0.0 <= rest && a * a + rest <= 1.0
    ensures a <= 1.0
  {
  }
}
