/** The rounded-corner and rounded-border mask writers: one quantized coverage
    byte per pixel of a `radius`-by-`radius` buffer. */
module Masks {
  import opened Bytes
  import opened FloatMath
  import opened Coverage
  import opened Textures
  import Grid
  import Raster

  /** The corner mask's bytes are defined: every pixel's `coverage*255 + 0.5`
      can be narrowed to `unsigned char`. */
  ghost predicate CornerQuantizable(m: Libm, radius: nat) {
    forall x: nat, y: nat :: x < radius && y < radius ==> Narrowable(PixelCoverage(m, radius, x, y) * 255.0 + 0.5)
  }

  /** Byte written for pixel (x, y) of the corner mask. */
  function CornerPixel(m: Libm, radius: nat, x: nat, y: nat): byte
    requires 0 < radius && Narrowable(PixelCoverage(m, radius, x, y) * 255.0 + 0.5)
  {
    Quantize(PixelCoverage(m, radius, x, y))
  }

  /** The corner pixel function handed to the fill. */
  function CornerPixels(m: Libm, radius: nat): (nat, nat) --> byte {
    (x: nat, y: nat) requires x < radius && y < radius && CornerQuantizable(m, radius) =>
      CornerPixel(m, radius, x, y)
  }

  /** The whole corner mask, row-major. */
  function CornerMask(m: Libm, radius: nat): seq<byte>
    requires CornerQuantizable(m, radius)
  {
    Raster.Image(radius, CornerPixels(m, radius))
  }

  /** The corner mask has `radius*radius` bytes and pixel (x, y) is stored at
      `y*radius + x`. */
  lemma CornerMaskAt(m: Libm, radius: nat, x: nat, y: nat)
    requires CornerQuantizable(m, radius)
    requires x < radius && y < radius
    ensures |CornerMask(m, radius)| == radius * radius
    ensures Grid.Get(CornerMask(m, radius), radius, radius, x, y) == CornerPixel(m, radius, x, y)
  {
    Raster.ImageAt(radius, CornerPixels(m, radius), x, y);
  }

  /** `create_rounded_corner_texture(radius)`: fills a `radius*radius` buffer
      row by row with the quantized coverage of each pixel and hands it to the
      texture sink as a one-channel `radius`-by-`radius` image. */
  method CreateRoundedCornerTexture(m: Libm, radius: nat) returns (tex: Texture)
    requires CornerQuantizable(m, radius)
    ensures tex.width == radius && tex.height == radius && tex.channels == 1
    ensures tex.data == CornerMask(m, radius)
  {
    var data := Raster.Rasterize(radius, CornerPixels(m, radius));
    tex := CreateFromData(radius, radius, 1, data[..]);
  }

  /** Coverage of pixel (x, y) by the ring between the circles of `radius`
      and `radius - width`: the difference of the two corner coverages. */
  function BorderCoverage(m: Libm, radius: nat, width: int, x: nat, y: nat): real
    requires 0 < radius && radius - width != 0
  {
    PixelCoverage(m, radius, x, y) - RoundedCorner(m, (radius - width) as real, x as real, y as real, 1.0, 1.0)
  }

  /** The border mask's bytes are defined. */
  ghost predicate BorderQuantizable(m: Libm, radius: nat, width: int) {
    && radius - width != 0
    && forall x: nat, y: nat :: x < radius && y < radius ==> Narrowable(BorderCoverage(m, radius, width, x, y) * 255.0 + 0.5)
  }

  /** Byte written for pixel (x, y) of the border mask. */
  function BorderPixel(m: Libm, radius: nat, width: int, x: nat, y: nat): byte
    requires 0 < radius && radius - width != 0
    requires Narrowable(BorderCoverage(m, radius, width, x, y) * 255.0 + 0.5)
  {
    Quantize(BorderCoverage(m, radius, width, x, y))
  }

  /** The border pixel function handed to the fill. */
  function BorderPixels(m: Libm, radius: nat, width: int): (nat, nat) --> byte {
    (x: nat, y: nat) requires x < radius && y < radius && BorderQuantizable(m, radius, width) =>
      BorderPixel(m, radius, width, x, y)
  }

  /** The whole border mask, row-major. */
  function BorderMask(m: Libm, radius: nat, width: int): seq<byte>
    requires BorderQuantizable(m, radius, width)
  {
    Raster.Image(radius, BorderPixels(m, radius, width))
  }

  /** The border mask has `radius*radius` bytes and pixel (x, y) is stored at
      `y*radius + x`. */
  lemma BorderMaskAt(m: Libm, radius: nat, width: int, x: nat, y: nat)
    requires BorderQuantizable(m, radius, width)
    requires x < radius && y < radius
    ensures |BorderMask(m, radius, width)| == radius * radius
    ensures Grid.Get(BorderMask(m, radius, width), radius, radius, x, y) == BorderPixel(m, radius, width, x, y)
  {
    Raster.ImageAt(radius, BorderPixels(m, radius, width), x, y);
  }

  /** `create_rounded_border_texture(radius, width)`: like the corner mask,
      but each pixel holds the quantized difference between the coverage of
      the outer circle and that of the inner circle of `radius - width`. */
  method CreateRoundedBorderTexture(m: Libm, radius: nat, width: int) returns (tex: Texture)
    requires BorderQuantizable(m, radius, width)
    ensures tex.width == radius && tex.height == radius && tex.channels == 1
    ensures tex.data == BorderMask(m, radius, width)
  {
    var data := Raster.Rasterize(radius, BorderPixels(m, radius, width));
    tex := CreateFromData(radius, radius, 1, data[..]);
  }

  /** A pixel whose near corner (x, y) is outside the circle of `radius` has
      coverage 0 and is written as 0. */
  lemma CornerPixelOutside(m: Libm, radius: nat, x: nat, y: nat)
    requires 0 < radius
    requires BeyondCircle(radius as real, x as real, y as real)
    ensures PixelCoverage(m, radius, x, y) == 0.0
    ensures Narrowable(PixelCoverage(m, radius, x, y) * 255.0 + 0.5) && CornerPixel(m, radius, x, y) == 0
  {
    CoverageOutside(m, radius as real, x as real, y as real, 1.0, 1.0);
    QuantizeExtremes();
  }

  /** With a sound square root, a pixel whose far corner (x+1, y+1) lies
      inside the circle of `radius` is fully covered and is written as 255. */
  lemma CornerPixelInside(m: Libm, radius: nat, x: nat, y: nat)
    requires Sound(m) && 0 < radius
    requires WithinCircle(radius as real, x as real + 1.0, y as real + 1.0)
    ensures PixelCoverage(m, radius, x, y) == 1.0
    ensures Narrowable(PixelCoverage(m, radius, x, y) * 255.0 + 0.5) && CornerPixel(m, radius, x, y) == 255
  {
    CoverageInside(m, radius as real, x as real, y as real, 1.0, 1.0);
    QuantizeExtremes();
  }

  /** A pixel outside both circles has border coverage 0 and is written as 0. */
  lemma BorderPixelOutside(m: Libm, radius: nat, width: int, x: nat, y: nat)
    requires 0 < radius && 0 < radius - width
    requires BeyondCircle(radius as real, x as real, y as real)
    requires BeyondCircle((radius - width) as real, x as real, y as real)
    ensures BorderCoverage(m, radius, width, x, y) == 0.0
    ensures Narrowable(BorderCoverage(m, radius, width, x, y) * 255.0 + 0.5)
    ensures BorderPixel(m, radius, width, x, y) == 0
  {
    CoverageOutside(m, radius as real, x as real, y as real, 1.0, 1.0);
    CoverageOutside(m, (radius - width) as real, x as real, y as real, 1.0, 1.0);
    QuantizeExtremes();
  }

  /** With a sound square root, a pixel wholly inside the inner circle (and
      so inside the outer one) has border coverage 0: the hole of the ring. */
  lemma BorderPixelHole(m: Libm, radius: nat, width: int, x: nat, y: nat)
    requires Sound(m) && 0 < radius && 0 < radius - width
    requires WithinCircle(radius as real, x as real + 1.0, y as real + 1.0)
    requires WithinCircle((radius - width) as real, x as real + 1.0, y as real + 1.0)
    ensures BorderCoverage(m, radius, width, x, y) == 0.0
    ensures Narrowable(BorderCoverage(m, radius, width, x, y) * 255.0 + 0.5)
    ensures BorderPixel(m, radius, width, x, y) == 0
  {
    CoverageInside(m, radius as real, x as real, y as real, 1.0, 1.0);
    CoverageInside(m, (radius - width) as real, x as real, y as real, 1.0, 1.0);
    QuantizeExtremes();
  }

  /** With a sound square root, a pixel inside the outer circle and outside
      the inner one lies on the ring: border coverage 1, written as 255. */
  lemma BorderPixelRing(m: Libm, radius: nat, width: int, x: nat, y: nat)
    requires Sound(m) && 0 < radius && radius - width != 0
    requires WithinCircle(radius as real, x as real + 1.0, y as real + 1.0)
    requires BeyondCircle((radius - width) as real, x as real, y as real)
    ensures BorderCoverage(m, radius, width, x, y) == 1.0
    ensures Narrowable(BorderCoverage(m, radius, width, x, y) * 255.0 + 0.5)
    ensures BorderPixel(m, radius, width, x, y) == 255
  {
    CoverageInside(m, radius as real, x as real, y as real, 1.0, 1.0);
    CoverageOutside(m, (radius - width) as real, x as real, y as real, 1.0, 1.0);
    QuantizeExtremes();
  }

  /** The border mask is the outer corner mask minus the corner mask of the
      inner radius, up to one unit of rounding per pixel. */
  lemma BorderIsCornerDifference(m: Libm, radius: nat, width: int, x: nat, y: nat)
    requires 0 < radius && 0 < radius - width
    requires Narrowable(PixelCoverage(m, radius, x, y) * 255.0 + 0.5)
    requires 0.0 <= PixelCoverage(m, radius, x, y) * 255.0 + 0.5
    requires Narrowable(PixelCoverage(m, radius - width, x, y) * 255.0 + 0.5)
    requires 0.0 <= PixelCoverage(m, radius - width, x, y) * 255.0 + 0.5
    requires Narrowable(BorderCoverage(m, radius, width, x, y) * 255.0 + 0.5)
    requires 0.0 <= BorderCoverage(m, radius, width, x, y) * 255.0 + 0.5
    ensures -1 <= BorderPixel(m, radius, width, x, y) as int
                  - (CornerPixel(m, radius, x, y) as int - CornerPixel(m, radius - width, x, y) as int) <= 1
  {
    QuantizeDifference(PixelCoverage(m, radius, x, y), PixelCoverage(m, radius - width, x, y));
  }
}
