/** The soft corner: a padded binary footprint whose `radius`-by-`radius`
    corner block is replaced by the anti-aliased corner coverage, then
    blurred with the Gaussian kernel of the padding width. */
module BlurredCorner {
  import opened Bytes
  import opened FloatMath
  import opened Coverage
  import opened Masks
  import opened Gaussian
  import opened Blur
  import opened Textures
  import Grid
  import Raster

  /** `size = radius + blur_radius * 2`. */
  function Side(radius: nat, blurRadius: nat): nat {
    radius + blurRadius * 2
  }

  /** Step 1: pixel (x, y) is 255 when `x - blur_radius < radius` and
      `y - blur_radius < radius`, else 0. */
  function FootprintValue(radius: nat, blurRadius: nat, x: nat, y: nat): byte {
    if x - blurRadius < radius && y - blurRadius < radius then 255 else 0
  }

  /** The footprint as the pixel function handed to the fill. */
  function FootprintPixels(radius: nat, blurRadius: nat): (nat, nat) -> byte {
    (x: nat, y: nat) => FootprintValue(radius, blurRadius, x, y)
  }

  /** Whether pixel (x, y) of the padded buffer has been overwritten once the
      corner loop has done block rows `0 .. rows - 1` and the first `cols`
      pixels of block row `rows`. */
  predicate Written(radius: nat, blurRadius: nat, x: nat, y: nat, rows: nat, cols: nat) {
    && blurRadius <= x < blurRadius + radius
    && blurRadius <= y < blurRadius + radius
    && (y - blurRadius < rows || (y - blurRadius == rows && x - blurRadius < cols))
  }

  /** The block's pixel function is defined on the whole `radius`-by-`radius`
      block. */
  ghost predicate BlockDefined(block: (nat, nat) --> byte, radius: nat) {
    forall x: nat, y: nat :: x < radius && y < radius ==> block.requires(x, y)
  }

  /** Pixel (x, y) part way through step 2: the block pixel where it has
      been written, the footprint elsewhere. */
  function StampedValue(block: (nat, nat) --> byte, radius: nat, blurRadius: nat, x: nat, y: nat, rows: nat, cols: nat): byte
    requires BlockDefined(block, radius)
  {
    if Written(radius, blurRadius, x, y, rows, cols)
    then block(x - blurRadius, y - blurRadius)
    else FootprintValue(radius, blurRadius, x, y)
  }

  /** The whole padded buffer part way through step 2. */
  function Stamped(block: (nat, nat) --> byte, radius: nat, blurRadius: nat, rows: nat, cols: nat): seq<byte>
    requires BlockDefined(block, radius)
  {
    var size := Side(radius, blurRadius);
    seq(size * size, i requires 0 <= i < size * size =>
      Grid.DecodeInBounds(size, size, i);
      StampedValue(block, radius, blurRadius, i % size, i / size, rows, cols))
  }

  /** The corner pixels are defined on the whole block. */
  lemma CornerBlockDefined(m: Libm, radius: nat)
    requires CornerQuantizable(m, radius)
    ensures BlockDefined(CornerPixels(m, radius), radius)
  {
  }

  /** The buffer handed to the blur: the footprint with the whole corner
      block overwritten by the corner mask's pixels. */
  function PaddedCorner(m: Libm, radius: nat, blurRadius: nat): seq<byte>
    requires CornerQuantizable(m, radius)
  {
    CornerBlockDefined(m, radius);
    Stamped(CornerPixels(m, radius), radius, blurRadius, radius, 0)
  }

  /** What `create_blurred_corner_texture(radius, blur_radius)` returns. */
  function BlurredCorner(m: Libm, radius: nat, blurRadius: nat): Texture
    requires Sound(m) && 0 < blurRadius && CornerQuantizable(m, radius)
  {
    var size := Side(radius, blurRadius);
    KernelNonNegative(m, blurRadius);
    Texture(size, size, 1, Blurred(GaussianKernel(m, blurRadius), PaddedCorner(m, radius, blurRadius), size, size))
  }

  /** `create_blurred_corner_texture(radius, blur_radius)`: fills the padded
      footprint, overwrites the corner block with quantized coverage, blurs
      the whole buffer with `create_gaussian_kernel(blur_radius)` and hands
      it to the texture sink. */
  method CreateBlurredCornerTexture(m: Libm, radius: nat, blurRadius: nat) returns (tex: Texture)
    requires Sound(m) && 0 < blurRadius && CornerQuantizable(m, radius)
    ensures tex == BlurredCorner(m, radius, blurRadius)
  {
    var size := radius + blurRadius * 2;
    var buffer := Raster.Rasterize(size, FootprintPixels(radius, blurRadius));
    ghost var block := CornerPixels(m, radius);
    CornerBlockDefined(m, radius);
    FootprintIsUnstamped(block, radius, blurRadius);
    for y := 0 to radius
      invariant buffer[..] == Stamped(block, radius, blurRadius, y, 0)
    {
      for x := 0 to radius
        invariant buffer[..] == Stamped(block, radius, blurRadius, y, x)
      {
        var i := (y + blurRadius) * size + (x + blurRadius);
        Grid.IndexInBounds(size, size, x + blurRadius, y + blurRadius);
        StampNext(block, radius, blurRadius, y, x);
        buffer[i] := Quantize(PixelCoverage(m, radius, x, y));
      }
      StampRowDone(block, radius, blurRadius, y);
    }
    var kernel := CreateGaussianKernel(m, blurRadius);
    KernelNonNegative(m, blurRadius);
    Blur.Blur(kernel, buffer, size, size);
    tex := CreateFromData(size, size, 1, buffer[..]);
  }

  lemma KernelNonNegative(m: Libm, blurRadius: nat)
    requires Sound(m) && 0 < blurRadius
    ensures NonNegative(GaussianKernel(m, blurRadius))
  {
    forall k | 0 <= k < |GaussianKernel(m, blurRadius)|
      ensures 0.0 <= GaussianKernel(m, blurRadius)[k]
    {
      KernelPositive(m, blurRadius, k);
    }
  }

  /** Pixel (x, y) of the buffer part way through step 2. */
  lemma StampedAt(block: (nat, nat) --> byte, radius: nat, blurRadius: nat, rows: nat, cols: nat, x: nat, y: nat)
    requires BlockDefined(block, radius)
    requires x < Side(radius, blurRadius) && y < Side(radius, blurRadius)
    ensures |Stamped(block, radius, blurRadius, rows, cols)| == Side(radius, blurRadius) * Side(radius, blurRadius)
    ensures Grid.Get(Stamped(block, radius, blurRadius, rows, cols), Side(radius, blurRadius), Side(radius, blurRadius), x, y)
         == StampedValue(block, radius, blurRadius, x, y, rows, cols)
  {
    var size := Side(radius, blurRadius);
    Grid.IndexDecode(size, x, y);
    Grid.IndexInBounds(size, size, x, y);
    StampedIndex(block, radius, blurRadius, rows, cols, y * size + x);
  }

  lemma StampedIndex(block: (nat, nat) --> byte, radius: nat, blurRadius: nat, rows: nat, cols: nat, i: nat)
    requires BlockDefined(block, radius)
    requires i < Side(radius, blurRadius) * Side(radius, blurRadius)
    ensures i % Side(radius, blurRadius) < Side(radius, blurRadius)
    ensures Stamped(block, radius, blurRadius, rows, cols)[i]
         == StampedValue(block, radius, blurRadius, i % Side(radius, blurRadius), i / Side(radius, blurRadius), rows, cols)
  {
    Grid.DecodeInBounds(Side(radius, blurRadius), Side(radius, blurRadius), i);
  }

  /** After step 1 pixel (x, y) of the `size*size` buffer is 255 exactly when
      `x - blur_radius < radius` and `y - blur_radius < radius`, else 0. */
  lemma FootprintAt(radius: nat, blurRadius: nat, x: nat, y: nat)
    requires x < Side(radius, blurRadius) && y < Side(radius, blurRadius)
    ensures |Raster.Image(Side(radius, blurRadius), FootprintPixels(radius, blurRadius))|
         == Side(radius, blurRadius) * Side(radius, blurRadius)
    ensures Grid.Get(Raster.Image(Side(radius, blurRadius), FootprintPixels(radius, blurRadius)),
                     Side(radius, blurRadius), Side(radius, blurRadius), x, y) == 255
         <==> x - blurRadius < radius && y - blurRadius < radius
    ensures Grid.Get(Raster.Image(Side(radius, blurRadius), FootprintPixels(radius, blurRadius)),
                     Side(radius, blurRadius), Side(radius, blurRadius), x, y) != 255
         ==> Grid.Get(Raster.Image(Side(radius, blurRadius), FootprintPixels(radius, blurRadius)),
                      Side(radius, blurRadius), Side(radius, blurRadius), x, y) == 0
  {
    Raster.ImageAt(Side(radius, blurRadius), FootprintPixels(radius, blurRadius), x, y);
  }

  /** Before step 2 nothing is written: the filled footprint is the buffer
      with no block pixel stamped. */
  lemma FootprintIsUnstamped(block: (nat, nat) --> byte, radius: nat, blurRadius: nat)
    requires BlockDefined(block, radius)
    ensures Raster.Image(Side(radius, blurRadius), FootprintPixels(radius, blurRadius))
         == Stamped(block, radius, blurRadius, 0, 0)
  {
    var size := Side(radius, blurRadius);
    forall i | 0 <= i < size * size
      ensures Raster.Image(size, FootprintPixels(radius, blurRadius))[i] == Stamped(block, radius, blurRadius, 0, 0)[i]
    {
      Grid.DecodeInBounds(size, size, i);
    }
  }

  /** Writing block pixel (x, y) advances the stamp by one pixel. */
  lemma StampNext(block: (nat, nat) --> byte, radius: nat, blurRadius: nat, y: nat, x: nat)
    requires BlockDefined(block, radius) && x < radius && y < radius
    ensures (y + blurRadius) * Side(radius, blurRadius) + (x + blurRadius) < |Stamped(block, radius, blurRadius, y, x)|
    ensures Stamped(block, radius, blurRadius, y, x + 1)
         == Stamped(block, radius, blurRadius, y, x)[(y + blurRadius) * Side(radius, blurRadius) + (x + blurRadius)
                                                      := block(x, y)]
  {
    var size := Side(radius, blurRadius);
    var px, py := x + blurRadius, y + blurRadius;
    var j := py * size + px;
    Grid.IndexInBounds(size, size, px, py);
    Grid.IndexDecode(size, px, py);
    var before := Stamped(block, radius, blurRadius, y, x);
    var after := Stamped(block, radius, blurRadius, y, x + 1);
    var updated := before[j := block(x, y)];
    forall i | 0 <= i < size * size
      ensures after[i] == updated[i]
    {
      Grid.DecodeInBounds(size, size, i);
      if i != j {
        assert (i % size, i / size) != (px, py);
      }
    }
  }

  /** A finished block row is the same stamp as the start of the next one. */
  lemma StampRowDone(block: (nat, nat) --> byte, radius: nat, blurRadius: nat, y: nat)
    requires BlockDefined(block, radius)
    ensures Stamped(block, radius, blurRadius, y, radius) == Stamped(block, radius, blurRadius, y + 1, 0)
  {
    var size := Side(radius, blurRadius);
    forall i | 0 <= i < size * size
      ensures Stamped(block, radius, blurRadius, y, radius)[i] == Stamped(block, radius, blurRadius, y + 1, 0)[i]
    {
      Grid.DecodeInBounds(size, size, i);
    }
  }

  /** Before the blur, pixel (x, y) of the padded buffer is the corner pixel
      `(x - blur_radius, y - blur_radius)` inside the corner block and the
      binary footprint outside it. */
  lemma PaddedAt(m: Libm, radius: nat, blurRadius: nat, x: nat, y: nat)
    requires CornerQuantizable(m, radius)
    requires x < Side(radius, blurRadius) && y < Side(radius, blurRadius)
    ensures |PaddedCorner(m, radius, blurRadius)| == Side(radius, blurRadius) * Side(radius, blurRadius)
    ensures blurRadius <= x < blurRadius + radius && blurRadius <= y < blurRadius + radius ==>
      Grid.Get(PaddedCorner(m, radius, blurRadius), Side(radius, blurRadius), Side(radius, blurRadius), x, y)
      == CornerPixel(m, radius, x - blurRadius, y - blurRadius)
    ensures !(blurRadius <= x < blurRadius + radius && blurRadius <= y < blurRadius + radius) ==>
      Grid.Get(PaddedCorner(m, radius, blurRadius), Side(radius, blurRadius), Side(radius, blurRadius), x, y)
      == (if x - blurRadius < radius && y - blurRadius < radius then 255 else 0)
  {
    CornerBlockDefined(m, radius);
    StampedAt(CornerPixels(m, radius), radius, blurRadius, radius, 0, x, y);
  }

  /** The corner block sits inside the 255 part of the footprint, and it holds
      exactly the bytes of the rounded-corner mask of the same radius. */
  lemma BlockIsCornerMask(m: Libm, radius: nat, blurRadius: nat, x: nat, y: nat)
    requires CornerQuantizable(m, radius)
    requires x < radius && y < radius
    ensures FootprintValue(radius, blurRadius, x + blurRadius, y + blurRadius) == 255
    ensures (y + blurRadius) * Side(radius, blurRadius) + (x + blurRadius)
            < Side(radius, blurRadius) * Side(radius, blurRadius)
    ensures Grid.Get(PaddedCorner(m, radius, blurRadius), Side(radius, blurRadius), Side(radius, blurRadius),
                     x + blurRadius, y + blurRadius)
         == Grid.Get(CornerMask(m, radius), radius, radius, x, y)
  {
    Grid.IndexInBounds(Side(radius, blurRadius), Side(radius, blurRadius), x + blurRadius, y + blurRadius);
    PaddedAt(m, radius, blurRadius, x + blurRadius, y + blurRadius);
    CornerMaskAt(m, radius, x, y);
  }

  /** With `blur_radius == 1` the conversion `(unsigned char)(sum + .5f)` at
      the first sample of the horizontal pass is undefined: pixel (0, 0) of
      the padded buffer is 255 and the centre tap alone exceeds 1.1, so the
      accumulated sum exceeds 280. The saturated sample gives 255 there. */
  lemma RadiusOneOverflows(m: Libm, radius: nat)
    requires Sound(m) && CornerQuantizable(m, radius)
    ensures NonNegative(GaussianKernel(m, 1))
    ensures !Narrowable(LineSum(GaussianKernel(m, 1), Row(PaddedCorner(m, radius, 1), radius + 2, radius + 2, 0), 0, 3) + 0.5)
    ensures HorizontalSample(GaussianKernel(m, 1), PaddedCorner(m, radius, 1), radius + 2, radius + 2, 0, 0) == 255
  {
    var kernel := GaussianKernel(m, 1);
    var size := Side(radius, 1);
    KernelNonNegative(m, 1);
    PaddedAt(m, radius, 1, 0, 0);
    var row := Row(PaddedCorner(m, radius, 1), size, size, 0);
    assert row[0] == 255;
    CentreTap(m, 1);
    RadiusOneFactor(m);
    HeavyCentreOverflows(kernel, row);
  }

  /** A three-tap kernel whose centre tap exceeds 1.1, applied at the first
      sample of a line that starts with 255, accumulates more than 280. */
  lemma HeavyCentreOverflows(kernel: seq<real>, line: seq<byte>)
    requires |kernel| == 3 && NonNegative(kernel) && 1.1 < kernel[1]
    requires 2 <= |line| && line[0] == 255
    ensures !Narrowable(LineSum(kernel, line, 0, 3) + 0.5)
    ensures LineSample(kernel, line, 0) == 255
  {
    assert Center(kernel) == 1;
    LineSumNext(kernel, line, 0, 0, line[0]);
    LineSumNext(kernel, line, 0, 1, line[0]);
    LineSumNext(kernel, line, 0, 2, line[1]);
    ScaleBound(line[0] as real, kernel[0]);
    ScaleBound(line[1] as real, kernel[2]);
    assert line[0] as real * kernel[1] > 280.0;
  }
}
