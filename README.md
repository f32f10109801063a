# Rounded-corner, border and soft-shadow masks

A Dafny model of the mask pipeline in `widgets.cpp` of the atmosphere widget
toolkit. The pipeline builds single-channel textures for anti-aliased rounded
corners, rounded borders and blurred corner shadows. It covers these parts:

- **Coverage** (`coverage.dfy`): `circle`, `int_circle`,
  `rounded_corner_area` and `rounded_corner`. This is the analytic area of a
  rectangle inside the unit circle, scaled to a circle of any radius.
- **Masks** (`masks.dfy`, `raster.dfy`): `create_rounded_corner_texture` and
  `create_rounded_border_texture`. Each fills a `radius*radius` row-major
  buffer with one quantised coverage byte per pixel.
- **Gaussian** (`gaussian.dfy`): `create_gaussian_kernel`. The Gaussian
  density with `sigma = radius/3`, sampled at the offsets `-radius .. radius`.
- **Blur** (`blur.dfy`): `blur`. A separable convolution with clamp-to-edge
  taps. Rows go from the buffer into a scratch buffer, then columns go from
  the scratch buffer back into the buffer.
- **BlurredCorner** (`blurred_corner.dfy`): `create_blurred_corner_texture`.
  It fills a padded binary footprint, overwrites the corner block with
  quantised coverage, then blurs the whole buffer.

Supporting modules:

- `bytes.dfy`: the float to `unsigned char` conversion.
- `grid.dfy`: row-major indexing.
- `libm.dfy`: the abstract `sqrtf`, `asinf` and `expf`.
- `texture.dfy`: the texture sink.

The source loops are modelled as methods over `array<byte>` and `array<real>`
buffers. Each method is proved equal to a specification function over
sequences, and the properties are proved about those functions.

`sqrtf`, `asinf` and `expf` are fields of a `Libm` value passed to every
operation. `FloatMath.Sound` lists the only facts the proofs rely on:

- the square root is non-negative;
- the square root squares back on non-negative arguments;
- `exp` is positive;
- `exp(0) == 1`.

`M_PI` is the constant `FloatMath.Pi`.

The float to `unsigned char` conversion is modelled as C++ truncation toward
zero (`Bytes.ToByte`). It is defined only on the open interval (-1, 256);
outside it the conversion is undefined behaviour. The mask writers'
conversions carry that range as a precondition. The blur passes instead
saturate at 255 (`Blur.SaturateSample`; see Findings and Left out).

## Model

| member | source | states |
|---|---|---|
| Coverage.Circle | widgets.cpp:90-92 | `circle(x)` is the height of the unit circle above `x`: with a sound square root and `x*x <= 1`, the result `c` is non-negative and `x*x + c*c == 1`. |
| Coverage.IntCircle | widgets.cpp:93-95 | `int_circle(x)` computes `0.5 * (sqrt(1 - x*x) * x + asin(x))`, the antiderivative of `circle`. It is a definition with no contract of its own, since no value of `asinf` is fixed. |
| Coverage.RoundedCornerArea | widgets.cpp:98-118 | A rectangle whose near corner `(x, y)` has `x²+y² >= 1` has area 0. With a sound square root, a first-quadrant rectangle whose far corner is inside the unit circle has area exactly `w*h`. These are the two early exits. |
| Coverage.FractionOutside | widgets.cpp:99 | The covered fraction `area / (w*h)` is 0 when the near corner is outside the unit circle. |
| Coverage.FractionInside | widgets.cpp:107 | The covered fraction is 1 when the far corner is inside the unit circle. |
| Coverage.RoundedCorner | widgets.cpp:119-123 | `rounded_corner(radius, x, y, w, h)` divides all four lengths by the radius and returns the area inside the unit circle over the scaled `w*h`. It is a definition; `CoverageOutside` and `CoverageInside` state its early exits. |
| Coverage.CoverageOutside | widgets.cpp:119-122 | `rounded_corner` divides x, y, w and h by the radius. A rectangle whose scaled near corner lies outside the unit circle gets coverage 0. |
| Coverage.CoverageInside | widgets.cpp:119-122 | With a positive radius, a first-quadrant rectangle whose scaled far corner lies inside the unit circle gets coverage 1. |
| Bytes.ToByte | widgets.cpp:128 | Narrowing a value in (-1, 256) gives the byte `b` with `b <= v < b + 1` for non-negative `v`, and 0 for negative `v` (truncation toward zero). |
| Bytes.Quantize | widgets.cpp:128 | `value * 255.f + 0.5f` narrowed to a byte. It is a definition; `QuantizeRoundsHalfUp` and `QuantizeExtremes` state what it rounds to. |
| Bytes.QuantizeRoundsHalfUp | widgets.cpp:128 | `c*255 + 0.5` narrowed is within half a step of `c*255`: it rounds half up. |
| Bytes.QuantizeExtremes | widgets.cpp:128 | Full coverage quantises to 255 and zero coverage to 0. |
| Bytes.QuantizeDifference | widgets.cpp:138-139 | Quantising a difference of coverages differs by at most one step from the difference of the quantised values. |
| Raster.ImageAt | widgets.cpp:125-130 | A `size*size` image has `size*size` bytes. Pixel (x, y) is stored at `y*size + x` and holds that pixel's value. |
| Raster.Rasterize | widgets.cpp:125-130 | The nested row-major fill loop writes a fresh buffer equal to the image of the pixel function. |
| Masks.CornerMaskAt | widgets.cpp:125-130 | The corner mask has `radius*radius` bytes. Pixel (x, y) at `y*radius + x` is the quantised `rounded_corner(radius, x, y)`. |
| Masks.CreateRoundedCornerTexture | widgets.cpp:124-132 | The texture is `radius` by `radius` with one channel, and its data is the corner mask. |
| Masks.CornerPixelOutside | widgets.cpp:128 | A pixel whose near corner is outside the circle of `radius` has coverage 0 and byte 0. |
| Masks.CornerPixelInside | widgets.cpp:128 | A pixel whose far corner is inside the circle has coverage 1 and byte 255. |
| Masks.BorderMaskAt | widgets.cpp:135-141 | The border mask has `radius*radius` bytes. Pixel (x, y) is the quantised difference of the coverages for `radius` and `radius - width`. |
| Masks.CreateRoundedBorderTexture | widgets.cpp:134-143 | The texture is `radius` by `radius` with one channel, and its data is the border mask. |
| Masks.BorderPixelOutside | widgets.cpp:138-139 | A pixel outside both circles is 0. |
| Masks.BorderPixelHole | widgets.cpp:138-139 | A pixel inside the inner circle (hence inside both) is 0: the hole of the ring. |
| Masks.BorderPixelRing | widgets.cpp:138-139 | A pixel inside the outer circle and outside the inner circle is 255: the ring itself. |
| Masks.BorderIsCornerDifference | widgets.cpp:138-139 | A border byte is within one step of the difference of the two corner-mask bytes. |
| Gaussian.CreateGaussianKernel | widgets.cpp:145-154 | The fill loop returns exactly the sampled Gaussian kernel of `2*radius+1` taps, tap `i` at offset `i - radius`. |
| Gaussian.Factor | widgets.cpp:147-148 | `factor = 1 / sqrtf(2 * M_PI * sigma*sigma)` with `sigma = radius / 3`. With a sound square root and a positive radius the factor is positive. |
| Gaussian.Density | widgets.cpp:150-151 | The weight at offset `x` is `factor * expf(-x*x / (2*sigma*sigma))`. It is a definition; `DensityEven` and `KernelPositive` state its properties. |
| Gaussian.KernelSymmetric | widgets.cpp:146-151 | The kernel has `2*radius+1` taps and tap `i` equals tap `2*radius - i`. |
| Gaussian.DensityEven | widgets.cpp:150-151 | The weight depends only on the squared offset: offsets `x` and `-x` weigh the same. |
| Gaussian.KernelPositive | widgets.cpp:148-151 | With a sound library every tap is positive. |
| Gaussian.CentreTap | widgets.cpp:148-151 | The centre tap equals the normalising factor, since `exp(0) == 1`. |
| Gaussian.RadiusOneFactor | widgets.cpp:147-148 | For radius 1 (`sigma = 1/3`) the normalising factor exceeds 1.1. |
| Blur.Clamp | widgets.cpp:162-164 | The clamped tap index is always in range `[0, n-1]`, so every read is in bounds; the vertical pass (lines 174-176) clamps the same way. |
| Blur.ClampNearest | widgets.cpp:162-164 | The clamped index is the in-range index nearest the raw one, and an in-range index is left unchanged. |
| Blur.RowAt | widgets.cpp:165 | Element `x` of row `y` is `buffer[y*w + x]`, which is in bounds. |
| Blur.ColumnAt | widgets.cpp:177 | Element `y` of column `x` is `tmp[y*w + x]`, which is in bounds. |
| Blur.Convolve | widgets.cpp:158-168 | One pass over a line yields one sample per input sample. |
| Blur.LineSum | widgets.cpp:160-166 | The accumulator after the first `k` taps: tap `k` adds the sample at the clamped offset `p + k - center` times `kernel[k]`, with `center = kernel.size()/2`. It is a definition. |
| Blur.InteriorSum | widgets.cpp:161-166 | For a position whose whole window of `|kernel|` samples, centred on it, lies inside the line, the clamped accumulator equals the plain weighted sum `Dot` of that window. So the edge rule changes only samples within `center` of either end. |
| Blur.LineSumBounds | widgets.cpp:160-166 | With non-negative weights the accumulated sum lies in `[0, 255 * Σ weights]`. |
| Blur.SaturateSample | widgets.cpp:167 | The corrected conversion of `sum + .5f`. The result never exceeds `sum + 0.5`, and below 256 it is `sum + 0.5` rounded down, i.e. the sum rounded half up. Line 179 converts the same way. |
| Blur.SaturateAgrees | widgets.cpp:167 | The saturated conversion agrees with `(unsigned char)(sum + .5f)` wherever that is defined, and gives 255 where it is not. Line 179 converts the same way. |
| Blur.SaturateExact | widgets.cpp:167 | A sum within half a unit of `c` (rounding half up) is stored as `c`. |
| Blur.WrittenSample | widgets.cpp:167 | The conversion as written rounds the sum half up wherever it is defined. |
| Blur.MassFits | widgets.cpp:160-167 | With `255 * Σ weights + 0.5 < 256` the conversion is always defined, and the saturated sample equals the conversion as written. |
| Blur.HorizontalPassAt | widgets.cpp:158-169 | The horizontal pass has `w*h` samples and sample (x, y) is the convolution of row `y` at `x`. |
| Blur.VerticalPassAt | widgets.cpp:170-181 | The vertical pass has `w*h` samples and sample (x, y) is the convolution of column `x` at `y`. |
| Blur.HorizontalRows | widgets.cpp:158-169 | Row `y` of the horizontal pass is row `y` of the input convolved, and it depends on no other row. |
| Blur.VerticalColumns | widgets.cpp:170-181 | Column `x` of the vertical pass is column `x` of its input convolved, and it depends on no other column. |
| Blur.RowSample | widgets.cpp:160-167 | The horizontal tap loop computes exactly the horizontal sample at (x, y). |
| Blur.ColSample | widgets.cpp:172-179 | The vertical tap loop computes exactly the vertical sample at (x, y). |
| Blur.HorizontalPassRow | widgets.cpp:159-168 | The column loop of the first pass for row `y` writes samples `y*w .. y*w + w - 1` of the scratch buffer with the horizontal pass and keeps the earlier rows. |
| Blur.VerticalPassRow | widgets.cpp:171-180 | The column loop of the second pass for row `y` writes samples `y*w .. y*w + w - 1` of the buffer with the vertical pass and keeps the earlier rows. |
| Blur.HorizontalPassInto | widgets.cpp:157-169 | The first pass reads only the source buffer and writes every sample of the separate scratch buffer. |
| Blur.VerticalPassInto | widgets.cpp:170-181 | The second pass reads only the scratch buffer and writes every sample of the buffer. |
| Blur.Blur | widgets.cpp:155-182 | `blur` replaces the buffer by the vertical pass of the horizontal pass of its old contents, and the length is unchanged. |
| Blur.ConstantSum | widgets.cpp:160-166 | On a constant line the accumulated sum is the constant times the sum of the weights. |
| Blur.ConstantBlur | widgets.cpp:155-182 | A constant buffer is unchanged by both passes when `c * Σ weights` rounds to `c`. |
| Blur.ConstantSample | widgets.cpp:160-167 | On a constant line every sample is the constant under the same rounding condition. |
| BlurredCorner.CreateBlurredCornerTexture | widgets.cpp:183-201 | The texture is `size` by `size` with one channel, `size = radius + 2*blur_radius`. Its data is the padded corner blurred with the kernel of `blur_radius`. |
| BlurredCorner.FootprintAt | widgets.cpp:184-192 | After the fill, pixel (x, y) of the `size*size` buffer is 255 exactly when `x - blur_radius < radius` and `y - blur_radius < radius`, and 0 otherwise. |
| BlurredCorner.StampNext | widgets.cpp:193-197 | Each write goes to index `(y+blur_radius)*size + (x+blur_radius)`, which is in bounds, and changes only that pixel. |
| BlurredCorner.StampedAt | widgets.cpp:185-198 | Part way through the overwrite, each pixel holds its corner byte if it is already written and its footprint value otherwise. |
| BlurredCorner.PaddedAt | widgets.cpp:185-198 | Before the blur, block pixels hold the corner coverage of `(x - blur_radius, y - blur_radius)`. Every pixel outside the block keeps its binary 255/0 value. |
| BlurredCorner.BlockIsCornerMask | widgets.cpp:193-197 | The block lies inside the 255 part of the footprint. Its bytes are exactly those of the rounded-corner mask of the same radius. |
| BlurredCorner.KernelNonNegative | widgets.cpp:199 | The kernel handed to `blur` has no negative weight. |
| BlurredCorner.HeavyCentreOverflows | widgets.cpp:161-167 | On a 3-tap kernel whose centre weight exceeds 1.1, the first sample of a line starting with 255 cannot be narrowed as written, and it saturates to 255. |
| BlurredCorner.RadiusOneOverflows | widgets.cpp:199 | With `blur_radius == 1` the first horizontal sample of the padded corner is undefined as written, and it saturates to 255. |

## Left out

- The `Padding` and `Alignment` layout code (widgets.cpp:20-88) is not modelled. It places a child widget with float arithmetic over a node class that is not part of this model.
- `nitro::Texture::create_from_data` is a foreign call. It is modelled as `Textures.CreateFromData`, which records `(width, height, channels, data)`.
- The values of `sqrtf`, `asinf`, `expf` and `M_PI` are abstract beyond `FloatMath.Sound`. So no numeric coverage value (such as pi/4 for a full quarter disc) is proved. Nor is it proved that the kernel sums to about 1.
- Monotonicity of the masks (corner-mask bytes never increase moving away from the origin along either axis) is not proved. Between the two early exits it depends on the value of the middle branch of `Coverage.RoundedCornerArea`, which is not proved (see the line on that member). For the border mask the claim does not hold, and the model shows it: `Masks.BorderPixelHole` writes 0 near the origin, and `Masks.BorderPixelRing` writes 255 further out along the same axis.
- IEEE single-precision rounding is not modelled. All arithmetic is exact `real` arithmetic.
- 32-bit `int` overflow is not modelled. The sizes and indices are unbounded `nat`, but in the source they are C++ `int` expressions, each undefined behaviour past its own bound. The model says nothing about inputs past these bounds:
  - `radius * radius` (widgets.cpp:125, 135) overflows once `radius` exceeds 46340.
  - `radius * 2 + 1` (widgets.cpp:146) overflows once `radius` reaches 2^30.
  - `size = radius + blur_radius * 2` (widgets.cpp:184) overflows once that sum exceeds 2^31 - 1.
  - `size * size` (widgets.cpp:185) overflows once `size` exceeds 46340. `y * size + x` (188) and `(y + blur_radius) * size + (x + blur_radius)` (195) stay below `size * size`, so they overflow only when it does.
- `blur` computes the indices `y * w + kx` and `ky * w + x` (widgets.cpp:165, 177) in `float`. They are exact only below 2^24; the model treats them as exact integers.
- Coverage.RoundedCornerArea: its middle branch (strip plus integral) is modelled faithfully, but nothing is proved about its value. Its correctness needs the derivative of `int_circle`, which the abstract `asinf` cannot provide.
- Masks.CreateRoundedCornerTexture, Masks.CreateRoundedBorderTexture and BlurredCorner.CreateBlurredCornerTexture require every quantised coverage to be narrowable (in (-1, 256)). The source does not check this, and outside that range the conversion is undefined.
- Masks.CreateRoundedBorderTexture requires `radius - width != 0`: `rounded_corner` divides by the radius. Its pixel lemmas use `radius - width > 0`.
- Gaussian.CreateGaussianKernel requires `radius > 0`. With radius 0, sigma is 0 and the factor divides by zero.
- Blur.Blur requires non-negative weights. That is what the kernel of `create_gaussian_kernel` has, and the sum bounds rest on it.
- Blur.Blur takes `w` and `h` as `nat` although the source passes floats. Every caller passes integer sizes.
- Blur.Clamp: the source computes `x + k - center` with `k` unsigned and converts it back to `int`. It is modelled as the signed value that conversion yields.
- Blur.ConstantBlur: a constant buffer is unchanged only when `c * Σ weights` rounds back to `c`. Because the kernel is not renormalised, it is not unchanged for every kernel.
- BlurredCorner.CreateBlurredCornerTexture: it is not proved that pixel `(blur_radius, blur_radius)` ends strictly below 255. That needs numeric values of `expf` and `sqrtf` that the abstract library does not fix.
- Blur.Blur models each pass's final conversion with saturation (`Blur.SaturateSample`), not as written (see Findings). Where the written conversion is defined the two agree (`Blur.SaturateAgrees`).

## Findings

| source | as written | input that shows it | evidently intended | confidence | as-written member | corrected member |
|---|---|---|---|---|---|---|
| widgets.cpp:167 | `tmp[y * w + x] = sum + .5f` narrows the sum to `unsigned char` with no clamp. The kernel is not renormalised, and for `blur_radius == 1` (sigma 1/3) its centre tap alone is about 1.2. | `create_blurred_corner_texture(radius, 1)` for any radius. Pixel (0, 0) is 255, so the first horizontal sum exceeds 280 and the conversion is undefined behaviour. | The sample saturates at 255 (or the kernel is renormalised so that `255 * Σ weights + 0.5 < 256`). | high for the overflow, not executed | Blur.WrittenSample, BlurredCorner.RadiusOneOverflows | Blur.SaturateSample, Blur.SaturateAgrees |
