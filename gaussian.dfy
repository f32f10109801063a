/** The blur kernel: the Gaussian density of deviation `radius/3` sampled at
    the integer offsets `-radius .. radius`, not renormalised. */
module Gaussian {
  import opened FloatMath

  /** `sigma = radius / 3.f`. */
  function Sigma(radius: nat): real {
    radius as real / 3.0
  }

  /** `2.f*sigma*sigma`, positive for a positive radius. */
  function TwoSigmaSquared(radius: nat): (d: real)
    ensures 0 < radius ==> 0.0 < d
  {
    PositiveSquare(Sigma(radius));
    2.0 * Sigma(radius) * Sigma(radius)
  }

  /** `factor = 1.f / sqrtf(2.f * M_PI * sigma*sigma)`: the density's
      normalising constant. The kernel needs a positive radius (a zero radius
      gives `sigma == 0` and divides by zero) and a sound square root (so that
      the root of the positive variance term is not zero). */
  function Factor(m: Libm, radius: nat): (f: real)
    requires Sound(m) && 0 < radius
    ensures 0.0 < f
  {
    SqrtPositive(m, Pi * TwoSigmaSquared(radius));
    1.0 / Sqrt(m, Pi * TwoSigmaSquared(radius))
  }

  /** The weight at offset `x`: `factor * expf(-x*x / (2.f*sigma*sigma))`. */
  function Density(m: Libm, radius: nat, x: real): real
    requires Sound(m) && 0 < radius
  {
    Factor(m, radius) * Exp(m, -x * x / TwoSigmaSquared(radius))
  }

  /** Tap `i` of the kernel, at offset `i - radius` from its centre. */
  function Tap(m: Libm, radius: nat, i: int): real
    requires Sound(m) && 0 < radius
  {
    Density(m, radius, (i - radius) as real)
  }

  /** The kernel `create_gaussian_kernel(radius)` returns: `2*radius + 1`
      taps, tap `i` at offset `i - radius`. */
  function GaussianKernel(m: Libm, radius: nat): seq<real>
    requires Sound(m) && 0 < radius
  {
    seq(2 * radius + 1, i => Tap(m, radius, i))
  }

  /** `create_gaussian_kernel(radius)`: allocates `2*radius + 1` weights,
      computes the normalising factor once and fills tap `i` with the density
      at offset `i - radius`. */
  method CreateGaussianKernel(m: Libm, radius: nat) returns (kernel: seq<real>)
    requires Sound(m) && 0 < radius
    ensures kernel == GaussianKernel(m, radius)
  {
    var weights := new real[radius * 2 + 1];
    var factor := Factor(m, radius);
    for i := 0 to weights.Length
      invariant forall j :: 0 <= j < i ==> weights[j] == Tap(m, radius, j)
    {
      var x := (i - radius) as real;
      DensityIs(m, radius, x, factor);
      weights[i] := factor * Exp(m, -x * x / TwoSigmaSquared(radius));
    }
    kernel := weights[..];
  }

  lemma DensityIs(m: Libm, radius: nat, x: real, factor: real)
    requires Sound(m) && 0 < radius && factor == Factor(m, radius)
    ensures factor * Exp(m, -x * x / TwoSigmaSquared(radius)) == Density(m, radius, x)
  {
  }

  /** The density is even: offsets `x` and `-x` get the same weight. */
  lemma DensityEven(m: Libm, radius: nat, x: real)
    requires Sound(m) && 0 < radius
    ensures Density(m, radius, -x) == Density(m, radius, x)
  {
    assert -(-x) * -x == -x * x;
  }

  /** The kernel has `2*radius + 1` taps and is symmetric about its centre
      tap `radius`: tap `i` equals tap `2*radius - i`. */
  lemma KernelSymmetric(m: Libm, radius: nat, i: nat)
    requires Sound(m) && 0 < radius
    requires i <= 2 * radius
    ensures |GaussianKernel(m, radius)| == 2 * radius + 1
    ensures GaussianKernel(m, radius)[i] == GaussianKernel(m, radius)[2 * radius - i]
  {
    DensityEven(m, radius, (i - radius) as real);
    assert (2 * radius - i - radius) as real == -((i - radius) as real);
  }

  /** With a sound library every tap is positive. */
  lemma KernelPositive(m: Libm, radius: nat, i: nat)
    requires Sound(m) && 0 < radius
    requires i <= 2 * radius
    ensures 0.0 < GaussianKernel(m, radius)[i]
  {
    SqrtPositive(m, Pi * TwoSigmaSquared(radius));
    var x := (i - radius) as real;
    ProductPositive(Factor(m, radius), Exp(m, -x * x / TwoSigmaSquared(radius)));
  }

  /** The centre tap is the normalising factor itself: `exp(0) == 1`. */
  lemma CentreTap(m: Libm, radius: nat)
    requires Sound(m) && 0 < radius
    ensures GaussianKernel(m, radius)[radius] == Factor(m, radius)
  {
    assert -0.0 * 0.0 / TwoSigmaSquared(radius) == 0.0;
  }

  /** For radius 1 the deviation is 1/3 and the normalising factor, which
      is also the centre tap, exceeds 1.1: the kernel alone outweighs an
      intensity of 255 by more than a byte can hold. */
  lemma RadiusOneFactor(m: Libm)
    requires Sound(m)
    ensures Factor(m, 1) > 1.1
  {
    var a := Pi * TwoSigmaSquared(1);
    assert TwoSigmaSquared(1) == 2.0 / 9.0;
    SqrtPositive(m, a);
    SqrtBelow(m, a, 0.85);
    var s := Sqrt(m, a);
    assert Factor(m, 1) == 1.0 / s;
    assert 1.1 * s < 1.0;
  }

  lemma PositiveSquare(a: real)
    ensures 0.0 < a ==> 0.0 < 2.0 * a * a
  {
    if 0.0 < a {
      assert 0.0 < a * a;
    }
  }

  lemma ProductPositive(a: real, b: real)
    requires 0.0 < a && 0.0 < b
    ensures 0.0 < a * b
  {
  }
}
