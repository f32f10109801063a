/** The C math library calls of the mask and kernel code, left uninterpreted:
    the model never fixes their values, only the facts listed in `Sound`. */
module FloatMath {

  /** `sqrtf`, `asinf` and `expf`, as real-valued parameters of every
      computation that uses them. */
  datatype Libm = Libm(sqrtf: real -> real, asinf: real -> real, expf: real -> real)

  /** The `M_PI` constant of `<cmath>`. */
  const Pi: real := 3.14159265358979323846

  function Sqrt(m: Libm, t: real): real { m.sqrtf(t) }
  function Asin(m: Libm, t: real): real { m.asinf(t) }
  function Exp(m: Libm, t: real): real { m.expf(t) }

  /** What the proofs assume of the library: the square root of a
      non-negative number is a non-negative number whose square is that
      number, and the exponential is positive and exact at zero (C's Annex F
      requires `exp(0) == 1`). No value of asin is assumed. */
  ghost predicate Sound(m: Libm) {
    && (forall t: real :: 0.0 <= t ==> 0.0 <= Sqrt(m, t) && Sqrt(m, t) * Sqrt(m, t) == t)
    && (forall t: real :: 0.0 < Exp(m, t))
    && Exp(m, 0.0) == 1.0
  }

  /** A sound square root is monotone from below: `b*b <= a` gives `b <= sqrt(a)`. */
  lemma SqrtAtLeast(m: Libm, a: real, b: real)
    requires Sound(m)
    requires 0.0 <= b && b * b <= a
    ensures b <= Sqrt(m, a)
  {
    var s := Sqrt(m, a);
    assert 0.0 <= s && s * s == a;
    if s < b {
      calc {
        a;
        s * s;
      <= s * b;
      <  b * b;
      }
      assert false;
    }
  }

  /** A sound square root of a positive number is positive. */
  lemma SqrtPositive(m: Libm, a: real)
    requires Sound(m)
    requires 0.0 < a
    ensures 0.0 < Sqrt(m, a)
  {
    assert Sqrt(m, a) * Sqrt(m, a) == a;
  }

  /** A sound square root is monotone from above: `a < b*b` gives `sqrt(a) < b`. */
  lemma SqrtBelow(m: Libm, a: real, b: real)
    requires Sound(m)
    requires 0.0 <= a && 0.0 < b && a < b * b
    ensures Sqrt(m, a) < b
  {
    var s := Sqrt(m, a);
    assert 0.0 <= s && s * s == a;
    if b <= s {
      calc {
        b * b;
      <= b * s;
      <= s * s;
      }
      assert false;
    }
  }
}
