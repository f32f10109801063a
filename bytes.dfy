/** Unsigned 8-bit samples and the float-to-`unsigned char` conversion every
    mask writer and both blur passes end with. */
module Bytes {

  /** One `unsigned char` sample of an intensity buffer. */
  newtype byte = b: int | 0 <= b < 256

  /** The values for which converting a float to `unsigned char` is defined in
      C++: the value truncated toward zero must lie in 0..255. */
  predicate Narrowable(v: real) {
    -1.0 < v < 256.0
  }

  /** The implicit conversion `unsigned char c = v;`, which truncates toward
      zero. On non-negative values this is the floor. */
  function ToByte(v: real): (b: byte)
    requires Narrowable(v)
    ensures 0.0 <= v ==> b as real <= v < b as real + 1.0
    ensures v < 0.0 ==> b == 0
  {
    if v < 0.0 then 0 else v.Floor as byte
  }

  /** The writers' `value * 255.f + 0.5f` narrowed to a byte: coverage in
      [0, 1] rounded half up to 0..255. */
  function Quantize(c: real): byte
    requires Narrowable(c * 255.0 + 0.5)
  {
    ToByte(c * 255.0 + 0.5)
  }

  /** Adding 0.5 and truncating rounds to the nearest integer, halves up. */
  lemma QuantizeRoundsHalfUp(c: real)
    requires Narrowable(c * 255.0 + 0.5)
    requires 0.0 <= c
    ensures c * 255.0 - 0.5 < Quantize(c) as real <= c * 255.0 + 0.5
  {
  }

  /** Full coverage is 255, no coverage is 0. */
  lemma QuantizeExtremes()
    ensures Narrowable(1.0 * 255.0 + 0.5) && Quantize(1.0) == 255
    ensures Narrowable(0.0 * 255.0 + 0.5) && Quantize(0.0) == 0
  {
    assert ToByte(255.5) as real <= 255.5;
    assert ToByte(0.5) as real <= 0.5;
  }

  /** Quantizing a difference of coverages differs by at most one from the
      difference of the quantized coverages (the rounding error of each term
      is below one half). */
  lemma QuantizeDifference(a: real, b: real)
    requires Narrowable(a * 255.0 + 0.5) && 0.0 <= a * 255.0 + 0.5
    requires Narrowable(b * 255.0 + 0.5) && 0.0 <= b * 255.0 + 0.5
    requires Narrowable((a - b) * 255.0 + 0.5) && 0.0 <= (a - b) * 255.0 + 0.5
    ensures -1 <= Quantize(a - b) as int - (Quantize(a) as int - Quantize(b) as int) <= 1
  {
    var qa, qb, qd := Quantize(a) as real, Quantize(b) as real, Quantize(a - b) as real;
    assert qa <= a * 255.0 + 0.5 < qa + 1.0;
    assert qb <= b * 255.0 + 0.5 < qb + 1.0;
    assert qd <= (a - b) * 255.0 + 0.5 < qd + 1.0;
  }
}
