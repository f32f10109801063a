/** Row-major layout of a `w`-by-`h` buffer: pixel (x, y) lives at `y*w + x`. */
module Grid {

  /** The layout rule itself: each in-range pixel has an in-range index. */
  lemma {:induction false} IndexInBounds(w: nat, h: nat, x: nat, y: nat)
    requires x < w && y < h
    ensures y * w + x < w * h
  {
    assert y * w + w == (y + 1) * w;
    assert (y + 1) * w <= h * w by { MulMonotone(y + 1, h, w); }
  }

  /** An index written as `y*w + x` with `x < w` is decoded back to (x, y). */
  lemma {:induction false} IndexDecode(w: nat, x: nat, y: nat)
    requires x < w
    ensures (y * w + x) / w == y && (y * w + x) % w == x
  {
    var i := y * w + x;
    var q, r := i / w, i % w;
    assert i == q * w + r && 0 <= r < w;
    if q < y {
      MulMonotone(q + 1, y, w);
      assert false;
    } else if q > y {
      MulMonotone(y + 1, q, w);
      assert false;
    }
  }

  /** Every index of a `w*h` buffer is the position of some pixel. */
  lemma {:induction false} DecodeInBounds(w: nat, h: nat, i: nat)
    requires i < w * h
    ensures 0 < w && i % w < w && i / w < h
    ensures i == (i / w) * w + i % w
  {
    if w == 0 {
      assert false;
    }
    if i / w >= h {
      MulMonotone(h, i / w, w);
      assert false;
    }
  }

  /** Pixel (x, y) of a `w`-by-`h` row-major buffer. */
  function Get<T>(buf: seq<T>, w: nat, h: nat, x: nat, y: nat): T
    requires |buf| == w * h && x < w && y < h
  {
    IndexInBounds(w, h, x, y);
    buf[y * w + x]
  }

  lemma {:induction false} MulMonotone(a: nat, b: nat, c: nat)
    requires a <= b
    ensures a * c <= b * c
  {
    if c > 0 {
      MulMonotone(a, b, c - 1);
      assert a * c == a * (c - 1) + a;
      assert b * c == b * (c - 1) + b;
    }
  }
}
