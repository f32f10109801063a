/** The separable blur: a horizontal pass from the buffer into a scratch
    buffer, then a vertical pass from the scratch buffer back into the
    buffer, each sampling with the tap index clamped to the edge. */
module Blur {
  import opened Bytes
  import Grid

  function Abs(v: int): nat {
    if v < 0 then -v else v
  }

  /** The edge rule of both passes: `if (v < 0) v = 0; else if (v >= n) v = n - 1;`. */
  function Clamp(v: int, n: nat): (c: nat)
    requires 0 < n
    ensures c < n
  {
    if v < 0 then 0 else if v >= n then n - 1 else v
  }

  /** The clamped index is the in-range index nearest to `v`, and an index
      already in range is left alone. */
  lemma ClampNearest(v: int, n: nat, j: nat)
    requires 0 < n && j < n
    ensures Abs(Clamp(v, n) - v) <= Abs(j - v)
    ensures 0 <= v < n ==> Clamp(v, n) == v
  {
  }

  /** `center = kernel.size() / 2`: tap `k` is paired with offset `k - center`. */
  function Center(kernel: seq<real>): nat {
    |kernel| / 2
  }

  /** Total weight of a kernel, summed from the first tap. */
  function Sum(s: seq<real>): real {
    if |s| == 0 then 0.0 else Sum(s[..|s| - 1]) + s[|s| - 1]
  }

  predicate NonNegative(kernel: seq<real>) {
    forall k :: 0 <= k < |kernel| ==> 0.0 <= kernel[k]
  }

  /** Row `y` of a row-major `w`-by-`h` buffer: bytes `y*w .. y*w + w - 1`. */
  function Row(buf: seq<byte>, w: nat, h: nat, y: nat): (row: seq<byte>)
    requires |buf| == w * h && y < h
    ensures |row| == w
  {
    seq(w, x requires 0 <= x < w => Grid.Get(buf, w, h, x, y))
  }

  lemma RowAt(buf: seq<byte>, w: nat, h: nat, x: nat, y: nat)
    requires |buf| == w * h && x < w && y < h
    ensures y * w + x < |buf|
    ensures Row(buf, w, h, y)[x] == buf[y * w + x]
  {
    Grid.IndexInBounds(w, h, x, y);
  }

  /** Column `x` of a row-major `w`-by-`h` buffer: bytes `x, w + x, 2*w + x, ...`. */
  function Column(buf: seq<byte>, w: nat, h: nat, x: nat): (col: seq<byte>)
    requires |buf| == w * h && x < w
    ensures |col| == h
  {
    seq(h, j requires 0 <= j < h => Grid.Get(buf, w, h, x, j))
  }

  /** Element `y` of column `x` is `buffer[y*w + x]`. */
  lemma ColumnAt(buf: seq<byte>, w: nat, h: nat, x: nat, y: nat)
    requires |buf| == w * h && x < w && y < h
    ensures y * w + x < |buf|
    ensures Column(buf, w, h, x)[y] == buf[y * w + x]
  {
    Grid.IndexInBounds(w, h, x, y);
  }

  /** One pass over a whole line. */
  function Convolve(kernel: seq<real>, line: seq<byte>): (out: seq<byte>)
    requires NonNegative(kernel)
    ensures |out| == |line|
  {
    seq(|line|, p requires 0 <= p < |line| => LineSample(kernel, line, p))
  }

  /** One pass's accumulator at position `p` of a line (a row or a column)
      after the first `k` taps: `sum += line[clamp(p + k - center)] * kernel[k]`. */
  function LineSum(kernel: seq<real>, line: seq<byte>, p: nat, k: nat): real
    requires p < |line| && k <= |kernel|
  {
    if k == 0 then 0.0
    else LineSum(kernel, line, p, k - 1) + Contribution(line[Clamp(p + (k - 1) - Center(kernel), |line|)], kernel[k - 1])
  }

  /** A tap's contribution: the clamped sample times the tap's weight, between
      0 and 255 times the weight when the weight is not negative. */
  function Contribution(sample: byte, weight: real): (t: real)
    ensures 0.0 <= weight ==> 0.0 <= t <= 255.0 * weight
  {
    ScaleBound(sample as real, weight);
    sample as real * weight
  }

  /** One more tap: the accumulator grows by the clamped sample `v` times
      the tap's weight. */
  lemma LineSumNext(kernel: seq<real>, line: seq<byte>, p: nat, k: nat, v: byte)
    requires p < |line| && k < |kernel|
    requires v == line[Clamp(p + k - Center(kernel), |line|)]
    ensures LineSum(kernel, line, p, k + 1) == LineSum(kernel, line, p, k) + v as real * kernel[k]
  {
  }

  /** The plain weighted sum of a window of samples against the kernel's
      taps, with no edge rule: the sum of `window[i] * kernel[i]`. */
  function Dot(kernel: seq<real>, window: seq<byte>): real
    requires |window| == |kernel|
  {
    if |kernel| == 0 then 0.0
    else Dot(kernel[..|kernel| - 1], window[..|window| - 1]) + window[|window| - 1] as real * kernel[|kernel| - 1]
  }

  /** Away from the edges the clamp never fires: the first `k` taps at `p`
      are the plain sum over the window that starts `center` samples before
      `p`. */
  lemma {:induction false} InteriorPrefix(kernel: seq<real>, line: seq<byte>, p: nat, k: nat)
    requires p < |line| && k <= |kernel|
    requires Center(kernel) <= p && p - Center(kernel) + |kernel| <= |line|
    ensures LineSum(kernel, line, p, k) == Dot(kernel[..k], line[p - Center(kernel) .. p - Center(kernel) + k])
  {
    if k > 0 {
      InteriorPrefix(kernel, line, p, k - 1);
      var lo := p - Center(kernel);
      assert kernel[..k][..k - 1] == kernel[..k - 1];
      assert line[lo .. lo + k][..k - 1] == line[lo .. lo + k - 1];
      assert Clamp(p + (k - 1) - Center(kernel), |line|) == lo + k - 1;
    }
  }

  /** A sample whose window of `|kernel|` samples, centred on it, lies wholly
      inside the line is the plain weighted sum of that window: the edge rule
      changes only samples within `center` of either end. */
  lemma InteriorSum(kernel: seq<real>, line: seq<byte>, p: nat)
    requires p < |line| && Center(kernel) <= p && p - Center(kernel) + |kernel| <= |line|
    ensures LineSum(kernel, line, p, |kernel|)
         == Dot(kernel, line[p - Center(kernel) .. p - Center(kernel) + |kernel|])
  {
    InteriorPrefix(kernel, line, p, |kernel|);
    assert kernel[..|kernel|] == kernel;
  }

  /** The final `sum + .5f` narrowed to a byte, saturated at 255. Without
      the saturation the conversion is undefined for sums of 255.5 and more
      (see `SaturateAgrees`). */
  function SaturateSample(sum: real): (b: byte)
    requires 0.0 <= sum
    ensures b as real <= sum + 0.5
    ensures sum + 0.5 < 256.0 ==> sum + 0.5 < b as real + 1.0
  {
    if sum + 0.5 >= 256.0 then 255 else ToByte(sum + 0.5)
  }

  /** Where the plain conversion of `sum + .5f` is defined the saturated one
      agrees with it; where it is not, the saturated one gives 255. */
  lemma SaturateAgrees(sum: real)
    requires 0.0 <= sum
    ensures Narrowable(sum + 0.5) ==> SaturateSample(sum) == ToByte(sum + 0.5)
    ensures !Narrowable(sum + 0.5) ==> SaturateSample(sum) == 255
    ensures SaturateSample(sum) as real <= sum + 0.5
  {
  }

  /** Sample `p` of one pass over a line. */
  function LineSample(kernel: seq<real>, line: seq<byte>, p: nat): byte
    requires NonNegative(kernel) && p < |line|
  {
    LineSumBounds(kernel, line, p, |kernel|);
    SaturateSample(LineSum(kernel, line, p, |kernel|))
  }

  /** Sample `p` as the conversion `(unsigned char)(sum + .5f)` is written:
      defined only where `sum + .5f` fits in a byte, and then it is the sum
      rounded half up. */
  function WrittenSample(kernel: seq<real>, line: seq<byte>, p: nat): (b: byte)
    requires NonNegative(kernel) && p < |line|
    requires Narrowable(LineSum(kernel, line, p, |kernel|) + 0.5)
    ensures b as real <= LineSum(kernel, line, p, |kernel|) + 0.5 < b as real + 1.0
  {
    LineSumBounds(kernel, line, p, |kernel|);
    ToByte(LineSum(kernel, line, p, |kernel|) + 0.5)
  }

  /** Sample (x, y) of the horizontal pass: row `y` convolved at `x`. */
  function HorizontalSample(kernel: seq<real>, buf: seq<byte>, w: nat, h: nat, x: nat, y: nat): byte
    requires NonNegative(kernel) && |buf| == w * h && x < w && y < h
  {
    LineSample(kernel, Row(buf, w, h, y), x)
  }

  /** Sample (x, y) of the vertical pass: column `x` convolved at `y`. */
  function VerticalSample(kernel: seq<real>, buf: seq<byte>, w: nat, h: nat, x: nat, y: nat): byte
    requires NonNegative(kernel) && |buf| == w * h && x < w && y < h
  {
    LineSample(kernel, Column(buf, w, h, x), y)
  }

  /** The whole horizontal pass, row-major. */
  function HorizontalPass(kernel: seq<real>, buf: seq<byte>, w: nat, h: nat): seq<byte>
    requires NonNegative(kernel) && |buf| == w * h
  {
    seq(w * h, i requires 0 <= i < w * h =>
      Grid.DecodeInBounds(w, h, i);
      HorizontalSample(kernel, buf, w, h, i % w, i / w))
  }

  /** The whole vertical pass, row-major. */
  function VerticalPass(kernel: seq<real>, buf: seq<byte>, w: nat, h: nat): seq<byte>
    requires NonNegative(kernel) && |buf| == w * h
  {
    seq(w * h, i requires 0 <= i < w * h =>
      Grid.DecodeInBounds(w, h, i);
      VerticalSample(kernel, buf, w, h, i % w, i / w))
  }

  /** What `blur(kernel, buffer, w, h)` leaves in the buffer. */
  function Blurred(kernel: seq<real>, buf: seq<byte>, w: nat, h: nat): seq<byte>
    requires NonNegative(kernel) && |buf| == w * h
  {
    VerticalPass(kernel, HorizontalPass(kernel, buf, w, h), w, h)
  }

  lemma HorizontalPassAt(kernel: seq<real>, buf: seq<byte>, w: nat, h: nat, x: nat, y: nat)
    requires NonNegative(kernel) && |buf| == w * h && x < w && y < h
    ensures |HorizontalPass(kernel, buf, w, h)| == w * h
    ensures Grid.Get(HorizontalPass(kernel, buf, w, h), w, h, x, y) == HorizontalSample(kernel, buf, w, h, x, y)
  {
    Grid.IndexDecode(w, x, y);
    Grid.IndexInBounds(w, h, x, y);
    var i := y * w + x;
    assert HorizontalPass(kernel, buf, w, h)[i] == HorizontalSample(kernel, buf, w, h, i % w, i / w);
  }

  lemma VerticalPassAt(kernel: seq<real>, buf: seq<byte>, w: nat, h: nat, x: nat, y: nat)
    requires NonNegative(kernel) && |buf| == w * h && x < w && y < h
    ensures |VerticalPass(kernel, buf, w, h)| == w * h
    ensures Grid.Get(VerticalPass(kernel, buf, w, h), w, h, x, y) == VerticalSample(kernel, buf, w, h, x, y)
  {
    Grid.IndexDecode(w, x, y);
    Grid.IndexInBounds(w, h, x, y);
    var i := y * w + x;
    assert VerticalPass(kernel, buf, w, h)[i] == VerticalSample(kernel, buf, w, h, i % w, i / w);
  }

  /** The inner tap loop of the horizontal pass at (x, y). Every read
      `src[y*w + kx]` is in bounds because `kx` is clamped first. */
  method RowSample(kernel: seq<real>, src: array<byte>, w: nat, h: nat, x: nat, y: nat) returns (b: byte)
    requires NonNegative(kernel) && src.Length == w * h && x < w && y < h
    ensures b == HorizontalSample(kernel, src[..], w, h, x, y)
  {
    var center := |kernel| / 2;
    var sum := 0.0;
    ghost var row := Row(src[..], w, h, y);
    for k := 0 to |kernel|
      invariant sum == LineSum(kernel, row, x, k)
    {
      var kx := x + k - center;
      if kx < 0 {
        kx := 0;
      } else if kx >= w {
        kx := w - 1;
      }
      assert kx == Clamp(x + k - center, w);
      RowAt(src[..], w, h, kx, y);
      var v := src[y * w + kx];
      LineSumNext(kernel, row, x, k, v);
      sum := sum + v as real * kernel[k];
    }
    LineSumBounds(kernel, row, x, |kernel|);
    b := SaturateSample(sum);
  }

  /** The inner tap loop of the vertical pass at (x, y). */
  method ColSample(kernel: seq<real>, src: array<byte>, w: nat, h: nat, x: nat, y: nat) returns (b: byte)
    requires NonNegative(kernel) && src.Length == w * h && x < w && y < h
    ensures b == VerticalSample(kernel, src[..], w, h, x, y)
  {
    var center := |kernel| / 2;
    var sum := 0.0;
    ghost var col := Column(src[..], w, h, x);
    for k := 0 to |kernel|
      invariant sum == LineSum(kernel, col, y, k)
    {
      var ky := y + k - center;
      if ky < 0 {
        ky := 0;
      } else if ky >= h {
        ky := h - 1;
      }
      assert ky == Clamp(y + k - center, h);
      ColumnAt(src[..], w, h, x, ky);
      var v := src[ky * w + x];
      LineSumNext(kernel, col, y, k, v);
      sum := sum + v as real * kernel[k];
    }
    LineSumBounds(kernel, col, y, |kernel|);
    b := SaturateSample(sum);
  }

  /** The first pass: every sample of `dst` from the rows of `src`, which is
      only read. */
  method HorizontalPassInto(kernel: seq<real>, src: array<byte>, dst: array<byte>, w: nat, h: nat)
    requires NonNegative(kernel) && src != dst && src.Length == w * h && dst.Length == w * h
    modifies dst
    ensures dst[..] == HorizontalPass(kernel, src[..], w, h)
  {
    ghost var target := HorizontalPass(kernel, src[..], w, h);
    for y := 0 to h
      invariant y * w <= w * h
      invariant forall i :: 0 <= i < y * w ==> dst[i] == target[i]
    {
      assert y * w + w == (y + 1) * w;
      Grid.MulMonotone(y + 1, h, w);
      HorizontalPassRow(kernel, src, dst, w, h, y, target);
    }
    assert dst[..] == target;
  }

  /** Row `y` of the first pass: samples `y*w .. y*w + w - 1` of `dst`. */
  method HorizontalPassRow(kernel: seq<real>, src: array<byte>, dst: array<byte>, w: nat, h: nat, y: nat, ghost target: seq<byte>)
    requires NonNegative(kernel) && src != dst && src.Length == w * h && dst.Length == w * h
    requires y * w + w <= w * h
    requires target == HorizontalPass(kernel, src[..], w, h)
    requires forall i :: 0 <= i < y * w ==> dst[i] == target[i]
    modifies dst
    ensures forall i :: 0 <= i < y * w + w ==> dst[i] == target[i]
    ensures forall i :: y * w + w <= i < dst.Length ==> dst[i] == old(dst[i])
  {
    ghost var input := src[..];
    for x := 0 to w
      invariant src[..] == input
      invariant y * w + x <= w * h
      invariant forall i :: 0 <= i < y * w + x ==> dst[i] == target[i]
      invariant forall i :: y * w + w <= i < dst.Length ==> dst[i] == old(dst[i])
    {
      HorizontalPassAt(kernel, input, w, h, x, y);
      Grid.IndexInBounds(w, h, x, y);
      var b := RowSample(kernel, src, w, h, x, y);
      dst[y * w + x] := b;
    }
  }

  /** The second pass: every sample of `dst` from the columns of `src`, which is
      only read. */
  method VerticalPassInto(kernel: seq<real>, src: array<byte>, dst: array<byte>, w: nat, h: nat)
    requires NonNegative(kernel) && src != dst && src.Length == w * h && dst.Length == w * h
    modifies dst
    ensures dst[..] == VerticalPass(kernel, src[..], w, h)
  {
    ghost var target := VerticalPass(kernel, src[..], w, h);
    for y := 0 to h
      invariant y * w <= w * h
      invariant forall i :: 0 <= i < y * w ==> dst[i] == target[i]
    {
      assert y * w + w == (y + 1) * w;
      Grid.MulMonotone(y + 1, h, w);
      VerticalPassRow(kernel, src, dst, w, h, y, target);
    }
    assert dst[..] == target;
  }

  /** Row `y` of the second pass: samples `y*w .. y*w + w - 1` of `dst`. */
  method VerticalPassRow(kernel: seq<real>, src: array<byte>, dst: array<byte>, w: nat, h: nat, y: nat, ghost target: seq<byte>)
    requires NonNegative(kernel) && src != dst && src.Length == w * h && dst.Length == w * h
    requires y * w + w <= w * h
    requires target == VerticalPass(kernel, src[..], w, h)
    requires forall i :: 0 <= i < y * w ==> dst[i] == target[i]
    modifies dst
    ensures forall i :: 0 <= i < y * w + w ==> dst[i] == target[i]
    ensures forall i :: y * w + w <= i < dst.Length ==> dst[i] == old(dst[i])
  {
    ghost var input := src[..];
    for x := 0 to w
      invariant src[..] == input
      invariant y * w + x <= w * h
      invariant forall i :: 0 <= i < y * w + x ==> dst[i] == target[i]
      invariant forall i :: y * w + w <= i < dst.Length ==> dst[i] == old(dst[i])
    {
      VerticalPassAt(kernel, input, w, h, x, y);
      Grid.IndexInBounds(w, h, x, y);
      var b := ColSample(kernel, src, w, h, x, y);
      dst[y * w + x] := b;
    }
  }

  /** `blur(kernel, buffer, w, h)`: the horizontal pass into a fresh scratch
      buffer, then the vertical pass from it back into `buffer`. */
  method Blur(kernel: seq<real>, buffer: array<byte>, w: nat, h: nat)
    requires NonNegative(kernel) && buffer.Length == w * h
    modifies buffer
    ensures buffer[..] == Blurred(kernel, old(buffer[..]), w, h)
  {
    var tmp := new byte[buffer.Length];
    HorizontalPassInto(kernel, buffer, tmp, w, h);
    VerticalPassInto(kernel, tmp, buffer, w, h);
  }

  lemma ScaleBound(v: real, weight: real)
    requires 0.0 <= v <= 255.0
    ensures 0.0 <= weight ==> 0.0 <= v * weight <= 255.0 * weight
  {
  }

  lemma SumStep(s: seq<real>, k: nat)
    requires 0 < k <= |s|
    ensures Sum(s[..k]) == Sum(s[..k - 1]) + s[k - 1]
  {
    assert s[..k][..k - 1] == s[..k - 1];
  }

  /** With non-negative weights every accumulator lies between 0 and 255
      times the weight of the taps summed so far. */
  lemma {:induction false} LineSumBounds(kernel: seq<real>, line: seq<byte>, p: nat, k: nat)
    requires NonNegative(kernel) && p < |line| && k <= |kernel|
    ensures 0.0 <= LineSum(kernel, line, p, k) <= 255.0 * Sum(kernel[..k])
  {
    if k > 0 {
      LineSumBounds(kernel, line, p, k - 1);
      SumStep(kernel, k);
    }
  }

  /** A kernel whose total weight keeps `255*Sum + 0.5` below 256 never
      saturates: each pass then computes exactly `(unsigned char)(sum + .5f)`
      with the conversion defined, for every line and every sample. */
  lemma MassFits(kernel: seq<real>, line: seq<byte>, p: nat)
    requires NonNegative(kernel) && 255.0 * Sum(kernel) + 0.5 < 256.0
    requires p < |line|
    ensures Narrowable(LineSum(kernel, line, p, |kernel|) + 0.5)
    ensures LineSample(kernel, line, p) == WrittenSample(kernel, line, p)
  {
    assert kernel[..|kernel|] == kernel;
    LineSumBounds(kernel, line, p, |kernel|);
  }

  /** The horizontal pass maps each row on its own: row `y` of the result is
      row `y` of the input convolved, whatever the other rows hold. */
  lemma HorizontalRows(kernel: seq<real>, buf: seq<byte>, w: nat, h: nat, y: nat)
    requires NonNegative(kernel) && |buf| == w * h && y < h
    ensures Row(HorizontalPass(kernel, buf, w, h), w, h, y) == Convolve(kernel, Row(buf, w, h, y))
  {
    forall x | 0 <= x < w
      ensures Row(HorizontalPass(kernel, buf, w, h), w, h, y)[x] == Convolve(kernel, Row(buf, w, h, y))[x]
    {
      HorizontalPassAt(kernel, buf, w, h, x, y);
    }
  }

  /** The vertical pass maps each column on its own: column `x` of the
      result is column `x` of the input convolved. */
  lemma VerticalColumns(kernel: seq<real>, buf: seq<byte>, w: nat, h: nat, x: nat)
    requires NonNegative(kernel) && |buf| == w * h && x < w
    ensures Column(VerticalPass(kernel, buf, w, h), w, h, x) == Convolve(kernel, Column(buf, w, h, x))
  {
    forall y | 0 <= y < h
      ensures Column(VerticalPass(kernel, buf, w, h), w, h, x)[y] == Convolve(kernel, Column(buf, w, h, x))[y]
    {
      VerticalPassAt(kernel, buf, w, h, x, y);
    }
  }

  /** The kernel's total weight rounds the intensity `c` back to itself:
      `c*Sum` lies within half a unit below or just under half a unit above
      `c`. */
  predicate RoundsBack(kernel: seq<real>, c: byte) {
    c as real <= c as real * Sum(kernel) + 0.5 < c as real + 1.0
  }

  /** A sum that rounds to `c` is saturated to `c`. */
  lemma SaturateExact(sum: real, c: byte)
    requires 0.0 <= sum && c as real <= sum + 0.5 < c as real + 1.0
    ensures SaturateSample(sum) == c
  {
    var b := ToByte(sum + 0.5);
    assert b as real <= sum + 0.5 < b as real + 1.0;
  }

  /** On a line holding `c` everywhere, each accumulator is `c` times the
      weight summed so far. */
  lemma {:induction false} ConstantSum(kernel: seq<real>, line: seq<byte>, p: nat, k: nat, c: byte)
    requires p < |line| && k <= |kernel|
    requires forall i :: 0 <= i < |line| ==> line[i] == c
    ensures LineSum(kernel, line, p, k) == c as real * Sum(kernel[..k])
  {
    if k > 0 {
      ConstantSum(kernel, line, p, k - 1, c);
      SumStep(kernel, k);
    }
  }

  /** A buffer holding `c` everywhere is left unchanged by the blur when the
      kernel's weight rounds `c` back to itself (`c*Sum` within half a unit
      of `c`, as a kernel of total weight 1 does). */
  lemma ConstantBlur(kernel: seq<real>, buf: seq<byte>, w: nat, h: nat, c: byte)
    requires NonNegative(kernel) && |buf| == w * h
    requires forall i :: 0 <= i < |buf| ==> buf[i] == c
    requires RoundsBack(kernel, c)
    ensures HorizontalPass(kernel, buf, w, h) == buf
    ensures Blurred(kernel, buf, w, h) == buf
  {
    ConstantPasses(kernel, buf, w, h, c);
  }

  /** Both passes map the constant buffer `c` to itself under the rounding
      condition of `ConstantBlur`. */
  lemma ConstantPasses(kernel: seq<real>, buf: seq<byte>, w: nat, h: nat, c: byte)
    requires NonNegative(kernel) && |buf| == w * h
    requires forall i :: 0 <= i < |buf| ==> buf[i] == c
    requires RoundsBack(kernel, c)
    ensures HorizontalPass(kernel, buf, w, h) == buf
    ensures VerticalPass(kernel, buf, w, h) == buf
  {
    forall i | 0 <= i < w * h
      ensures HorizontalPass(kernel, buf, w, h)[i] == c
      ensures VerticalPass(kernel, buf, w, h)[i] == c
    {
      Grid.DecodeInBounds(w, h, i);
      ConstantLines(buf, w, h, i % w, i / w, c);
      ConstantSample(kernel, Row(buf, w, h, i / w), i % w, c);
      ConstantSample(kernel, Column(buf, w, h, i % w), i / w, c);
    }
  }

  /** Every row and every column of a constant buffer is constant. */
  lemma ConstantLines(buf: seq<byte>, w: nat, h: nat, x: nat, y: nat, c: byte)
    requires |buf| == w * h && x < w && y < h
    requires forall i :: 0 <= i < |buf| ==> buf[i] == c
    ensures forall j :: 0 <= j < w ==> Row(buf, w, h, y)[j] == c
    ensures forall j :: 0 <= j < h ==> Column(buf, w, h, x)[j] == c
  {
    forall j | 0 <= j < w
      ensures Row(buf, w, h, y)[j] == c
    {
      Grid.IndexInBounds(w, h, j, y);
    }
    forall j | 0 <= j < h
      ensures Column(buf, w, h, x)[j] == c
    {
      Grid.IndexInBounds(w, h, x, j);
    }
  }

  /** On a constant line every sample is the constant again when the kernel's
      weight rounds it back to itself. */
  lemma ConstantSample(kernel: seq<real>, line: seq<byte>, p: nat, c: byte)
    requires NonNegative(kernel) && p < |line|
    requires forall i :: 0 <= i < |line| ==> line[i] == c
    requires RoundsBack(kernel, c)
    ensures LineSample(kernel, line, p) == c
  {
    assert kernel[..|kernel|] == kernel;
    ConstantSum(kernel, line, p, |kernel|, c);
    LineSumBounds(kernel, line, p, |kernel|);
    SaturateExact(LineSum(kernel, line, p, |kernel|), c);
  }
}
