/** The row-by-row fill both mask writers perform: a `size`-by-`size`
    one-channel buffer whose byte at (x, y) is a pixel function of x and y. */
module Raster {
  import opened Bytes
  import Grid

  /** The filled buffer, row-major: byte `y*size + x` is `pixel(x, y)`. */
  function Image(size: nat, pixel: (nat, nat) --> byte): seq<byte>
    requires forall x: nat, y: nat :: x < size && y < size ==> pixel.requires(x, y)
  {
    seq(size * size, i requires 0 <= i < size * size =>
      PixelDefined(size, pixel, i);
      pixel(i % size, i / size))
  }

  /** Index `i` of the image decodes to a pixel the pixel function is
      defined on. */
  lemma PixelDefined(size: nat, pixel: (nat, nat) --> byte, i: int)
    requires forall x: nat, y: nat :: x < size && y < size ==> pixel.requires(x, y)
    requires 0 <= i < size * size
    ensures 0 <= i % size < size && 0 <= i / size < size
    ensures pixel.requires(i % size, i / size)
  {
    Grid.DecodeInBounds(size, size, i);
  }

  /** Pixel (x, y) of the image is the pixel function at (x, y). */
  lemma ImageAt(size: nat, pixel: (nat, nat) --> byte, x: nat, y: nat)
    requires forall x: nat, y: nat :: x < size && y < size ==> pixel.requires(x, y)
    requires x < size && y < size
    ensures |Image(size, pixel)| == size * size
    ensures Grid.Get(Image(size, pixel), size, size, x, y) == pixel(x, y)
  {
    Grid.IndexDecode(size, x, y);
    Grid.IndexInBounds(size, size, x, y);
    var i := y * size + x;
    assert Image(size, pixel)[i] == pixel(i % size, i / size);
  }

  /** The writers' nested loops: allocate `size*size` bytes and store
      `pixel(x, y)` at `y*size + x`, rows outermost. */
  method Rasterize(size: nat, pixel: (nat, nat) --> byte) returns (data: array<byte>)
    requires forall x: nat, y: nat :: x < size && y < size ==> pixel.requires(x, y)
    ensures fresh(data)
    ensures data[..] == Image(size, pixel)
  {
    data := new byte[size * size];
    ghost var target := Image(size, pixel);
    for y := 0 to size
      invariant y * size <= size * size
      invariant forall i :: 0 <= i < y * size ==> data[i] == target[i]
    {
      for x := 0 to size
        invariant y * size + x <= size * size
        invariant forall i :: 0 <= i < y * size + x ==> data[i] == target[i]
      {
        ImageAt(size, pixel, x, y);
        Grid.IndexInBounds(size, size, x, y);
        data[y * size + x] := pixel(x, y);
      }
      assert y * size + size == (y + 1) * size;
    }
    assert data[..] == target;
  }
}
