/** Index arithmetic of the planar, channel-major image layout.

    Channel `k` of a `w` by `h` image occupies the `w*h` samples starting at
    `k*w*h`; inside a plane, pixel `(x, y)` sits at `y*w + x`.  The accessors of
    the image clamp each coordinate before they compute this offset. */
module Planar {

  /** The coordinate clamp of get_pixel and set_pixel as the code has it: a
      coordinate in (0, dim] passes through, `dim` itself included, so the
      clamped value can equal the dimension. */
  function ClampCoord(v: int, dim: int): (r: int)
    ensures v <= 0 ==> r == 0
    ensures 0 < v <= dim ==> r == v
    ensures 0 < v && dim < v ==> r == dim - 1
    ensures dim > 0 ==> 0 <= r <= dim
    ensures dim > 0 ==> (r == dim <==> v == dim)
  {
    if v > 0 then (if v <= dim then v else dim - 1) else 0
  }

  /** The offset the accessors compute for channel `ch`, row `y`, column `x`. */
  function PixelOffset(w: int, h: int, c: int, x: int, y: int, ch: int): int
  {
    w * h * ClampCoord(ch, c) + w * ClampCoord(y, h) + ClampCoord(x, w)
  }

  /** The offset of an in-range position inside a buffer of `w*h*c` samples. */
  function LayoutIndex(w: nat, h: nat, x: nat, y: nat, ch: nat): nat
  {
    ch * (w * h) + y * w + x
  }

  lemma MulLeq(a: int, b: int, k: nat)
    requires a <= b
    ensures a * k <= b * k
  {
  }

  /** An in-range position lands inside a buffer of `w*h*c` samples. */
  lemma LayoutInBounds(w: nat, h: nat, c: nat, x: nat, y: nat, ch: nat)
    requires x < w && y < h && ch < c
    ensures LayoutIndex(w, h, x, y, ch) < w * h * c
  {
    MulLeq(y + 1, h, w);
    assert y * w + x < h * w;
    MulLeq(ch + 1, c, w * h);
    assert (ch + 1) * (w * h) == ch * (w * h) + w * h;
    assert c * (w * h) == w * h * c;
  }

  /** Clamping leaves an in-range position alone, so the accessors address the
      planar layout exactly there. */
  lemma OffsetOfValidPosition(w: nat, h: nat, c: nat, x: int, y: int, ch: int)
    requires 0 <= x < w && 0 <= y < h && 0 <= ch < c
    ensures PixelOffset(w, h, c, x, y, ch) == LayoutIndex(w, h, x, y, ch)
    ensures 0 <= PixelOffset(w, h, c, x, y, ch) < w * h * c
  {
    assert ClampCoord(x, w) == x && ClampCoord(y, h) == y && ClampCoord(ch, c) == ch;
    assert w * h * ch == ch * (w * h);
    assert w * y == y * w;
    LayoutInBounds(w, h, c, x, y, ch);
  }

  /** A column at or below 0 reads column 0 and one past `w` reads column
      `w - 1`, whatever the row and channel. */
  lemma OutOfRangeColumns(w: nat, h: nat, c: nat, x: int, y: int, ch: int)
    requires w > 0
    ensures x <= 0 ==> PixelOffset(w, h, c, x, y, ch) == PixelOffset(w, h, c, 0, y, ch)
    ensures x > w ==> PixelOffset(w, h, c, x, y, ch) == PixelOffset(w, h, c, w - 1, y, ch)
  {
  }

  /** Column `w` is not clamped to `w-1`: in row `y` it addresses the first
      sample of row `y+1`. */
  lemma ColumnAtWidthIsNextRow(w: nat, h: nat, c: nat, y: int, ch: int)
    requires w > 0 && 0 <= y < h
    ensures PixelOffset(w, h, c, w, y, ch) == PixelOffset(w, h, c, 0, y + 1, ch)
  {
    assert ClampCoord(w, w) == w;
    assert ClampCoord(y + 1, h) == y + 1;
    assert w * (y + 1) == w * y + w;
  }

  /** At `(w, h, c)` the accessors address past the end of a `w*h*c` buffer. */
  lemma CornerAtDimsOverruns(w: nat, h: nat, c: nat)
    requires w > 0 && h > 0
    ensures PixelOffset(w, h, c, w, h, c) == w * h * c + w * h + w
    ensures PixelOffset(w, h, c, w, h, c) > w * h * c
  {
    assert ClampCoord(w, w) == w && ClampCoord(h, h) == h;
    if c > 0 {
      assert ClampCoord(c, c) == c;
    } else {
      assert ClampCoord(c, c) == 0;
    }
    assert w * h > 0;
  }

  /** The corrected clamp: every coordinate is forced into [0, dim). */
  function ClampIndex(v: int, dim: int): (r: int)
    ensures dim > 0 ==> 0 <= r < dim
    ensures 0 <= v < dim ==> r == v
    ensures v < 0 ==> r == 0
    ensures 0 < dim <= v ==> r == dim - 1
  {
    if v > 0 then (if v < dim then v else dim - 1) else 0
  }

  /** The offset the accessors would compute with the corrected clamp. */
  function ClampedOffset(w: int, h: int, c: int, x: int, y: int, ch: int): int
  {
    w * h * ClampIndex(ch, c) + w * ClampIndex(y, h) + ClampIndex(x, w)
  }

  /** With the corrected clamp every position of a non-empty image, however far
      out of range, is addressed inside the buffer. */
  lemma ClampedOffsetInBounds(w: nat, h: nat, c: nat, x: int, y: int, ch: int)
    requires w > 0 && h > 0 && c > 0
    ensures 0 <= ClampedOffset(w, h, c, x, y, ch) < w * h * c
  {
    var x', y', ch' := ClampIndex(x, w), ClampIndex(y, h), ClampIndex(ch, c);
    OffsetOfValidPosition(w, h, c, x', y', ch');
    assert ClampedOffset(w, h, c, x, y, ch) == PixelOffset(w, h, c, x', y', ch');
  }

  /** The two clamps differ only at a coordinate equal to its dimension. */
  lemma ClampsAgreeOffDimension(v: int, dim: int)
    requires dim > 0
    ensures ClampCoord(v, dim) == ClampIndex(v, dim) <==> v != dim
  {
  }
}
