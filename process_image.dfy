/** The image operations of process_image.c on a planar buffer of real
    samples.  An image is passed by value in the code, so its dimensions and
    its buffer pointer never change; only the samples the buffer holds do. */
module ProcessImage {
  import opened Planar
  import opened Color
  import opened Planes

  class Image {
    const w: nat
    const h: nat
    const c: nat
    const data: array<real>

    /** The buffer holds `w*h*c` samples, as make_image allocates it. */
    predicate Valid()
    {
      data.Length == w * h * c
    }

    /** A `w` by `h` image of `c` channels with every sample 0, as make_image
        returns it. */
    constructor (w: nat, h: nat, c: nat)
      ensures this.w == w && this.h == h && this.c == c
      ensures Valid() && fresh(data)
      ensures forall i :: 0 <= i < data.Length ==> data[i] == 0.0
    {
      this.w, this.h, this.c := w, h, c;
      data := new real[w * h * c](_ => 0.0);
    }

    /** get_pixel: the sample at the clamped position.  The code does not
        check the offset against the buffer, so the caller must keep it
        inside; at an in-range position it is the planar layout index. */
    function GetPixel(x: int, y: int, ch: int): (v: real)
      reads data
      requires 0 <= PixelOffset(w, h, c, x, y, ch) < data.Length
      ensures 0 <= x < w && 0 <= y < h && 0 <= ch < c ==>
        LayoutIndex(w, h, x, y, ch) < data.Length && v == data[LayoutIndex(w, h, x, y, ch)]
    {
      if 0 <= x < w && 0 <= y < h && 0 <= ch < c then
        OffsetOfValidPosition(w, h, c, x, y, ch);
        data[PixelOffset(w, h, c, x, y, ch)]
      else
        data[PixelOffset(w, h, c, x, y, ch)]
    }

    /** set_pixel: writes `v` at the clamped position and nowhere else, so
        get_pixel at the same coordinates reads `v` back. */
    method SetPixel(x: int, y: int, ch: int, v: real)
      requires 0 <= PixelOffset(w, h, c, x, y, ch) < data.Length
      modifies data
      ensures data[..] == old(data[..])[PixelOffset(w, h, c, x, y, ch) := v]
      ensures GetPixel(x, y, ch) == v
    {
      var cx := if x > 0 then (if x <= w then x else w - 1) else 0;
      var cy := if y > 0 then (if y <= h then y else h - 1) else 0;
      var cc := if ch > 0 then (if ch <= c then ch else c - 1) else 0;
      var p := w * h * cc + w * cy + cx;
      assert p == PixelOffset(w, h, c, x, y, ch);
      data[p] := v;
    }

    /** copy_image: a new image of the same dimensions whose buffer holds the
        same samples; the original is left alone. */
    method Copy() returns (copy: Image)
      requires Valid()
      ensures fresh(copy) && fresh(copy.data)
      ensures copy.w == w && copy.h == h && copy.c == c && copy.Valid()
      ensures copy.data[..] == data[..]
    {
      copy := new Image(w, h, c);
      var l := w * h * c;
      for i := 0 to l
        invariant copy.data[..i] == data[..i]
      {
        copy.data[i] := data[i];
      }
      assert copy.data[..] == copy.data[..l];
    }

    /** rgb_to_grayscale: a new one-channel image of the same size whose
        sample `i` is the luminance of pixel `i`. */
    method RgbToGrayscale() returns (gray: Image)
      requires Valid() && c == 3
      ensures fresh(gray) && fresh(gray.data)
      ensures gray.w == w && gray.h == h && gray.c == 1 && gray.Valid()
      ensures gray.data[..] == GrayPlane(data[..], w * h)
    {
      gray := new Image(w, h, 1);
      var offset := w * h;
      assert data.Length == 3 * offset;
      ghost var s := data[..];
      for i := 0 to offset
        invariant forall j :: 0 <= j < i ==> gray.data[j] == Luma(PixelAt(s, offset, j))
      {
        gray.data[i] := 0.3 * data[i] + 0.59 * data[i + offset] + 0.11 * data[i + offset * 2];
      }
      assert gray.data[..] == GrayPlane(s, offset);
    }

    /** shift_image as the code has it: it adds `v` to the `w*h*ch` samples
        that follow the first `w*h*ch` ones, which is plane `ch` only when
        `ch` is 1.  The code does not check the range against the buffer. */
    method ShiftImage(ch: int, v: real)
      requires 2 * (w * h * ch) <= data.Length
      modifies data
      ensures data[..] == ShiftedAsWritten(old(data[..]), w * h, ch, v)
    {
      var n := w * h;
      var offset := n * ch;
      ghost var s := data[..];
      var i := 0;
      while i < offset
        invariant 0 <= i && (if offset > 0 then i <= offset else i == 0)
        invariant data[..] == AddOnRange(s, offset, offset + i, v)
      {
        AddOnRangeStep(s, offset, offset + i, v);
        data[i + offset] := data[i + offset] + v;
        i := i + 1;
      }
      if offset > 0 {
        assert offset + i == 2 * offset;
      } else {
        AddOnEmptyRange(s, offset, offset, v);
        ShiftAsWrittenNoOpAtZero(s, n, ch, v);
      }
    }

    /** The corrected shift: `v` added to every sample of plane `ch`
        and to no other sample. */
    method ShiftChannel(ch: nat, v: real)
      requires Valid() && ch < c
      modifies data
      ensures data[..] == ShiftedChannel(old(data[..]), w * h, ch, v)
    {
      var offset := w * h;
      var base := offset * ch;
      MulLeq(ch + 1, c, offset);
      assert base + offset <= data.Length;
      for i := 0 to offset
        invariant data[..] == AddOnRange(old(data[..]), base, base + i, v)
      {
        data[base + i] := data[base + i] + v;
      }
    }

    /** clamp_image: every sample forced into [0, 255]. */
    method ClampImage()
      requires Valid()
      modifies data
      ensures data[..] == ClampAll(old(data[..]))
    {
      var l := w * h * c;
      for i := 0 to l
        invariant data[..i] == ClampAll(old(data[..]))[..i]
        invariant data[i..] == old(data[..])[i..]
      {
        data[i] := if data[i] < 0.0 then 0.0 else if data[i] > 255.0 then 255.0 else data[i];
      }
      assert data[..] == data[..l];
    }

    /** rgb_to_hsv: every pixel of the first three planes replaced in place by
        its hue, saturation and value; the samples after them are kept. */
    method RgbToHsv()
      requires 3 * (w * h) <= data.Length
      modifies data
      ensures data[..] == MapPixels(old(data[..]), w * h, RgbToHsvPixel)
    {
      var offset := w * h;
      for i := 0 to offset
        invariant data[..] == MapPixelsUpTo(old(data[..]), offset, RgbToHsvPixel, i)
      {
        ghost var before := data[..];
        PixelToHsvInPlace(i, offset);
        MapPixelsNext(old(data[..]), offset, RgbToHsvPixel, i, before, RgbToHsvPixel(PixelAt(before, offset, i)));
      }
    }

    /** One iteration of the rgb_to_hsv loop: pixel `i` of a buffer of `offset`
        pixels per plane read, converted and written back in place. */
    method PixelToHsvInPlace(i: nat, offset: nat)
      requires i < offset && 3 * offset <= data.Length
      modifies data
      ensures data[..] == WritePixel(old(data[..]), offset, i, RgbToHsvPixel(PixelAt(old(data[..]), offset, i)))
    {
      var hue, s, v := PixelToHsv(data[i], data[i + offset], data[i + offset * 2]);
      data[i] := hue;
      data[i + offset] := s;
      data[i + offset * 2] := v;
    }

    /** hsv_to_rgb: every pixel of the first three planes, read as hue,
        saturation and value, replaced in place by its red, green and blue;
        the samples after them are kept. */
    method HsvToRgb()
      requires 3 * (w * h) <= data.Length
      modifies data
      ensures data[..] == MapPixels(old(data[..]), w * h, HsvToRgbPixel)
    {
      var offset := w * h;
      for i := 0 to offset
        invariant data[..] == MapPixelsUpTo(old(data[..]), offset, HsvToRgbPixel, i)
      {
        ghost var before := data[..];
        PixelToRgbInPlace(i, offset);
        MapPixelsNext(old(data[..]), offset, HsvToRgbPixel, i, before, HsvToRgbPixel(PixelAt(before, offset, i)));
      }
    }

    /** One iteration of the hsv_to_rgb loop: pixel `i` of a buffer of `offset`
        pixels per plane read, converted and written back in place. */
    method PixelToRgbInPlace(i: nat, offset: nat)
      requires i < offset && 3 * offset <= data.Length
      modifies data
      ensures data[..] == WritePixel(old(data[..]), offset, i, HsvToRgbPixel(PixelAt(old(data[..]), offset, i)))
    {
      var r, g, b := PixelToRgb(data[i], data[i + offset], data[i + offset * 2]);
      data[i] := r;
      data[i + offset] := g;
      data[i + offset * 2] := b;
    }
  }

  /** The body of the rgb_to_hsv loop for one pixel: the value is the largest
      channel, the saturation the chroma over the value (0 at value 0), and
      the hue the position of the largest channel on the colour circle, in
      turns.  It computes, statement by statement as the loop body does, what
      Color.RgbToHsv defines as a value; the ensures says the two agree. */
  method PixelToHsv(r: real, g: real, b: real) returns (hue: real, s: real, v: real)
    ensures Hsv(hue, s, v) == Color.RgbToHsv(Rgb(r, g, b))
  {
    ghost var p := Rgb(r, g, b);
    v := ThreeWayMax(r, g, b);
    var m := ThreeWayMin(r, g, b);
    var cr := v - m;
    s := if v != 0.0 then cr / v else 0.0;
    if cr == 0.0 {
      hue := 0.0;
    } else {
      var hl;
      if v == r {
        hl := (g - b) / cr;
      } else if v == g {
        hl := (b - r) / cr + 2.0;
      } else {
        hl := (r - g) / cr + 4.0;
      }
      assert hl == HuePrime(p, cr, MaxChannel(p));
      hue := hl / 6.0;
      if hl < 0.0 {
        hue := hue + 1.0;
      }
    }
  }

  /** The body of the hsv_to_rgb loop for one pixel: chroma C = S * V, the
      intermediate component X, the colour of the sector the hue falls into,
      and the offset V - C added to each channel.  It is the statement-level
      form of Color.HsvToRgb, which defines the same pixel as a value; the
      ensures says the two agree. */
  method PixelToRgb(hh: real, s: real, v: real) returns (r: real, g: real, b: real)
    ensures Rgb(r, g, b) == HsvToRgbPixel(Rgb(hh, s, v))
  {
    ghost var q := Hsv(hh, s, v);
    var cr := s * v;
    assert cr == HsvChroma(q);
    var hl := hh * 6.0;
    var x := cr * (1.0 - Abs(FModTwo(hl) - 1.0));
    var m := v - cr;
    assert x == Intermediate(cr, hl);
    var rl, gl, bl := SectorChannels(hl, cr, x);
    RebuildIn(hl, cr, m, Sector(hl), x);
    r, g, b := rl + m, gl + m, bl + m;
  }

  /** The channels before the offset is added, chosen by the sector the hue
      position `hl` falls into, tested in the order the code tests them.  The
      if-chain repeats Color.Sector and Color.SectorColor, which define the
      same choice as values; the ensures says the two agree. */
  method SectorChannels(hl: real, cr: real, x: real) returns (rl: real, gl: real, bl: real)
    ensures Rgb(rl, gl, bl) == SectorColor(Sector(hl), cr, x)
  {
    if 0.0 <= hl && hl <= 1.0 {
      rl, gl, bl := cr, x, 0.0;
    } else if 1.0 < hl && hl <= 2.0 {
      rl, gl, bl := x, cr, 0.0;
    } else if 2.0 < hl && hl <= 3.0 {
      rl, gl, bl := 0.0, cr, x;
    } else if 3.0 < hl && hl <= 4.0 {
      rl, gl, bl := 0.0, x, cr;
    } else if 4.0 < hl && hl <= 5.0 {
      rl, gl, bl := x, 0.0, cr;
    } else {
      rl, gl, bl := cr, 0.0, x;
    }
  }
}
