/** The whole-buffer meaning of the image loops, stated on the sequence of
    samples.  `n` is the number of pixels of one plane, `w*h`; the pixel at
    position `i` of a three-channel image has its channels at `i`, `i + n`
    and `i + 2n`. */
module Planes {
  import opened Color

  /** The display range clamp_image forces a sample into, tested as the code
      does: below 0 first, then above 255. */
  function ClampSample(x: real): (r: real)
    ensures 0.0 <= r <= 255.0
    ensures x < 0.0 ==> r == 0.0
    ensures x > 255.0 ==> r == 255.0
    ensures 0.0 <= x <= 255.0 ==> r == x
  {
    if x < 0.0 then 0.0 else if x > 255.0 then 255.0 else x
  }

  predicate InDisplayRange(s: seq<real>)
  {
    forall i :: 0 <= i < |s| ==> 0.0 <= s[i] <= 255.0
  }

  /** Every sample of `s`, clamped. */
  function ClampAll(s: seq<real>): (t: seq<real>)
    ensures |t| == |s|
    ensures InDisplayRange(t)
    ensures forall i :: 0 <= i < |s| && 0.0 <= s[i] <= 255.0 ==> t[i] == s[i]
  {
    seq(|s|, i requires 0 <= i < |s| => ClampSample(s[i]))
  }

  /** Clamping a second time changes nothing. */
  lemma ClampAllIdempotent(s: seq<real>)
    ensures ClampAll(ClampAll(s)) == ClampAll(s)
  {
  }

  /** A buffer is left as it is exactly when all of it is already in range. */
  lemma ClampAllFixedIff(s: seq<real>)
    ensures ClampAll(s) == s <==> InDisplayRange(s)
  {
    if ClampAll(s) == s {
      assert InDisplayRange(ClampAll(s));
    }
  }

  lemma ClampAllExample()
    ensures ClampAll([-10.0, 0.0, 127.0, 255.0, 300.0]) == [0.0, 0.0, 127.0, 255.0, 255.0]
  {
  }

  /** `s` with `v` added to the samples at the indices in [lo, hi). */
  function AddOnRange(s: seq<real>, lo: int, hi: int, v: real): (t: seq<real>)
    ensures |t| == |s|
    ensures forall i :: 0 <= i < |s| && lo <= i < hi ==> t[i] == s[i] + v
    ensures forall i :: 0 <= i < |s| && !(lo <= i < hi) ==> t[i] == s[i]
  {
    seq(|s|, i requires 0 <= i < |s| => if lo <= i < hi then s[i] + v else s[i])
  }

  /** What shift_image does as written: with offset n*ch it adds `v` on
      [n*ch, 2*n*ch). */
  function ShiftedAsWritten(s: seq<real>, n: nat, ch: int, v: real): seq<real>
  {
    AddOnRange(s, n * ch, 2 * (n * ch), v)
  }

  /** Adding on an empty range changes nothing. */
  lemma AddOnEmptyRange(s: seq<real>, lo: int, hi: int, v: real)
    requires hi <= lo
    ensures AddOnRange(s, lo, hi, v) == s
  {
  }

  /** Extending the range of an addition by its next index is one update. */
  lemma AddOnRangeStep(s: seq<real>, lo: int, hi: int, v: real)
    requires lo <= hi && 0 <= hi < |s|
    ensures AddOnRange(s, lo, hi + 1, v) == AddOnRange(s, lo, hi, v)[hi := s[hi] + v]
  {
  }

  /** The corrected shift: `v` added to plane `ch` and nothing else. */
  function ShiftedChannel(s: seq<real>, n: nat, ch: nat, v: real): seq<real>
  {
    AddOnRange(s, n * ch, n * ch + n, v)
  }

  /** The corrected shift of a plane that exists stays inside a buffer of `c`
      planes, adds `v` to every sample of that plane and leaves the others. */
  lemma ShiftedChannelStaysInPlane(s: seq<real>, n: nat, c: nat, ch: nat, v: real)
    requires ch < c && |s| == n * c
    ensures n * ch + n <= |s|
    ensures forall i :: n * ch <= i < n * ch + n ==> ShiftedChannel(s, n, ch, v)[i] == s[i] + v
    ensures forall i :: 0 <= i < |s| && !(n * ch <= i < n * ch + n) ==> ShiftedChannel(s, n, ch, v)[i] == s[i]
  {
    assert n * ch + n == n * (ch + 1);
    assert n * (ch + 1) <= n * c;
  }

  /** As written, a shift whose offset n*ch is not positive changes nothing:
      channel 0, a negative channel, or an image with no pixel. */
  lemma ShiftAsWrittenNoOpAtZero(s: seq<real>, n: nat, ch: int, v: real)
    requires n * ch <= 0
    ensures ShiftedAsWritten(s, n, ch, v) == s
  {
    AddOnEmptyRange(s, n * ch, 2 * (n * ch), v);
  }

  /** ... so it misses plane 0 whenever there is a pixel and `v` is not 0. */
  lemma ShiftAsWrittenMissesPlaneZero(s: seq<real>, n: nat, v: real)
    requires 0 < n <= |s| && v != 0.0
    ensures ShiftedAsWritten(s, n, 0, v) != ShiftedChannel(s, n, 0, v)
  {
    ShiftAsWrittenNoOpAtZero(s, n, 0, v);
    assert ShiftedChannel(s, n, 0, v)[0] == s[0] + v;
  }

  /** For channel 1 the range [n, 2n) happens to be plane 1. */
  lemma ShiftAsWrittenRightAtOne(s: seq<real>, n: nat, v: real)
    ensures ShiftedAsWritten(s, n, 1, v) == ShiftedChannel(s, n, 1, v)
  {
  }

  /** From channel 2 on, the written range reaches past plane `ch` into the
      next one, and past the end of a three-channel buffer. */
  lemma ShiftAsWrittenOverrunsFromTwo(s: seq<real>, n: nat, ch: int, v: real)
    requires ch >= 2 && n > 0 && 2 * (n * ch) <= |s|
    ensures 2 * (n * ch) >= n * ch + 2 * n
    ensures 2 * (n * ch) > 3 * n
    ensures ShiftedAsWritten(s, n, ch, v)[n * ch + n] == s[n * ch + n] + v
  {
    assert n * ch >= 2 * n;
  }

  /** The pixel at position `i` of a three-plane buffer. */
  function PixelAt(s: seq<real>, n: nat, i: nat): Rgb
    requires i < n && 3 * n <= |s|
  {
    Rgb(s[i], s[i + n], s[i + 2 * n])
  }

  /** `s` with pixel `i` of the first three planes overwritten by `p`. */
  function WritePixel(s: seq<real>, n: nat, i: nat, p: Rgb): (t: seq<real>)
    requires i < n && 3 * n <= |s|
    ensures |t| == |s|
    ensures PixelAt(t, n, i) == p
    ensures forall j :: 0 <= j < n && j != i ==> PixelAt(t, n, j) == PixelAt(s, n, j)
    ensures forall j :: 3 * n <= j < |s| ==> t[j] == s[j]
  {
    s[i := p.r][i + n := p.g][i + 2 * n := p.b]
  }

  /** The buffer after its first `k` pixels have been replaced by their
      images under `f`, one pixel at a time in increasing order. */
  function MapPixelsUpTo(s: seq<real>, n: nat, f: Rgb -> Rgb, k: nat): (t: seq<real>)
    requires 3 * n <= |s| && k <= n
    ensures |t| == |s|
    ensures forall j :: 0 <= j < k ==> PixelAt(t, n, j) == f(PixelAt(s, n, j))
    ensures forall j :: k <= j < n ==> PixelAt(t, n, j) == PixelAt(s, n, j)
    ensures forall j :: 3 * n <= j < |s| ==> t[j] == s[j]
    decreases k
  {
    if k == 0 then s
    else WritePixel(MapPixelsUpTo(s, n, f, k - 1), n, k - 1, f(PixelAt(s, n, k - 1)))
  }

  /** The loop step: writing the image of pixel `k` into the buffer whose first
      `k` pixels are done gives the buffer whose first `k + 1` are. */
  lemma MapPixelsNext(s: seq<real>, n: nat, f: Rgb -> Rgb, k: nat, t: seq<real>, p: Rgb)
    requires 3 * n <= |s| && k < n
    requires t == MapPixelsUpTo(s, n, f, k) && p == f(PixelAt(t, n, k))
    ensures WritePixel(t, n, k, p) == MapPixelsUpTo(s, n, f, k + 1)
  {
  }

  /** The buffer after every pixel of the first three planes has been replaced
      by its image under `f`, each from that pixel alone; the rest of the
      buffer is kept. */
  function MapPixels(s: seq<real>, n: nat, f: Rgb -> Rgb): (t: seq<real>)
    requires 3 * n <= |s|
    ensures |t| == |s|
    ensures forall i :: 0 <= i < n ==> PixelAt(t, n, i) == f(PixelAt(s, n, i))
    ensures forall j :: 3 * n <= j < |s| ==> t[j] == s[j]
  {
    MapPixelsUpTo(s, n, f, n)
  }

  /** Two buffers of equal length that agree on every pixel of the first three
      planes and on every sample after them are equal. */
  lemma PlanesExtensional(s: seq<real>, t: seq<real>, n: nat)
    requires 3 * n <= |s| == |t|
    requires forall i :: 0 <= i < n ==> PixelAt(s, n, i) == PixelAt(t, n, i)
    requires forall j :: 3 * n <= j < |s| ==> s[j] == t[j]
    ensures s == t
  {
    forall j | 0 <= j < |s|
      ensures s[j] == t[j]
    {
      if j < n {
        assert PixelAt(s, n, j) == PixelAt(t, n, j);
      } else if j < 2 * n {
        assert PixelAt(s, n, j - n) == PixelAt(t, n, j - n);
      } else if j < 3 * n {
        assert PixelAt(s, n, j - 2 * n) == PixelAt(t, n, j - 2 * n);
      }
    }
  }

  /** Mapping the pixels by `f` and then by `g` gives the buffer back when `g`
      undoes `f` on every pixel. */
  lemma MapPixelsInverse(s: seq<real>, n: nat, f: Rgb -> Rgb, g: Rgb -> Rgb)
    requires 3 * n <= |s|
    requires forall i :: 0 <= i < n ==> g(f(PixelAt(s, n, i))) == PixelAt(s, n, i)
    ensures MapPixels(MapPixels(s, n, f), n, g) == s
  {
    var t := MapPixels(s, n, f);
    var u := MapPixels(t, n, g);
    PlanesExtensional(u, s, n);
  }

  /** The H, S and V of a pixel, stored in the planes that held R, G and B. */
  function HsvSamples(q: Hsv): Rgb
  {
    Rgb(q.h, q.s, q.v)
  }

  /** What rgb_to_hsv writes for the pixel `p`. */
  function RgbToHsvPixel(p: Rgb): Rgb
  {
    HsvSamples(RgbToHsv(p))
  }

  /** What hsv_to_rgb writes for the pixel whose three planes hold `p`. */
  function HsvToRgbPixel(p: Rgb): Rgb
  {
    HsvToRgb(Hsv(p.r, p.g, p.b))
  }

  /** Converting a buffer whose three planes hold no negative sample to HSV and
      back gives the buffer back. */
  lemma HsvPlanesRoundTrip(s: seq<real>, n: nat)
    requires 3 * n <= |s|
    requires forall j :: 0 <= j < 3 * n ==> s[j] >= 0.0
    ensures MapPixels(MapPixels(s, n, RgbToHsvPixel), n, HsvToRgbPixel) == s
  {
    forall i | 0 <= i < n
      ensures HsvToRgbPixel(RgbToHsvPixel(PixelAt(s, n, i))) == PixelAt(s, n, i)
    {
      var p := PixelAt(s, n, i);
      assert s[i] >= 0.0 && s[i + n] >= 0.0 && s[i + 2 * n] >= 0.0;
      HsvRoundTripNonNegative(p);
      assert Hsv(RgbToHsv(p).h, RgbToHsv(p).s, RgbToHsv(p).v) == RgbToHsv(p);
    }
    MapPixelsInverse(s, n, RgbToHsvPixel, HsvToRgbPixel);
  }

  /** The plane rgb_to_grayscale computes from the three planes of `s`. */
  function GrayPlane(s: seq<real>, n: nat): (g: seq<real>)
    requires 3 * n <= |s|
    ensures |g| == n
    ensures forall i :: 0 <= i < n ==> Lowest(PixelAt(s, n, i)) <= g[i] <= Value(PixelAt(s, n, i))
    ensures forall i :: 0 <= i < n && s[i] == s[i + n] == s[i + 2 * n] ==> g[i] == s[i]
  {
    seq(n, i requires 0 <= i < n => Luma(PixelAt(s, n, i)))
  }
}
