/** Per-pixel colour arithmetic: the three-way maximum and minimum, the
    luminance weights of the grayscale conversion, and the RGB to HSV
    conversion pair.  Samples are real numbers; a pixel's three channels are
    read from the three planes of the image at one position. */
module Color {

  datatype Rgb = Rgb(r: real, g: real, b: real)
  datatype Hsv = Hsv(h: real, s: real, v: real)

  function ThreeWayMax(a: real, b: real, c: real): (r: real)
    ensures r == a || r == b || r == c
    ensures r >= a && r >= b && r >= c
  {
    if a > b then (if a > c then a else c) else (if b > c then b else c)
  }

  function ThreeWayMin(a: real, b: real, c: real): (r: real)
    ensures r == a || r == b || r == c
    ensures r <= a && r <= b && r <= c
  {
    if a < b then (if a < c then a else c) else (if b < c then b else c)
  }

  function Abs(x: real): (r: real)
    ensures r >= 0.0 && (r == x || r == -x)
  {
    if x < 0.0 then -x else x
  }

  /** Rounds toward zero, as a float-to-integer quotient does in C. */
  function Trunc(q: real): (t: int)
    ensures q >= 0.0 ==> t as real <= q < t as real + 1.0
    ensures q < 0.0 ==> t as real - 1.0 < q <= t as real
  {
    if q >= 0.0 then q.Floor else -((-q).Floor)
  }

  predicate IsWhole(q: real)
  {
    q.Floor as real == q
  }

  lemma RealMulMonotone(x: real, y: real, k: real)
    requires k > 0.0
    ensures x < y ==> k * x < k * y
  {
  }

  /** The remainder of `a` by 2 whose quotient is truncated toward zero, as
      C's fmodf(a, 2) computes it: the result has the sign of the dividend,
      is smaller than 2 in absolute value, and differs from `a` by a whole
      multiple of 2. */
  function FModTwo(a: real): (r: real)
    ensures a >= 0.0 ==> 0.0 <= r < 2.0
    ensures a <= 0.0 ==> -2.0 < r <= 0.0
    ensures IsWhole((a - r) / 2.0)
  {
    a - 2.0 * Trunc(a / 2.0) as real
  }

  /** The value of a pixel: its largest channel. */
  function Value(p: Rgb): real
  {
    ThreeWayMax(p.r, p.g, p.b)
  }

  /** The smallest channel of a pixel. */
  function Lowest(p: Rgb): real
  {
    ThreeWayMin(p.r, p.g, p.b)
  }

  /** The chroma of a pixel: its largest channel minus its smallest. */
  function Chroma(p: Rgb): (c: real)
    ensures c >= 0.0
  {
    Value(p) - Lowest(p)
  }

  /** The luminance-weighted sum of the grayscale conversion.  The weights sum
      to one, so the result lies between the smallest and largest channel and
      a gray pixel keeps its level. */
  function Luma(p: Rgb): (y: real)
    ensures Lowest(p) <= y <= Value(p)
    ensures p.r == p.g == p.b ==> y == p.r
  {
    0.3 * p.r + 0.59 * p.g + 0.11 * p.b
  }

  /** The branches of the hue computation. */
  datatype Channel = Red | Green | Blue

  /** The channel the hue computation takes as the maximum: the code tests
      R, then G, and takes B otherwise, so a tie goes to the earlier one. */
  function MaxChannel(p: Rgb): (k: Channel)
    ensures k == Red <==> Value(p) == p.r
    ensures k == Green <==> Value(p) != p.r && Value(p) == p.g
    ensures k == Blue ==> Value(p) == p.b
  {
    var v := Value(p);
    if v == p.r then Red else if v == p.g then Green else Blue
  }

  /** The sample of channel `k`. */
  function ChannelOf(p: Rgb, k: Channel): real
  {
    match k
    case Red => p.r
    case Green => p.g
    case Blue => p.b
  }

  /** The hue-sector position Hl, in units of sixths of a turn, that branch
      `k` computes from a pixel of chroma `c`. */
  function HuePrime(p: Rgb, c: real, k: Channel): real
    requires c != 0.0
  {
    match k
    case Red => (p.g - p.b) / c
    case Green => (p.b - p.r) / c + 2.0
    case Blue => (p.r - p.g) / c + 4.0
  }

  /** Hl / 6, moved into [0, 1) by one turn when Hl is negative. */
  function WrapHue(hl: real): (hue: real)
    ensures -6.0 <= hl < 6.0 ==> 0.0 <= hue < 1.0
    ensures hue * 6.0 == if hl < 0.0 then hl + 6.0 else hl
  {
    if hl < 0.0 then hl / 6.0 + 1.0 else hl / 6.0
  }

  lemma RatioBounds(x: real, c: real)
    requires c > 0.0 && -c <= x <= c
    ensures -1.0 <= x / c <= 1.0
    ensures c * (x / c) == x
    ensures x >= 0.0 ==> x / c >= 0.0
    ensures x < 0.0 ==> x / c < 0.0
    ensures x / c == 1.0 <==> x == c
    ensures x / c == -1.0 <==> x == -c
  {
    assert c * (x / c) == x;
    RealMulMonotone(1.0, x / c, c);
    RealMulMonotone(x / c, -1.0, c);
    RealMulMonotone(0.0, x / c, c);
    RealMulMonotone(x / c, 0.0, c);
    assert x / c == 1.0 ==> x == c * 1.0;
    assert x / c == -1.0 ==> x == c * -1.0;
  }

  /** The branch that holds the maximum puts Hl into [-1, 5]. */
  lemma HuePrimeBounds(p: Rgb, k: Channel)
    requires Chroma(p) != 0.0 && k == MaxChannel(p)
    ensures -1.0 <= HuePrime(p, Chroma(p), k) <= 5.0
  {
    var c := Chroma(p);
    match k
    case Red => RatioBounds(p.g - p.b, c);
    case Green => RatioBounds(p.b - p.r, c);
    case Blue => RatioBounds(p.r - p.g, c);
  }

  /** The saturation C / V recovers the chroma, and lies in [0, 1] for a pixel
      with no negative channel. */
  lemma SaturationFacts(p: Rgb)
    requires Value(p) != 0.0
    ensures (Chroma(p) / Value(p)) * Value(p) == Chroma(p)
    ensures p.r >= 0.0 && p.g >= 0.0 && p.b >= 0.0 ==> 0.0 <= Chroma(p) / Value(p) <= 1.0
  {
    var v, c := Value(p), Chroma(p);
    assert (c / v) * v == c;
    if p.r >= 0.0 && p.g >= 0.0 && p.b >= 0.0 {
      RatioBounds(c, v);
    }
  }

  /** rgb_to_hsv for one pixel. */
  function RgbToHsv(p: Rgb): (q: Hsv)
    ensures q.v == ThreeWayMax(p.r, p.g, p.b)
    ensures q.v == 0.0 ==> q.s == 0.0
    ensures q.v != 0.0 ==> q.s * q.v == Chroma(p)
    ensures p.r >= 0.0 && p.g >= 0.0 && p.b >= 0.0 ==> 0.0 <= q.s <= 1.0
    ensures Chroma(p) == 0.0 ==> q.h == 0.0
    ensures Chroma(p) != 0.0 ==> 0.0 <= q.h < 1.0
  {
    var v := Value(p);
    var c := Chroma(p);
    var s := if v != 0.0 then SaturationFacts(p); c / v else 0.0;
    if c == 0.0 then
      Hsv(0.0, s, v)
    else
      HuePrimeBounds(p, MaxChannel(p));
      Hsv(WrapHue(HuePrime(p, c, MaxChannel(p))), s, v)
  }

  /** The sector of the hue circle Hl falls into, tested as the code does:
      [0, 1] closed at both ends, then (1, 2], (2, 3], (3, 4], (4, 5], and
      every other value, negative ones included, in the sixth. */
  function Sector(hl: real): int
  {
    if 0.0 <= hl <= 1.0 then 1
    else if 1.0 < hl <= 2.0 then 2
    else if 2.0 < hl <= 3.0 then 3
    else if 3.0 < hl <= 4.0 then 4
    else if 4.0 < hl <= 5.0 then 5
    else 6
  }

  /** The sectors partition the line: the first is closed at both ends, the
      next four are closed above only, and the sixth takes everything else. */
  lemma SectorIntervals(hl: real)
    ensures 1 <= Sector(hl) <= 6
    ensures Sector(hl) == 1 <==> 0.0 <= hl <= 1.0
    ensures 2 <= Sector(hl) <= 5 <==> 1.0 < hl <= 5.0
    ensures 2 <= Sector(hl) <= 5 ==> (Sector(hl) - 1) as real < hl <= Sector(hl) as real
    ensures Sector(hl) == 6 <==> hl < 0.0 || hl > 5.0
  {
  }

  /** The channels before the offset `m` is added, for sector `k`, chroma `c`
      and intermediate component `x`. */
  function SectorColor(k: int, c: real, x: real): Rgb
  {
    if k == 1 then Rgb(c, x, 0.0)
    else if k == 2 then Rgb(x, c, 0.0)
    else if k == 3 then Rgb(0.0, c, x)
    else if k == 4 then Rgb(0.0, x, c)
    else if k == 5 then Rgb(x, 0.0, c)
    else Rgb(c, 0.0, x)
  }

  /** Every sector colour holds C, X and 0, each once, in the order of its
      sector. */
  lemma SectorColorChannels(k: int, c: real, x: real)
    ensures var q := SectorColor(k, c, x); multiset{q.r, q.g, q.b} == multiset{c, x, 0.0}
  {
  }

  /** The intermediate component X = C * (1 - |fmodf(Hl, 2) - 1|). */
  function Intermediate(c: real, hl: real): real
  {
    c * (1.0 - Abs(FModTwo(hl) - 1.0))
  }

  /** Adds the offset `m` to every channel. */
  function AddOffset(q: Rgb, m: real): Rgb
  {
    Rgb(q.r + m, q.g + m, q.b + m)
  }

  /** The channels hsv_to_rgb writes for sector position `hl`, chroma `c` and
      offset `m`. */
  function Rebuild(hl: real, c: real, m: real): Rgb
  {
    AddOffset(SectorColor(Sector(hl), c, Intermediate(c, hl)), m)
  }

  /** The chroma C = V * S hsv_to_rgb starts from. */
  function HsvChroma(p: Hsv): real
  {
    p.s * p.v
  }

  /** hsv_to_rgb for one pixel. */
  function HsvToRgb(p: Hsv): Rgb
  {
    Rebuild(p.h * 6.0, HsvChroma(p), p.v - HsvChroma(p))
  }

  /** fmodf(a, 2) of an `a` in [2k, 2k + 2), k >= 0, is `a - 2k`. */
  lemma FModTwoOnBand(a: real, k: int)
    requires 0 <= k && 2.0 * k as real <= a < 2.0 * k as real + 2.0
    ensures FModTwo(a) == a - 2.0 * k as real
  {
    var q := a / 2.0;
    assert k as real <= q < k as real + 1.0;
    assert q.Floor == k;
  }

  /** On the band [2k, 2k + 2) the intermediate component is
      C * (1 - |Hl - 2k - 1|). */
  lemma IntermediateOnBand(c: real, hl: real, k: int, e: real)
    requires 0 <= k && 2.0 * k as real <= hl < 2.0 * k as real + 2.0
    requires e == Abs(hl - 2.0 * k as real - 1.0)
    ensures Intermediate(c, hl) == c * (1.0 - e)
  {
    FModTwoOnBand(hl, k);
  }

  lemma RebuildIn(hl: real, c: real, m: real, k: int, x: real)
    requires Sector(hl) == k && Intermediate(c, hl) == x
    ensures Rebuild(hl, c, m) == AddOffset(SectorColor(k, c, x), m)
  {
  }

  /** Zero saturation gives gray at the value; hue 0 is the first sector,
      red at full value; a sector position outside [0, 5] falls into the last
      sector, (C, 0, X). */
  lemma HsvToRgbCases(p: Hsv)
    ensures p.s == 0.0 ==> HsvToRgb(p) == Rgb(p.v, p.v, p.v)
    ensures p.h == 0.0 ==> HsvToRgb(p) == Rgb(p.v, p.v - HsvChroma(p), p.v - HsvChroma(p))
    ensures !(0.0 <= p.h * 6.0 <= 5.0) ==>
      HsvToRgb(p) == Rgb(p.v, p.v - HsvChroma(p), p.v - HsvChroma(p) + Intermediate(HsvChroma(p), p.h * 6.0))
  {
    var c, hl := HsvChroma(p), p.h * 6.0;
    if p.s == 0.0 {
      assert c == 0.0 && Intermediate(c, hl) == 0.0;
      RebuildIn(hl, c, p.v, Sector(hl), 0.0);
    }
    if p.h == 0.0 {
      IntermediateOnBand(c, hl, 0, 1.0);
      RebuildIn(hl, c, p.v - c, 1, 0.0);
    }
    if !(0.0 <= hl <= 5.0) {
      RebuildIn(hl, c, p.v - c, 6, Intermediate(c, hl));
    }
  }

  /** Undoing the red branch with G >= B: Hl = (G - B) / C lies in [0, 1]. */
  lemma RebuildRedRising(p: Rgb)
    requires Chroma(p) != 0.0 && MaxChannel(p) == Red && p.g >= p.b
    ensures var c := Chroma(p);
      Rebuild(WrapHue(HuePrime(p, c, Red)) * 6.0, c, Value(p) - c) == p
  {
    var c := Chroma(p);
    var hl := (p.g - p.b) / c;
    RatioBounds(p.g - p.b, c);
    assert p.b == Value(p) - c;
    assert WrapHue(hl) * 6.0 == hl;
    IntermediateOnBand(c, hl, 0, 1.0 - hl);
    assert c * (1.0 - (1.0 - hl)) == p.g - p.b;
    RebuildIn(hl, c, p.b, 1, p.g - p.b);
  }

  /** Undoing the red branch with G < B: Hl = (G - B) / C lies in [-1, 0) and
      is wrapped by a turn into [5, 6). */
  lemma RebuildRedFalling(p: Rgb)
    requires Chroma(p) != 0.0 && MaxChannel(p) == Red && p.g < p.b
    ensures var c := Chroma(p);
      Rebuild(WrapHue(HuePrime(p, c, Red)) * 6.0, c, Value(p) - c) == p
  {
    var c := Chroma(p);
    var hl := (p.g - p.b) / c;
    RatioBounds(p.g - p.b, c);
    assert p.g == Value(p) - c;
    var hl' := hl + 6.0;
    assert WrapHue(hl) * 6.0 == hl';
    IntermediateOnBand(c, hl', 2, hl + 1.0);
    assert c * (1.0 - (hl + 1.0)) == p.b - p.g;
    if hl == -1.0 {
      assert p.b == p.r;
      RebuildIn(hl', c, p.g, 5, p.b - p.g);
    } else {
      RebuildIn(hl', c, p.g, 6, p.b - p.g);
    }
  }

  /** Undoing the green branch with B >= R: Hl = (B - R) / C + 2 lies in
      [2, 3]. */
  lemma RebuildGreenRising(p: Rgb)
    requires Chroma(p) != 0.0 && MaxChannel(p) == Green && p.b >= p.r
    ensures var c := Chroma(p);
      Rebuild(WrapHue(HuePrime(p, c, Green)) * 6.0, c, Value(p) - c) == p
  {
    var c := Chroma(p);
    var d := (p.b - p.r) / c;
    var hl := d + 2.0;
    RatioBounds(p.b - p.r, c);
    assert p.r == Value(p) - c;
    assert WrapHue(hl) * 6.0 == hl;
    IntermediateOnBand(c, hl, 1, 1.0 - d);
    assert c * (1.0 - (1.0 - d)) == p.b - p.r;
    if hl == 2.0 {
      RebuildIn(hl, c, p.r, 2, p.b - p.r);
    } else {
      RebuildIn(hl, c, p.r, 3, p.b - p.r);
    }
  }

  /** Undoing the green branch with B < R: Hl = (B - R) / C + 2 lies in
      (1, 2), since R is not the maximum. */
  lemma RebuildGreenFalling(p: Rgb)
    requires Chroma(p) != 0.0 && MaxChannel(p) == Green && p.b < p.r
    ensures var c := Chroma(p);
      Rebuild(WrapHue(HuePrime(p, c, Green)) * 6.0, c, Value(p) - c) == p
  {
    var c := Chroma(p);
    var d := (p.b - p.r) / c;
    var hl := d + 2.0;
    RatioBounds(p.b - p.r, c);
    assert p.b == Value(p) - c;
    assert WrapHue(hl) * 6.0 == hl;
    IntermediateOnBand(c, hl, 0, 1.0 + d);
    assert c * (1.0 - (1.0 + d)) == p.r - p.b;
    RebuildIn(hl, c, p.b, 2, p.r - p.b);
  }

  /** Undoing the blue branch with R >= G: Hl = (R - G) / C + 4 lies in
      [4, 5), since R is not the maximum. */
  lemma RebuildBlueRising(p: Rgb)
    requires Chroma(p) != 0.0 && MaxChannel(p) == Blue && p.r >= p.g
    ensures var c := Chroma(p);
      Rebuild(WrapHue(HuePrime(p, c, Blue)) * 6.0, c, Value(p) - c) == p
  {
    var c := Chroma(p);
    var d := (p.r - p.g) / c;
    var hl := d + 4.0;
    RatioBounds(p.r - p.g, c);
    assert p.g == Value(p) - c;
    assert WrapHue(hl) * 6.0 == hl;
    IntermediateOnBand(c, hl, 2, 1.0 - d);
    assert c * (1.0 - (1.0 - d)) == p.r - p.g;
    if hl == 4.0 {
      RebuildIn(hl, c, p.g, 4, p.r - p.g);
    } else {
      RebuildIn(hl, c, p.g, 5, p.r - p.g);
    }
  }

  /** Undoing the blue branch with R < G: Hl = (R - G) / C + 4 lies in
      (3, 4), since G is not the maximum. */
  lemma RebuildBlueFalling(p: Rgb)
    requires Chroma(p) != 0.0 && MaxChannel(p) == Blue && p.r < p.g
    ensures var c := Chroma(p);
      Rebuild(WrapHue(HuePrime(p, c, Blue)) * 6.0, c, Value(p) - c) == p
  {
    var c := Chroma(p);
    var d := (p.r - p.g) / c;
    var hl := d + 4.0;
    RatioBounds(p.r - p.g, c);
    assert p.r == Value(p) - c;
    assert WrapHue(hl) * 6.0 == hl;
    IntermediateOnBand(c, hl, 1, 1.0 + d);
    assert c * (1.0 - (1.0 + d)) == p.g - p.r;
    RebuildIn(hl, c, p.r, 4, p.g - p.r);
  }

  /** A gray pixel converts to hue 0 and saturation 0 and back to itself. */
  lemma RebuildGray(p: Rgb)
    requires Chroma(p) == 0.0
    ensures HsvToRgb(RgbToHsv(p)) == p
  {
    var q := RgbToHsv(p);
    var v := Value(p);
    assert p.r == v && p.g == v && p.b == v;
    assert q.s == 0.0 && q.v == v;
    HsvToRgbCases(q);
  }

  /** For a pixel with chroma, hsv_to_rgb receives back the chroma and the
      wrapped sector position rgb_to_hsv derived. */
  lemma ChromaticRoundTrip(p: Rgb)
    requires Value(p) != 0.0 && Chroma(p) != 0.0
    ensures var c := Chroma(p);
      HsvToRgb(RgbToHsv(p)) == Rebuild(WrapHue(HuePrime(p, c, MaxChannel(p))) * 6.0, c, Value(p) - c)
  {
    var q := RgbToHsv(p);
    assert q.h == WrapHue(HuePrime(p, Chroma(p), MaxChannel(p)));
    assert HsvChroma(q) == Chroma(p) && q.v == Value(p);
  }

  /** hsv_to_rgb undoes rgb_to_hsv exactly, over the reals, for every pixel
      whose largest channel is not zero or whose channels are all equal. */
  lemma HsvRoundTrip(p: Rgb)
    requires Value(p) != 0.0 || Chroma(p) == 0.0
    ensures HsvToRgb(RgbToHsv(p)) == p
  {
    var c := Chroma(p);
    if c == 0.0 {
      RebuildGray(p);
    } else {
      ChromaticRoundTrip(p);
      match MaxChannel(p)
      case Red => if p.g >= p.b { RebuildRedRising(p); } else { RebuildRedFalling(p); }
      case Green => if p.b >= p.r { RebuildGreenRising(p); } else { RebuildGreenFalling(p); }
      case Blue => if p.r >= p.g { RebuildBlueRising(p); } else { RebuildBlueFalling(p); }
    }
  }

  /** Every pixel with no negative channel survives the round trip. */
  lemma HsvRoundTripNonNegative(p: Rgb)
    requires p.r >= 0.0 && p.g >= 0.0 && p.b >= 0.0
    ensures HsvToRgb(RgbToHsv(p)) == p
  {
    if Value(p) == 0.0 {
      assert p.r == 0.0 && p.g == 0.0 && p.b == 0.0;
    }
    HsvRoundTrip(p);
  }

  /** The order in which the code tests the channels does not matter: when
      two channels tie for the maximum, either branch gives the same hue. */
  lemma HueIgnoresTiePrecedence(p: Rgb, k: Channel)
    requires Chroma(p) != 0.0 && ChannelOf(p, k) == Value(p)
    ensures WrapHue(HuePrime(p, Chroma(p), k)) == WrapHue(HuePrime(p, Chroma(p), MaxChannel(p)))
  {
    var c, v := Chroma(p), Value(p);
    var k' := MaxChannel(p);
    if k != k' {
      if {k, k'} == {Red, Green} {
        assert p.b == v - c;
        assert (p.g - p.b) / c == 1.0 && (p.b - p.r) / c == -1.0;
      } else if {k, k'} == {Red, Blue} {
        assert p.g == v - c;
        assert (p.g - p.b) / c == -1.0 && (p.r - p.g) / c == 1.0;
      } else {
        assert {k, k'} == {Green, Blue};
        assert p.r == v - c;
        assert (p.b - p.r) / c == 1.0 && (p.r - p.g) / c == -1.0;
      }
    }
  }

  /** Pure red, green and blue land at hue 0, 1/3 and 2/3 at full saturation
      and value. */
  lemma PrimaryHues()
    ensures RgbToHsv(Rgb(1.0, 0.0, 0.0)) == Hsv(0.0, 1.0, 1.0)
    ensures RgbToHsv(Rgb(0.0, 1.0, 0.0)) == Hsv(1.0 / 3.0, 1.0, 1.0)
    ensures RgbToHsv(Rgb(0.0, 0.0, 1.0)) == Hsv(2.0 / 3.0, 1.0, 1.0)
  {
    assert MaxChannel(Rgb(1.0, 0.0, 0.0)) == Red;
    assert MaxChannel(Rgb(0.0, 1.0, 0.0)) == Green;
    assert MaxChannel(Rgb(0.0, 0.0, 1.0)) == Blue;
  }

  /** The round trip can fail when every channel is at most zero and not all
      are equal: (-1, 0, 0) has value 0, so its saturation is 0 and it comes
      back black. */
  lemma RoundTripNeedsNonzeroValue()
    ensures HsvToRgb(RgbToHsv(Rgb(-1.0, 0.0, 0.0))) == Rgb(0.0, 0.0, 0.0)
  {
    var p := Rgb(-1.0, 0.0, 0.0);
    assert Value(p) == 0.0 && Chroma(p) == 1.0;
    var q := RgbToHsv(p);
    assert q.s == 0.0 && q.v == 0.0;
    HsvToRgbCases(q);
  }
}
