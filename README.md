# vision-hw0 `process_image.c` in Dafny

A model of the image operations of `src/process_image.c`. An image is a
`w` by `h` raster of `c` channels. Its samples live in one buffer, plane by
plane: channel `k` takes the `w*h` samples from `k*w*h` on, and inside a plane
pixel `(x, y)` is at `y*w + x`.

The operations are:

- the pixel accessors `get_pixel` and `set_pixel`, which clamp their
  coordinates before they compute the offset;
- `copy_image`, `rgb_to_grayscale`, `shift_image` and `clamp_image`;
- the helpers `three_way_max` and `three_way_min`;
- the in-place colour-space conversions `rgb_to_hsv` and `hsv_to_rgb`.

Samples are modelled as `real`. The project has four modules:

- `Planar` (`planar.dfy`) is the clamp and offset arithmetic of the
  accessors. It also holds the corrected clamp.
- `Color` (`color.dfy`) is the per-pixel arithmetic: maximum and minimum,
  luminance, `fmodf(x, 2)`, and one pixel of RGB to HSV and back. Here the
  round trip between the two conversions is proved.
- `Planes` (`planes.dfy`) holds the whole-buffer meaning of each loop as
  functions on the sequence of samples, with the lemmas about them:
  - clamping is idempotent;
  - shift as written against the corrected shift;
  - HSV and back on a whole buffer.
- `ProcessImage` (`process_image.dfy`) is the class `Image`, with constant
  `w`, `h`, `c` and an `array<real>` buffer. The source passes an image by
  value, so only the buffer's samples change.
  - Each C function that works on an image is a member of `Image`: a method,
    or for `get_pixel` a function. `three_way_max` and `three_way_min` are
    the functions Color.ThreeWayMax and Color.ThreeWayMin.
  - The postconditions of ClampImage, ShiftImage, ShiftChannel, RgbToHsv,
    HsvToRgb and RgbToGrayscale tie the new buffer to a `Planes` function of
    the old buffer. SetPixel states the old buffer updated at one offset, and
    Copy states a new buffer equal to the old one.
  - The body of each per-pixel conversion loop is a method of its own
    (PixelToHsv, PixelToRgb and SectorChannels), working on three samples and
    proved against the `Color` function for one pixel.

## Model

| member | source | states |
|---|---|---|
| Planar.ClampCoord | src/process_image.c:10-12 | a coordinate <= 0 becomes 0; one in (0, dim] is kept, dim itself included; one past dim becomes dim-1; for dim > 0 the result is in [0, dim] and equals dim exactly when the coordinate does |
| Planar.PixelOffset | src/process_image.c:14 | the offset of channel `ch`, row `y`, column `x` once each is clamped; it carries no ensures of its own; OffsetOfValidPosition, OutOfRangeColumns, ColumnAtWidthIsNextRow and CornerAtDimsOverruns state what it addresses |
| Planar.LayoutInBounds | src/process_image.c:14 | the planar index `ch*w*h + y*w + x` of an in-range position is below `w*h*c` |
| Planar.OffsetOfValidPosition | src/process_image.c:10-14 | at an in-range position the accessors' offset is the planar layout index and lies inside the buffer |
| Planar.OutOfRangeColumns | src/process_image.c:10-14 | a column <= 0 addresses column 0, a column past `w` addresses column `w-1` |
| Planar.ColumnAtWidthIsNextRow | src/process_image.c:10-14 | column `w` of row `y` addresses the first sample of row `y+1` |
| Planar.CornerAtDimsOverruns | src/process_image.c:10-16 | coordinates `(w, h, c)` address `w*h*c + w*h + w`, past the end of the buffer |
| Planar.ClampIndex | src/process_image.c:10-12 | corrected clamp: the result is in [0, dim) for dim > 0; it is the identity on [0, dim), 0 below, dim-1 above |
| Planar.ClampedOffset | src/process_image.c:10-14 | corrected offset: the same sum with the corrected clamp; it carries no ensures of its own; ClampedOffsetInBounds states that it stays inside the buffer |
| Planar.ClampedOffsetInBounds | src/process_image.c:10-16 | with the corrected clamp every position of a non-empty image, however far out of range, addresses the buffer |
| Planar.ClampsAgreeOffDimension | src/process_image.c:10-12 | the clamp as written and the corrected clamp differ exactly at a coordinate equal to its dimension |
| ProcessImage.Image.GetPixel | src/process_image.c:8-17 | reads the sample at the clamped offset; at an in-range position that is the planar layout index |
| ProcessImage.Image.SetPixel | src/process_image.c:19-28 | the buffer afterwards is the old one with only the clamped offset set to `v`; get_pixel at the same coordinates then reads `v` |
| ProcessImage.Image.constructor | src/process_image.c:32 | the image make_image returns: the given dimensions, and a fresh buffer of `w*h*c` zeros |
| ProcessImage.Image.Copy | src/process_image.c:30-42 | a fresh image with the same `w`, `h`, `c` and a fresh buffer holding the same samples; the original is not modified |
| Color.Luma | src/process_image.c:53 | the weighted sum 0.3 R + 0.59 G + 0.11 B lies between the smallest and the largest channel; a gray pixel keeps its level |
| Planes.GrayPlane | src/process_image.c:49-54 | `w*h` samples, each between the smallest and largest channel of its pixel, equal to the level of a gray pixel |
| ProcessImage.Image.RgbToGrayscale | src/process_image.c:44-57 | needs three channels; returns a fresh one-channel image of the same size whose plane is the luminance of each pixel; the input is not modified |
| Planes.AddOnRange | src/process_image.c:63-66 | `v` added to exactly the samples whose index is in [lo, hi); every other sample kept |
| ProcessImage.Image.ShiftImage | src/process_image.c:59-67 | as written: `v` added to the samples at [w*h*ch, 2*w*h*ch) and no others; the code needs that range inside the buffer |
| Planes.ShiftedAsWritten | src/process_image.c:61-66 | the buffer shift_image leaves: AddOnRange on [n*ch, 2*n*ch); it carries no ensures of its own; the ShiftAsWritten lemmas below pin it at channel 0, channel 1 and from channel 2 on |
| Planes.ShiftAsWrittenNoOpAtZero | src/process_image.c:61-66 | when the offset `w*h*ch` is not positive (channel 0, a negative channel, an empty image) nothing changes |
| Planes.ShiftAsWrittenMissesPlaneZero | src/process_image.c:61-66 | shifting channel 0 by a nonzero `v` differs from adding `v` to plane 0 |
| Planes.ShiftAsWrittenRightAtOne | src/process_image.c:61-66 | for channel 1 the written range is exactly plane 1 |
| Planes.ShiftAsWrittenOverrunsFromTwo | src/process_image.c:61-66 | from channel 2 on the written range reaches the plane after `ch` and past a three-plane buffer |
| Planes.AddOnRangeStep | src/process_image.c:63-66 | one loop step extends the shifted range by one index |
| ProcessImage.Image.ShiftChannel | src/process_image.c:59-67 | corrected shift: `v` added to plane `ch` and nothing else |
| Planes.ShiftedChannel | src/process_image.c:61-66 | corrected shift: AddOnRange on plane `ch`, [n*ch, n*ch + n); it carries no ensures of its own; ShiftedChannelStaysInPlane states its contract |
| Planes.ShiftedChannelStaysInPlane | src/process_image.c:61-66 | the corrected shift of an existing plane stays inside the buffer, adds `v` on the whole plane and leaves every other sample |
| Planes.ClampSample | src/process_image.c:75 | the result is in [0, 255]; below 0 gives 0, above 255 gives 255, a sample in range is kept |
| Planes.ClampAll | src/process_image.c:71-76 | same length; every sample in [0, 255]; samples already in range kept |
| Planes.ClampAllIdempotent | src/process_image.c:71-76 | clamping twice equals clamping once |
| Planes.ClampAllFixedIff | src/process_image.c:71-76 | clamping leaves a buffer unchanged exactly when all of it is already in range |
| Planes.ClampAllExample | src/process_image.c:75 | [-10, 0, 127, 255, 300] becomes [0, 0, 127, 255, 255] |
| ProcessImage.Image.ClampImage | src/process_image.c:69-77 | the buffer afterwards is the old one with every sample clamped |
| Color.ThreeWayMax | src/process_image.c:81-84 | returns one of its arguments, and that argument is >= all three |
| Color.ThreeWayMin | src/process_image.c:86-89 | returns one of its arguments, and that argument is <= all three |
| Color.Chroma | src/process_image.c:102-104 | the chroma V - m is never negative |
| Color.MaxChannel | src/process_image.c:113-121 | red exactly when V == R; green exactly when V != R and V == G; otherwise blue, which then holds V |
| Color.HuePrime | src/process_image.c:112-121 | the sector position Hl each branch computes; it carries no ensures of its own; HuePrimeBounds puts it in [-1, 5] for the branch of the largest channel, and HueIgnoresTiePrecedence shows tied branches agree |
| Color.HuePrimeBounds | src/process_image.c:112-121 | the branch taken puts Hl in [-1, 5] |
| Color.WrapHue | src/process_image.c:123-127 | for Hl in [-6, 6) the hue is in [0, 1); six times the hue is Hl, plus 6 when Hl is negative |
| Color.SaturationFacts | src/process_image.c:105 | C / V times V is C, and for a pixel with no negative channel C / V is in [0, 1] |
| Color.RgbToHsv | src/process_image.c:97-133 | V is the largest channel; S is 0 when V is 0 and otherwise S * V is the chroma; S is in [0, 1] for nonnegative channels; H is 0 without chroma and in [0, 1) with it |
| Color.HueIgnoresTiePrecedence | src/process_image.c:113-121 | when two channels tie for the maximum, either branch gives the same hue, so the R, G, B test order is immaterial |
| Color.PrimaryHues | src/process_image.c:95-133 | (1,0,0), (0,1,0), (0,0,1) become hue 0, 1/3, 2/3 at saturation and value 1 |
| ProcessImage.PixelToHsv | src/process_image.c:97-129 | the loop body's hue, saturation and value are those of Color.RgbToHsv |
| ProcessImage.Image.PixelToHsvInPlace | src/process_image.c:97-133 | one iteration overwrites pixel `i` of the three planes with its H, S, V and nothing else |
| Planes.MapPixelsUpTo | src/process_image.c:95-134 | after `k` iterations the first `k` pixels are converted, the others and the samples past the three planes are untouched |
| Planes.MapPixelsNext | src/process_image.c:95-134 | one more iteration converts one more pixel |
| Planes.MapPixels | src/process_image.c:95-134 | every pixel of the three planes converted on its own; the samples past them kept |
| ProcessImage.Image.RgbToHsv | src/process_image.c:91-135 | the buffer afterwards holds each pixel's H, S, V in the three planes, the rest unchanged |
| Color.FModTwo | src/process_image.c:150 | fmodf(a, 2): in [0, 2) for a >= 0, in (-2, 0] for a <= 0, and a whole multiple of 2 away from a |
| Color.Trunc | src/process_image.c:150 | the quotient of fmodf, rounded toward zero |
| Color.Abs | src/process_image.c:150 | fabs: the result is not negative and is either the argument or its negation |
| Color.Intermediate | src/process_image.c:150 | X = C * (1 - fabs(fmodf(Hl, 2) - 1)); it carries no ensures of its own; IntermediateOnBand states it on each band [2k, 2k + 2) |
| Color.IntermediateOnBand | src/process_image.c:150 | on the band [2k, 2k + 2), k >= 0, X is C * (1 - fabs(Hl - 2k - 1)) |
| Color.SectorIntervals | src/process_image.c:154-171 | the sector tests partition the line: [0, 1], then (1, 2] to (4, 5], and every other value gives the last sector |
| Color.Sector | src/process_image.c:154-171 | the branch of the if-chain Hl selects, numbered 1 to 6; it carries no ensures of its own; SectorIntervals states which interval gives which sector |
| Color.SectorColor | src/process_image.c:156-171 | the channels (Rl, Gl, Bl) each branch assigns; it carries no ensures of its own; SectorColorChannels states that they are C, X and 0 in some order |
| Color.SectorColorChannels | src/process_image.c:154-172 | every branch assigns C, X and 0 to the three channels, each value once |
| Color.HsvChroma | src/process_image.c:147 | the chroma C = S * V; it carries no ensures of its own; HsvToRgbCases and HsvRoundTrip state what it gives |
| ProcessImage.SectorChannels | src/process_image.c:153-172 | the channels before the offset are those of the sector Hl falls into |
| ProcessImage.PixelToRgb | src/process_image.c:143-176 | the loop body's red, green and blue are those of Color.HsvToRgb |
| Color.HsvToRgb | src/process_image.c:143-176 | hsv_to_rgb for one pixel; it carries no ensures of its own; its contract is HsvToRgbCases (gray at S == 0, the first sector at H == 0, the last sector off [0, 5]) and HsvRoundTrip (it undoes Color.RgbToHsv) |
| Color.HsvToRgbCases | src/process_image.c:147-176 | S == 0 gives V on all channels; H == 0 gives the first sector (V, V-C, V-C); an Hl outside [0, 5] gives the last sector (C, 0, X) plus m |
| ProcessImage.Image.PixelToRgbInPlace | src/process_image.c:143-176 | one iteration overwrites pixel `i` of the three planes with its R, G, B and nothing else |
| ProcessImage.Image.HsvToRgb | src/process_image.c:137-178 | the buffer afterwards holds each pixel's R, G, B in the three planes, the rest unchanged |
| Color.HsvRoundTrip | src/process_image.c:91-178 | hsv_to_rgb undoes rgb_to_hsv exactly for every pixel whose value is not 0 or whose channels are equal |
| Color.HsvRoundTripNonNegative | src/process_image.c:91-178 | every pixel with no negative channel survives the round trip |
| Color.RoundTripNeedsNonzeroValue | src/process_image.c:105-109 | the condition of the round trip is needed: (-1, 0, 0) comes back as (0, 0, 0) |
| Planes.MapPixelsInverse | src/process_image.c:95-134 | converting every pixel with `f` and then with `g` restores the buffer when `g` undoes `f` on each pixel |
| Planes.HsvPlanesRoundTrip | src/process_image.c:91-178 | a buffer whose three planes hold no negative sample is restored by rgb_to_hsv followed by hsv_to_rgb |

## Left out

- Floating point: samples, weights and intermediate results are exact reals.
  IEEE single-precision rounding, the float tolerance of the round trip, and
  the exact float comparisons (`V == R`, `C == 0`) as float tests are not
  modelled; those comparisons are real equalities.
- `fmodf` and `fabs` are C library calls. The model has `fmodf` only for the
  divisor 2, the one the code uses (Color.FModTwo), and `fabs` as Color.Abs.
- Integer width: `w*h*c` and the offsets are C `int` and can overflow. The
  model computes them unbounded.
- Negative dimensions: `w`, `h` and `c` are natural numbers in the model.
- `make_image` and the `image` struct come from `image.h`, which is not part
  of this model. The constructor stands for make_image as a fresh,
  zero-filled buffer of `w*h*c` samples.
- The `assert(im.c == 3)` of rgb_to_grayscale aborts the program. It is a
  precondition of ProcessImage.Image.RgbToGrayscale.
- Out-of-bounds reads and writes are undefined behaviour in C. Each method
  requires what keeps its accesses inside the buffer:
  - GetPixel and SetPixel: the clamped offset is inside the buffer;
  - ShiftImage: `2*w*h*ch` is at most the buffer length;
  - RgbToHsv and HsvToRgb: the buffer has at least three planes.
- ProcessImage.Image.GetPixel: its contract names the sample only at an
  in-range position. Out-of-range positions are described by the Planar
  lemmas about PixelOffset.
- The else-branch `im.w - 1` of the clamp shows that it is meant to map
  coordinates into [0, dim-1]. The test at src/process_image.c:10 is
  `x <= im.w`, so a coordinate equal to its dimension passes through. The
  model follows the code (see ## Findings).
- The accessors and ShiftImage model the code as written. The corrected
  clamp (Planar.ClampIndex) and shift (ProcessImage.Image.ShiftChannel) stand
  beside them.

## Findings

| source | as written | input that shows it | evidently intended | confidence | as-written member | corrected member |
|---|---|---|---|---|---|---|
| src/process_image.c:10-12 | `x <= im.w ? x : im.w - 1` passes a coordinate equal to its dimension through | w=2, h=2, c=1: get_pixel(im, 2, 0, 0) reads offset 2, the pixel (0, 1); get_pixel(im, 2, 2, 1) reads offset 10 of a 4-sample buffer | every coordinate forced into [0, dim-1] (`x < im.w`) | not executed; high | Planar.CornerAtDimsOverruns | Planar.ClampedOffsetInBounds |
| src/process_image.c:61-66 | the loop runs to `offset = w*h*c` and writes `data[i+offset]`, covering [w*h*c, 2*w*h*c) | shift_image(im, 0, 0.4) changes nothing; on a 3-channel image shift_image(im, 2, v) writes indices 2*w*h to 4*w*h - 1, the last w*h of them past the end of the buffer | `v` added to plane `c` alone, [w*h*c, w*h*c + w*h) | not executed; high | Planes.ShiftAsWrittenMissesPlaneZero | Planes.ShiftedChannelStaysInPlane |
