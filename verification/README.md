# CLAHE reference pipeline in Dafny

A model of the sequential reference implementation of tile-based contrast-limited adaptive
histogram equalisation (CLAHE) in `src/helper.c`, with proofs of its invariants. The pipeline
works on a single-channel image cut into square tiles of `TILE_SIZE` pixels. It has three
stages, grouped as `src/helper.h` groups its helpers:

- Stage 1: `skip_histogram` builds a 256-bin histogram per tile and finds the most common
  intensity of the whole image.
- Stage 2 has three steps:
  - 2a: `skip_limited_histogram` clips every bin at `ABSOLUTE_CONTRAST_LIMIT` and hands part of
    the surplus back to all bins.
  - 2b: `skip_cumulative_histogram` takes prefix sums.
  - 2c: `skip_equalised_histogram` turns each tile's histogram into a 256-entry byte table.
- Stage 3: `skip_interpolate` maps every pixel through its own tile's table. Depending on where
  the pixel lies, it blends the result with one neighbouring tile (on the image border) or three
  (in the interior).

The `validate_*` functions recompute a stage and count the tiles or pixels where a candidate
result disagrees with it.

Modules, following the stages:

- `Arith`: quotient and remainder facts for the index arithmetic.
- `Common`: the configuration, bytes, images, 256-bin histograms and their sums.
- `Permutation`: reordering by a permutation of indices keeps a multiset.
- `Tiling`: the mapping from (tile, offset in tile) to buffer offset, and the visiting order of
  the pixel loops.
- `Histogram`: stage 1.
- `Limiter`: stage 2a.
- `Cumulative`: stage 2b.
- `Equalise`: stage 2c.
- `Interpolate`: stage 3, together with `lerp_direction`, `lerp_weight`, `mix_uc` and `mix_f`.
- `Validate`: the counting logic of the `validate_*` functions.

Constants and types that the source uses without defining them become assumptions of the model:

- `TILE_SIZE` and `ABSOLUTE_CONTRAST_LIMIT` are the fields of a `Config`.
- `TILE_SIZE` is positive and even.
- `HALF_TILE_SIZE` is `TILE_SIZE / 2` and `TILE_PIXELS` is `TILE_SIZE * TILE_SIZE`.
- `PIXEL_MAX` is 255. `PIXEL_RANGE` is 256, as `src/config.h` defines it.
- Image width and height are multiples of `TILE_SIZE`, and the buffer holds `width * height`
  bytes.

Counters are unbounded naturals. The one unsigned wrap-around that decides a result is written
out: `cum[i] - cdf_min` in `skip_equalised_histogram`, taken modulo 2^32. Floats are exact
reals. A float-to-`unsigned char` cast is the floor of a non-negative real, and `roundf` on a
non-negative value is `floor(x + 0.5)`. The output image of `skip_interpolate` is given pixel by
pixel. A lemma shows that the store at `tile_offset + pixel_offset` receives the interpolation of
the pixel loaded from that same offset. Other lemmas show that the loops reach every offset
exactly once.

Where the code and the usual description of this CLAHE variant differ, the model follows the code:

- Bins of a limited histogram can exceed `ABSOLUTE_CONTRAST_LIMIT`. The bonus is added to every
  bin, clipped ones included (`Limiter.LimiterMayExceedLimit`).
- Surplus is handed back only when `extra_contrast > 256`. When `extra_contrast <= 256`, all of
  it is dropped. So `lost_contrast = extra_contrast % 256`, as recomputed by
  `skip_equalised_histogram`, differs from what the limiter dropped exactly when
  `extra_contrast == 256` (`Limiter.LimiterLoss`).
- For a flat tile within the contrast limit, the table maps the tile's intensity to 1, not to
  `PIXEL_MAX`. Every entry whose cumulative value equals `cdf_min` maps to 1
  (`Equalise.FlatTileTable`). When the tile exceeds the limit by more than 256, the bonus makes
  `cum[0]` non-zero, so `cdf_min` is `cum[0]`. Then intensity 0 maps to 1, and a spike at any
  other intensity maps to at least 2 (`Equalise.FlatTileOverLimitTable`).
- An image without pixels is not an error. `skip_histogram` returns -1, and `validate_histogram`
  rejects that value (`Validate.ReferenceHistogramPasses`).
- Table entries below `cdf_min` are not clamped before the division. The unsigned subtraction
  wraps, and the huge quotient is clamped to 255 (`Equalise.BinBelowCdfMin`).

## Model

| member | source | states |
|---|---|---|
| Tiling.PixelIndexRowMajor | src/helper.c:124-130 | tile_offset + pixel_offset is the row-major offset of row t_y*TILE_SIZE+p_y, column t_x*TILE_SIZE+p_x |
| Tiling.PixelIndexInBounds | src/helper.c:124-130 | every offset the loops read lies inside the width*height buffer |
| Tiling.PosOfPixelIndex | src/helper.c:121-130 | the offset determines the tile and in-tile position it came from, so distinct positions are distinct offsets |
| Tiling.PixelIndexOfPos | src/helper.c:121-130 | every buffer offset is the offset of some in-grid position |
| Tiling.VisitOrderIsPermutation | src/helper.c:121-134 | the four nested loops over t_x, t_y, p_x, p_y visit every pixel offset of the image exactly once |
| Histogram.AccumulateCounts | src/helper.c:131-132 | after histogram[pixel]++ over a pixel sequence, each bin has grown by the number of pixels of that intensity |
| Histogram.AccumulateSum | src/helper.c:131-132 | each pixel adds exactly one count to the histogram's total |
| Histogram.HistogramConservation | src/helper.c:121-134 | tile (t_x, t_y)'s histogram is stored at t_y*TILES_X+t_x, each bin counts that tile's pixels of that intensity, and the bins sum to TILE_PIXELS |
| Histogram.GlobalHistogramIsImageHistogram | src/helper.c:118-134 | the global histogram built in tile order equals the histogram of the image in buffer order |
| Histogram.MaxScan | src/helper.c:140-145 | the scan with strict < ends with a count no bin exceeds and, when positive, the first bin that has it |
| Histogram.MostCommon | src/helper.c:138-145 | with max_i starting at -1, the result is -1 for an all-zero histogram and otherwise the smallest intensity of maximal count |
| Histogram.ModeUnique | src/helper.c:138-145 | the mode condition determines a single value |
| Histogram.SkipHistogram | src/helper.c:115-149 | skip_histogram itself: one histogram per tile, in the tile order of the loops, and the most common intensity of the global histogram; the result holds TILES_X*TILES_Y histograms of 256 bins. Its properties are carried by Histogram.HistogramConservation and Histogram.SkipHistogramMode |
| Histogram.SkipHistogramMode | src/helper.c:115-149 | skip_histogram returns the smallest most common intensity of the image, and -1 exactly when the image has no pixels |
| Limiter.LimitedHistogram | src/helper.c:185-201 | the limiter of one tile, clipping at ABSOLUTE_CONTRAST_LIMIT and adding bonus_contrast to every bin only when extra_contrast > 256; its shape, mass and loss are stated by Limiter.LimiterShape, Limiter.LimiterMass and Limiter.LimiterLoss |
| Limiter.LimitedHistograms | src/helper.c:179-205 | skip_limited_histogram: the limiter applied to every tile index, giving one 256-bin histogram per tile |
| Limiter.ClipPlusExcess | src/helper.c:186-193 | the bins as copied plus extra_contrast give back the original total |
| Limiter.BonusBounds | src/helper.c:195-197 | 256*bonus never exceeds extra_contrast, bonus is 0 unless extra_contrast > 256, and otherwise the remainder is extra_contrast % 256 |
| Limiter.LimiterShape | src/helper.c:185-201 | a bin over the limit becomes limit + bonus, any other keeps its count plus bonus, and none exceeds limit + bonus |
| Limiter.LimiterNoOp | src/helper.c:185-201 | when no bin exceeds the limit, extra_contrast is 0 and the limited histogram is the original |
| Limiter.LimiterMayExceedLimit | src/helper.c:195-201 | once the surplus is handed back, every bin that was at or over the limit ends above it |
| Limiter.LimiterMass | src/helper.c:185-201 | sum(limited) + extra_contrast = sum(original) + 256*bonus, and limiting never increases the total |
| Limiter.LimiterLoss | src/helper.c:185-201 | the mass the limiter drops is extra % 256 when extra > 256 and extra otherwise, so it equals the lost_contrast of line 301 exactly when extra != 256 |
| Cumulative.CumulativeHistograms | src/helper.c:234-252 | skip_cumulative_histogram: one cumulative histogram per tile, each of 256 bins; each is characterised by Cumulative.CumulativeHistogram and Cumulative.CumulativeRecurrence |
| Cumulative.CumulativeHistogram | src/helper.c:241-248 | entry i is the sum of limited bins 0..i |
| Cumulative.CumulativeRecurrence | src/helper.c:241-248 | cum[0] = lim[0] and cum[i] = cum[i-1] + lim[i], the loop's recurrence |
| Cumulative.CumulativeProperties | src/helper.c:241-248 | the cumulative histogram never decreases and its last entry is the limited histogram's total |
| Cumulative.CumulativeStep | src/helper.c:243-248 | cum[i] <= cum[j] for i <= j |
| Equalise.RoundHalfUp | src/helper.c:312 | roundf on a non-negative value is within one half of it |
| Equalise.EqualisedBin | src/helper.c:311-315 | a table entry, after the clamp to PIXEL_MAX, lies in [1, 255] |
| Equalise.EqualisedHistograms | src/helper.c:281-323 | skip_equalised_histogram: one 256-entry table per tile, each entry in [1, 255] by Equalise.EqualiseTile, with the shape stated by Equalise.EqualiseTableShape |
| Equalise.EqualiseTile | src/helper.c:291-316 | every entry of a tile's table lies in [1, 255] |
| Equalise.ExtraBounded | src/helper.c:295-301 | lost_contrast <= extra_contrast <= the histogram's total |
| Equalise.CdfMin | src/helper.c:303-309 | the cdf_min scan with its break, starting from cum[0]; what it finds is stated by Equalise.CdfMinIsSmallestNonZero |
| Equalise.CdfMinIsSmallestNonZero | src/helper.c:303-309 | cdf_min is cum[0] when non-zero, 0 when all entries are zero, and otherwise no greater than any non-zero entry and equal to one of them |
| Equalise.BelowCdfMinIsZero | src/helper.c:303-309 | only zero cumulative entries lie below cdf_min |
| Equalise.BinAtCdfMin | src/helper.c:312-315 | an entry whose cumulative value equals cdf_min is 1 |
| Equalise.BinBelowCdfMin | src/helper.c:312-315 | an entry below cdf_min wraps around in unsigned arithmetic and clamps to 255 |
| Equalise.BinMonotone | src/helper.c:312-315 | from cdf_min upward the entry never decreases with the cumulative value |
| Equalise.EqualiseTableShape | src/helper.c:311-315 | entries at cdf_min are 1, entries below it are 255, and the table never decreases from any entry at or above cdf_min |
| Equalise.FlatTileTable | src/helper.c:281-316 | a flat tile within the limit keeps its spike, its cumulative histogram steps to TILE_PIXELS at its intensity, cdf_min is TILE_PIXELS, and the table maps darker intensities to 255 and the rest to 1 |
| Equalise.FlatTileOverLimit | src/helper.c:281-309 | a flat tile more than 256 over the limit gets bonus > 0 and denominator limit + 256*bonus, its cumulative histogram is cum[i] = (i+1)*bonus plus the limit from its intensity on, and cdf_min = cum[0] |
| Equalise.FlatTileOverLimitTable | src/helper.c:281-316 | for such a tile, intensity 0 maps to 1 and a spike at any intensity v > 0 maps to at least 2 |
| Interpolate.LerpDirection | src/helper.c:35-37 | the direction is always -1 or +1, never 0; when it is -1 is stated by Interpolate.LerpGeometry |
| Interpolate.LerpWeight | src/helper.c:43-45 | the home weight lies in [0.5, 1] and is 1 at HALF_TILE_SIZE |
| Interpolate.LerpGeometry | src/helper.c:35-45 | the weight is 1 - distance from HALF_TILE_SIZE / TILE_SIZE, and the direction is -1 exactly when i < HALF_TILE_SIZE |
| Interpolate.MixF | src/helper.c:27-29 | for a weight in [0, 1], x*a + y*(1-a) lies between x and y, and is x when a = 1 |
| Interpolate.MixBounds | src/helper.c:27-29 | for a weight a in [0, 1] the blend lies between x and y, and is x when a = 1 |
| Interpolate.MixUc | src/helper.c:24-26 | the truncated blend of two bytes lies between them and is x when a = 1 |
| Interpolate.Classify | src/helper.c:374-394 | the branch conditions in order: corner (both edge tests), X border, Y border, otherwise bilinear; Interpolate.SingleTileIsCorner and Interpolate.CornerUsesHomeTable state consequences |
| Interpolate.InterpolateAt | src/helper.c:374-417 | one pixel's output per branch, with the neighbour indices of Interpolate.Neighbours, mix_uc on the border rows and the truncated mix_f of the two mix_uc rows in the interior; its range is stated by Interpolate.InterpolateBetweenNeighbours |
| Interpolate.Neighbours | src/helper.c:374-421 | the tiles a pixel reads are its home tile alone (corner), two tiles (border) or four (interior), home first, each index in [0, TILES_X*TILES_Y) |
| Interpolate.AwayTilesExist | src/helper.c:378-414 | in the border and interior branches t_y + direction and t_x + direction stay inside the grid |
| Interpolate.InterpolateBetweenNeighbours | src/helper.c:374-421 | each output value lies between the smallest and the largest of the table values it blends |
| Interpolate.UniformTables | src/helper.c:374-421 | when all tiles share one table, every pixel is that table's lookup |
| Interpolate.CornerUsesHomeTable | src/helper.c:374-376 | a corner-quarter pixel takes its own tile's table value unchanged |
| Interpolate.CentreUsesHomeTable | src/helper.c:374-421 | the pixel at offset (HALF_TILE_SIZE, HALF_TILE_SIZE) takes its own tile's table value in every branch |
| Interpolate.SingleTileIsCorner | src/helper.c:374-375 | with a 1x1 tile grid every pixel takes the corner branch |
| Interpolate.SkipInterpolate | src/helper.c:355-429 | skip_interpolate: an output image of the input's dimensions, valid for the configuration, whose pixel at each buffer offset is given by Interpolate.InterpolateStoresEachPixel |
| Interpolate.InterpolateStoresEachPixel | src/helper.c:364-423 | the output at tile_offset + pixel_offset is the interpolation of the input pixel at the same offset |
| Validate.BadTiles | src/helper.c:57-68 | the bad-tile count is at most the number of tiles and is 0 exactly when every tile's histogram matches |
| Validate.BadTilesCounts | src/helper.c:57-68 | the bad-tile count is the number of tile indices whose histogram differs |
| Validate.Candidates | src/helper.c:76-101 | validation_most_common_contrast: 256 slots, the bins of maximal count from max_i upward and then -1; what it accepts is stated by Validate.ModeAccepted |
| Validate.AcceptScan | src/helper.c:102-109 | the bad_contrast loop that stops at the first -1; Validate.AcceptScanFinds states that it accepts exactly the candidates before the padding |
| Validate.ModeAccepted | src/helper.c:88-109 | the candidate list accepts a claimed intensity exactly when it is a bin of maximal global count |
| Validate.ValidateHistogram | src/helper.c:48-109 | no bad tiles exactly when the candidate histograms equal skip_histogram's, and the contrast passes exactly when the claimed intensity is a bin of maximal count |
| Validate.ReferenceHistogramPasses | src/helper.c:48-109 | skip_histogram's own result has no bad tiles, and its mode fails exactly for an image without pixels |
| Validate.ValidateLimited | src/helper.c:159-170 | no bad histograms exactly when the candidate equals skip_limited_histogram's result |
| Validate.ValidateCumulative | src/helper.c:214-225 | no bad histograms exactly when the candidate equals skip_cumulative_histogram's result |
| Validate.ValidateEqualised | src/helper.c:261-272 | no bad tables exactly when the candidate equals skip_equalised_histogram's result |
| Validate.ComparePixels | src/helper.c:335-346 | no bad pixels exactly when every pixel is within one level, and no bad or close pixels exactly when the images are equal |
| Validate.ValidateInterpolate | src/helper.c:326-346 | the same two equivalences against skip_interpolate's output |

## Left out

- The `skip_*_used` counters and `getSkipUsed` / `getStage*SkipUsed` (src/helper.c:47, 151, 206,
  253, 325, 431-442): global bookkeeping of which stages ran, not behaviour of the algorithm.
- Console output of the `validate_*` functions (fprintf, printf, colour codes). Only the counts
  and the pass or fail of the mode are modelled.
- malloc, memset, memcpy and free of the per-tile buffers. Sequences replace them, and every
  stage starts from zeroed histograms.
- Bit-exact IEEE float behaviour of `roundf`, `mix_uc`, `mix_f`, the int-to-float conversions and
  fast-math: weights and blends are exact reals.
- Fixed-width overflow of the histogram counters (unsigned int and unsigned long long) and of the
  int `extra_contrast`. These cannot overflow for images whose tiles hold fewer than 2^31 pixels.
- Fixed-width overflow of the index arithmetic. `tile_offset`, `pixel_offset` and their sum are
  unsigned int and wrap from 2^32 pixels on (src/helper.c:124, 129, 362, 367). The int product
  `width * height` (src/helper.c:82, 337) overflows from 2^31 pixels on, which is undefined in C.
  Tiling.PixelIndex, Histogram.HistogramOf and Validate.ComparePixels compute with unbounded
  integers, so the model describes the program only for images below 2^31 pixels, where none of
  these wrap.
- The parallel back ends, the particle pipeline (`src/cpu.c`, `src/openmp.c`), `src/main.h` and
  the palette of `src/config.h`: they are not part of the CLAHE reference.
- MixF: bounds are stated only for weights in [0, 1]. Every weight the pipeline passes lies in
  [0.5, 1]. The source allows any weight.
- MixUc: requires a weight in [0, 1]. Outside that range the cast to unsigned char of a
  negative or too-large value is undefined in C.
- EqualiseTile: requires TILE_PIXELS - lost_contrast > 0, which the source assumes without a
  check.
- EqualiseTableShape: assumes the histogram holds at most TILE_PIXELS counts and TILE_PIXELS <=
  2^31, as for every histogram skip_histogram builds. Only then is the wrapped difference below
  cdf_min large enough to clamp.
- BinBelowCdfMin: assumes cdf_min and the denominator are at most 2^31, for the same reason.
- FlatTileTable: covers only a flat tile within the contrast limit, where the limiter leaves the
  spike unchanged. Equalise.FlatTileOverLimit and Equalise.FlatTileOverLimitTable cover a tile
  more than 256 over the limit. A flat
  tile over the limit by at most 256 is not covered by a lemma of its own: nothing is handed back,
  so the general Equalise.EqualiseTableShape maps its intensity to 1.
- FlatTileOverLimitTable: assumes TILE_PIXELS <= 2^31, as EqualiseTableShape does, and states
  only the entries at 0 and at the spike's intensity.
- ValidateInterpolate: requires the candidate image to have as many pixels as the input. The
  source reads that many without checking.
