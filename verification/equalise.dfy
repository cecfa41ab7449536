/**
  Stage 2c, skip_equalised_histogram: from the original tile histograms it
  recomputes the limited and cumulative histograms, lost_contrast and
  cdf_min, and derives a 256-entry byte table per tile,
  table[i] = min(round((cum[i] - cdf_min) / (TILE_PIXELS - lost_contrast) * 254) + 1, 255)
  where the subtraction is unsigned int arithmetic.
 */
module Equalise {

  import opened Common
  import opened Limiter
  import opened Cumulative
  import opened Arith

  /** unsigned int arithmetic wraps modulo 2^32. */
  const UintModulus: nat := 0x1_0000_0000

  /** a - b computed in unsigned int arithmetic. */
  function UintSub(a: nat, b: nat): nat {
    (a - b) % UintModulus
  }

  /** roundf on a non-negative value: the nearest integer, halves rounded up. */
  function RoundHalfUp(x: real): (r: nat)
    requires x >= 0.0
    ensures r as real - 0.5 <= x < r as real + 0.5
  {
    (x + 0.5).Floor
  }

  /** The loop that looks for cdf_min: the first cumulative value following a zero one,
      or cum[0] when the scan finds no such step. */
  function CdfMinScan(cum: seq<nat>, i: nat): nat
    requires IsHistogram(cum)
    requires 1 <= i <= PixelRange
    decreases PixelRange - i
  {
    if i == PixelRange then cum[0]
    else if cum[i - 1] == 0 && cum[i] != 0 then cum[i]
    else CdfMinScan(cum, i + 1)
  }

  /** cdf_min of a cumulative histogram. */
  function CdfMin(cum: seq<nat>): nat
    requires IsHistogram(cum)
  {
    CdfMinScan(cum, 1)
  }

  /** One table entry, computed from its cumulative value with the given cdf_min and
      denominator TILE_PIXELS - lost_contrast, then clamped to PIXEL_MAX. */
  function EqualisedBin(c: nat, cdfMin: nat, denom: nat): (e: Byte)
    requires denom > 0
    ensures 1 <= e <= PixelMax
  {
    var t := RoundHalfUp((UintSub(c, cdfMin) as real / denom as real) * (PixelRange - 2) as real) + 1;
    if t > PixelMax then PixelMax else t
  }

  /** The equalisation table of one tile, from its original histogram. */
  function EqualiseTile(cfg: Config, h: seq<nat>): (table: seq<Byte>)
    requires IsHistogram(h)
    requires LostContrast(cfg, h) < cfg.TilePixels()
    ensures |table| == PixelRange
    ensures forall i :: 0 <= i < PixelRange ==> 1 <= table[i] <= PixelMax
  {
    var cum := CumulativeHistogram(LimitedHistogram(cfg, h));
    var cdfMin := CdfMin(cum);
    var denom := cfg.TilePixels() - LostContrast(cfg, h);
    seq(PixelRange, i requires 0 <= i < PixelRange => EqualisedBin(cum[i], cdfMin, denom))
  }

  /** Every tile's normalisation denominator TILE_PIXELS - lost_contrast is positive. */
  predicate DenominatorsPositive(cfg: Config, hs: seq<seq<nat>>) {
    forall t :: 0 <= t < |hs| ==> LostContrast(cfg, hs[t]) < cfg.TilePixels()
  }

  /** skip_equalised_histogram over every tile. */
  function EqualisedHistograms(cfg: Config, hs: seq<seq<nat>>): (tables: seq<seq<Byte>>)
    requires AllHistograms(hs)
    requires DenominatorsPositive(cfg, hs)
    ensures |tables| == |hs|
    ensures forall t :: 0 <= t < |tables| ==> |tables[t]| == PixelRange
  {
    seq(|hs|, t requires 0 <= t < |hs| => EqualiseTile(cfg, hs[t]))
  }

  /** Nothing clipped can exceed the whole histogram, so extra_contrast, and lost_contrast
      (its remainder modulo 256), are at most its sum. */
  lemma ExtraBounded(cfg: Config, h: seq<nat>)
    ensures LostContrast(cfg, h) <= ExtraContrast(cfg, h) <= Sum(h)
  {
    ClipPlusExcess(cfg, h);
  }

  /** While the scan has only seen non-zero entries it ends with cum[0]. */
  lemma {:induction false} CdfMinScanNoStep(cum: seq<nat>, i: nat)
    requires IsHistogram(cum)
    requires 1 <= i <= PixelRange
    requires forall j :: 0 <= j < PixelRange ==> cum[j] != 0
    ensures CdfMinScan(cum, i) == cum[0]
    decreases PixelRange - i
  {
    if i < PixelRange {
      CdfMinScanNoStep(cum, i + 1);
    }
  }

  /** Started after a run of zeros, the scan returns the first non-zero entry, or cum[0] = 0. */
  lemma {:induction false} CdfMinScanAfterZeros(cum: seq<nat>, i: nat)
    requires IsHistogram(cum) && NonDecreasing(cum)
    requires 1 <= i <= PixelRange
    requires forall j :: 0 <= j < i ==> cum[j] == 0
    ensures forall j :: 0 <= j < PixelRange && cum[j] != 0 ==> 0 < CdfMinScan(cum, i) <= cum[j]
    ensures exists j :: 0 <= j < PixelRange && cum[j] == CdfMinScan(cum, i)
    decreases PixelRange - i
  {
    if i == PixelRange {
      assert cum[0] == CdfMinScan(cum, i);
    } else if cum[i] != 0 {
      assert cum[i] == CdfMinScan(cum, i);
    } else {
      CdfMinScanAfterZeros(cum, i + 1);
    }
  }

  /** cdf_min is cum[0] when that is non-zero, otherwise the first non-zero cumulative value,
      or 0 when all are zero: on a cumulative histogram, the smallest non-zero entry. */
  lemma CdfMinIsSmallestNonZero(cum: seq<nat>)
    requires IsHistogram(cum) && NonDecreasing(cum)
    ensures cum[0] != 0 ==> CdfMin(cum) == cum[0]
    ensures (forall j :: 0 <= j < PixelRange ==> cum[j] == 0) ==> CdfMin(cum) == 0
    ensures forall j :: 0 <= j < PixelRange && cum[j] != 0 ==> 0 < CdfMin(cum) <= cum[j]
    ensures exists j :: 0 <= j < PixelRange && cum[j] == CdfMin(cum)
  {
    if cum[0] != 0 {
      CdfMinScanNoStep(cum, 1);
    } else {
      CdfMinScanAfterZeros(cum, 1);
    }
  }

  /** On a cumulative histogram only zero entries lie below cdf_min. */
  lemma BelowCdfMinIsZero(cum: seq<nat>)
    requires IsHistogram(cum) && NonDecreasing(cum)
    ensures forall j :: 0 <= j < PixelRange && cum[j] < CdfMin(cum) ==> cum[j] == 0
  {
    CdfMinIsSmallestNonZero(cum);
  }

  /** An entry whose cumulative value equals cdf_min maps to 1. */
  lemma BinAtCdfMin(c: nat, denom: nat)
    requires denom > 0
    ensures EqualisedBin(c, c, denom) == 1
  {
    assert UintSub(c, c) == 0;
  }

  /** An entry below cdf_min wraps around to a huge unsigned difference and clamps to PIXEL_MAX. */
  lemma BinBelowCdfMin(c: nat, cdfMin: nat, denom: nat)
    requires 0 < denom <= UintModulus / 2
    requires c < cdfMin <= UintModulus / 2
    ensures EqualisedBin(c, cdfMin, denom) == PixelMax
  {
    var d := UintSub(c, cdfMin);
    assert d == UintModulus - (cdfMin - c);
    assert d as real >= denom as real;
    RatioAtLeastOne(d as real, denom as real);
  }

  lemma RatioAtLeastOne(a: real, b: real)
    requires 0.0 < b <= a
    ensures a / b >= 1.0
  {
  }

  /** Above cdf_min the table is monotone in the cumulative value. */
  lemma BinMonotone(c1: nat, c2: nat, cdfMin: nat, denom: nat)
    requires denom > 0
    requires cdfMin <= c1 <= c2 < UintModulus
    ensures EqualisedBin(c1, cdfMin, denom) <= EqualisedBin(c2, cdfMin, denom)
  {
    var d1, d2 := UintSub(c1, cdfMin), UintSub(c2, cdfMin);
    assert d1 == c1 - cdfMin && d2 == c2 - cdfMin;
    RatioMonotone(d1 as real, d2 as real, denom as real);
  }

  lemma RatioMonotone(a: real, b: real, d: real)
    requires 0.0 <= a <= b
    requires d > 0.0
    ensures a / d <= b / d
  {
    assert b / d - a / d == (b - a) / d;
  }

  /** Table range: every entry lies in [1, 255]; entries whose cumulative value equals cdf_min
      are 1, entries below cdf_min (the wrapped unsigned difference) are 255, and from any entry
      at or above cdf_min onward the table never decreases. Assumes the histogram holds at most
      TILE_PIXELS counts and TILE_PIXELS <= 2^31, as for the histograms skip_histogram builds. */
  lemma EqualiseTableShape(cfg: Config, h: seq<nat>)
    requires IsHistogram(h)
    requires LostContrast(cfg, h) < cfg.TilePixels()
    requires Sum(h) <= cfg.TilePixels() <= UintModulus / 2
    ensures var cum := CumulativeHistogram(LimitedHistogram(cfg, h));
      && (forall i :: 0 <= i < PixelRange && cum[i] == CdfMin(cum) ==> EqualiseTile(cfg, h)[i] == 1)
      && (forall i :: 0 <= i < PixelRange && cum[i] < CdfMin(cum) ==> EqualiseTile(cfg, h)[i] == PixelMax)
      && (forall i, j :: 0 <= i <= j < PixelRange && cum[i] >= CdfMin(cum)
            ==> EqualiseTile(cfg, h)[i] <= EqualiseTile(cfg, h)[j])
  {
    var l := LimitedHistogram(cfg, h);
    var cum := CumulativeHistogram(l);
    var cdfMin := CdfMin(cum);
    var denom := cfg.TilePixels() - LostContrast(cfg, h);
    var table := EqualiseTile(cfg, h);
    LimiterMass(cfg, h);
    CumulativeProperties(l);
    CdfMinIsSmallestNonZero(cum);
    assert cdfMin <= Sum(l) by {
      var j :| 0 <= j < PixelRange && cum[j] == cdfMin;
    }
    forall i | 0 <= i < PixelRange && cum[i] == cdfMin
      ensures table[i] == 1
    {
      BinAtCdfMin(cum[i], denom);
    }
    forall i | 0 <= i < PixelRange && cum[i] < cdfMin
      ensures table[i] == PixelMax
    {
      BinBelowCdfMin(cum[i], cdfMin, denom);
    }
    forall i, j | 0 <= i <= j < PixelRange && cum[i] >= cdfMin
      ensures table[i] <= table[j]
    {
      BinMonotone(cum[i], cum[j], cdfMin, denom);
    }
  }

  /** A histogram with all of its `count` pixels at intensity v. */
  function Spike(v: Byte, count: nat): (h: seq<nat>)
    ensures IsHistogram(h)
  {
    seq(PixelRange, i requires 0 <= i < PixelRange => if i == v then count else 0)
  }

  lemma {:induction false} SpikePrefixSum(v: Byte, count: nat, i: nat)
    requires i <= PixelRange
    ensures Sum(Spike(v, count)[..i]) == if i <= v then 0 else count
  {
    if i > 0 {
      var s := Spike(v, count);
      assert s[..i][..i - 1] == s[..i - 1];
      SpikePrefixSum(v, count, i - 1);
    }
  }

  /** A flat tile within the limit: its histogram is a spike of TILE_PIXELS counts at v, the
      limited histogram is the spike itself, the cumulative histogram steps from 0 to
      TILE_PIXELS at v, cdf_min is TILE_PIXELS, and the table maps v (and every brighter
      intensity) to 1 and every darker intensity to 255. */
  lemma FlatTileTable(cfg: Config, v: Byte)
    requires 0 < cfg.TilePixels() <= cfg.contrastLimit
    requires cfg.TilePixels() <= UintModulus / 2
    ensures LostContrast(cfg, Spike(v, cfg.TilePixels())) == 0
    ensures var h := Spike(v, cfg.TilePixels());
      var cum := CumulativeHistogram(LimitedHistogram(cfg, h));
      && LimitedHistogram(cfg, h) == h
      && CdfMin(cum) == cfg.TilePixels()
      && (forall i :: 0 <= i < PixelRange ==> cum[i] == if i < v then 0 else cfg.TilePixels())
      && (forall i :: 0 <= i < PixelRange ==> EqualiseTile(cfg, h)[i] == if i < v then PixelMax else 1)
  {
    var tp := cfg.TilePixels();
    var h := Spike(v, tp);
    LimiterNoOp(cfg, h);
    var cum := CumulativeHistogram(h);
    forall i | 0 <= i < PixelRange
      ensures cum[i] == if i < v then 0 else tp
    {
      SpikePrefixSum(v, tp, i + 1);
    }
    CumulativeProperties(h);
    CdfMinIsSmallestNonZero(cum);
    assert cum[v] == tp;
    SpikePrefixSum(v, tp, PixelRange);
    assert h[..PixelRange] == h;
    EqualiseTableShape(cfg, h);
  }

  /** Only the spike's own bin can be clipped, so a flat tile's extra_contrast is what its
      single bin exceeds the limit by. */
  lemma SpikeExtra(cfg: Config, v: Byte, count: nat)
    ensures ExtraContrast(cfg, Spike(v, count)) == Excess(cfg, count)
  {
    var h := Spike(v, count);
    var cut := seq(|h|, i requires 0 <= i < |h| => Excess(cfg, h[i]));
    assert cut == Spike(v, Excess(cfg, count));
    SpikePrefixSum(v, Excess(cfg, count), PixelRange);
    assert cut[..PixelRange] == cut;
  }

  /** A cumulative value at least 1/508 of the denominator above cdf_min rounds to at least 1
      before the +1, so its entry is at least 2. */
  lemma BinAboveCdfMin(c: nat, cdfMin: nat, denom: nat)
    requires denom > 0
    requires cdfMin <= c < UintModulus
    requires (c - cdfMin) * 2 * (PixelRange - 2) >= denom
    ensures EqualisedBin(c, cdfMin, denom) >= 2
  {
    var d := UintSub(c, cdfMin);
    assert d == c - cdfMin;
    HalfStepRatio(d as real, denom as real);
  }

  lemma HalfStepRatio(a: real, b: real)
    requires b > 0.0 && a * 508.0 >= b
    ensures (a / b) * 254.0 >= 0.5
  {
    RatioMonotone(b / 508.0, a, b);
    assert (b / 508.0) / b == 1.0 / 508.0;
  }

  /** The cumulative histogram of a flat tile over the limit: the clipped spike plus the same
      bonus in every bin. */
  lemma FlatTileOverLimitCumulative(cfg: Config, v: Byte, b: nat)
    requires b == Bonus(cfg, Spike(v, cfg.TilePixels()))
    ensures var cum := CumulativeHistogram(LimitedHistogram(cfg, Spike(v, cfg.TilePixels())));
      forall i :: 0 <= i < PixelRange ==> cum[i] == (i + 1) * b + (if i < v then 0 else Clip(cfg, cfg.TilePixels()))
  {
    var lim := Clip(cfg, cfg.TilePixels());
    var l := LimitedHistogram(cfg, Spike(v, cfg.TilePixels()));
    var cum := CumulativeHistogram(l);
    forall i | 0 <= i < PixelRange
      ensures cum[i] == (i + 1) * b + (if i < v then 0 else lim)
    {
      var spike := Spike(v, lim)[..i + 1];
      var flat := seq(i + 1, _ => b);
      SumAdd(spike, flat, l[..i + 1]);
      SumConst(flat, b);
      SpikePrefixSum(v, lim, i + 1);
    }
  }

  /** One entry of a tile's table, from its cumulative value, cdf_min and denominator. */
  lemma EqualiseTileEntry(cfg: Config, h: seq<nat>, i: nat, cum: seq<nat>, denom: nat)
    requires IsHistogram(h) && LostContrast(cfg, h) < cfg.TilePixels() && i < PixelRange
    requires cum == CumulativeHistogram(LimitedHistogram(cfg, h))
    requires denom == cfg.TilePixels() - LostContrast(cfg, h)
    ensures EqualiseTile(cfg, h)[i] == EqualisedBin(cum[i], CdfMin(cum), denom)
  {
  }

  /** The bonus and denominator of a tile whose extra_contrast exceeds PIXEL_RANGE. */
  lemma OverLimitDenominator(tp: nat, extra: nat, bonus: nat, lost: nat)
    requires PixelRange < extra <= tp
    requires bonus == extra / PixelRange && lost == extra % PixelRange
    ensures 0 < bonus && lost < tp
    ensures tp - lost == tp - extra + PixelRange * bonus
  {
  }

  /** A flat tile over the limit by more than PIXEL_RANGE: the limiter clips the spike to the
      limit and hands bonus_contrast back to every bin, so cum[i] = (i + 1) * bonus, plus the
      limit from v onward, and cdf_min is cum[0]. */
  lemma FlatTileOverLimit(cfg: Config, v: Byte)
    requires cfg.TilePixels() > cfg.contrastLimit + PixelRange
    ensures var h := Spike(v, cfg.TilePixels());
      var b := Bonus(cfg, h);
      var cum := CumulativeHistogram(LimitedHistogram(cfg, h));
      && b > 0
      && LostContrast(cfg, h) < cfg.TilePixels()
      && cfg.TilePixels() - LostContrast(cfg, h) == cfg.contrastLimit + PixelRange * b
      && (forall i :: 0 <= i < PixelRange ==> cum[i] == (i + 1) * b + (if i < v then 0 else cfg.contrastLimit))
      && CdfMin(cum) == cum[0]
  {
    var tp := cfg.TilePixels();
    var lim := cfg.contrastLimit;
    var h := Spike(v, tp);
    SpikeExtra(cfg, v, tp);
    OverLimitDenominator(tp, tp - lim, Bonus(cfg, h), LostContrast(cfg, h));
    var l := LimitedHistogram(cfg, h);
    FlatTileOverLimitCumulative(cfg, v, Bonus(cfg, h));
    CumulativeProperties(l);
    CdfMinIsSmallestNonZero(CumulativeHistogram(l));
  }

  /** The spike's distance above cdf_min is at least 1/508 of the denominator, and its
      cumulative value is at most the denominator. */
  lemma OverLimitStep(v: nat, b: nat, lim: nat)
    requires 1 <= v < PixelRange && 1 <= b
    ensures (lim + v * b) * 2 * (PixelRange - 2) >= lim + PixelRange * b
    ensures (v + 1) * b + lim <= lim + PixelRange * b
  {
    assert v * b >= b;
    MulMono(v + 1, PixelRange, b);
  }

  /** A table entry whose cumulative value is cdf_min is 1. */
  lemma TableEntryAtCdfMin(cfg: Config, h: seq<nat>, i: nat, cum: seq<nat>, denom: nat)
    requires IsHistogram(h) && LostContrast(cfg, h) < cfg.TilePixels() && i < PixelRange
    requires cum == CumulativeHistogram(LimitedHistogram(cfg, h))
    requires denom == cfg.TilePixels() - LostContrast(cfg, h)
    requires cum[i] == CdfMin(cum)
    ensures EqualiseTile(cfg, h)[i] == 1
  {
    EqualiseTileEntry(cfg, h, i, cum, denom);
    BinAtCdfMin(cum[i], denom);
  }

  /** A table entry whose cumulative value is at least 1/508 of the denominator above cdf_min
      is at least 2. */
  lemma TableEntryAboveCdfMin(cfg: Config, h: seq<nat>, i: nat, cum: seq<nat>, denom: nat)
    requires IsHistogram(h) && LostContrast(cfg, h) < cfg.TilePixels() && i < PixelRange
    requires cum == CumulativeHistogram(LimitedHistogram(cfg, h))
    requires denom == cfg.TilePixels() - LostContrast(cfg, h)
    requires CdfMin(cum) <= cum[i] < UintModulus
    requires (cum[i] - CdfMin(cum)) * 2 * (PixelRange - 2) >= denom
    ensures EqualiseTile(cfg, h)[i] >= 2
  {
    EqualiseTileEntry(cfg, h, i, cum, denom);
    BinAboveCdfMin(cum[i], CdfMin(cum), denom);
  }

  /** The two table entries of a histogram whose cumulative histogram starts at cdf_min = bonus
      (plus the limit when v = 0) and reaches (v + 1) * bonus + limit at v. */
  lemma OverLimitEntries(cfg: Config, h: seq<nat>, v: Byte, b: nat, cum: seq<nat>, denom: nat)
    requires IsHistogram(h) && LostContrast(cfg, h) < cfg.TilePixels()
    requires cum == CumulativeHistogram(LimitedHistogram(cfg, h))
    requires denom == cfg.TilePixels() - LostContrast(cfg, h)
    requires b >= 1 && denom == cfg.contrastLimit + PixelRange * b <= UintModulus / 2
    requires CdfMin(cum) == cum[0] && cum[0] == b + (if v == 0 then cfg.contrastLimit else 0)
    requires cum[v] == (v + 1) * b + cfg.contrastLimit
    ensures EqualiseTile(cfg, h)[0] == 1
    ensures 0 < v ==> EqualiseTile(cfg, h)[v] >= 2
  {
    TableEntryAtCdfMin(cfg, h, 0, cum, denom);
    if 0 < v {
      OverLimitStep(v, b, cfg.contrastLimit);
      TableEntryAboveCdfMin(cfg, h, v, cum, denom);
    }
  }

  /** The table of a flat tile over the limit by more than PIXEL_RANGE still maps intensity 0
      to 1, but a spike at v > 0 maps above 1, since cdf_min is only the bonus. */
  lemma FlatTileOverLimitTable(cfg: Config, v: Byte)
    requires cfg.TilePixels() > cfg.contrastLimit + PixelRange
    requires cfg.TilePixels() <= UintModulus / 2
    ensures LostContrast(cfg, Spike(v, cfg.TilePixels())) < cfg.TilePixels()
    ensures EqualiseTile(cfg, Spike(v, cfg.TilePixels()))[0] == 1
    ensures 0 < v ==> EqualiseTile(cfg, Spike(v, cfg.TilePixels()))[v] >= 2
  {
    var h := Spike(v, cfg.TilePixels());
    FlatTileOverLimit(cfg, v);
    var cum := CumulativeHistogram(LimitedHistogram(cfg, h));
    OverLimitEntries(cfg, h, v, Bonus(cfg, h), cum, cfg.TilePixels() - LostContrast(cfg, h));
  }
}
