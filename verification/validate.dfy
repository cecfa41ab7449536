/**
  The validate_* functions: each recomputes a stage with the reference
  implementation and counts how many tiles (or pixels) of a candidate
  result differ from it. validate_histogram also checks the most common
  intensity against every bin that shares the largest count, and
  validate_interpolate tolerates a difference of one intensity level.
  The messages they print are not modelled; the counts they print are.
 */
module Validate {

  import opened Common
  import opened Tiling
  import opened Histogram
  import opened Limiter
  import opened Cumulative
  import opened Equalise
  import opened Interpolate

  /** Some bin among the first PIXEL_RANGE differs: the inner loop that stops at the first mismatch. */
  predicate TileDiffers<T(==)>(test: seq<T>, reference: seq<T>)
    requires |test| == PixelRange && |reference| == PixelRange
  {
    exists i :: 0 <= i < PixelRange && test[i] != reference[i]
  }

  /** Both arrays hold one PIXEL_RANGE-bin histogram per tile. */
  predicate SameShape<T>(test: seq<seq<T>>, reference: seq<seq<T>>) {
    && |test| == |reference|
    && (forall t :: 0 <= t < |test| ==> |test[t]| == PixelRange)
    && (forall t :: 0 <= t < |reference| ==> |reference[t]| == PixelRange)
  }

  /** The number of tiles whose histogram differs from the reference (bad_tiles / bad_histograms).
      The source visits tile t_y * TILES_X + t_x for every t_x, t_y, which is every index once;
      the count does not depend on the order. */
  function BadTiles<T(==)>(test: seq<seq<T>>, reference: seq<seq<T>>): (n: nat)
    requires SameShape(test, reference)
    ensures n <= |reference|
    ensures n == 0 <==> test == reference
  {
    if |reference| == 0 then 0
    else
      var k := |reference| - 1;
      var last := if TileDiffers(test[k], reference[k]) then 1 else 0;
      var n := BadTiles(test[..k], reference[..k]) + last;
      assert test == test[..k] + [test[k]] && reference == reference[..k] + [reference[k]];
      assert test[k] != reference[k] ==> TileDiffers(test[k], reference[k]);
      n
  }

  /** The count of bad tiles is the number of tile indices whose histogram differs. */
  lemma {:induction false} BadTilesCounts<T>(test: seq<seq<T>>, reference: seq<seq<T>>)
    requires SameShape(test, reference)
    ensures BadTiles(test, reference) == |set t | 0 <= t < |reference| && test[t] != reference[t]|
  {
    var bad := set t | 0 <= t < |reference| && test[t] != reference[t];
    if |reference| > 0 {
      var k := |reference| - 1;
      var before := set t | 0 <= t < k && test[..k][t] != reference[..k][t];
      BadTilesCounts(test[..k], reference[..k]);
      assert test[k] != reference[k] ==> TileDiffers(test[k], reference[k]);
      if test[k] != reference[k] {
        assert bad == before + {k};
      } else {
        assert bad == before;
      }
    } else {
      assert bad == {};
    }
  }

  /** What validate_histogram reports: the number of bad tiles and whether the most common
      intensity failed. */
  datatype HistogramReport = HistogramReport(badTiles: nat, badContrast: bool)

  /** Intensities from `i` up whose count is `maxC`, in increasing order: the loop that fills
      validation_most_common_contrast. */
  function CandidatesFrom(g: seq<nat>, maxC: nat, i: nat): (cs: seq<int>)
    requires IsHistogram(g) && i <= PixelRange
    ensures |cs| <= PixelRange - i
    ensures forall k :: 0 <= k < |cs| ==> i <= cs[k] < PixelRange && g[cs[k]] == maxC
    ensures forall v :: i <= v < PixelRange && g[v] == maxC ==> v in cs
    decreases PixelRange - i
  {
    if i == PixelRange then []
    else if g[i] == maxC then [i] + CandidatesFrom(g, maxC, i + 1)
    else CandidatesFrom(g, maxC, i + 1)
  }

  /** validation_most_common_contrast: the candidates, then -1 in every unused slot. */
  function Candidates(g: seq<nat>): (cs: seq<int>)
    requires IsHistogram(g)
    ensures |cs| == PixelRange
  {
    var best := MaxScan(g, 0, 0, 0);
    var found := CandidatesFrom(g, best.0, best.1);
    found + seq(PixelRange - |found|, _ => -1)
  }

  /** The loop that compares the claimed value with the candidates, stopping at the first -1. */
  function AcceptScan(cs: seq<int>, claimed: int, i: nat): bool
    requires |cs| == PixelRange && i <= PixelRange
    decreases PixelRange - i
  {
    if i == PixelRange || cs[i] == -1 then false
    else if claimed == cs[i] then true
    else AcceptScan(cs, claimed, i + 1)
  }

  /** The scan accepts exactly the candidates found before the padding. */
  lemma {:induction false} AcceptScanFinds(found: seq<int>, claimed: int, i: nat)
    requires |found| <= PixelRange && i <= |found|
    requires forall k :: 0 <= k < |found| ==> found[k] >= 0
    ensures AcceptScan(found + seq(PixelRange - |found|, _ => -1), claimed, i) <==> claimed in found[i..]
    decreases PixelRange - i
  {
    var cs := found + seq(PixelRange - |found|, _ => -1);
    if i == |found| {
      assert found[i..] == [];
      if i < PixelRange {
        assert cs[i] == -1;
      }
    } else {
      assert cs[i] == found[i];
      assert found[i..] == [found[i]] + found[i + 1..];
      AcceptScanFinds(found, claimed, i + 1);
    }
  }

  /** validate_histogram accepts a claimed most common intensity exactly when it is a bin and
      no bin has a larger count: ties are all accepted, and so, for an empty image, is every
      intensity but -1. */
  lemma ModeAccepted(g: seq<nat>, claimed: int)
    requires IsHistogram(g)
    ensures AcceptScan(Candidates(g), claimed, 0) <==>
              0 <= claimed < PixelRange && forall v :: 0 <= v < PixelRange ==> g[v] <= g[claimed]
  {
    var best := MaxScan(g, 0, 0, 0);
    var found := CandidatesFrom(g, best.0, best.1);
    AcceptScanFinds(found, claimed, 0);
    assert found[0..] == found;
    if 0 <= claimed < PixelRange && forall v :: 0 <= v < PixelRange ==> g[v] <= g[claimed] {
      assert g[claimed] == best.0;
      assert claimed >= best.1;
    }
  }

  /** validate_histogram on the candidate tile histograms `test` and most common intensity. */
  function ValidateHistogram(cfg: Config, img: Image, test: seq<seq<nat>>, mostCommon: int): (r: HistogramReport)
    requires img.Valid(cfg)
    requires |test| == img.TilesX(cfg) * img.TilesY(cfg) && AllHistograms(test)
    ensures r.badTiles == 0 <==> test == SkipHistogram(cfg, img).histograms
    ensures !r.badContrast <==>
              0 <= mostCommon < PixelRange
              && forall v :: 0 <= v < PixelRange ==> HistogramOf(img.data)[v] <= HistogramOf(img.data)[mostCommon]
  {
    var reference := SkipHistogram(cfg, img).histograms;
    var g := HistogramOf(img.data);
    ModeAccepted(g, mostCommon);
    HistogramReport(BadTiles(test, reference), !AcceptScan(Candidates(g), mostCommon, 0))
  }

  /** The reference validates itself, except that the -1 it returns for an image without
      pixels is rejected. */
  lemma ReferenceHistogramPasses(cfg: Config, img: Image)
    requires img.Valid(cfg)
    ensures var s := SkipHistogram(cfg, img);
      var r := ValidateHistogram(cfg, img, s.histograms, s.mostCommon);
      r.badTiles == 0 && (r.badContrast <==> |img.data| == 0)
  {
    SkipHistogramMode(cfg, img);
  }

  /** validate_limited_histogram: the count of tiles differing from skip_limited_histogram. */
  function ValidateLimited(cfg: Config, hs: seq<seq<nat>>, test: seq<seq<nat>>): (bad: nat)
    requires AllHistograms(hs)
    requires |test| == |hs| && AllHistograms(test)
    ensures bad <= |hs|
    ensures bad == 0 <==> test == LimitedHistograms(cfg, hs)
  {
    BadTiles(test, LimitedHistograms(cfg, hs))
  }

  /** validate_cumulative_histogram: the count of tiles differing from skip_cumulative_histogram. */
  function ValidateCumulative(ls: seq<seq<nat>>, test: seq<seq<nat>>): (bad: nat)
    requires AllHistograms(ls)
    requires |test| == |ls| && AllHistograms(test)
    ensures bad <= |ls|
    ensures bad == 0 <==> test == CumulativeHistograms(ls)
  {
    BadTiles(test, CumulativeHistograms(ls))
  }

  /** validate_equalised_histogram: the count of tiles whose table differs from
      skip_equalised_histogram's. */
  function ValidateEqualised(cfg: Config, hs: seq<seq<nat>>, test: seq<seq<Byte>>): (bad: nat)
    requires AllHistograms(hs) && DenominatorsPositive(cfg, hs)
    requires |test| == |hs| && forall t :: 0 <= t < |test| ==> |test[t]| == PixelRange
    ensures bad <= |hs|
    ensures bad == 0 <==> test == EqualisedHistograms(cfg, hs)
  {
    BadTiles(test, EqualisedHistograms(cfg, hs))
  }

  /** What validate_interpolate counts: pixels off by more than one, and pixels off by one. */
  datatype PixelReport = PixelReport(bad: nat, close: nat)

  /** Off by exactly one level, either way: out + 1 == test or out - 1 == test in int arithmetic. */
  predicate OffByOne(out: Byte, test: Byte) {
    out + 1 == test || out as int - 1 == test
  }

  /** The pixel loop of validate_interpolate over the first |reference| pixels. */
  function ComparePixels(reference: seq<Byte>, test: seq<Byte>): (r: PixelReport)
    requires |test| == |reference|
    ensures r.bad + r.close <= |reference|
    ensures r.bad == 0 <==> forall i :: 0 <= i < |reference| ==> -1 <= reference[i] as int - test[i] as int <= 1
    ensures r.bad == 0 && r.close == 0 <==> test == reference
  {
    if |reference| == 0 then PixelReport(0, 0)
    else
      var k := |reference| - 1;
      var prev := ComparePixels(reference[..k], test[..k]);
      assert test == test[..k] + [test[k]] && reference == reference[..k] + [reference[k]];
      if reference[k] == test[k] then prev
      else if OffByOne(reference[k], test[k]) then PixelReport(prev.bad, prev.close + 1)
      else PixelReport(prev.bad + 1, prev.close)
  }

  /** validate_interpolate on a candidate output image of the same size. */
  function ValidateInterpolate(cfg: Config, img: Image, tables: seq<seq<Byte>>, test: Image): (r: PixelReport)
    requires img.Valid(cfg)
    requires TablesFit(tables, img.TilesX(cfg), img.TilesY(cfg))
    requires |test.data| == |img.data|
    ensures r.bad + r.close <= |img.data|
    ensures r.bad == 0 <==> forall i :: 0 <= i < |img.data| ==>
              -1 <= SkipInterpolate(cfg, img, tables).data[i] as int - test.data[i] as int <= 1
    ensures r.bad == 0 && r.close == 0 <==> test.data == SkipInterpolate(cfg, img, tables).data
  {
    ComparePixels(SkipInterpolate(cfg, img, tables).data, test.data)
  }
}
