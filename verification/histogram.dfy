/**
  Stage 1, skip_histogram: one 256-bin histogram per tile and the most
  common intensity of the whole image.
 */
module Histogram {

  import opened Arith
  import opened Common
  import opened Permutation
  import opened Tiling

  /** histogram[pixel]++ for every pixel, in order. */
  function Accumulate(h: seq<nat>, pixels: seq<Byte>): (r: seq<nat>)
    requires IsHistogram(h)
    ensures IsHistogram(r)
    decreases |pixels|
  {
    if |pixels| == 0 then h
    else Accumulate(h[pixels[0] := h[pixels[0]] + 1], pixels[1..])
  }

  /** After accumulation every bin has grown by the number of pixels of its intensity. */
  lemma {:induction false} AccumulateCounts(h: seq<nat>, pixels: seq<Byte>)
    requires IsHistogram(h)
    ensures forall v: Byte :: Accumulate(h, pixels)[v] == h[v] + multiset(pixels)[v]
    decreases |pixels|
  {
    if |pixels| > 0 {
      var h' := h[pixels[0] := h[pixels[0]] + 1];
      AccumulateCounts(h', pixels[1..]);
      assert pixels == [pixels[0]] + pixels[1..];
      assert multiset(pixels) == multiset([pixels[0]]) + multiset(pixels[1..]);
    }
  }

  /** Accumulation adds exactly one count per pixel. */
  lemma {:induction false} AccumulateSum(h: seq<nat>, pixels: seq<Byte>)
    requires IsHistogram(h)
    ensures Sum(Accumulate(h, pixels)) == Sum(h) + |pixels|
    decreases |pixels|
  {
    if |pixels| > 0 {
      SumIncrement(h, pixels[0]);
      AccumulateSum(h[pixels[0] := h[pixels[0]] + 1], pixels[1..]);
    }
  }

  /** The histogram of a pixel sequence, counted from zeroed bins. */
  function HistogramOf(pixels: seq<Byte>): (h: seq<nat>)
    ensures IsHistogram(h)
  {
    Accumulate(ZeroHistogram(), pixels)
  }

  /** Each bin of a histogram counts the pixels of that intensity, and the bins hold every pixel. */
  lemma HistogramOfCounts(pixels: seq<Byte>)
    ensures forall v: Byte :: HistogramOf(pixels)[v] == multiset(pixels)[v]
    ensures Sum(HistogramOf(pixels)) == |pixels|
  {
    AccumulateCounts(ZeroHistogram(), pixels);
    AccumulateSum(ZeroHistogram(), pixels);
    SumZero(ZeroHistogram());
  }

  /** The intensities of tile (tx, ty) in the order skip_histogram reads them (p_x outer, p_y inner). */
  function TileIntensities(cfg: Config, img: Image, tx: nat, ty: nat): (pixels: seq<Byte>)
    requires img.Valid(cfg)
    requires tx < img.TilesX(cfg) && ty < img.TilesY(cfg)
    ensures |pixels| == cfg.TilePixels()
  {
    seq(cfg.TilePixels(), k requires 0 <= k < cfg.TilePixels() =>
      var p := Pos(tx, ty, Quot(k, cfg.tileSize), k % cfg.tileSize);
      UnpackBound(k, cfg.tileSize, cfg.tileSize);
      PixelIndexInBounds(cfg, img, p);
      img.data[PixelIndex(cfg, img, p)])
  }

  /** The histogram skip_histogram builds for tile (tx, ty). */
  function TileHistogram(cfg: Config, img: Image, tx: nat, ty: nat): (h: seq<nat>)
    requires img.Valid(cfg)
    requires tx < img.TilesX(cfg) && ty < img.TilesY(cfg)
    ensures IsHistogram(h)
  {
    HistogramOf(TileIntensities(cfg, img, tx, ty))
  }

  /** All tile histograms, stored at tile_index = t_y * TILES_X + t_x. */
  function Histograms(cfg: Config, img: Image): (hs: seq<seq<nat>>)
    requires img.Valid(cfg)
    ensures |hs| == img.TilesX(cfg) * img.TilesY(cfg)
    ensures AllHistograms(hs)
  {
    var tilesX, tilesY := img.TilesX(cfg), img.TilesY(cfg);
    seq(tilesX * tilesY, t requires 0 <= t < tilesX * tilesY =>
      UnpackBound(t, tilesX, tilesY);
      TileHistogram(cfg, img, t % tilesX, Quot(t, tilesX)))
  }

  /** The global histogram of skip_histogram, accumulated in the order its loops visit pixels. */
  function GlobalHistogram(cfg: Config, img: Image): (g: seq<nat>)
    requires img.Valid(cfg)
    ensures IsHistogram(g)
  {
    VisitOrderIsPermutation(cfg, img);
    HistogramOf(Gather(img.data, VisitOrder(cfg, img)))
  }

  /** The bin-0-to-255 scan for the largest count: a bin replaces the best so far only when
      strictly larger. Returns (max_c, max_i); `maxI` is the value max_i starts from. */
  function MaxScan(g: seq<nat>, i: nat, maxC: nat, maxI: int): (r: (nat, int))
    requires IsHistogram(g) && i <= PixelRange
    requires forall v :: 0 <= v < i ==> g[v] <= maxC
    requires maxC > 0 ==> 0 <= maxI < i && g[maxI] == maxC && forall v :: 0 <= v < maxI ==> g[v] < maxC
    ensures r.0 >= maxC
    ensures forall v :: 0 <= v < PixelRange ==> g[v] <= r.0
    ensures r.0 == maxC ==> r.1 == maxI
    ensures r.0 > maxC ==> i <= r.1 < PixelRange && g[r.1] == r.0
    ensures r.0 > 0 ==> forall v :: 0 <= v < r.1 ==> g[v] < r.0
    decreases PixelRange - i
  {
    if i == PixelRange then (maxC, maxI)
    else if maxC < g[i] then MaxScan(g, i + 1, g[i], i)
    else MaxScan(g, i + 1, maxC, maxI)
  }

  /** `m` is what a most-common-intensity search must return: -1 for an empty histogram,
      otherwise the smallest intensity whose count no other bin exceeds. */
  ghost predicate IsMode(g: seq<nat>, m: int)
    requires IsHistogram(g)
  {
    if forall v :: 0 <= v < PixelRange ==> g[v] == 0 then m == -1
    else
      && 0 <= m < PixelRange
      && (forall v :: 0 <= v < PixelRange ==> g[v] <= g[m])
      && (forall v :: 0 <= v < m ==> g[v] < g[m])
  }

  /** The most common intensity as skip_histogram finds it (max_i starts at -1). */
  function MostCommon(g: seq<nat>): (m: int)
    requires IsHistogram(g)
    ensures IsMode(g, m)
  {
    MaxScan(g, 0, 0, -1).1
  }

  /** The mode is unique: the definition leaves no choice. */
  lemma ModeUnique(g: seq<nat>, m1: int, m2: int)
    requires IsHistogram(g)
    requires IsMode(g, m1) && IsMode(g, m2)
    ensures m1 == m2
  {
  }

  /** What skip_histogram produces: the tile histograms and its return value. */
  datatype Stage1 = Stage1(histograms: seq<seq<nat>>, mostCommon: int)

  /** skip_histogram, starting from zeroed histograms. */
  function SkipHistogram(cfg: Config, img: Image): (r: Stage1)
    requires img.Valid(cfg)
    ensures |r.histograms| == img.TilesX(cfg) * img.TilesY(cfg)
    ensures AllHistograms(r.histograms)
  {
    Stage1(Histograms(cfg, img), MostCommon(GlobalHistogram(cfg, img)))
  }

  /** Histogram conservation: each tile's histogram is stored at t_y * TILES_X + t_x,
      counts that tile's pixels of every intensity, and its bins sum to TILE_PIXELS. */
  lemma HistogramConservation(cfg: Config, img: Image, tx: nat, ty: nat)
    requires img.Valid(cfg)
    requires tx < img.TilesX(cfg) && ty < img.TilesY(cfg)
    ensures TileIndex(img.TilesX(cfg), tx, ty) < |SkipHistogram(cfg, img).histograms|
    ensures SkipHistogram(cfg, img).histograms[TileIndex(img.TilesX(cfg), tx, ty)]
         == TileHistogram(cfg, img, tx, ty)
    ensures forall v: Byte :: TileHistogram(cfg, img, tx, ty)[v] == multiset(TileIntensities(cfg, img, tx, ty))[v]
    ensures Sum(TileHistogram(cfg, img, tx, ty)) == cfg.TilePixels()
  {
    var tilesX, tilesY := img.TilesX(cfg), img.TilesY(cfg);
    var t := TileIndex(tilesX, tx, ty);
    PackBound(ty, tx, tilesX, tilesY);
    DivModUnique(t, tilesX, ty, tx);
    HistogramOfCounts(TileIntensities(cfg, img, tx, ty));
  }

  /** The global histogram of skip_histogram counts each intensity over the whole image,
      however the loops order the pixels. */
  lemma GlobalHistogramIsImageHistogram(cfg: Config, img: Image)
    requires img.Valid(cfg)
    ensures GlobalHistogram(cfg, img) == HistogramOf(img.data)
  {
    var order := VisitOrder(cfg, img);
    VisitOrderIsPermutation(cfg, img);
    var visited: seq<Byte> := Gather(img.data, order);
    GatherPermutation(img.data, order);
    HistogramOfCounts(visited);
    HistogramOfCounts(img.data);
    var a, b := GlobalHistogram(cfg, img), HistogramOf(img.data);
    forall v | 0 <= v < PixelRange
      ensures a[v] == b[v]
    {
      var v': Byte := v;
      assert a[v'] == multiset(visited)[v'];
    }
  }

  /** skip_histogram returns the smallest intensity with the largest count over the whole image,
      and -1 exactly when the image has no pixels. */
  lemma SkipHistogramMode(cfg: Config, img: Image)
    requires img.Valid(cfg)
    ensures IsMode(HistogramOf(img.data), SkipHistogram(cfg, img).mostCommon)
    ensures SkipHistogram(cfg, img).mostCommon == -1 <==> |img.data| == 0
  {
    GlobalHistogramIsImageHistogram(cfg, img);
    var g := HistogramOf(img.data);
    HistogramOfCounts(img.data);
    if |img.data| > 0 {
      var v := img.data[0];
      assert v in multiset(img.data);
      assert g[v] > 0;
    } else {
      forall v | 0 <= v < PixelRange
        ensures g[v] == 0
      {
        var v': Byte := v;
        assert g[v'] == multiset(img.data)[v'];
      }
    }
  }
}
