/**
  Shared vocabulary of the CLAHE reference pipeline: the configuration
  constants, pixel intensities, images and 256-bin histograms.
 */
module Common {

  import opened Arith

  /** Number of intensity levels, and so of bins in every histogram (PIXEL_RANGE). */
  const PixelRange: nat := 256

  /** Largest value an equalisation table entry may take (PIXEL_MAX). */
  const PixelMax: nat := 255

  /** An unsigned char intensity. */
  type Byte = b: nat | b < 256

  /** The compile-time constants TILE_SIZE and ABSOLUTE_CONTRAST_LIMIT, which the
      repository uses but does not define; they become parameters here. */
  datatype Config = Config(tileSize: nat, contrastLimit: nat) {

    /** TILE_SIZE is positive and even, so HALF_TILE_SIZE is exact. */
    predicate Valid() {
      tileSize > 0 && tileSize % 2 == 0
    }

    /** HALF_TILE_SIZE */
    function HalfTileSize(): nat {
      tileSize / 2
    }

    /** TILE_PIXELS, the number of pixels of one tile. */
    function TilePixels(): nat {
      tileSize * tileSize
    }
  }

  /** A single-channel image, row-major, without stride. */
  datatype Image = Image(data: seq<Byte>, width: nat, height: nat) {

    /** Both dimensions are whole numbers of tiles and the buffer holds every pixel. */
    predicate Valid(cfg: Config) {
      && cfg.Valid()
      && width % cfg.tileSize == 0
      && height % cfg.tileSize == 0
      && |data| == width * height
    }

    /** TILES_X */
    function TilesX(cfg: Config): nat
      requires cfg.Valid()
    {
      Quot(width, cfg.tileSize)
    }

    /** TILES_Y */
    function TilesY(cfg: Config): nat
      requires cfg.Valid()
    {
      Quot(height, cfg.tileSize)
    }
  }

  /** A 256-bin histogram (Histogram_uint), indexed by intensity. */
  predicate IsHistogram(h: seq<nat>) {
    |h| == PixelRange
  }

  /** Every histogram of a tile array has 256 bins. */
  predicate AllHistograms(hs: seq<seq<nat>>) {
    forall t :: 0 <= t < |hs| ==> IsHistogram(hs[t])
  }

  /** Total of a sequence of counts, accumulated from the front as the source's loops do. */
  function Sum(s: seq<nat>): nat {
    if |s| == 0 then 0 else Sum(s[..|s| - 1]) + s[|s| - 1]
  }

  /** The zeroed histogram a stage starts from (the memset before each scan). */
  function ZeroHistogram(): (h: seq<nat>)
    ensures IsHistogram(h)
    ensures forall v :: 0 <= v < |h| ==> h[v] == 0
  {
    seq(PixelRange, _ => 0)
  }

  /** Adding one to a single entry adds one to the total. */
  lemma {:induction false} SumIncrement(s: seq<nat>, i: nat)
    requires i < |s|
    ensures Sum(s[i := s[i] + 1]) == Sum(s) + 1
  {
    var n := |s| - 1;
    var t := s[i := s[i] + 1];
    assert t[..n] == if i < n then s[..n][i := s[i] + 1] else s[..n];
    if i < n {
      SumIncrement(s[..n], i);
    }
  }

  /** Summing two sequences entry by entry sums their totals. */
  lemma {:induction false} SumAdd(a: seq<nat>, b: seq<nat>, c: seq<nat>)
    requires |a| == |b| == |c|
    requires forall i :: 0 <= i < |c| ==> c[i] == a[i] + b[i]
    ensures Sum(c) == Sum(a) + Sum(b)
  {
    if |c| > 0 {
      var n := |c| - 1;
      SumAdd(a[..n], b[..n], c[..n]);
    }
  }

  /** A sequence of `n` copies of `k` sums to n * k. */
  lemma {:induction false} SumConst(s: seq<nat>, k: nat)
    requires forall i :: 0 <= i < |s| ==> s[i] == k
    ensures Sum(s) == |s| * k
  {
    if |s| > 0 {
      SumConst(s[..|s| - 1], k);
    }
  }

  /** A sequence of zeros sums to zero. */
  lemma {:induction false} SumZero(s: seq<nat>)
    requires forall i :: 0 <= i < |s| ==> s[i] == 0
    ensures Sum(s) == 0
  {
    if |s| > 0 {
      SumZero(s[..|s| - 1]);
    }
  }
}
