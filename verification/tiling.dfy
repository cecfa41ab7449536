/**
  The tile grid: how helper.c turns a tile (t_x, t_y) and a position
  (p_x, p_y) inside it into a buffer offset, the order in which its
  nested loops visit pixels, and the flattened tile index of the
  histogram arrays. The lemmas show the offset is the row-major offset of
  the pixel and that the loops visit every pixel of the image exactly once.
 */
module Tiling {

  import opened Arith
  import opened Common
  import opened Permutation

  /** A pixel named the way the source's loops name it: tile (tx, ty), offset (px, py) within the tile. */
  datatype Pos = Pos(tx: nat, ty: nat, px: nat, py: nat)

  /** The position names a tile of a grid of tilesX by tilesY tiles and a pixel inside it. */
  predicate InTiles(cfg: Config, tilesX: nat, tilesY: nat, p: Pos) {
    && cfg.Valid()
    && p.tx < tilesX
    && p.ty < tilesY
    && p.px < cfg.tileSize
    && p.py < cfg.tileSize
  }

  /** The position names an existing tile of the image and a pixel inside it. */
  predicate InGrid(cfg: Config, img: Image, p: Pos)
    requires cfg.Valid()
  {
    InTiles(cfg, img.TilesX(cfg), img.TilesY(cfg), p)
  }

  /** tile_index = t_y * TILES_X + t_x, where a tile's histogram and table live. */
  function TileIndex(tilesX: nat, tx: nat, ty: nat): nat {
    ty * tilesX + tx
  }

  /** tile_offset + pixel_offset: the buffer offset the source reads (and writes) for `p`. */
  function PixelIndex(cfg: Config, img: Image, p: Pos): nat
    requires cfg.Valid()
  {
    var tileOffset := p.ty * img.TilesX(cfg) * cfg.tileSize * cfg.tileSize + p.tx * cfg.tileSize;
    var pixelOffset := p.py * img.width + p.px;
    tileOffset + pixelOffset
  }

  /** The tile and in-tile position of buffer offset `i`. */
  function PosOf(cfg: Config, img: Image, i: nat): Pos
    requires cfg.Valid()
    requires img.width > 0
  {
    var row := Quot(i, img.width);
    var col := i % img.width;
    Pos(Quot(col, cfg.tileSize), Quot(row, cfg.tileSize), col % cfg.tileSize, row % cfg.tileSize)
  }

  /** A non-empty valid image has at least one tile in each direction. */
  lemma NonEmptyHasTiles(cfg: Config, img: Image)
    requires img.Valid(cfg)
    requires |img.data| > 0
    ensures img.width > 0 && img.height > 0
    ensures img.TilesX(cfg) > 0 && img.TilesY(cfg) > 0
  {
    GridSize(cfg, img);
  }

  /** The image is exactly TILES_X by TILES_Y tiles. */
  lemma GridSize(cfg: Config, img: Image)
    requires img.Valid(cfg)
    ensures img.TilesX(cfg) * cfg.tileSize == img.width
    ensures img.TilesY(cfg) * cfg.tileSize == img.height
  {
  }

  /** The position after `k` iterations of the loops over t_x, t_y, p_x, p_y (outermost first)
      shared by skip_histogram and skip_interpolate. */
  function VisitPos(cfg: Config, img: Image, k: nat): Pos
    requires img.Valid(cfg)
    requires k < |img.data|
  {
    NonEmptyHasTiles(cfg, img);
    var ts := cfg.tileSize;
    var tile := Quot(Quot(k, ts), ts);
    Pos(Quot(tile, img.TilesY(cfg)), tile % img.TilesY(cfg), Quot(k, ts) % ts, k % ts)
  }

  /** The iteration count at which the loops reach `p`. */
  function VisitCounter(cfg: Config, img: Image, p: Pos): nat
    requires cfg.Valid()
  {
    ((p.tx * img.TilesY(cfg) + p.ty) * cfg.tileSize + p.px) * cfg.tileSize + p.py
  }

  /** The buffer offsets in the order the loops visit them. */
  function VisitOrder(cfg: Config, img: Image): (order: seq<nat>)
    requires img.Valid(cfg)
    ensures |order| == |img.data|
  {
    seq(|img.data|, k requires 0 <= k < |img.data| => PixelIndex(cfg, img, VisitPos(cfg, img, k)))
  }

  /** The source's offset is the row-major offset of row t_y*TILE_SIZE+p_y, column t_x*TILE_SIZE+p_x. */
  lemma PixelIndexRowMajor(cfg: Config, img: Image, p: Pos)
    requires img.Valid(cfg)
    ensures PixelIndex(cfg, img, p)
         == (p.ty * cfg.tileSize + p.py) * img.width + p.tx * cfg.tileSize + p.px
  {
    var ts := cfg.tileSize;
    GridSize(cfg, img);
    assert p.ty * img.TilesX(cfg) * ts * ts == (p.ty * ts) * (img.TilesX(cfg) * ts);
  }

  /** Every offset the loops compute lies inside the buffer. */
  lemma PixelIndexInBounds(cfg: Config, img: Image, p: Pos)
    requires img.Valid(cfg)
    requires InGrid(cfg, img, p)
    ensures PixelIndex(cfg, img, p) < |img.data|
  {
    var ts := cfg.tileSize;
    GridSize(cfg, img);
    PixelIndexRowMajor(cfg, img, p);
    var row := p.ty * ts + p.py;
    var col := p.tx * ts + p.px;
    PackBound(p.ty, p.py, ts, img.TilesY(cfg));
    PackBound(p.tx, p.px, ts, img.TilesX(cfg));
    PackBound(row, col, img.width, img.height);
  }

  /** Distinct positions get distinct offsets: the offset determines the position. */
  lemma PosOfPixelIndex(cfg: Config, img: Image, p: Pos)
    requires img.Valid(cfg)
    requires InGrid(cfg, img, p)
    ensures img.width > 0
    ensures PosOf(cfg, img, PixelIndex(cfg, img, p)) == p
  {
    var ts := cfg.tileSize;
    GridSize(cfg, img);
    PixelIndexRowMajor(cfg, img, p);
    var row := p.ty * ts + p.py;
    var col := p.tx * ts + p.px;
    PackBound(p.tx, p.px, ts, img.TilesX(cfg));
    DivModUnique(row * img.width + col, img.width, row, col);
    DivModUnique(row, ts, p.ty, p.py);
    DivModUnique(col, ts, p.tx, p.px);
  }

  /** Every buffer offset is the offset of some position of the grid. */
  lemma PixelIndexOfPos(cfg: Config, img: Image, i: nat)
    requires img.Valid(cfg)
    requires i < |img.data|
    ensures img.width > 0
    ensures InGrid(cfg, img, PosOf(cfg, img, i))
    ensures PixelIndex(cfg, img, PosOf(cfg, img, i)) == i
  {
    var ts := cfg.tileSize;
    NonEmptyHasTiles(cfg, img);
    GridSize(cfg, img);
    var p := PosOf(cfg, img, i);
    var row := Quot(i, img.width);
    var col := i % img.width;
    assert InGrid(cfg, img, p) by {
      UnpackBound(i, img.width, img.height);
      UnpackBound(row, ts, img.TilesY(cfg));
      UnpackBound(col, ts, img.TilesX(cfg));
    }
    PixelIndexRowMajor(cfg, img, p);
  }

  /** The counter of an in-grid position is a real iteration, and the loops are at `p` then. */
  lemma VisitPosOfCounter(cfg: Config, img: Image, p: Pos)
    requires img.Valid(cfg)
    requires InGrid(cfg, img, p)
    ensures VisitCounter(cfg, img, p) < |img.data|
    ensures VisitPos(cfg, img, VisitCounter(cfg, img, p)) == p
  {
    var ts := cfg.tileSize;
    var tx, ty := img.TilesX(cfg), img.TilesY(cfg);
    GridSize(cfg, img);
    var tile := p.tx * ty + p.ty;
    var a := tile * ts + p.px;
    var k := a * ts + p.py;
    PackBound(p.tx, p.ty, ty, tx);
    PackBound(tile, p.px, ts, tx * ty);
    PackBound(a, p.py, ts, tx * ty * ts);
    assert tx * ty * ts * ts == (tx * ts) * (ty * ts);
    DivModUnique(k, ts, a, p.py);
    DivModUnique(a, ts, tile, p.px);
    DivModUnique(tile, ty, p.tx, p.ty);
  }

  /** Every iteration of the loops reaches an in-grid position, and a different one each time. */
  lemma VisitCounterOfPos(cfg: Config, img: Image, k: nat)
    requires img.Valid(cfg)
    requires k < |img.data|
    ensures InGrid(cfg, img, VisitPos(cfg, img, k))
    ensures VisitCounter(cfg, img, VisitPos(cfg, img, k)) == k
  {
    var ts := cfg.tileSize;
    var tx, ty := img.TilesX(cfg), img.TilesY(cfg);
    NonEmptyHasTiles(cfg, img);
    GridSize(cfg, img);
    var tiles := tx * ty;
    var tileRows := tiles * ts;
    assert |img.data| == tileRows * ts by {
      assert tileRows * ts == (tx * ts) * (ty * ts);
    }
    var a := Quot(k, ts);
    var tile := Quot(a, ts);
    UnpackBound(k, ts, tileRows);
    UnpackBound(a, ts, tiles);
    UnpackBound(tile, ty, tx);
    var p := VisitPos(cfg, img, k);
    assert p == Pos(Quot(tile, ty), tile % ty, a % ts, k % ts);
    assert tile == p.tx * ty + p.ty;
    assert a == tile * ts + p.px;
    assert k == a * ts + p.py;
  }

  /** The loops of skip_histogram and skip_interpolate visit every pixel of the image exactly once. */
  lemma VisitOrderIsPermutation(cfg: Config, img: Image)
    requires img.Valid(cfg)
    ensures IsPermutation(VisitOrder(cfg, img))
  {
    var order := VisitOrder(cfg, img);
    forall k | 0 <= k < |order|
      ensures order[k] < |order|
    {
      VisitCounterOfPos(cfg, img, k);
      PixelIndexInBounds(cfg, img, VisitPos(cfg, img, k));
    }
    forall k, l | 0 <= k < l < |order|
      ensures order[k] != order[l]
    {
      var pk, pl := VisitPos(cfg, img, k), VisitPos(cfg, img, l);
      VisitCounterOfPos(cfg, img, k);
      VisitCounterOfPos(cfg, img, l);
      PosOfPixelIndex(cfg, img, pk);
      PosOfPixelIndex(cfg, img, pl);
    }
    forall j: nat | j < |order|
      ensures j in order
    {
      PixelIndexOfPos(cfg, img, j);
      var p := PosOf(cfg, img, j);
      VisitPosOfCounter(cfg, img, p);
      var k := VisitCounter(cfg, img, p);
      assert order[k] == j;
    }
  }
}
