/**
  Stage 3, skip_interpolate: every output pixel looks its intensity up in
  the equalisation table of its own tile and, depending on where it lies,
  blends that with the tables of one neighbouring tile (on the image border)
  or three (in the interior); corner quarters use their own table only.
 */
module Interpolate {

  import opened Arith
  import opened Common
  import opened Tiling

  /** lerp_direction: the neighbouring tile lies before (-1) or after (+1) along one axis. */
  function LerpDirection(cfg: Config, i: nat): (d: int)
    requires cfg.Valid()
    ensures d == -1 || d == 1
  {
    if i < cfg.HalfTileSize() then -1 else 1
  }

  /** lerp_weight: the home tile's share of the blend along one axis. */
  function LerpWeight(cfg: Config, i: nat): (w: real)
    requires cfg.Valid()
    requires i < cfg.tileSize
    ensures 0.5 <= w <= 1.0
    ensures i == cfg.HalfTileSize() ==> w == 1.0
  {
    var half := cfg.HalfTileSize() as real;
    var size := cfg.tileSize as real;
    (if i < cfg.HalfTileSize() then half + i as real else 1.5 * size - i as real) / size
  }

  /** The weight falls off linearly with the distance from the tile centre HALF_TILE_SIZE, reaching
      1/2 half a tile away, and the direction points to the side of the centre the pixel lies on
      (the centre itself and the pixels after it lean on the next tile). */
  lemma LerpGeometry(cfg: Config, i: nat)
    requires cfg.Valid()
    requires i < cfg.tileSize
    ensures var half := cfg.HalfTileSize();
      var dist := if i < half then half - i else i - half;
      LerpWeight(cfg, i) == 1.0 - dist as real / cfg.tileSize as real
    ensures LerpDirection(cfg, i) == -1 <==> i < cfg.HalfTileSize()
  {
    var half := cfg.HalfTileSize();
    var size := cfg.tileSize as real;
    assert half * 2 == cfg.tileSize;
    assert half as real == 0.5 * size;
    if i < half {
      SplitRatio(half as real + i as real, (half - i) as real, size);
    } else {
      SplitRatio(1.5 * size - i as real, (i - half) as real, size);
    }
  }

  lemma SplitRatio(num: real, gap: real, size: real)
    requires size > 0.0
    requires num == size - gap
    ensures num / size == 1.0 - gap / size
  {
    DivSub(size, gap, size);
    assert size / size == 1.0;
  }

  lemma DivSub(a: real, b: real, c: real)
    requires c > 0.0
    ensures (a - b) / c == a / c - b / c
  {
  }

  /** mix_f: x * a + y * (1 - a). */
  function MixF(x: real, y: real, a: real): (r: real)
    ensures 0.0 <= a <= 1.0 && x <= y ==> x <= r <= y
    ensures 0.0 <= a <= 1.0 && y <= x ==> y <= r <= x
    ensures a == 1.0 ==> r == x
  {
    var r := x * a + y * (1.0 - a);
    MixBounds(x, y, a, r);
    r
  }

  /** The blend of x and y with weight a lies between them when a is in [0, 1]. */
  lemma MixBounds(x: real, y: real, a: real, r: real)
    requires r == x * a + y * (1.0 - a)
    ensures 0.0 <= a <= 1.0 && x <= y ==> x <= r <= y
    ensures 0.0 <= a <= 1.0 && y <= x ==> y <= r <= x
    ensures a == 1.0 ==> r == x
  {
    MixOffsets(x, y, a, r);
    if 0.0 <= a <= 1.0 && x <= y {
      Scaled(1.0 - a, y - x, r - x);
    }
    if 0.0 <= a <= 1.0 && y <= x {
      Scaled(a, x - y, r - y);
    }
  }

  /** The blend moves from y towards x by the fraction a of their distance, or equally from x
      towards y by the fraction 1 - a. */
  lemma MixOffsets(x: real, y: real, a: real, r: real)
    requires r == x * a + y * (1.0 - a)
    ensures r - y == a * (x - y)
    ensures r - x == (1.0 - a) * (y - x)
  {
  }

  /** A fraction in [0, 1] of a non-negative distance lies between 0 and that distance. */
  lemma Scaled(a: real, d: real, p: real)
    requires 0.0 <= a <= 1.0 && d >= 0.0
    requires p == a * d
    ensures 0.0 <= p <= d
  {
  }

  /** mix_uc: the blend converted back to unsigned char, which truncates. */
  function MixUc(x: Byte, y: Byte, a: real): (r: Byte)
    requires 0.0 <= a <= 1.0
    ensures x <= y ==> x <= r <= y
    ensures y <= x ==> y <= r <= x
    ensures a == 1.0 ==> r == x
  {
    MixF(x as real, y as real, a).Floor
  }

  /** The branch a pixel takes. */
  datatype Blend =
    | NoInterp  // corner quarter of a corner tile: own table only
    | XBorder   // left or right border: blend with the tile above or below
    | YBorder   // top or bottom border: blend with the tile left or right
    | Bilinear  // interior: blend four tiles

  /** The pixel lies in the half of its tile that faces the left or right image edge. */
  predicate OnXEdge(cfg: Config, tilesX: nat, p: Pos)
    requires cfg.Valid()
  {
    (p.tx == 0 && p.px < cfg.HalfTileSize()) || (p.tx == tilesX - 1 && p.px >= cfg.HalfTileSize())
  }

  /** The pixel lies in the half of its tile that faces the top or bottom image edge. */
  predicate OnYEdge(cfg: Config, tilesY: nat, p: Pos)
    requires cfg.Valid()
  {
    (p.ty == 0 && p.py < cfg.HalfTileSize()) || (p.ty == tilesY - 1 && p.py >= cfg.HalfTileSize())
  }

  /** The branch skip_interpolate takes for a pixel. */
  function Classify(cfg: Config, tilesX: nat, tilesY: nat, p: Pos): Blend
    requires cfg.Valid()
  {
    if OnXEdge(cfg, tilesX, p) && OnYEdge(cfg, tilesY, p) then NoInterp
    else if OnXEdge(cfg, tilesX, p) then XBorder
    else if OnYEdge(cfg, tilesY, p) then YBorder
    else Bilinear
  }

  /** The flattened indices of the tiles whose tables a pixel reads, home tile first:
      the home tile alone in a corner; home and away in a border; home, away along x,
      home column of the away row, and away of the away row in the interior. Every one
      names an existing tile. */
  function Neighbours(cfg: Config, tilesX: nat, tilesY: nat, p: Pos): (ns: seq<nat>)
    requires InTiles(cfg, tilesX, tilesY, p)
    ensures |ns| == match Classify(cfg, tilesX, tilesY, p)
                   case NoInterp => 1
                   case XBorder => 2
                   case YBorder => 2
                   case Bilinear => 4
    ensures ns[0] == TileIndex(tilesX, p.tx, p.ty)
    ensures forall k :: 0 <= k < |ns| ==> ns[k] < tilesX * tilesY
  {
    var dx, dy := LerpDirection(cfg, p.px), LerpDirection(cfg, p.py);
    var home := TileIndex(tilesX, p.tx, p.ty);
    PackBound(p.ty, p.tx, tilesX, tilesY);
    match Classify(cfg, tilesX, tilesY, p)
    case NoInterp => [home]
    case XBorder =>
      PackBound(p.ty + dy, p.tx, tilesX, tilesY);
      [home, TileIndex(tilesX, p.tx, p.ty + dy)]
    case YBorder =>
      PackBound(p.ty, p.tx + dx, tilesX, tilesY);
      [home, TileIndex(tilesX, p.tx + dx, p.ty)]
    case Bilinear =>
      PackBound(p.ty, p.tx + dx, tilesX, tilesY);
      PackBound(p.ty + dy, p.tx, tilesX, tilesY);
      PackBound(p.ty + dy, p.tx + dx, tilesX, tilesY);
      [home, TileIndex(tilesX, p.tx + dx, p.ty),
       TileIndex(tilesX, p.tx, p.ty + dy), TileIndex(tilesX, p.tx + dx, p.ty + dy)]
  }

  /** One table per tile, each with 256 entries. */
  predicate TablesFit(tables: seq<seq<Byte>>, tilesX: nat, tilesY: nat) {
    |tables| == tilesX * tilesY && forall t :: 0 <= t < |tables| ==> |tables[t]| == PixelRange
  }

  /** The value the pixel's own tile's table gives its intensity. */
  function HomeValue(cfg: Config, tilesX: nat, tilesY: nat, tables: seq<seq<Byte>>, p: Pos, pixel: Byte): Byte
    requires InTiles(cfg, tilesX, tilesY, p)
    requires TablesFit(tables, tilesX, tilesY)
  {
    PackBound(p.ty, p.tx, tilesX, tilesY);
    tables[TileIndex(tilesX, p.tx, p.ty)][pixel]
  }

  /** The output intensity of a pixel of intensity `pixel` at `p`: its own tile's table value in a
      corner quarter, a blend with one neighbour on the border, and a blend of the home row
      and the away row in the interior. The final mix_f of the two row results, cast to
      unsigned char, is mix_uc of them, as both row results are themselves unsigned char values. */
  function InterpolateAt(cfg: Config, tilesX: nat, tilesY: nat, tables: seq<seq<Byte>>, p: Pos, pixel: Byte): Byte
    requires InTiles(cfg, tilesX, tilesY, p)
    requires TablesFit(tables, tilesX, tilesY)
  {
    var ns := Neighbours(cfg, tilesX, tilesY, p);
    var home := tables[ns[0]][pixel];
    match Classify(cfg, tilesX, tilesY, p)
    case NoInterp => home
    case XBorder => MixUc(home, tables[ns[1]][pixel], LerpWeight(cfg, p.py))
    case YBorder => MixUc(home, tables[ns[1]][pixel], LerpWeight(cfg, p.px))
    case Bilinear =>
      var homeLerp := MixUc(home, tables[ns[1]][pixel], LerpWeight(cfg, p.px));
      var awayLerp := MixUc(tables[ns[2]][pixel], tables[ns[3]][pixel], LerpWeight(cfg, p.px));
      MixUc(homeLerp, awayLerp, LerpWeight(cfg, p.py))
  }

  /** The table values a pixel of intensity `pixel` reads from the tiles `ns`. */
  function Looked(tables: seq<seq<Byte>>, ns: seq<nat>, pixel: Byte): (vs: seq<Byte>)
    requires forall k :: 0 <= k < |ns| ==> ns[k] < |tables| && |tables[ns[k]]| == PixelRange
    ensures |vs| == |ns|
    ensures forall k :: 0 <= k < |ns| ==> vs[k] == tables[ns[k]][pixel]
  {
    seq(|ns|, k requires 0 <= k < |ns| => tables[ns[k]][pixel])
  }

  /** `r` is no smaller than one of `vs` and no larger than one of `vs`. */
  ghost predicate Between(r: nat, vs: seq<Byte>) {
    && (exists k :: 0 <= k < |vs| && vs[k] <= r)
    && (exists k :: 0 <= k < |vs| && r <= vs[k])
  }

  /** Interpolation never leaves the range of the table values it blends. */
  lemma InterpolateBetweenNeighbours(cfg: Config, tilesX: nat, tilesY: nat, tables: seq<seq<Byte>>, p: Pos, pixel: Byte)
    requires InTiles(cfg, tilesX, tilesY, p)
    requires TablesFit(tables, tilesX, tilesY)
    ensures Between(InterpolateAt(cfg, tilesX, tilesY, tables, p, pixel),
                    Looked(tables, Neighbours(cfg, tilesX, tilesY, p), pixel))
  {
    var ns := Neighbours(cfg, tilesX, tilesY, p);
    var vs := Looked(tables, ns, pixel);
    var r := InterpolateAt(cfg, tilesX, tilesY, tables, p, pixel);
    match Classify(cfg, tilesX, tilesY, p)
    case NoInterp =>
      assert vs[0] == r;
    case XBorder =>
      assert vs[0] <= r <= vs[1] || vs[1] <= r <= vs[0];
    case YBorder =>
      assert vs[0] <= r <= vs[1] || vs[1] <= r <= vs[0];
    case Bilinear =>
      assert vs[0] <= r || vs[1] <= r || vs[2] <= r || vs[3] <= r;
      assert r <= vs[0] || r <= vs[1] || r <= vs[2] || r <= vs[3];
  }

  /** Where every tile has the same table, interpolation is that table's lookup: CLAHE with
      identical tiles is plain histogram equalisation. */
  lemma UniformTables(cfg: Config, tilesX: nat, tilesY: nat, tables: seq<seq<Byte>>, table: seq<Byte>, p: Pos, pixel: Byte)
    requires InTiles(cfg, tilesX, tilesY, p)
    requires TablesFit(tables, tilesX, tilesY)
    requires |table| == PixelRange
    requires forall t :: 0 <= t < |tables| ==> tables[t] == table
    ensures InterpolateAt(cfg, tilesX, tilesY, tables, p, pixel) == table[pixel]
  {
    var ns := Neighbours(cfg, tilesX, tilesY, p);
    var vs := Looked(tables, ns, pixel);
    var r := InterpolateAt(cfg, tilesX, tilesY, tables, p, pixel);
    InterpolateBetweenNeighbours(cfg, tilesX, tilesY, tables, p, pixel);
    var lo :| 0 <= lo < |vs| && vs[lo] <= r;
    var hi :| 0 <= hi < |vs| && r <= vs[hi];
    assert vs[lo] == table[pixel] == vs[hi];
  }

  /** A corner quarter pixel takes its own tile's table value unchanged. */
  lemma CornerUsesHomeTable(cfg: Config, tilesX: nat, tilesY: nat, tables: seq<seq<Byte>>, p: Pos, pixel: Byte)
    requires InTiles(cfg, tilesX, tilesY, p)
    requires TablesFit(tables, tilesX, tilesY)
    requires OnXEdge(cfg, tilesX, p) && OnYEdge(cfg, tilesY, p)
    ensures InterpolateAt(cfg, tilesX, tilesY, tables, p, pixel) == HomeValue(cfg, tilesX, tilesY, tables, p, pixel)
  {
  }

  /** The pixel at the centre of a tile (both offsets HALF_TILE_SIZE) takes its own tile's table
      value whatever branch it falls in: the home weight there is exactly 1. */
  lemma CentreUsesHomeTable(cfg: Config, tilesX: nat, tilesY: nat, tables: seq<seq<Byte>>, p: Pos, pixel: Byte)
    requires InTiles(cfg, tilesX, tilesY, p)
    requires TablesFit(tables, tilesX, tilesY)
    requires p.px == cfg.HalfTileSize() && p.py == cfg.HalfTileSize()
    ensures InterpolateAt(cfg, tilesX, tilesY, tables, p, pixel) == HomeValue(cfg, tilesX, tilesY, tables, p, pixel)
  {
    var ns := Neighbours(cfg, tilesX, tilesY, p);
    var home := tables[ns[0]][pixel];
    var r := InterpolateAt(cfg, tilesX, tilesY, tables, p, pixel);
    var w := LerpWeight(cfg, cfg.HalfTileSize());
    assert w == 1.0;
    match Classify(cfg, tilesX, tilesY, p)
    case NoInterp =>
      assert r == home;
    case XBorder =>
      assert r == MixUc(home, tables[ns[1]][pixel], w);
      assert r == home;
    case YBorder =>
      assert r == MixUc(home, tables[ns[1]][pixel], w);
      assert r == home;
    case Bilinear =>
      var homeLerp := MixUc(home, tables[ns[1]][pixel], w);
      var awayLerp := MixUc(tables[ns[2]][pixel], tables[ns[3]][pixel], w);
      assert homeLerp == home;
      assert r == MixUc(homeLerp, awayLerp, w);
      assert r == home;
  }

  /** An image of a single tile takes the corner branch at every pixel. */
  lemma SingleTileIsCorner(cfg: Config, p: Pos)
    requires InTiles(cfg, 1, 1, p)
    ensures Classify(cfg, 1, 1, p) == NoInterp
  {
  }

  /** The border and interior branches read only tiles that exist, so the source's unsigned
      t_x + direction and t_y + direction never wrap. */
  lemma AwayTilesExist(cfg: Config, tilesX: nat, tilesY: nat, p: Pos)
    requires InTiles(cfg, tilesX, tilesY, p)
    ensures Classify(cfg, tilesX, tilesY, p) in {XBorder, Bilinear} ==>
              0 <= p.ty + LerpDirection(cfg, p.py) < tilesY
    ensures Classify(cfg, tilesX, tilesY, p) in {YBorder, Bilinear} ==>
              0 <= p.tx + LerpDirection(cfg, p.px) < tilesX
  {
  }

  /** skip_interpolate: the output image has the input's shape and every pixel is the
      interpolation of the input pixel at the same place. */
  function SkipInterpolate(cfg: Config, img: Image, tables: seq<seq<Byte>>): (out: Image)
    requires img.Valid(cfg)
    requires TablesFit(tables, img.TilesX(cfg), img.TilesY(cfg))
    ensures out.width == img.width && out.height == img.height
    ensures out.Valid(cfg)
  {
    var data := seq(|img.data|, i requires 0 <= i < |img.data| =>
      PixelIndexOfPos(cfg, img, i);
      InterpolateAt(cfg, img.TilesX(cfg), img.TilesY(cfg), tables, PosOf(cfg, img, i), img.data[i]));
    Image(data, img.width, img.height)
  }

  /** The loops of skip_interpolate store at tile_offset + pixel_offset the interpolation of the
      pixel they load from the same offset. */
  lemma InterpolateStoresEachPixel(cfg: Config, img: Image, tables: seq<seq<Byte>>, p: Pos)
    requires img.Valid(cfg)
    requires TablesFit(tables, img.TilesX(cfg), img.TilesY(cfg))
    requires InGrid(cfg, img, p)
    ensures PixelIndex(cfg, img, p) < |img.data|
    ensures SkipInterpolate(cfg, img, tables).data[PixelIndex(cfg, img, p)]
         == InterpolateAt(cfg, img.TilesX(cfg), img.TilesY(cfg), tables, p, img.data[PixelIndex(cfg, img, p)])
  {
    PixelIndexInBounds(cfg, img, p);
    PosOfPixelIndex(cfg, img, p);
  }
}
