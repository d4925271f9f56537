/**
 * The passability map editor: a 64 by 48 tile `TileMap` (the same class and
 * file format as the game's), edited by clicking a map window whose tiles
 * are drawn 48 pixels wide and picking 16 by 16 rects in a tilesheet window.
 */
module Editor {
  import opened Machine
  import opened Tiles
  import opened MapFile
  import opened TileMaps

  /** Tiles are drawn three times their tilesheet size in the map window. */
  const SCALE_FACTOR: int := 3
  /** Edge of a tile in the map window: 48 pixels. */
  const SCALED_TILE_SIZE: int := TILE_SIZE * SCALE_FACTOR
  const MAP_WIDTH_PIXELS: int := 1027
  const MAP_HEIGHT_PIXELS: int := 768
  /** 1027 / 16, truncated: 64 tiles. */
  const MAP_WIDTH: nat := MAP_WIDTH_PIXELS / TILE_SIZE
  /** 768 / 16: 48 tiles. */
  const MAP_HEIGHT: nat := MAP_HEIGHT_PIXELS / TILE_SIZE

  /** The tile column or row a map-window click at pixel `p` targets: C++ `p / 48`, truncating toward zero. */
  function ClickedTile(p: int32): (t: int32)
    ensures p >= 0 ==> 0 <= t && 48 * (t as int) <= p as int < 48 * (t as int + 1)
    ensures -48 < p as int < 0 ==> t == 0
    ensures p as int <= -48 ==> t < 0
  {
    TruncDiv(p as int, SCALED_TILE_SIZE) as int32
  }

  /**
   * The map window is 1027 by 768 pixels but its tiles are 48 pixels wide,
   * so every click inside it lands on the grid, in its first 22 columns and
   * first 16 rows.
   */
  lemma ClickInWindowOnGrid(px: int32, py: int32)
    requires 0 <= px as int < MAP_WIDTH_PIXELS && 0 <= py as int < MAP_HEIGHT_PIXELS
    ensures 0 <= ClickedTile(px) < 22 && 22 <= MAP_WIDTH
    ensures 0 <= ClickedTile(py) < 16 && 16 <= MAP_HEIGHT
  {
  }

  /** The corner of the 16 by 16 tilesheet rect a click at pixel `p` selects: C++ `(p / 16) * 16`. */
  function SnapToTile(p: int32): (s: int32)
    ensures s as int % TILE_SIZE == 0
    ensures p >= 0 ==> 0 <= s <= p && p as int < s as int + TILE_SIZE
    ensures p < 0 ==> p <= s <= 0 && s as int < p as int + TILE_SIZE
  {
    (TruncDiv(p as int, TILE_SIZE) * TILE_SIZE) as int32
  }

  /** Snapping is idempotent: a selected corner selects itself. */
  lemma SnapToTileIdempotent(p: int32)
    ensures SnapToTile(SnapToTile(p)) == SnapToTile(p)
  {
    var s := SnapToTile(p) as int;
    var q := s / TILE_SIZE;
    assert s == q * TILE_SIZE;
    if s < 0 {
      assert -s == (-q) * TILE_SIZE;
      assert (-s) / TILE_SIZE == -q;
    }
    assert TruncDiv(s, TILE_SIZE) == q;
  }

  /**
   * A saved editor map holds exactly 3072 cell records, in row-major order:
   * 3072 bytes plus 17 for every placed cell.
   */
  lemma SaveWritesEveryCell(rows: seq<seq<Tile>>)
    requires Shaped(rows, MAP_WIDTH, MAP_HEIGHT)
    ensures |Flatten(rows)| == 3072
    ensures EncodeGrid(rows) == EncodeRow(Flatten(rows))
    ensures |EncodeGrid(rows)| == 3072 + 17 * PlacedCount(Flatten(rows))
  {
    assert MAP_WIDTH == 64 && MAP_HEIGHT == 48;
    FlattenLength(rows, MAP_WIDTH, MAP_HEIGHT);
    EncodeGridRowMajor(rows);
    EncodedRowLength(Flatten(rows));
  }

  /** The editor's state that the map and tilesheet clicks touch. */
  class TileMapEditor {
    /** The map being edited. */
    const tileMap: TileMap
    /** The tilesheet rect placed by the next map click. */
    var selectedTileRect: Rect
    /** The passable flag given to the next placed tile. */
    var isPassable: bool

    ghost predicate Valid()
      reads this, tileMap
    {
      tileMap.Valid() && tileMap.width == MAP_WIDTH && tileMap.height == MAP_HEIGHT
    }

    /** A blank map, the tilesheet's first rect selected, placing passable tiles. */
    constructor ()
      ensures Valid() && fresh(tileMap)
      ensures tileMap.rows == Filled(MAP_WIDTH, MAP_HEIGHT, BlankTile)
      ensures selectedTileRect == DefaultRect && isPassable
    {
      tileMap := new TileMap(MAP_WIDTH, MAP_HEIGHT);
      selectedTileRect := DefaultRect;
      isPassable := true;
    }

    /** A left click in the map window at (px, py) places the selected rect, with the current flag, on the tile under it. */
    method MapClick(px: int32, py: int32)
      requires Valid()
      modifies tileMap
      ensures Valid()
      ensures tileMap.rows == SetCell(old(tileMap.rows), ClickedTile(px) as int, ClickedTile(py) as int, Tile(selectedTileRect, true, isPassable))
    {
      var tileX := ClickedTile(px);
      var tileY := ClickedTile(py);
      tileMap.SetTile(tileX, tileY, selectedTileRect, isPassable);
    }

    /** A left click in the tilesheet window at (px, py) selects the 16 by 16 rect it falls in. */
    method TilesheetClick(px: int32, py: int32)
      modifies this
      ensures selectedTileRect == Rect(SnapToTile(px), SnapToTile(py), 16, 16)
      ensures isPassable == old(isPassable)
    {
      selectedTileRect := Rect(SnapToTile(px), SnapToTile(py), 16, 16);
    }

    /** The P key: tiles placed from now on get the opposite passable flag. */
    method TogglePassable()
      modifies this
      ensures isPassable == !old(isPassable)
      ensures selectedTileRect == old(selectedTileRect)
    {
      isPassable := !isPassable;
    }
  }
}
