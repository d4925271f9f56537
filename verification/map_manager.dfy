/**
 * The game's `MapManager`: the current 80 by 45 `TileMap`, the directory the
 * numbered map files live in, and the number and file name of the map last
 * loaded. The file system is a map from file names to their bytes.
 */
module MapManagers {
  import opened Machine
  import opened Tiles
  import opened MapFile
  import opened TileMaps

  /** Each tile is drawn three times its tilesheet size. */
  const SCALE_FACTOR: int := 3
  /** Edge of a tile on screen, in pixels: 48. */
  const SCALED_TILE_SIZE: int := TILE_SIZE * SCALE_FACTOR
  const MAP_WIDTH_PIXELS: int := 1280
  const MAP_HEIGHT_PIXELS: int := 720
  /** Map width in tiles: 80. */
  const MAP_WIDTH: nat := MAP_WIDTH_PIXELS / TILE_SIZE
  /** Map height in tiles: 45. */
  const MAP_HEIGHT: nat := MAP_HEIGHT_PIXELS / TILE_SIZE

  /** The file of map `n` under `dir`: `dir/map_<n>.dat`. */
  function MapFileName(dir: string, n: int32): (name: string)
    ensures |name| > |dir| + 9
    ensures name[..|dir|] == dir && name[|name| - 4..] == ".dat"
  {
    dir + "/map_" + ToDecimal(n as int) + ".dat"
  }

  /** Different map numbers name different files. */
  lemma MapFileNameInjective(dir: string, m: int32, n: int32)
    requires MapFileName(dir, m) == MapFileName(dir, n)
    ensures m == n
  {
    var a, b := MapFileName(dir, m), MapFileName(dir, n);
    var k := |dir| + 5;
    assert a[k..|a| - 4] == ToDecimal(m as int);
    assert b[k..|b| - 4] == ToDecimal(n as int);
    ToDecimalInjective(m as int, n as int);
  }

  /** The tile column or row a pixel coordinate falls in: `static_cast<int>(p / 48)`, which truncates toward zero. */
  ghost function TileOfPixel(p: real): int {
    Trunc(p / SCALED_TILE_SIZE as real)
  }

  /** The cast as the program computes it. */
  method TileOfPixelAt(p: real) returns (t: int)
    ensures t == TileOfPixel(p)
  {
    t := TruncOf(p / SCALED_TILE_SIZE as real);
  }

  /** Pixels of tile `t` (0 <= t) are those from 48 t up to, not including, 48 (t + 1). */
  lemma TileOfPixelRange(p: real, t: int)
    requires 0 <= t
    ensures TileOfPixel(p) == t <==> (t == 0 && -48.0 < p < 48.0) || (t > 0 && 48.0 * t as real <= p < 48.0 * (t + 1) as real)
  {
  }

  /** `isPositionPassable`: the passability of the tile under the pixel (x, y); off the map, false. */
  ghost function PositionPassable(rows: seq<seq<Tile>>, x: real, y: real): (b: bool)
    requires Shaped(rows, MAP_WIDTH, MAP_HEIGHT)
    ensures b ==> 0 <= TileOfPixel(x) < MAP_WIDTH && 0 <= TileOfPixel(y) < MAP_HEIGHT
  {
    var tx, ty := TileOfPixel(x), TileOfPixel(y);
    if tx < 0 || tx >= MAP_WIDTH || ty < 0 || ty >= MAP_HEIGHT then false
    else PassableAt(rows, tx, ty)
  }

  /**
   * A position is passable exactly when the tile it truncates to is. So a
   * passable position lies on the 80 by 45 tile (3840 by 2160 pixel) map or,
   * because the cast truncates toward zero, less than one tile left of or
   * above it, where it counts as being on column or row 0.
   */
  lemma PositionPassableMeans(rows: seq<seq<Tile>>, x: real, y: real)
    requires Shaped(rows, MAP_WIDTH, MAP_HEIGHT)
    ensures PositionPassable(rows, x, y) ==> -48.0 < x < 3840.0 && -48.0 < y < 2160.0
    ensures PositionPassable(rows, x, y) == PassableAt(rows, TileOfPixel(x), TileOfPixel(y))
  {
    if PositionPassable(rows, x, y) {
      var tx, ty := TileOfPixel(x), TileOfPixel(y);
      assert x / 48.0 < tx as real + 1.0 && y / 48.0 < ty as real + 1.0;
      assert -1.0 < x / 48.0 && -1.0 < y / 48.0;
    }
  }

  class MapManager {
    /** The directory holding the map files. */
    const mapsDirectory: string
    /** The map on screen. */
    const currentMap: TileMap
    /** Number of the map last loaded; 1 before any. */
    var currentMapNumber: int32
    /** File name of the map last loaded; empty before any. */
    var currentMapFilename: string

    ghost predicate Valid()
      reads this, currentMap
    {
      currentMap.Valid() && currentMap.width == MAP_WIDTH && currentMap.height == MAP_HEIGHT
    }

    /** `MapManager(mapsPath)`: an empty 80 by 45 map, map number 1. */
    constructor (mapsPath: string)
      ensures Valid() && fresh(currentMap)
      ensures mapsDirectory == mapsPath && currentMapNumber == 1 && currentMapFilename == ""
      ensures currentMap.rows == Filled(MAP_WIDTH, MAP_HEIGHT, BlankTile)
    {
      mapsDirectory := mapsPath;
      currentMap := new TileMap(MAP_WIDTH, MAP_HEIGHT);
      currentMapNumber := 1;
      currentMapFilename := "";
    }

    /**
     * `loadMap`: when map `n`'s file exists, load it into the current map and
     * make it the current map; otherwise change nothing. `complete` says the
     * file held a record for every cell.
     */
    method LoadMap(n: int32, files: map<string, seq<byte>>) returns (found: bool, complete: bool)
      requires Valid()
      modifies this, currentMap
      ensures Valid()
      ensures found == (MapFileName(mapsDirectory, n) in files)
      ensures found ==> currentMapNumber == n && currentMapFilename == MapFileName(mapsDirectory, n)
      ensures found ==> complete == LoadGrid(old(currentMap.rows), files[MapFileName(mapsDirectory, n)]).Some?
      ensures found && complete ==> currentMap.rows == LoadGrid(old(currentMap.rows), files[MapFileName(mapsDirectory, n)]).value
      ensures !found ==> currentMapNumber == old(currentMapNumber) && currentMapFilename == old(currentMapFilename)
      ensures !found ==> currentMap.rows == old(currentMap.rows)
    {
      var filename := MapFileName(mapsDirectory, n);
      found := filename in files;
      complete := false;
      if found {
        complete := currentMap.Load(files[filename]);
        currentMapNumber := n;
        currentMapFilename := filename;
      }
    }

    /** `isTilePassable`: the current map's flag for tile (x, y), false off the map. */
    method IsTilePassable(x: int32, y: int32) returns (b: bool)
      requires Valid()
      ensures b == PassableAt(currentMap.rows, x as int, y as int)
    {
      b := currentMap.IsTilePassable(x, y);
    }

    /** `isPositionPassable`: the current map's passability at pixel (x, y). */
    method IsPositionPassable(x: real, y: real) returns (b: bool)
      requires Valid()
      ensures b == PositionPassable(currentMap.rows, x, y)
    {
      var tileX := TileOfPixelAt(x);
      var tileY := TileOfPixelAt(y);
      if tileX < 0 || tileX >= MAP_WIDTH || tileY < 0 || tileY >= MAP_HEIGHT {
        return false;
      }
      b := IsTilePassable(tileX as int32, tileY as int32);
    }
  }
}
