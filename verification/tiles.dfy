/**
 * The tile grid shared by the game's map manager and the passability map
 * editor: a row-major grid of tiles, each with a tilesheet rect, a "placed"
 * flag and a "passable" flag.
 */
module Tiles {
  import opened Machine

  /** Edge of one tilesheet tile in pixels. */
  const TILE_SIZE: int := 16

  /** `sf::IntRect`: position and size of a tilesheet tile, as C++ ints. */
  datatype Rect = Rect(left: int32, top: int32, width: int32, height: int32)

  /** One map cell. */
  datatype Tile = Tile(rect: Rect, placed: bool, passable: bool)

  /** The rect a default-constructed tile carries. */
  const DefaultRect: Rect := Rect(0, 0, 16, 16)

  /** `Tile()`: nothing placed yet, default rect, passable. */
  const BlankTile: Tile := Tile(DefaultRect, false, true)

  /**
   * The fact every mutator keeps: the only way to change a tile's rect or
   * passability also marks it placed, so an unplaced tile is still blank.
   */
  predicate TileInvariant(t: Tile) {
    !t.placed ==> t == BlankTile
  }

  /** `height` rows of `width` cells each: `std::vector<std::vector<T>>` after `resize(height, vector(width))`. */
  predicate Shaped<T>(rows: seq<seq<T>>, width: nat, height: nat) {
    |rows| == height && forall y :: 0 <= y < |rows| ==> |rows[y]| == width
  }

  /** A grid whose every cell is `t`. */
  function Filled<T>(width: nat, height: nat, t: T): (rows: seq<seq<T>>)
    ensures Shaped(rows, width, height)
    ensures forall y, x :: 0 <= y < height && 0 <= x < width ==> rows[y][x] == t
  {
    seq(height, _ => seq(width, _ => t))
  }

  /** Every tile of the grid keeps TileInvariant. */
  predicate AllTilesValid(rows: seq<seq<Tile>>) {
    forall y, x :: 0 <= y < |rows| && 0 <= x < |rows[y]| ==> TileInvariant(rows[y][x])
  }

  /** The cells of a grid in row-major order. */
  function Flatten<T>(rows: seq<seq<T>>): seq<T> {
    if rows == [] then [] else rows[0] + Flatten(rows[1..])
  }

  /** A `width` by `height` grid has `width * height` cells. */
  lemma {:induction false} FlattenLength<T>(rows: seq<seq<T>>, width: nat, height: nat)
    requires Shaped(rows, width, height)
    ensures |Flatten(rows)| == width * height
    decreases height
  {
    if height > 0 {
      FlattenLength(rows[1..], width, height - 1);
      assert width * height == width + width * (height - 1);
    }
  }

  /** Cell (x, y) of a `width` wide grid is the (y * width + x)-th in row-major order. */
  lemma {:induction false} FlattenAt<T>(rows: seq<seq<T>>, width: nat, height: nat, x: nat, y: nat)
    requires Shaped(rows, width, height) && x < width && y < height
    ensures y * width + x < |Flatten(rows)|
    ensures Flatten(rows)[y * width + x] == rows[y][x]
    decreases y
  {
    if y > 0 {
      FlattenAt(rows[1..], width, height - 1, x, y - 1);
      assert y * width == width + (y - 1) * width;
    }
  }

  /**
   * Passability of a tile by its own grid's bounds: false off the grid
   * (fail-closed), otherwise the tile's flag.
   */
  function PassableAt(rows: seq<seq<Tile>>, x: int, y: int): (b: bool)
    ensures b ==> 0 <= y < |rows| && 0 <= x < |rows[y]|
  {
    0 <= y < |rows| && 0 <= x < |rows[y]| && rows[y][x].passable
  }

  /** The grid with cell (x, y) replaced by `t` when (x, y) is on it, and unchanged otherwise. */
  function SetCell<T>(rows: seq<seq<T>>, x: int, y: int, t: T): (r: seq<seq<T>>)
    ensures |r| == |rows| && forall j :: 0 <= j < |r| ==> |r[j]| == |rows[j]|
  {
    if 0 <= y < |rows| && 0 <= x < |rows[y]| then rows[y := rows[y][x := t]] else rows
  }

  /** After placing `t` at (x, y), that cell has `t`'s passability and every other cell keeps its own. */
  lemma PassableAfterSetCell(rows: seq<seq<Tile>>, x: int, y: int, t: Tile, x': int, y': int)
    ensures PassableAt(SetCell(rows, x, y, t), x', y') ==
      if x' == x && y' == y && 0 <= y < |rows| && 0 <= x < |rows[y]|
      then t.passable
      else PassableAt(rows, x', y')
  {
  }

  /** Replacing a row by one of the same length whose cells keep TileInvariant keeps the grid's shape and validity. */
  lemma SetRowKeepsValid(rows: seq<seq<Tile>>, width: nat, height: nat, y: nat, row: seq<Tile>)
    requires Shaped(rows, width, height) && AllTilesValid(rows) && y < height
    requires |row| == width && forall x :: 0 <= x < |row| ==> TileInvariant(row[x])
    ensures Shaped(rows[y := row], width, height) && AllTilesValid(rows[y := row])
  {
  }

  /** Placing a placed tile keeps every cell blank unless placed. */
  lemma SetCellKeepsValid(rows: seq<seq<Tile>>, x: int, y: int, t: Tile)
    requires AllTilesValid(rows) && t.placed
    ensures AllTilesValid(SetCell(rows, x, y, t))
  {
  }

  // ----- the bytes of a record -----

  /** A `bool` as written by `file.write(&b, sizeof(bool))`. */
  function EncodeBool(b: bool): byte {
    if b then 1 else 0
  }

  /** A `bool` read back from one byte (only 0 and 1 are ever written). */
  function DecodeBool(b: byte): bool {
    b != 0
  }

  function EncodeRect(r: Rect): (bs: seq<byte>)
    ensures |bs| == 16
  {
    EncodeInt32(r.left) + EncodeInt32(r.top) + EncodeInt32(r.width) + EncodeInt32(r.height)
  }

  function DecodeRect(bs: seq<byte>): Rect
    requires |bs| == 16
  {
    Rect(DecodeInt32(bs[0..4]), DecodeInt32(bs[4..8]), DecodeInt32(bs[8..12]), DecodeInt32(bs[12..16]))
  }

  lemma DecodeEncodeRect(r: Rect)
    ensures DecodeRect(EncodeRect(r)) == r
  {
    var bs := EncodeRect(r);
    assert bs[0..4] == EncodeInt32(r.left);
    assert bs[4..8] == EncodeInt32(r.top);
    assert bs[8..12] == EncodeInt32(r.width);
    assert bs[12..16] == EncodeInt32(r.height);
    DecodeEncodeInt32(r.left);
    DecodeEncodeInt32(r.top);
    DecodeEncodeInt32(r.width);
    DecodeEncodeInt32(r.height);
  }
}
