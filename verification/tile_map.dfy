/**
 * `TileMap`, the grid object that both the game's map manager and the
 * passability map editor keep: a `std::vector<std::vector<Tile>>` updated in
 * place by `setTile` and `load`, written out by `save`. Both programs
 * construct it with their own MAP_WIDTH and MAP_HEIGHT and bound every
 * access by those same constants, which the class carries as `width` and
 * `height`. The file itself is a byte sequence (opening it is not modelled).
 */
module TileMaps {
  import opened Wrappers
  import opened Machine
  import opened Tiles
  import opened MapFile

  class TileMap {
    /** MAP_WIDTH of the program that owns the map. */
    const width: nat
    /** MAP_HEIGHT of the program that owns the map. */
    const height: nat
    /** The grid, row by row. */
    var rows: seq<seq<Tile>>

    /** `height` rows of `width` tiles, every unplaced tile blank. */
    ghost predicate Valid()
      reads this
    {
      Shaped(rows, width, height) && AllTilesValid(rows)
    }

    /** `TileMap(width, height)`: every cell a default tile. */
    constructor (width: nat, height: nat)
      ensures Valid()
      ensures this.width == width && this.height == height
      ensures rows == Filled(width, height, BlankTile)
    {
      this.width := width;
      this.height := height;
      rows := Filled(width, height, BlankTile);
    }

    /** `setTile`: on the map, the cell takes the rect, becomes placed and takes the flag; off the map nothing changes. */
    method SetTile(x: int32, y: int32, rect: Rect, passable: bool)
      requires Valid()
      modifies this
      ensures Valid()
      ensures rows == SetCell(old(rows), x as int, y as int, Tile(rect, true, passable))
    {
      if 0 <= x as int < width && 0 <= y as int < height {
        rows := rows[y := rows[y][x := Tile(rect, true, passable)]];
      }
      SetCellKeepsValid(old(rows), x as int, y as int, Tile(rect, true, passable));
    }

    /** `isTilePassable`: the cell's flag on the map, false off it. */
    method IsTilePassable(x: int32, y: int32) returns (b: bool)
      requires Valid()
      ensures b == PassableAt(rows, x as int, y as int)
    {
      if 0 <= x as int < width && 0 <= y as int < height {
        b := rows[y][x].passable;
      } else {
        b := false;
      }
    }

    /** `save`: the bytes written, one record per cell in row-major order. */
    method Save() returns (out: seq<byte>)
      requires Valid()
      ensures out == EncodeGrid(rows)
    {
      out := [];
      var y := 0;
      while y < |rows|
        invariant 0 <= y <= |rows|
        invariant out == EncodeGrid(rows[..y])
      {
        out := SaveRowCells(out, rows[y]);
        assert rows[..y + 1] == rows[..y] + [rows[y]];
        EncodeGridSnoc(rows[..y], rows[y]);
        y := y + 1;
      }
      assert rows[..y] == rows;
    }

    /**
     * `load` of the file's bytes. `complete` says whether every cell's record
     * was there in full; if so the grid is what LoadGrid gives. On a short
     * read the source goes on with an uninitialised flag, so the cells are
     * then left unspecified, though every cell still keeps its invariant.
     */
    method Load(data: seq<byte>) returns (complete: bool)
      requires Valid()
      modifies this
      ensures Valid()
      ensures complete == LoadGrid(old(rows), data).Some?
      ensures complete ==> rows == LoadGrid(old(rows), data).value
    {
      ghost var start := rows;
      var rest := data;
      var y := 0;
      complete := true;
      while y < |rows| && complete
        invariant 0 <= y <= |rows| && Valid()
        invariant rows[y..] == start[y..]
        invariant complete ==> LoadRows(start[..y], data) == Some((rows[..y], rest))
        invariant !complete ==> LoadRows(start, data).None?
        decreases |rows| - y, complete
      {
        ghost var rowStart := rest;
        assert rows[y] == start[y] by { assert rows[y..][0] == start[y..][0]; }
        var row;
        row, rest, complete := LoadRowCells(rows[y], rest);
        LoadRowsStep(start, y, data, rows[..y], rowStart);
        ghost var loaded := rows[..y];
        SetRowKeepsValid(rows, width, height, y, row);
        rows := rows[y := row];
        assert rows[..y + 1] == loaded + [row];
        y := y + 1;
      }
      if complete {
        assert rows[..y] == rows && start[..y] == start;
      }
    }
  }

  /** The inner loop of `save`: each cell's record of a row in turn, written after `out`. */
  method SaveRowCells(out: seq<byte>, row: seq<Tile>) returns (out': seq<byte>)
    ensures out' == out + EncodeRow(row)
  {
    out' := out;
    var x := 0;
    while x < |row|
      invariant 0 <= x <= |row|
      invariant out' == out + EncodeRow(row[..x])
    {
      assert row[..x + 1] == row[..x] + [row[x]];
      EncodeRowSnoc(row[..x], row[x]);
      AppendAssoc(out, EncodeRow(row[..x]), EncodeTile(row[x]));
      out' := out' + EncodeTile(row[x]);
      x := x + 1;
    }
    assert row[..x] == row;
  }

  /**
   * The inner loop of `load`: each cell of a row in turn takes the record at
   * the head of the unread bytes. Stops at the first short read, leaving
   * `complete` false.
   */
  method LoadRowCells(start: seq<Tile>, data: seq<byte>) returns (row: seq<Tile>, rest: seq<byte>, complete: bool)
    requires forall i :: 0 <= i < |start| ==> TileInvariant(start[i])
    ensures |row| == |start| && forall i :: 0 <= i < |row| ==> TileInvariant(row[i])
    ensures complete == LoadRow(start, data).Some?
    ensures complete ==> (row, rest) == LoadRow(start, data).value
  {
    var done: seq<Tile> := [];
    rest, complete := data, true;
    var x := 0;
    assert start[..0] == [];
    while x < |start| && complete
      invariant 0 <= x <= |start| && |done| == x
      invariant forall i :: 0 <= i < x ==> TileInvariant(done[i])
      invariant complete ==> LoadRow(start[..x], data) == Some((done, rest))
      invariant !complete ==> LoadRow(start, data).None?
      decreases |start| - x, complete
    {
      LoadRowStep(start, x, data, done, rest);
      var r := ReadTile(start[x], rest);
      if r.None? {
        complete := false;
      } else {
        ReadTileKeepsInvariant(start[x], rest);
        done := done + [r.value.0];
        rest := r.value.1;
        x := x + 1;
      }
    }
    if complete {
      assert start[..x] == start;
      row := done;
    } else {
      row := done + start[x..];
    }
  }
}
