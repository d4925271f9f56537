/**
 * The Assets editor's `TileMap`: a 64 by 48 grid of rect-and-placed-flag
 * cells, updated in place by `setTile`, `load` and `importFromTscn`, and
 * written out by `save`. A file is its bytes; a scene file is its lines,
 * or nothing when it does not exist.
 */
module AssetMaps {
  import opened Wrappers
  import opened Machine
  import opened Tiles
  import opened PlainMapFile
  import opened Tscn
  import opened TscnLayout

  const MAP_WIDTH_PIXELS: int := 1027
  const MAP_HEIGHT_PIXELS: int := 768
  /** 1027 / 16, truncated: 64 tiles. */
  const MAP_WIDTH: nat := MAP_WIDTH_PIXELS / TILE_SIZE
  /** 768 / 16: 48 tiles. */
  const MAP_HEIGHT: nat := MAP_HEIGHT_PIXELS / TILE_SIZE

  /** How `importFromTscn` ends. */
  datatype ImportOutcome =
    | Missing   // the file does not exist: returns false
    | Imported  // returns true
    | Threw     // `std::stoi` throws `std::out_of_range` out of the call
    | Faulted   // integer division by zero

  /** The outcome of a layout that ended in `st`. */
  function OutcomeOf(st: LayoutState): (o: ImportOutcome)
    ensures o != Missing
    ensures o == Imported <==> st.Placing? || st.Full?
    ensures o == Threw <==> st.OutOfRange?
  {
    match st
    case Placing(_, _, _) => Imported
    case Full(_) => Imported
    case OutOfRange(_) => Threw
    case DivByZero(_) => Faulted
  }

  class AssetTileMap {
    /** The grid, row by row. */
    var rows: seq<seq<PlainTile>>

    /** 48 rows of 64 cells, every unplaced cell blank. */
    ghost predicate Valid()
      reads this
    {
      Shaped(rows, MAP_WIDTH, MAP_HEIGHT) && AllPlainTilesValid(rows)
    }

    /** `TileMap(MAP_WIDTH, MAP_HEIGHT)`, as the editor builds it: every cell a default tile. */
    constructor ()
      ensures Valid()
      ensures rows == Filled(MAP_WIDTH, MAP_HEIGHT, BlankPlainTile)
    {
      rows := Filled(MAP_WIDTH, MAP_HEIGHT, BlankPlainTile);
    }

    /** `setTile`: on the map, the cell takes the rect and becomes placed; off the map nothing changes. */
    method SetTile(x: int32, y: int32, rect: Rect)
      requires Valid()
      modifies this
      ensures Valid()
      ensures rows == SetCell(old(rows), x as int, y as int, PlainTile(rect, true))
    {
      if 0 <= x as int < MAP_WIDTH && 0 <= y as int < MAP_HEIGHT {
        rows := rows[y := rows[y][x := PlainTile(rect, true)]];
      }
      SetPlainCellKeepsValid(old(rows), x as int, y as int, PlainTile(rect, true));
    }

    /** `save`: the bytes written, one record per cell in row-major order. */
    method Save() returns (out: seq<byte>)
      requires Valid()
      ensures out == EncodeGrid(rows)
    {
      out := [];
      var y := 0;
      while y < |rows|
        invariant 0 <= y <= |rows|
        invariant out == EncodeGrid(rows[..y])
      {
        out := SaveRowCells(out, rows[y]);
        assert rows[..y + 1] == rows[..y] + [rows[y]];
        EncodeGridSnoc(rows[..y], rows[y]);
        y := y + 1;
      }
      assert rows[..y] == rows;
    }

    /**
     * `load` of the file's bytes. `complete` says whether every cell's record
     * was there in full; if so the grid is what LoadGrid gives. After a short
     * read the cells are left unspecified, though each keeps its invariant.
     */
    method Load(data: seq<byte>) returns (complete: bool)
      requires Valid()
      modifies this
      ensures Valid()
      ensures complete == LoadGrid(old(rows), data).Some?
      ensures complete ==> rows == LoadGrid(old(rows), data).value
    {
      ghost var start := rows;
      var rest := data;
      var y := 0;
      complete := true;
      while y < |rows| && complete
        invariant 0 <= y <= |rows| && Valid()
        invariant |rows| == |start| && forall j :: y <= j < |rows| ==> rows[j] == start[j]
        invariant complete ==> LoadRows(start[..y], data) == Some((rows[..y], rest))
        invariant !complete ==> LoadRows(start, data).None?
        decreases |rows| - y, complete
      {
        ghost var rowStart := rest;
        var row;
        row, rest, complete := LoadRowCells(rows[y], rest);
        LoadRowsStep(start, y, data, rows[..y], rowStart);
        ghost var loaded := rows[..y];
        SetPlainRowKeepsValid(rows, MAP_WIDTH, MAP_HEIGHT, y, row);
        rows := rows[y := row];
        assert rows[..y + 1] == loaded + [row];
        y := y + 1;
      }
      if complete {
        assert rows[..y] == rows && start[..y] == start;
      }
    }

    /**
     * `importFromTscn` of a scene file (None when it does not exist) against
     * a tilesheet `w` tiles wide. A missing file changes nothing. Otherwise
     * the first pass finds `texturePath`, the second collects the tile ids,
     * the map is cleared and the ids are laid out over it; the outcome and
     * the map are those of that layout, including a map left part-filled
     * when `std::stoi` throws or a division by zero ends the loop.
     */
    method ImportFromTscn(file: Option<seq<string>>, w: nat) returns (outcome: ImportOutcome, texturePath: string)
      requires Valid()
      modifies this
      ensures Valid()
      ensures file.None? ==> outcome == Missing && rows == old(rows) && texturePath == ""
      ensures file.Some? ==> texturePath == TexturePath(file.value)
      ensures file.Some? ==>
        var st := LayoutIds(SceneIds(file.value), MAP_WIDTH, MAP_HEIGHT, w);
        outcome == OutcomeOf(st) && rows == st.grid
    {
      texturePath := "";
      if file.None? {
        return Missing, texturePath;
      }
      var lines := file.value;
      texturePath := FindTexturePath(lines);
      var ids := CollectIds(lines);
      assert ids == SceneIds(lines);

      outcome := LayOut(ids, w);
    }

    /**
     * One turn of the layout loop at the cursor (x, y): wrap to the next row
     * past the right edge, stop below the map, convert the id and, when it
     * is positive, set the cell to its tile of the tilesheet.
     */
    method PlaceOne(id: string, w: nat, x: int, y: int) returns (next: LayoutState)
      requires IsIntToken(id) && Valid() && 0 <= x && 0 <= y
      modifies this
      ensures Valid() && rows == next.grid
      ensures next == PlaceId(Placing(x, y, old(rows)), id, MAP_WIDTH, MAP_HEIGHT, w)
      ensures next.Placing? ==> next.x >= 0 && next.y >= 0
    {
      var cx, cy := x, y;
      if cx >= MAP_WIDTH {
        cx := 0;
        cy := cy + 1;
      }
      if cy >= MAP_HEIGHT {
        return Full(rows);
      }
      var tid := Stoi(id);
      if tid.None? {
        return OutOfRange(rows);
      }
      if tid.value > 0 {
        if w == 0 {
          return DivByZero(rows);
        }
        var tileX := Wrap32(((tid.value as int - 1) % w) * TILE_SIZE);
        var tileY := Wrap32(((tid.value as int - 1) / w) * TILE_SIZE);
        SetPlainCellKeepsValid(rows, cx, cy, PlainTile(Rect(tileX, tileY, 16, 16), true));
        rows := rows[cy := rows[cy][cx := PlainTile(Rect(tileX, tileY, 16, 16), true)]];
      }
      next := Placing(cx + 1, cy, rows);
    }

    /**
     * The clearing of the map and the layout loop: the ids go row-major onto
     * the cleared map; the outcome and the map are those of LayoutIds.
     */
    method LayOut(ids: seq<string>, w: nat) returns (outcome: ImportOutcome)
      requires AllIntTokens(ids)
      modifies this
      ensures Valid()
      ensures var st := LayoutIds(ids, MAP_WIDTH, MAP_HEIGHT, w);
        outcome == OutcomeOf(st) && rows == st.grid
    {
      rows := Filled(MAP_WIDTH, MAP_HEIGHT, BlankPlainTile);
      var x, y := 0, 0;
      var k := 0;
      assert ids[..0] == [];
      while k < |ids|
        invariant 0 <= k <= |ids| && Valid() && 0 <= x && 0 <= y
        invariant LayoutIds(ids[..k], MAP_WIDTH, MAP_HEIGHT, w) == Placing(x, y, rows)
      {
        LayoutSnoc(ids, k, MAP_WIDTH, MAP_HEIGHT, w);
        var next := PlaceOne(ids[k], w, x, y);
        if !next.Placing? {
          StoppedStays(ids, k + 1, |ids|, MAP_WIDTH, MAP_HEIGHT, w);
          assert ids[..|ids|] == ids;
          return OutcomeOf(next);
        }
        x, y := next.x, next.y;
        k := k + 1;
      }
      assert ids[..k] == ids;
      outcome := Imported;
    }
  }

  /** The first pass: the quoted text of the last line with `path=` and two quotes, or empty. */
  method FindTexturePath(lines: seq<string>) returns (texturePath: string)
    ensures texturePath == TexturePath(lines)
  {
    texturePath := "";
    var i := 0;
    while i < |lines|
      invariant 0 <= i <= |lines|
      invariant texturePath == TexturePath(lines[..i])
    {
      assert lines[..i + 1][..i] == lines[..i];
      if Contains(lines[i], "path=") {
        var quoted := QuotedText(lines[i]);
        if quoted.Some? {
          texturePath := quoted.value;
        }
      }
      i := i + 1;
    }
    assert lines[..i] == lines;
  }

  /** The second pass: the two flags stepped line by line, and the ids of each data line appended. */
  method CollectIds(lines: seq<string>) returns (tileData: seq<string>)
    ensures tileData == ScanLines(lines).ids
  {
    var inTileMap, inTileData := false, false;
    tileData := [];
    var i := 0;
    while i < |lines|
      invariant 0 <= i <= |lines|
      invariant Scanner(inTileMap, inTileData, tileData) == ScanFrom(StartScanner, lines[..i])
    {
      assert lines[..i + 1][..i] == lines[..i];
      var line := lines[i];
      if IsTileMapHeader(line) {
        inTileMap := true;
      } else if inTileMap {
        if Contains(line, "tile_data") {
          inTileData := true;
        } else if inTileData {
          if Contains(line, ")") {
            inTileData := false;
            inTileMap := false;
          } else {
            tileData := PushLineIds(tileData, line);
          }
        }
      }
      i := i + 1;
    }
    assert lines[..i] == lines;
  }

  /** The regex loop over one data line: every match other than "0" pushed, in order. */
  method PushLineIds(tileData: seq<string>, line: string) returns (tileData': seq<string>)
    ensures tileData' == tileData + Tokens(line)
  {
    var matches := MatchesFrom(line, 0);
    tileData' := tileData;
    var j := 0;
    assert matches[..0] == [];
    while j < |matches|
      invariant 0 <= j <= |matches|
      invariant tileData' == tileData + KeepIds(matches[..j])
    {
      var tileId := matches[j];
      assert matches[..j + 1] == matches[..j] + [tileId];
      KeepIdsSnoc(matches[..j], tileId);
      if tileId != "0" {
        tileData' := tileData' + [tileId];
      }
      j := j + 1;
    }
    assert matches[..j] == matches;
  }

  /** The inner loop of `save`: each cell's record of a row in turn, written after `out`. */
  method SaveRowCells(out: seq<byte>, row: seq<PlainTile>) returns (out': seq<byte>)
    ensures out' == out + EncodeRow(row)
  {
    out' := out;
    var x := 0;
    while x < |row|
      invariant 0 <= x <= |row|
      invariant out' == out + EncodeRow(row[..x])
    {
      assert row[..x + 1] == row[..x] + [row[x]];
      EncodeRowSnoc(row[..x], row[x]);
      AppendAssoc(out, EncodeRow(row[..x]), EncodeTile(row[x]));
      out' := out' + EncodeTile(row[x]);
      x := x + 1;
    }
    assert row[..x] == row;
  }

  /**
   * The inner loop of `load`: each cell of a row in turn takes the record at
   * the head of the unread bytes. Stops at the first short read, leaving
   * `complete` false.
   */
  method LoadRowCells(start: seq<PlainTile>, data: seq<byte>) returns (row: seq<PlainTile>, rest: seq<byte>, complete: bool)
    requires forall i :: 0 <= i < |start| ==> PlainTileInvariant(start[i])
    ensures |row| == |start| && forall i :: 0 <= i < |row| ==> PlainTileInvariant(row[i])
    ensures complete == LoadRow(start, data).Some?
    ensures complete ==> (row, rest) == LoadRow(start, data).value
  {
    var done: seq<PlainTile> := [];
    rest, complete := data, true;
    var x := 0;
    assert start[..0] == [];
    while x < |start| && complete
      invariant 0 <= x <= |start| && |done| == x
      invariant forall i :: 0 <= i < x ==> PlainTileInvariant(done[i])
      invariant complete ==> LoadRow(start[..x], data) == Some((done, rest))
      invariant !complete ==> LoadRow(start, data).None?
      decreases |start| - x, complete
    {
      LoadRowStep(start, x, data, done, rest);
      var r := ReadTile(start[x], rest);
      if r.None? {
        complete := false;
      } else {
        ReadTileKeepsInvariant(start[x], rest);
        done := done + [r.value.0];
        rest := r.value.1;
        x := x + 1;
      }
    }
    if complete {
      assert start[..x] == start;
      row := done;
    } else {
      row := done + start[x..];
    }
  }
}
