/**
 * The binary map file of the Assets editor's `TileMap::save` / `load`: the
 * same row-major records as the game's map file, but a placed cell's record
 * ends after the rect's four ints (there is no passable byte), and a cell is
 * only a rect and a placed flag.
 */
module PlainMapFile {
  import opened Wrappers
  import opened Machine
  import opened Tiles

  /** `Tile` of the Assets editor: a tilesheet rect and whether it was placed; there is no passable flag. */
  datatype PlainTile = PlainTile(rect: Rect, placed: bool)

  /** `Tile()`: nothing placed yet, default rect. */
  const BlankPlainTile: PlainTile := PlainTile(DefaultRect, false)

  /** Only `setTextureRect` changes the rect, and it marks the cell placed: an unplaced cell is still blank. */
  predicate PlainTileInvariant(t: PlainTile) {
    !t.placed ==> t == BlankPlainTile
  }

  /** Every cell of the grid keeps PlainTileInvariant. */
  predicate AllPlainTilesValid(rows: seq<seq<PlainTile>>) {
    forall y, x :: 0 <= y < |rows| && 0 <= x < |rows[y]| ==> PlainTileInvariant(rows[y][x])
  }

  /** Placing a placed cell keeps every cell blank unless placed. */
  lemma SetPlainCellKeepsValid(rows: seq<seq<PlainTile>>, x: int, y: int, t: PlainTile)
    requires AllPlainTilesValid(rows) && t.placed
    ensures AllPlainTilesValid(SetCell(rows, x, y, t))
  {
  }

  /** Replacing a row by one of the same length whose cells keep PlainTileInvariant keeps the grid's shape and validity. */
  lemma SetPlainRowKeepsValid(rows: seq<seq<PlainTile>>, width: nat, height: nat, y: nat, row: seq<PlainTile>)
    requires Shaped(rows, width, height) && AllPlainTilesValid(rows) && y < height
    requires |row| == width && forall x :: 0 <= x < |row| ==> PlainTileInvariant(row[x])
    ensures Shaped(rows[y := row], width, height) && AllPlainTilesValid(rows[y := row])
  {
  }

  /** Bytes of a placed cell's record: flag and four ints. */
  const PLACED_RECORD_SIZE: nat := 17

  // ----- save -----

  /** The record `save` writes for one cell. */
  function EncodeTile(t: PlainTile): (bs: seq<byte>)
    ensures |bs| == if t.placed then PLACED_RECORD_SIZE else 1
    ensures DecodeBool(bs[0]) == t.placed
  {
    if t.placed then [EncodeBool(true)] + EncodeRect(t.rect)
    else [EncodeBool(false)]
  }

  /** The records of a row's cells, left to right. */
  function EncodeRow(row: seq<PlainTile>): seq<byte> {
    if row == [] then [] else EncodeTile(row[0]) + EncodeRow(row[1..])
  }

  /** The whole file `save` writes: the rows' records, top to bottom. */
  function EncodeGrid(rows: seq<seq<PlainTile>>): seq<byte> {
    if rows == [] then [] else EncodeRow(rows[0]) + EncodeGrid(rows[1..])
  }

  /** Writing two runs of cells one after the other writes their records one after the other. */
  lemma {:induction false} EncodeRowAppend(a: seq<PlainTile>, b: seq<PlainTile>)
    ensures EncodeRow(a + b) == EncodeRow(a) + EncodeRow(b)
  {
    if a == [] {
      assert a + b == b;
    } else {
      assert (a + b)[0] == a[0];
      assert (a + b)[1..] == a[1..] + b;
      EncodeRowAppend(a[1..], b);
      AppendAssoc(EncodeTile(a[0]), EncodeRow(a[1..]), EncodeRow(b));
    }
  }

  /** Writing two runs of rows one after the other writes their records one after the other. */
  lemma {:induction false} EncodeGridAppend(a: seq<seq<PlainTile>>, b: seq<seq<PlainTile>>)
    ensures EncodeGrid(a + b) == EncodeGrid(a) + EncodeGrid(b)
  {
    if a == [] {
      assert a + b == b;
    } else {
      assert (a + b)[0] == a[0];
      assert (a + b)[1..] == a[1..] + b;
      EncodeGridAppend(a[1..], b);
      AppendAssoc(EncodeRow(a[0]), EncodeGrid(a[1..]), EncodeGrid(b));
    }
  }

  /** Writing one more cell appends its record. */
  lemma EncodeRowSnoc(a: seq<PlainTile>, t: PlainTile)
    ensures EncodeRow(a + [t]) == EncodeRow(a) + EncodeTile(t)
  {
    EncodeRowAppend(a, [t]);
    assert [t][1..] == [];
    assert EncodeRow([t]) == EncodeTile(t) + [];
  }

  /** Writing one more row appends its records. */
  lemma EncodeGridSnoc(a: seq<seq<PlainTile>>, row: seq<PlainTile>)
    ensures EncodeGrid(a + [row]) == EncodeGrid(a) + EncodeRow(row)
  {
    EncodeGridAppend(a, [row]);
    assert [row][1..] == [];
    assert EncodeGrid([row]) == EncodeRow(row) + [];
  }

  /** The file is the cells' records in row-major order, one record per cell. */
  lemma {:induction false} EncodeGridRowMajor(rows: seq<seq<PlainTile>>)
    ensures EncodeGrid(rows) == EncodeRow(Flatten(rows))
  {
    if rows != [] {
      EncodeGridRowMajor(rows[1..]);
      EncodeRowAppend(rows[0], Flatten(rows[1..]));
    }
  }

  /** How many of the cells are placed. */
  function PlacedCount(row: seq<PlainTile>): (k: nat)
    ensures k <= |row|
  {
    if row == [] then 0 else (if row[0].placed then 1 else 0) + PlacedCount(row[1..])
  }

  /** Every cell takes one byte, and a placed one sixteen more. */
  lemma {:induction false} EncodedRowLength(row: seq<PlainTile>)
    ensures |EncodeRow(row)| == |row| + 16 * PlacedCount(row)
  {
    if row != [] {
      EncodedRowLength(row[1..]);
    }
  }

  // ----- load -----

  /**
   * `load`'s handling of one record at the head of the unread bytes `data`,
   * into the cell whose current contents are `prev`; yields the new cell and
   * the bytes left unread. None when the data ends inside the record (a
   * short read). A record marked not placed leaves the cell as it was.
   */
  function ReadTile(prev: PlainTile, data: seq<byte>): (r: Option<(PlainTile, seq<byte>)>)
    ensures r.Some? <==> |data| > 0 && (DecodeBool(data[0]) ==> |data| >= PLACED_RECORD_SIZE)
    ensures r.Some? ==> |r.value.1| < |data|
  {
    if |data| == 0 then None
    else if !DecodeBool(data[0]) then Some((prev, data[1..]))
    else if |data| < PLACED_RECORD_SIZE then None
    else Some((PlainTile(DecodeRect(data[1..17]), true), data[17..]))
  }

  /** The cells of a row, whose current contents are `start`, after reading their records; and the bytes left unread. */
  function LoadRow(start: seq<PlainTile>, data: seq<byte>): (r: Option<(seq<PlainTile>, seq<byte>)>)
    ensures r.Some? ==> |r.value.0| == |start| && |r.value.1| <= |data|
  {
    if start == [] then Some(([], data))
    else match ReadTile(start[0], data)
      case None => None
      case Some((t, rest)) =>
        match LoadRow(start[1..], rest)
        case None => None
        case Some((ts, rest')) => Some(([t] + ts, rest'))
  }

  /** The rows of a grid, whose current contents are `start`, after reading their records; and the bytes left unread. */
  function LoadRows(start: seq<seq<PlainTile>>, data: seq<byte>): (r: Option<(seq<seq<PlainTile>>, seq<byte>)>)
    ensures r.Some? ==> |r.value.0| == |start|
  {
    if start == [] then Some(([], data))
    else match LoadRow(start[0], data)
      case None => None
      case Some((row, rest)) =>
        match LoadRows(start[1..], rest)
        case None => None
        case Some((rows, rest')) => Some(([row] + rows, rest'))
  }

  /**
   * `load` of the bytes `data` into the grid `start`; None when the data
   * runs out inside a record. Bytes after the last cell's record are ignored.
   */
  function LoadGrid(start: seq<seq<PlainTile>>, data: seq<byte>): Option<seq<seq<PlainTile>>> {
    match LoadRows(start, data)
    case None => None
    case Some((rows, _)) => Some(rows)
  }

  /** Loading `a + b` loads `a`, then loads `b` from the bytes `a` left unread. */
  lemma {:induction false} LoadRowAppend(a: seq<PlainTile>, b: seq<PlainTile>, data: seq<byte>)
    ensures LoadRow(a + b, data) ==
      match LoadRow(a, data)
      case None => None
      case Some((ts, rest)) =>
        match LoadRow(b, rest)
        case None => None
        case Some((us, rest')) => Some((ts + us, rest'))
  {
    if a == [] {
      assert a + b == b;
      if LoadRow(b, data).Some? {
        assert [] + LoadRow(b, data).value.0 == LoadRow(b, data).value.0;
      }
    } else {
      assert (a + b)[0] == a[0];
      assert (a + b)[1..] == a[1..] + b;
      match ReadTile(a[0], data)
      case None =>
      case Some((t, rest)) =>
        LoadRowAppend(a[1..], b, rest);
        if LoadRow(a[1..], rest).Some? {
          var (ts, rest1) := LoadRow(a[1..], rest).value;
          if LoadRow(b, rest1).Some? {
            var us := LoadRow(b, rest1).value.0;
            assert [t] + (ts + us) == ([t] + ts) + us;
          }
        }
    }
  }

  /** Loading `a + b` rows loads `a`, then loads `b` from the bytes `a` left unread. */
  lemma {:induction false} LoadRowsAppend(a: seq<seq<PlainTile>>, b: seq<seq<PlainTile>>, data: seq<byte>)
    ensures LoadRows(a + b, data) ==
      match LoadRows(a, data)
      case None => None
      case Some((rs, rest)) =>
        match LoadRows(b, rest)
        case None => None
        case Some((ss, rest')) => Some((rs + ss, rest'))
  {
    if a == [] {
      assert a + b == b;
      if LoadRows(b, data).Some? {
        assert [] + LoadRows(b, data).value.0 == LoadRows(b, data).value.0;
      }
    } else {
      assert (a + b)[0] == a[0];
      assert (a + b)[1..] == a[1..] + b;
      match LoadRow(a[0], data)
      case None =>
      case Some((r, rest)) =>
        LoadRowsAppend(a[1..], b, rest);
        if LoadRows(a[1..], rest).Some? {
          var (rs, rest1) := LoadRows(a[1..], rest).value;
          if LoadRows(b, rest1).Some? {
            var ss := LoadRows(b, rest1).value.0;
            assert [r] + (rs + ss) == ([r] + rs) + ss;
          }
        }
    }
  }

  /**
   * Loading a row cell by cell: once its first `x` cells are loaded, the
   * next record either extends them by one cell or runs out, and then so
   * does the whole row.
   */
  lemma LoadRowStep(start: seq<PlainTile>, x: nat, data: seq<byte>, done: seq<PlainTile>, rest: seq<byte>)
    requires x < |start| && LoadRow(start[..x], data) == Some((done, rest))
    ensures ReadTile(start[x], rest).Some? ==>
      LoadRow(start[..x + 1], data) == Some((done + [ReadTile(start[x], rest).value.0], ReadTile(start[x], rest).value.1))
    ensures ReadTile(start[x], rest).None? ==> LoadRow(start, data).None?
  {
    assert start[..x + 1] == start[..x] + [start[x]];
    LoadRowAppend(start[..x], [start[x]], data);
    assert [start[x]][1..] == [];
    if ReadTile(start[x], rest).Some? {
      var (t, rest') := ReadTile(start[x], rest).value;
      assert LoadRow([start[x]], rest) == Some(([t] + [], rest'));
      assert [t] + [] == [t];
    } else {
      LoadRowAppend(start[..x + 1], start[x + 1..], data);
      assert start[..x + 1] + start[x + 1..] == start;
    }
  }

  /**
   * Loading a grid row by row: once its first `y` rows are loaded, the next
   * row either loads in full and extends them, or runs out, and then so does
   * the whole grid.
   */
  lemma LoadRowsStep(start: seq<seq<PlainTile>>, y: nat, data: seq<byte>, done: seq<seq<PlainTile>>, rest: seq<byte>)
    requires y < |start| && LoadRows(start[..y], data) == Some((done, rest))
    ensures LoadRow(start[y], rest).Some? ==>
      LoadRows(start[..y + 1], data) == Some((done + [LoadRow(start[y], rest).value.0], LoadRow(start[y], rest).value.1))
    ensures LoadRow(start[y], rest).None? ==> LoadRows(start, data).None?
  {
    assert start[..y + 1] == start[..y] + [start[y]];
    LoadRowsAppend(start[..y], [start[y]], data);
    assert [start[y]][1..] == [];
    if LoadRow(start[y], rest).Some? {
      var (r, rest') := LoadRow(start[y], rest).value;
      assert LoadRows([start[y]], rest) == Some(([r] + [], rest'));
      assert [r] + [] == [r];
    } else {
      LoadRowsAppend(start[..y + 1], start[y + 1..], data);
      assert start[..y + 1] + start[y + 1..] == start;
    }
  }

  /** A record marked not placed is one byte and leaves the cell untouched. */
  lemma ReadUnplacedTile(prev: PlainTile, data: seq<byte>)
    requires |data| > 0 && !DecodeBool(data[0])
    ensures ReadTile(prev, data) == Some((prev, data[1..]))
  {
  }

  /** A placed record sets the rect from its four ints and marks the cell placed. */
  lemma ReadPlacedTile(prev: PlainTile, data: seq<byte>)
    requires |data| >= PLACED_RECORD_SIZE && DecodeBool(data[0])
    ensures ReadTile(prev, data) == Some((PlainTile(DecodeRect(data[1..17]), true), data[17..]))
  {
  }

  /** Reading a record keeps a cell blank unless it is placed. */
  lemma ReadTileKeepsInvariant(prev: PlainTile, data: seq<byte>)
    requires PlainTileInvariant(prev) && ReadTile(prev, data).Some?
    ensures PlainTileInvariant(ReadTile(prev, data).value.0)
  {
  }

  /** Every cell of a row PlainTileInvariant(c) keeps it after a load. */
  lemma {:induction false} LoadRowKeepsInvariant(start: seq<PlainTile>, data: seq<byte>)
    requires forall x :: 0 <= x < |start| ==> PlainTileInvariant(start[x])
    requires LoadRow(start, data).Some?
    ensures forall x :: 0 <= x < |start| ==> PlainTileInvariant(LoadRow(start, data).value.0[x])
  {
    if start != [] {
      var (t, rest) := ReadTile(start[0], data).value;
      ReadTileKeepsInvariant(start[0], data);
      LoadRowKeepsInvariant(start[1..], rest);
    }
  }

  /** Loading keeps every row's length and every cell's blank-unless-placed invariant. */
  lemma {:induction false} LoadRowsKeepsInvariant(start: seq<seq<PlainTile>>, data: seq<byte>)
    requires AllPlainTilesValid(start)
    requires LoadRows(start, data).Some?
    ensures forall y :: 0 <= y < |start| ==> |LoadRows(start, data).value.0[y]| == |start[y]|
    ensures AllPlainTilesValid(LoadRows(start, data).value.0)
  {
    if start != [] {
      var (row, rest) := LoadRow(start[0], data).value;
      LoadRowKeepsInvariant(start[0], data);
      LoadRowsKeepsInvariant(start[1..], rest);
    }
  }

  /** A `width` by `height` grid of valid tiles stays one after a load. */
  lemma LoadGridKeepsInvariant(start: seq<seq<PlainTile>>, data: seq<byte>, width: nat, height: nat)
    requires Shaped(start, width, height) && AllPlainTilesValid(start)
    requires LoadGrid(start, data).Some?
    ensures Shaped(LoadGrid(start, data).value, width, height)
    ensures AllPlainTilesValid(LoadGrid(start, data).value)
  {
    LoadRowsKeepsInvariant(start, data);
  }

  // ----- round trip -----

  /** A cell's record, followed by anything, reads back as that cell, into a cell that matches it whenever it is not placed. */
  lemma ReadEncodedTile(prev: PlainTile, t: PlainTile, rest: seq<byte>)
    requires !t.placed ==> prev == t
    ensures ReadTile(prev, EncodeTile(t) + rest) == Some((t, rest))
  {
    var data := EncodeTile(t) + rest;
    if t.placed {
      assert data[1..17] == EncodeRect(t.rect);
      DecodeEncodeRect(t.rect);
      assert data[17..] == rest;
    } else {
      assert data[1..] == rest;
    }
  }

  /** `start` can take the cells `row` by load: the same length, and equal wherever `row` is not placed. */
  predicate RestorableInto(start: seq<PlainTile>, row: seq<PlainTile>) {
    |start| == |row| && forall x :: 0 <= x < |row| && !row[x].placed ==> start[x] == row[x]
  }

  /** A row's records, followed by anything, read back as that row. */
  lemma {:induction false} LoadEncodedRow(start: seq<PlainTile>, row: seq<PlainTile>, rest: seq<byte>)
    requires RestorableInto(start, row)
    ensures LoadRow(start, EncodeRow(row) + rest) == Some((row, rest))
  {
    if row != [] {
      var tail := EncodeRow(row[1..]) + rest;
      AppendAssoc(EncodeTile(row[0]), EncodeRow(row[1..]), rest);
      ReadEncodedTile(start[0], row[0], tail);
      assert RestorableInto(start[1..], row[1..]) by {
        forall x | 0 <= x < |row[1..]| && !row[1..][x].placed
          ensures start[1..][x] == row[1..][x]
        {
          assert row[1..][x] == row[x + 1];
        }
      }
      LoadEncodedRow(start[1..], row[1..], rest);
      assert EncodeRow(row) + rest == EncodeTile(row[0]) + tail;
      assert [row[0]] + row[1..] == row;
    } else {
      assert EncodeRow(row) + rest == rest;
    }
  }

  /** A grid's records, followed by anything, read back as that grid. */
  lemma {:induction false} LoadEncodedRows(start: seq<seq<PlainTile>>, rows: seq<seq<PlainTile>>, rest: seq<byte>)
    requires |start| == |rows|
    requires forall y :: 0 <= y < |rows| ==> RestorableInto(start[y], rows[y])
    ensures LoadRows(start, EncodeGrid(rows) + rest) == Some((rows, rest))
  {
    if rows != [] {
      var tail := EncodeGrid(rows[1..]) + rest;
      AppendAssoc(EncodeRow(rows[0]), EncodeGrid(rows[1..]), rest);
      LoadEncodedRow(start[0], rows[0], tail);
      assert forall y :: 0 <= y < |rows[1..]| ==> rows[1..][y] == rows[y + 1] && start[1..][y] == start[y + 1];
      LoadEncodedRows(start[1..], rows[1..], rest);
      assert EncodeGrid(rows) + rest == EncodeRow(rows[0]) + tail;
      assert [rows[0]] + rows[1..] == rows;
    } else {
      assert EncodeGrid(rows) + rest == rest;
    }
  }

  /**
   * Save, then load into a fresh grid of the same shape: every grid whose
   * unplaced cells are blank comes back unchanged.
   */
  lemma SaveLoadRoundTrip(rows: seq<seq<PlainTile>>, width: nat, height: nat)
    requires Shaped(rows, width, height) && AllPlainTilesValid(rows)
    ensures LoadGrid(Filled(width, height, BlankPlainTile), EncodeGrid(rows)) == Some(rows)
  {
    var start := Filled(width, height, BlankPlainTile);
    forall y | 0 <= y < |rows|
      ensures RestorableInto(start[y], rows[y])
    {
    }
    assert EncodeGrid(rows) + [] == EncodeGrid(rows);
    LoadEncodedRows(start, rows, []);
  }
}
