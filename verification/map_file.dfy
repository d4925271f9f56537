/**
 * The binary map file of `TileMap::save` / `TileMap::load` (the variant with
 * a passable byte): one record per cell in row-major order; a record is the
 * placed flag (one byte) and, for a placed cell, the rect's x, y, width and
 * height as four-byte little-endian ints followed by the passable flag.
 */
module MapFile {
  import opened Wrappers
  import opened Machine
  import opened Tiles

  /** Bytes of a placed cell's record: flag, four ints, passable flag. */
  const PLACED_RECORD_SIZE: nat := 18

  // ----- save -----

  /** The record `save` writes for one cell. */
  function EncodeTile(t: Tile): (bs: seq<byte>)
    ensures |bs| == if t.placed then PLACED_RECORD_SIZE else 1
    ensures DecodeBool(bs[0]) == t.placed
  {
    if t.placed then [EncodeBool(true)] + EncodeRect(t.rect) + [EncodeBool(t.passable)]
    else [EncodeBool(false)]
  }

  /** The records of a row's cells, left to right. */
  function EncodeRow(row: seq<Tile>): (bs: seq<byte>)
    ensures |row| <= |bs| <= PLACED_RECORD_SIZE * |row|
  {
    if row == [] then [] else EncodeTile(row[0]) + EncodeRow(row[1..])
  }

  /** The whole file `save` writes: the rows' records, top to bottom. */
  function EncodeGrid(rows: seq<seq<Tile>>): (bs: seq<byte>)
    ensures |Flatten(rows)| <= |bs| <= PLACED_RECORD_SIZE * |Flatten(rows)|
  {
    if rows == [] then [] else EncodeRow(rows[0]) + EncodeGrid(rows[1..])
  }

  /** Writing two runs of cells one after the other writes their records one after the other. */
  lemma {:induction false} EncodeRowAppend(a: seq<Tile>, b: seq<Tile>)
    ensures EncodeRow(a + b) == EncodeRow(a) + EncodeRow(b)
  {
    if a == [] {
      assert a + b == b;
    } else {
      assert (a + b)[0] == a[0];
      assert (a + b)[1..] == a[1..] + b;
      EncodeRowAppend(a[1..], b);
      AppendAssoc(EncodeTile(a[0]), EncodeRow(a[1..]), EncodeRow(b));
    }
  }

  /** Writing two runs of rows one after the other writes their records one after the other. */
  lemma {:induction false} EncodeGridAppend(a: seq<seq<Tile>>, b: seq<seq<Tile>>)
    ensures EncodeGrid(a + b) == EncodeGrid(a) + EncodeGrid(b)
  {
    if a == [] {
      assert a + b == b;
    } else {
      assert (a + b)[0] == a[0];
      assert (a + b)[1..] == a[1..] + b;
      EncodeGridAppend(a[1..], b);
      AppendAssoc(EncodeRow(a[0]), EncodeGrid(a[1..]), EncodeGrid(b));
    }
  }

  /** Writing one more cell appends its record. */
  lemma EncodeRowSnoc(a: seq<Tile>, t: Tile)
    ensures EncodeRow(a + [t]) == EncodeRow(a) + EncodeTile(t)
  {
    EncodeRowAppend(a, [t]);
    assert [t][1..] == [];
    assert EncodeRow([t]) == EncodeTile(t) + [];
  }

  /** Writing one more row appends its records. */
  lemma EncodeGridSnoc(a: seq<seq<Tile>>, row: seq<Tile>)
    ensures EncodeGrid(a + [row]) == EncodeGrid(a) + EncodeRow(row)
  {
    EncodeGridAppend(a, [row]);
    assert [row][1..] == [];
    assert EncodeGrid([row]) == EncodeRow(row) + [];
  }

  /** The file is the cells' records in row-major order, one record per cell. */
  lemma {:induction false} EncodeGridRowMajor(rows: seq<seq<Tile>>)
    ensures EncodeGrid(rows) == EncodeRow(Flatten(rows))
  {
    if rows != [] {
      EncodeGridRowMajor(rows[1..]);
      EncodeRowAppend(rows[0], Flatten(rows[1..]));
    }
  }

  /** How many of the cells are placed. */
  function PlacedCount(row: seq<Tile>): (k: nat)
    ensures k <= |row|
  {
    if row == [] then 0 else (if row[0].placed then 1 else 0) + PlacedCount(row[1..])
  }

  /** Every cell takes one byte, and a placed one seventeen more. */
  lemma {:induction false} EncodedRowLength(row: seq<Tile>)
    ensures |EncodeRow(row)| == |row| + 17 * PlacedCount(row)
  {
    if row != [] {
      EncodedRowLength(row[1..]);
    }
  }

  // ----- load -----

  /**
   * `load`'s handling of one record at the head of the unread bytes `data`,
   * into the cell whose current contents are `prev`; yields the new cell and
   * the bytes left unread. None when the data ends inside the record (a
   * short read). A record marked not placed leaves the cell as it was; the
   * passable byte is read only when the stream is not at its end, otherwise
   * the cell keeps its old flag.
   */
  function ReadTile(prev: Tile, data: seq<byte>): (r: Option<(Tile, seq<byte>)>)
    ensures r.Some? <==> |data| > 0 && (DecodeBool(data[0]) ==> |data| >= 17)
    ensures r.Some? ==> |r.value.1| < |data|
  {
    if |data| == 0 then None
    else if !DecodeBool(data[0]) then Some((prev, data[1..]))
    else if |data| < 17 then None
    else
      var rect := DecodeRect(data[1..17]);
      if |data| > 17 then Some((Tile(rect, true, DecodeBool(data[17])), data[18..]))
      else Some((Tile(rect, true, prev.passable), data[17..]))
  }

  /** The cells of a row, whose current contents are `start`, after reading their records; and the bytes left unread. */
  function LoadRow(start: seq<Tile>, data: seq<byte>): (r: Option<(seq<Tile>, seq<byte>)>)
    ensures r.Some? ==> |r.value.0| == |start| && |r.value.1| <= |data|
  {
    if start == [] then Some(([], data))
    else match ReadTile(start[0], data)
      case None => None
      case Some((t, rest)) =>
        match LoadRow(start[1..], rest)
        case None => None
        case Some((ts, rest')) => Some(([t] + ts, rest'))
  }

  /** The rows of a grid, whose current contents are `start`, after reading their records; and the bytes left unread. */
  function LoadRows(start: seq<seq<Tile>>, data: seq<byte>): (r: Option<(seq<seq<Tile>>, seq<byte>)>)
    ensures r.Some? ==> |r.value.0| == |start| && forall j :: 0 <= j < |start| ==> |r.value.0[j]| == |start[j]|
  {
    if start == [] then Some(([], data))
    else match LoadRow(start[0], data)
      case None => None
      case Some((row, rest)) =>
        match LoadRows(start[1..], rest)
        case None => None
        case Some((rows, rest')) => Some(([row] + rows, rest'))
  }

  /**
   * `load` of the bytes `data` into the grid `start`; None when the data
   * runs out inside a record. Bytes after the last cell's record are ignored.
   */
  function LoadGrid(start: seq<seq<Tile>>, data: seq<byte>): (r: Option<seq<seq<Tile>>>)
    ensures r.Some? ==> |r.value| == |start| && forall j :: 0 <= j < |start| ==> |r.value[j]| == |start[j]|
  {
    match LoadRows(start, data)
    case None => None
    case Some((rows, _)) => Some(rows)
  }

  /** Loading `a + b` loads `a`, then loads `b` from the bytes `a` left unread. */
  lemma {:induction false} LoadRowAppend(a: seq<Tile>, b: seq<Tile>, data: seq<byte>)
    ensures LoadRow(a + b, data) ==
      match LoadRow(a, data)
      case None => None
      case Some((ts, rest)) =>
        match LoadRow(b, rest)
        case None => None
        case Some((us, rest')) => Some((ts + us, rest'))
  {
    if a == [] {
      assert a + b == b;
      if LoadRow(b, data).Some? {
        assert [] + LoadRow(b, data).value.0 == LoadRow(b, data).value.0;
      }
    } else {
      assert (a + b)[0] == a[0];
      assert (a + b)[1..] == a[1..] + b;
      match ReadTile(a[0], data)
      case None =>
      case Some((t, rest)) =>
        LoadRowAppend(a[1..], b, rest);
        if LoadRow(a[1..], rest).Some? {
          var (ts, rest1) := LoadRow(a[1..], rest).value;
          if LoadRow(b, rest1).Some? {
            var us := LoadRow(b, rest1).value.0;
            assert [t] + (ts + us) == ([t] + ts) + us;
          }
        }
    }
  }

  /** Loading `a + b` rows loads `a`, then loads `b` from the bytes `a` left unread. */
  lemma {:induction false} LoadRowsAppend(a: seq<seq<Tile>>, b: seq<seq<Tile>>, data: seq<byte>)
    ensures LoadRows(a + b, data) ==
      match LoadRows(a, data)
      case None => None
      case Some((rs, rest)) =>
        match LoadRows(b, rest)
        case None => None
        case Some((ss, rest')) => Some((rs + ss, rest'))
  {
    if a == [] {
      assert a + b == b;
      if LoadRows(b, data).Some? {
        assert [] + LoadRows(b, data).value.0 == LoadRows(b, data).value.0;
      }
    } else {
      assert (a + b)[0] == a[0];
      assert (a + b)[1..] == a[1..] + b;
      match LoadRow(a[0], data)
      case None =>
      case Some((r, rest)) =>
        LoadRowsAppend(a[1..], b, rest);
        if LoadRows(a[1..], rest).Some? {
          var (rs, rest1) := LoadRows(a[1..], rest).value;
          if LoadRows(b, rest1).Some? {
            var ss := LoadRows(b, rest1).value.0;
            assert [r] + (rs + ss) == ([r] + rs) + ss;
          }
        }
    }
  }

  /**
   * Loading a row cell by cell: once its first `x` cells are loaded, the
   * next record either extends them by one cell or runs out, and then so
   * does the whole row.
   */
  lemma LoadRowStep(start: seq<Tile>, x: nat, data: seq<byte>, done: seq<Tile>, rest: seq<byte>)
    requires x < |start| && LoadRow(start[..x], data) == Some((done, rest))
    ensures ReadTile(start[x], rest).Some? ==>
      LoadRow(start[..x + 1], data) == Some((done + [ReadTile(start[x], rest).value.0], ReadTile(start[x], rest).value.1))
    ensures ReadTile(start[x], rest).None? ==> LoadRow(start, data).None?
  {
    assert start[..x + 1] == start[..x] + [start[x]];
    LoadRowAppend(start[..x], [start[x]], data);
    assert [start[x]][1..] == [];
    if ReadTile(start[x], rest).Some? {
      var (t, rest') := ReadTile(start[x], rest).value;
      assert LoadRow([start[x]], rest) == Some(([t] + [], rest'));
      assert [t] + [] == [t];
    } else {
      LoadRowAppend(start[..x + 1], start[x + 1..], data);
      assert start[..x + 1] + start[x + 1..] == start;
    }
  }

  /**
   * Loading a grid row by row: once its first `y` rows are loaded, the next
   * row either loads in full and extends them, or runs out, and then so does
   * the whole grid.
   */
  lemma LoadRowsStep(start: seq<seq<Tile>>, y: nat, data: seq<byte>, done: seq<seq<Tile>>, rest: seq<byte>)
    requires y < |start| && LoadRows(start[..y], data) == Some((done, rest))
    ensures LoadRow(start[y], rest).Some? ==>
      LoadRows(start[..y + 1], data) == Some((done + [LoadRow(start[y], rest).value.0], LoadRow(start[y], rest).value.1))
    ensures LoadRow(start[y], rest).None? ==> LoadRows(start, data).None?
  {
    assert start[..y + 1] == start[..y] + [start[y]];
    LoadRowsAppend(start[..y], [start[y]], data);
    assert [start[y]][1..] == [];
    if LoadRow(start[y], rest).Some? {
      var (r, rest') := LoadRow(start[y], rest).value;
      assert LoadRows([start[y]], rest) == Some(([r] + [], rest'));
      assert [r] + [] == [r];
    } else {
      LoadRowsAppend(start[..y + 1], start[y + 1..], data);
      assert start[..y + 1] + start[y + 1..] == start;
    }
  }

  /** A record marked not placed is one byte and leaves the cell untouched. */
  lemma ReadUnplacedTile(prev: Tile, data: seq<byte>)
    requires |data| > 0 && !DecodeBool(data[0])
    ensures ReadTile(prev, data) == Some((prev, data[1..]))
  {
  }

  /**
   * A placed record sets the rect from its four ints and marks the cell
   * placed; the passable flag comes from the byte after them, or, when the
   * data ends right there, stays what it was.
   */
  lemma ReadPlacedTile(prev: Tile, data: seq<byte>)
    requires |data| >= 17 && DecodeBool(data[0])
    ensures var r := ReadTile(prev, data).value;
      && r.0.placed
      && r.0.rect == DecodeRect(data[1..17])
      && (|data| == 17 ==> r.0.passable == prev.passable && r.1 == [])
      && (|data| > 17 ==> r.0.passable == DecodeBool(data[17]) && r.1 == data[18..])
  {
  }

  /** Reading a record keeps a cell blank unless it is placed. */
  lemma ReadTileKeepsInvariant(prev: Tile, data: seq<byte>)
    requires TileInvariant(prev) && ReadTile(prev, data).Some?
    ensures TileInvariant(ReadTile(prev, data).value.0)
  {
  }

  /** Every cell of a row TileInvariant(c) keeps it after a load. */
  lemma {:induction false} LoadRowKeepsInvariant(start: seq<Tile>, data: seq<byte>)
    requires forall x :: 0 <= x < |start| ==> TileInvariant(start[x])
    requires LoadRow(start, data).Some?
    ensures forall x :: 0 <= x < |start| ==> TileInvariant(LoadRow(start, data).value.0[x])
  {
    if start != [] {
      var (t, rest) := ReadTile(start[0], data).value;
      ReadTileKeepsInvariant(start[0], data);
      LoadRowKeepsInvariant(start[1..], rest);
    }
  }

  /** Loading keeps every row's length and every cell's blank-unless-placed invariant. */
  lemma {:induction false} LoadRowsKeepsInvariant(start: seq<seq<Tile>>, data: seq<byte>)
    requires AllTilesValid(start)
    requires LoadRows(start, data).Some?
    ensures forall y :: 0 <= y < |start| ==> |LoadRows(start, data).value.0[y]| == |start[y]|
    ensures AllTilesValid(LoadRows(start, data).value.0)
  {
    if start != [] {
      var (row, rest) := LoadRow(start[0], data).value;
      LoadRowKeepsInvariant(start[0], data);
      LoadRowsKeepsInvariant(start[1..], rest);
    }
  }

  /** A `width` by `height` grid of valid tiles stays one after a load. */
  lemma LoadGridKeepsInvariant(start: seq<seq<Tile>>, data: seq<byte>, width: nat, height: nat)
    requires Shaped(start, width, height) && AllTilesValid(start)
    requires LoadGrid(start, data).Some?
    ensures Shaped(LoadGrid(start, data).value, width, height)
    ensures AllTilesValid(LoadGrid(start, data).value)
  {
    LoadRowsKeepsInvariant(start, data);
  }

  // ----- round trip -----

  /** A cell's record, followed by anything, reads back as that cell, into a cell that matches it whenever it is not placed. */
  lemma ReadEncodedTile(prev: Tile, t: Tile, rest: seq<byte>)
    requires !t.placed ==> prev == t
    ensures ReadTile(prev, EncodeTile(t) + rest) == Some((t, rest))
  {
    var data := EncodeTile(t) + rest;
    if t.placed {
      assert data[1..17] == EncodeRect(t.rect);
      DecodeEncodeRect(t.rect);
      assert data[18..] == rest;
    } else {
      assert data[1..] == rest;
    }
  }

  /** `start` can take the cells `row` by load: the same length, and equal wherever `row` is not placed. */
  predicate RestorableInto(start: seq<Tile>, row: seq<Tile>) {
    |start| == |row| && forall x :: 0 <= x < |row| && !row[x].placed ==> start[x] == row[x]
  }

  /** A row's records, followed by anything, read back as that row. */
  lemma {:induction false} LoadEncodedRow(start: seq<Tile>, row: seq<Tile>, rest: seq<byte>)
    requires RestorableInto(start, row)
    ensures LoadRow(start, EncodeRow(row) + rest) == Some((row, rest))
  {
    if row != [] {
      var tail := EncodeRow(row[1..]) + rest;
      AppendAssoc(EncodeTile(row[0]), EncodeRow(row[1..]), rest);
      ReadEncodedTile(start[0], row[0], tail);
      assert RestorableInto(start[1..], row[1..]) by {
        forall x | 0 <= x < |row[1..]| && !row[1..][x].placed
          ensures start[1..][x] == row[1..][x]
        {
          assert row[1..][x] == row[x + 1];
        }
      }
      LoadEncodedRow(start[1..], row[1..], rest);
      assert EncodeRow(row) + rest == EncodeTile(row[0]) + tail;
      assert [row[0]] + row[1..] == row;
    } else {
      assert EncodeRow(row) + rest == rest;
    }
  }

  /** A grid's records, followed by anything, read back as that grid. */
  lemma {:induction false} LoadEncodedRows(start: seq<seq<Tile>>, rows: seq<seq<Tile>>, rest: seq<byte>)
    requires |start| == |rows|
    requires forall y :: 0 <= y < |rows| ==> RestorableInto(start[y], rows[y])
    ensures LoadRows(start, EncodeGrid(rows) + rest) == Some((rows, rest))
  {
    if rows != [] {
      var tail := EncodeGrid(rows[1..]) + rest;
      AppendAssoc(EncodeRow(rows[0]), EncodeGrid(rows[1..]), rest);
      LoadEncodedRow(start[0], rows[0], tail);
      assert forall y :: 0 <= y < |rows[1..]| ==> rows[1..][y] == rows[y + 1] && start[1..][y] == start[y + 1];
      LoadEncodedRows(start[1..], rows[1..], rest);
      assert EncodeGrid(rows) + rest == EncodeRow(rows[0]) + tail;
      assert [rows[0]] + rows[1..] == rows;
    } else {
      assert EncodeGrid(rows) + rest == rest;
    }
  }

  /**
   * Save, then load into a fresh grid of the same shape: every grid whose
   * unplaced cells are blank comes back unchanged.
   */
  lemma SaveLoadRoundTrip(rows: seq<seq<Tile>>, width: nat, height: nat)
    requires Shaped(rows, width, height) && AllTilesValid(rows)
    ensures LoadGrid(Filled(width, height, BlankTile), EncodeGrid(rows)) == Some(rows)
  {
    var start := Filled(width, height, BlankTile);
    forall y | 0 <= y < |rows|
      ensures RestorableInto(start[y], rows[y])
    {
    }
    assert EncodeGrid(rows) + [] == EncodeGrid(rows);
    LoadEncodedRows(start, rows, []);
  }
}
