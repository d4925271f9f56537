/**
 * The last stage of importing a Godot `.tscn` scene into the Assets
 * editor's map: the collected tile ids are laid out row-major over a
 * cleared `width` by `height` map, one cell per id, and a positive id `tid`
 * places the `tid`-th 16 by 16 rect of a tilesheet `w` tiles wide.
 */
module TscnLayout {
  import opened Wrappers
  import opened Machine
  import opened Tiles
  import opened PlainMapFile
  import opened Tscn

  /**
   * The tilesheet rect of Godot tile id `tid` in a tilesheet `w` tiles wide:
   * column `(tid - 1) % w`, row `(tid - 1) / w`, times 16, as C++ ints.
   */
  function TileRect(tid: int32, w: nat): (r: Rect)
    requires tid > 0 && w > 0
    ensures r.width as int == TILE_SIZE && r.height as int == TILE_SIZE
  {
    var k := tid as int - 1;
    Rect(Wrap32((k % w) * TILE_SIZE), Wrap32((k / w) * TILE_SIZE), 16, 16)
  }

  /**
   * While the products stay within int range, the rect gives the id back:
   * both corners are multiples of 16, the column lies in the tilesheet and
   * row * w + column + 1 is the id.
   */
  lemma TileRectInverse(tid: int32, w: nat)
    requires tid > 0 && w > 0
    requires w * TILE_SIZE <= INT32_MAX + 1 && ((tid as int - 1) / w) * TILE_SIZE <= INT32_MAX
    ensures var r := TileRect(tid, w);
      && r.left as int % TILE_SIZE == 0 && r.top as int % TILE_SIZE == 0
      && 0 <= r.left as int / TILE_SIZE < w && 0 <= r.top
      && (r.top as int / TILE_SIZE) * w + r.left as int / TILE_SIZE + 1 == tid as int
  {
    var k := tid as int - 1;
    var q, c := k / w, k % w;
    assert k == q * w + c && 0 <= c < w && 0 <= q;
    var r := TileRect(tid, w);
    assert r.left as int == c * TILE_SIZE;
    assert r.top as int == q * TILE_SIZE;
  }

  /** Where the layout stands: still placing ids with the cursor at (x, y), or stopped, and why. */
  datatype LayoutState =
    | Placing(x: int, y: int, grid: seq<seq<PlainTile>>)
      /** `break`: the cursor has left the bottom of the map. */
    | Full(grid: seq<seq<PlainTile>>)
      /** `std::stoi` threw `std::out_of_range`. */
    | OutOfRange(grid: seq<seq<PlainTile>>)
      /** A positive id met a tilesheet 0 tiles wide: integer division by zero. */
    | DivByZero(grid: seq<seq<PlainTile>>)

  /** The layout loop's handling of one id. */
  function PlaceId(st: LayoutState, id: string, width: nat, height: nat, w: nat): (r: LayoutState)
    requires IsIntToken(id)
    ensures Shaped(st.grid, width, height) ==> Shaped(r.grid, width, height)
    ensures r.grid != st.grid ==> st.Placing? && r.Placing?
  {
    if !st.Placing? then st
    else
      var x := if st.x >= width then 0 else st.x;
      var y := if st.x >= width then st.y + 1 else st.y;
      if y >= height then Full(st.grid)
      else match Stoi(id)
        case None => OutOfRange(st.grid)
        case Some(tid) =>
          if tid <= 0 then Placing(x + 1, y, st.grid)
          else if w == 0 then DivByZero(st.grid)
          else Placing(x + 1, y, SetCell(st.grid, x, y, PlainTile(TileRect(tid, w), true)))
  }

  /** The ids the second pass collects from a scene's lines. */
  function SceneIds(lines: seq<string>): (ids: seq<string>)
    ensures AllIntTokens(ids)
  {
    ScanFromKeepsTokens(StartScanner, lines);
    ScanLines(lines).ids
  }

  /** The layout after the ids, from `st`. */
  function LayoutFrom(st: LayoutState, ids: seq<string>, width: nat, height: nat, w: nat): (r: LayoutState)
    requires AllIntTokens(ids)
    ensures Shaped(st.grid, width, height) ==> Shaped(r.grid, width, height)
  {
    if ids == [] then st
    else PlaceId(LayoutFrom(st, ids[..|ids| - 1], width, height, w), ids[|ids| - 1], width, height, w)
  }

  /** The cleared map and the cursor at its top-left cell. */
  function StartLayout(width: nat, height: nat): LayoutState {
    Placing(0, 0, Filled(width, height, BlankPlainTile))
  }

  /** The layout of the ids over a cleared map. */
  function LayoutIds(ids: seq<string>, width: nat, height: nat, w: nat): (r: LayoutState)
    requires AllIntTokens(ids)
    ensures Shaped(r.grid, width, height)
  {
    LayoutFrom(StartLayout(width, height), ids, width, height, w)
  }

  // ----- the reference layout -----

  /** The id converts and, when positive, has a tilesheet to divide by. */
  predicate Usable(id: string, w: nat)
    requires IsIntToken(id)
  {
    Stoi(id).Some? && (Stoi(id).value > 0 ==> w > 0)
  }

  /** The first `n` ids are all usable. */
  predicate UsablePrefix(ids: seq<string>, n: nat, w: nat) {
    n <= |ids| && AllIntTokens(ids) && forall k :: 0 <= k < n ==> Usable(ids[k], w)
  }

  /** The cell an id fills: its tilesheet rect when positive, the blank cell otherwise. */
  function IdCell(id: string, w: nat): (t: PlainTile)
    requires IsIntToken(id) && Usable(id, w)
    ensures PlainTileInvariant(t)
  {
    var tid := Stoi(id).value;
    if tid > 0 then PlainTile(TileRect(tid, w), true) else BlankPlainTile
  }

  /** The map the first `n` ids make: cell (x, y) holds the cell of id number y * width + x when that is below `n`, else it is blank. */
  function ExpectedGrid(ids: seq<string>, n: nat, width: nat, height: nat, w: nat): (g: seq<seq<PlainTile>>)
    requires UsablePrefix(ids, n, w)
    ensures Shaped(g, width, height)
  {
    seq(height, y => seq(width, x =>
      var k := y * width + x;
      if 0 <= k < n then IdCell(ids[k], w) else BlankPlainTile))
  }

  // ----- arithmetic of the row-major cursor -----

  lemma MulMono(a: int, b: int, width: nat)
    requires a <= b
    ensures a * width <= b * width
  {
    assert b * width - a * width == (b - a) * width;
  }

  /** Row `a` ends before row `b` starts when a < b. */
  lemma RowBefore(a: int, b: int, width: nat)
    requires a < b
    ensures a * width + width <= b * width
  {
    MulMono(a + 1, b, width);
    assert (a + 1) * width == a * width + width;
  }

  /** Within a row of `width` cells, the cell number y * width + x names one cell. */
  lemma RowMajorInjective(x: int, y: int, x': int, y': int, width: nat)
    requires 0 <= x < width && 0 <= x' < width
    requires y * width + x == y' * width + x'
    ensures x == x' && y == y'
  {
    if y < y' {
      RowBefore(y, y', width);
    } else if y' < y {
      RowBefore(y', y, width);
    }
  }

  /** A cell number below width * height lies in the first `height` rows. */
  lemma RowMajorBound(x: int, y: int, width: nat, height: nat)
    requires 0 <= x && y * width + x < width * height
    ensures y < height
  {
    if y >= height {
      MulMono(height, y, width);
    }
  }

  /**
   * The cursor after `m` ids: at (x0, y0) with y0 * width + x0 == m, where x0
   * runs past the last column until the next id wraps it. The cell the next
   * id goes to is (x, y), cell number `m`, and it is on the map exactly when
   * `m` is below width * height.
   */
  lemma NextCursor(x0: int, y0: int, m: nat, width: nat, height: nat) returns (x: int, y: int)
    requires width > 0 && y0 * width + x0 == m
    requires if m == 0 then x0 == 0 && y0 == 0 else 1 <= x0 <= width && 0 <= y0
    ensures x == (if x0 >= width then 0 else x0) && y == (if x0 >= width then y0 + 1 else y0)
    ensures 0 <= x < width && 0 <= y && y * width + x == m
    ensures y < height <==> m < width * height
  {
    x := if x0 >= width then 0 else x0;
    y := if x0 >= width then y0 + 1 else y0;
    if x0 >= width {
      assert (y0 + 1) * width == y0 * width + width;
    }
    if m < width * height {
      RowMajorBound(x, y, width, height);
    } else if y < height {
      RowBefore(y, height, width);
    }
  }

  // ----- the layout follows the reference -----

  /** The layout of ids[..n] extended by one id. */
  lemma LayoutSnoc(ids: seq<string>, n: nat, width: nat, height: nat, w: nat)
    requires AllIntTokens(ids) && n < |ids|
    ensures LayoutIds(ids[..n + 1], width, height, w) == PlaceId(LayoutIds(ids[..n], width, height, w), ids[n], width, height, w)
  {
    assert ids[..n + 1][..n] == ids[..n];
  }

  /** Writing a cell's own contents back changes nothing. */
  lemma SetCellSame<T>(g: seq<seq<T>>, x: int, y: int)
    requires 0 <= y < |g| && 0 <= x < |g[y]|
    ensures SetCell(g, x, y, g[y][x]) == g
  {
    assert g[y][x := g[y][x]] == g[y];
  }

  /** Writing the next id's cell into the reference map of the ids before it gives the reference map of both. */
  lemma ExpectedStep(ids: seq<string>, n: nat, x: int, y: int, width: nat, height: nat, w: nat)
    requires UsablePrefix(ids, n + 1, w)
    requires 0 <= x < width && 0 <= y < height && y * width + x == n
    ensures ExpectedGrid(ids, n + 1, width, height, w) == SetCell(ExpectedGrid(ids, n, width, height, w), x, y, IdCell(ids[n], w))
  {
    var g, g' := ExpectedGrid(ids, n, width, height, w), ExpectedGrid(ids, n + 1, width, height, w);
    var s := SetCell(g, x, y, IdCell(ids[n], w));
    assert |s| == height;
    forall y' | 0 <= y' < height
      ensures g'[y'] == s[y']
    {
      forall x' | 0 <= x' < width
        ensures g'[y'][x'] == s[y'][x']
      {
        if y' * width + x' == n {
          RowMajorInjective(x, y, x', y', width);
        }
      }
    }
  }

  /** The reference map of no ids is the cleared map. */
  lemma ExpectedEmpty(ids: seq<string>, width: nat, height: nat, w: nat)
    requires UsablePrefix(ids, 0, w)
    ensures ExpectedGrid(ids, 0, width, height, w) == Filled(width, height, BlankPlainTile)
  {
    var g, f := ExpectedGrid(ids, 0, width, height, w), Filled(width, height, BlankPlainTile);
    forall y | 0 <= y < height
      ensures g[y] == f[y]
    {
    }
  }

  /**
   * The first `n` ids, all usable and no more than the map holds, leave the
   * cursor just after cell number `n` and the map the reference map of `n`.
   */
  lemma {:induction false} LayoutPrefix(ids: seq<string>, n: nat, width: nat, height: nat, w: nat)
    requires width > 0 && n <= width * height && UsablePrefix(ids, n, w)
    ensures var st := LayoutIds(ids[..n], width, height, w);
      && st.Placing?
      && st.y * width + st.x == n
      && (if n == 0 then st.x == 0 && st.y == 0 else 1 <= st.x <= width && 0 <= st.y)
      && st.grid == ExpectedGrid(ids, n, width, height, w)
  {
    if n == 0 {
      assert ids[..0] == [];
      ExpectedEmpty(ids, width, height, w);
    } else {
      var m := n - 1;
      LayoutPrefix(ids, m, width, height, w);
      LayoutSnoc(ids, m, width, height, w);
      var st := LayoutIds(ids[..m], width, height, w);
      var x, y := NextCursor(st.x, st.y, m, width, height);
      ExpectedStep(ids, m, x, y, width, height, w);
      if Stoi(ids[m]).value <= 0 {
        SetCellSame(st.grid, x, y);
      }
    }
  }

  /** Once the layout has stopped, later ids change nothing. */
  lemma {:induction false} StoppedStays(ids: seq<string>, k: nat, m: nat, width: nat, height: nat, w: nat)
    requires AllIntTokens(ids) && k <= m <= |ids|
    requires !LayoutIds(ids[..k], width, height, w).Placing?
    ensures LayoutIds(ids[..m], width, height, w) == LayoutIds(ids[..k], width, height, w)
    decreases m
  {
    if m > k {
      StoppedStays(ids, k, m - 1, width, height, w);
      LayoutSnoc(ids, m - 1, width, height, w);
    }
  }

  /** The number of ids the map has room for. */
  function Laid(ids: seq<string>, width: nat, height: nat): nat {
    if |ids| < width * height then |ids| else width * height
  }

  /**
   * When every id that fits is usable, the import completes and the map is
   * the reference map: id number k in cell (k % width, k / width), ids past
   * width * height ignored.
   */
  lemma LayoutMatchesExpected(ids: seq<string>, width: nat, height: nat, w: nat)
    requires width > 0 && UsablePrefix(ids, Laid(ids, width, height), w)
    ensures var st := LayoutIds(ids, width, height, w);
      && (st.Placing? || st.Full?)
      && st.grid == ExpectedGrid(ids, Laid(ids, width, height), width, height, w)
  {
    var n := Laid(ids, width, height);
    LayoutPrefix(ids, n, width, height, w);
    if n < |ids| {
      LayoutSnoc(ids, n, width, height, w);
      var st := LayoutIds(ids[..n], width, height, w);
      var x, y := NextCursor(st.x, st.y, n, width, height);
      StoppedStays(ids, n + 1, |ids|, width, height, w);
    }
    assert ids[..|ids|] == ids;
  }

  /** The id number k sits in cell (k % width, k / width) of the reference map. */
  lemma ExpectedCellOfId(ids: seq<string>, n: nat, k: nat, width: nat, height: nat, w: nat)
    requires width > 0 && n <= width * height && UsablePrefix(ids, n, w) && k < n
    ensures k / width < height
    ensures ExpectedGrid(ids, n, width, height, w)[k / width][k % width] == IdCell(ids[k], w)
  {
    assert k == (k / width) * width + k % width;
    RowMajorBound(k % width, k / width, width, height);
  }

  /**
   * The first unusable id that fits stops the import: `std::out_of_range`
   * when it does not convert, a division by zero when it is positive and
   * the tilesheet is 0 tiles wide; the map is then the reference map of
   * the ids before it.
   */
  lemma LayoutStopsAt(ids: seq<string>, k: nat, width: nat, height: nat, w: nat)
    requires width > 0 && k < |ids| && k < width * height
    requires UsablePrefix(ids, k, w) && !Usable(ids[k], w)
    ensures LayoutIds(ids, width, height, w) ==
      if Stoi(ids[k]).None? then OutOfRange(ExpectedGrid(ids, k, width, height, w))
      else DivByZero(ExpectedGrid(ids, k, width, height, w))
  {
    LayoutPrefix(ids, k, width, height, w);
    LayoutSnoc(ids, k, width, height, w);
    var st := LayoutIds(ids[..k], width, height, w);
    var x, y := NextCursor(st.x, st.y, k, width, height);
    StoppedStays(ids, k + 1, |ids|, width, height, w);
    assert ids[..|ids|] == ids;
  }

  /**
   * As the Assets editor is written, its own tilesheet is never loaded, so
   * `w` is 0: the import never places a tile, whatever the scene holds.
   */
  lemma {:induction false} NothingPlacedWithoutTilesheet(ids: seq<string>, width: nat, height: nat)
    requires AllIntTokens(ids)
    ensures LayoutIds(ids, width, height, 0).grid == Filled(width, height, BlankPlainTile)
  {
    if ids != [] {
      NothingPlacedWithoutTilesheet(ids[..|ids| - 1], width, height);
    }
  }

  /** As written: a scene whose first tile id is positive ends the import in a division by zero. */
  lemma FirstPositiveIdFaults(ids: seq<string>, width: nat, height: nat)
    requires width > 0 && height > 0 && AllIntTokens(ids) && |ids| > 0
    requires Stoi(ids[0]).Some? && Stoi(ids[0]).value > 0
    ensures LayoutIds(ids, width, height, 0).DivByZero?
  {
    LayoutStopsAt(ids, 0, width, height, 0);
  }
}
