# AshVale core, modelled in Dafny

AshVale is a small SFML action game with two tile-map editors. This project
models the game logic under the rendering, as Dafny code with proved
contracts:

- **Tile grid and passability** (`MapManager.h`, and the editor copy in
  `TileMapEditor.cpp`). A grid of tiles, each with a texture rect, a placed
  flag and a passable flag. `setTile` writes only inside the grid,
  `isTilePassable` treats anything off the grid as a wall, and
  `isPositionPassable` converts a pixel position to a tile by truncating
  division by 48.
- **Binary map files.** `TileMap::save` writes one record per cell, in
  row-major order: a placed flag, then four little-endian `int32` rect
  fields and a passable flag. `load` reads the records back. The codec is
  modelled over byte sequences (`MapFile`), with a save/load round trip.
  The `Assets/` editor's format has no passable byte (`PlainMapFile`).
- **Editor arithmetic.** The 64×48 editor grid, the map-window click
  (`p / 48`, truncating) and the tilesheet snap (`(p / 16) * 16`).
- **TSCN import** (`Assets/TileMapEditor.cpp`). The line scanner driven by
  `inTileMap`/`inTileData`, the `-?\d+` token extractor, `std::stoi`, the
  texture-path pass and the row-major layout of tile ids into the grid.
- **A\* path finder.** An 8-neighbour search over the passable tiles, with
  an open list, a closed set and parent links, rebuilt into tile-centre
  waypoints.
- **Agents.**
  - `Enemy`: hits, death, its Idle/Walk/Attack/Hurt/Dead state machine, the
    path cursor, the wall slide, re-planning, the stuck escape and the
    animation counters.
  - `Player`: hits and healing.
  - `SFX`: its detection counter and music flags.
  - The world-level `spawnEnemy`, `intersects` and `areAllEnemiesDead`.

Every `sf::Clock` is kept as the time, in milliseconds, of its last restart,
and each method is given the current time `now`. `rand()` values, the line
of sight and the unit vector toward a waypoint come in as parameters.
Distances are compared squared instead of through `sqrt`.

Modules, one per file:

| file | module |
|---|---|
| `wrappers.dfy` | `Wrappers` |
| `machine.dfy` | `Machine`: `int32`, bytes, C++ truncation, little-endian `int32`, `std::to_string` |
| `tiles.dfy` | `Tiles` |
| `map_file.dfy` | `MapFile` |
| `tile_map.dfy` | `TileMaps` |
| `map_manager.dfy` | `MapManagers` |
| `editor.dfy` | `Editor` |
| `plain_map_file.dfy` | `PlainMapFile` |
| `tscn.dfy` | `Tscn` |
| `tscn_layout.dfy` | `TscnLayout` |
| `assets_map.dfy` | `AssetMaps` |
| `path_finder.dfy` | `PathFinding` |
| `sfx.dfy` | `Sound` |
| `player.dfy` | `Players` |
| `enemy.dfy` | `Enemies` |
| `world.dfy` | `Game` |

## Model

| member | source | states |
|---|---|---|
| Machine.Wrap32 | Assets/TileMapEditor.cpp:215-216 | the `int` result of an integer computation: equal to the value when it fits in 32 bits, and congruent to it modulo 2^32 always |
| Machine.TruncDiv | TileMapEditor.cpp:214-215 | C++ integer division by a positive divisor: the floor quotient for non-negative dividends; for negative ones the quotient rounded toward zero, a <= q*b < a + b |
| Machine.Trunc | MapManager.h:187-188 | `static_cast<int>` of a float rounds toward zero: the result lies within 1 of the value on the side of zero, and is 0 for values in (-1, 1) |
| Machine.TruncUnique | MapManager.h:187-188 | at most one integer is the truncation of a given value |
| Machine.TruncOf | MapManager.h:187-188 | the compiled truncation equals the specified one |
| Machine.DecodeEncodeInt32 | MapManager.h:90-93 | reading back the four bytes written for an `int32` rect field gives the same value |
| Machine.EncodeDecodeInt32 | MapManager.h:113-116 | every 4 bytes read as an `int32` re-encode to the same bytes |
| Machine.LittleEndianValueOf | MapManager.h:90-93 | the n-byte little-endian encoding of a value below 256^n decodes to that value |
| Machine.ToDecimal | MapManager.h:143 | `std::to_string`: at least one character, a leading '-' exactly for negative numbers, decimal digits after it |
| Machine.NatToDigits | MapManager.h:143 | the digits of a natural number, with no leading zero |
| Machine.DigitsValueOfNat | MapManager.h:143 | the digits printed for n read back as n |
| Machine.ToDecimalInjective | MapManager.h:143 | two numbers with the same decimal text are equal |
| Tiles.Filled | MapManager.h:42-44 | the constructed map has `height` rows of `width` tiles, each equal to the given tile |
| Tiles.FlattenLength | MapManager.h:84-85 | the row-major walk over a width×height grid visits width·height cells |
| Tiles.FlattenAt | MapManager.h:84-85 | cell (x, y) is visited at position y·width + x of the row-major walk |
| Tiles.SetCell | MapManager.h:67-72 | writing a cell keeps the grid's shape |
| Tiles.PassableAfterSetCell | MapManager.h:67-79 | after a write, the written in-grid cell reports the new tile's passable flag, and every other cell (and every write off the grid) leaves passability unchanged |
| Tiles.PassableAt | MapManager.h:74-79 | fail-closed passability: only a cell on the grid can be passable |
| Tiles.SetCellKeepsValid | MapManager.h:21-32 | placing a tile keeps "an unplaced tile has the default rect and is passable" |
| Tiles.SetRowKeepsValid | MapManager.h:107-125 | replacing a row with one of valid tiles of the same width keeps the grid's shape and validity |
| Tiles.DecodeEncodeRect | MapManager.h:89-93 | the 16 bytes written for a rect read back as the same rect |
| MapFile.EncodeTile | MapManager.h:86-98 | an unplaced cell is one byte; a placed one is 18 (flag, four `int32`, passable byte); the first byte reads as the placed flag |
| MapFile.EncodeGridRowMajor | MapManager.h:84-85 | the file is the cell records of the row-major walk, in order |
| MapFile.EncodeGrid | MapManager.h:81-102 | the whole file `save` writes: at least one byte and at most 18 bytes per cell |
| MapFile.EncodedRowLength | MapManager.h:85-99 | a row's records take one byte per cell plus 17 per placed cell |
| MapFile.ReadTile | MapManager.h:109-123 | reading one record succeeds exactly when a byte is left and, for a placed record, the 16 rect bytes follow; it always consumes input |
| MapFile.ReadUnplacedTile | MapManager.h:109-111 | an unplaced record leaves the cell as it was and consumes one byte |
| MapFile.ReadPlacedTile | MapManager.h:111-123 | a placed record sets the rect and the placed flag; it reads the passable byte only when the stream is not at its end, and otherwise keeps the cell's previous flag |
| MapFile.LoadRow | MapManager.h:108-125 | a row read keeps the row's width and never grows the input |
| MapFile.LoadGridKeepsInvariant | MapManager.h:104-129 | loading into a valid grid gives a valid grid of the same shape |
| MapFile.LoadGrid | MapManager.h:104-129 | a complete `load` gives a grid with the same number of rows and the same row widths as the grid it loads into |
| MapFile.ReadEncodedTile | MapManager.h:86-123 | a tile's record read back into a cell gives that tile, as long as an unplaced tile lands on an identical cell |
| MapFile.LoadEncodedRow | MapManager.h:85-125 | a saved row loads back into a row of cells it is restorable into |
| MapFile.LoadEncodedRows | MapManager.h:81-129 | a saved grid loads back row by row, leaving the bytes after it unread |
| MapFile.SaveLoadRoundTrip | MapManager.h:42-129 | loading the bytes `save` wrote into a freshly constructed map of the same size restores every tile |
| TileMaps.TileMap.constructor | MapManager.h:42-44 | a new map is `height` rows of `width` default tiles |
| TileMaps.TileMap.SetTile | MapManager.h:67-72 | the grid after `setTile` is the old grid with the placed tile written at (x, y) when in bounds, unchanged otherwise |
| TileMaps.TileMap.IsTilePassable | MapManager.h:74-79 | the tile's passable flag on the grid, false off the grid |
| TileMaps.TileMap.Save | MapManager.h:81-102 | the bytes written are the grid's encoding |
| TileMaps.SaveRowCells | MapManager.h:85-99 | the loop over a row appends that row's records |
| TileMaps.TileMap.Load | MapManager.h:104-129 | a complete read leaves exactly the decoded grid, and the grid stays valid |
| TileMaps.LoadRowCells | MapManager.h:108-125 | the loop over a row reads exactly what the row decoder reads |
| MapManagers.MapFileName | MapManager.h:143 | the file name starts with the directory and ends in ".dat" |
| MapManagers.MapFileNameInjective | MapManager.h:143 | different map numbers give different file names |
| MapManagers.TileOfPixelAt | MapManager.h:187-188 | the compiled pixel-to-tile conversion equals truncation of p/48 |
| MapManagers.TileOfPixelRange | MapManager.h:187-188 | pixel p maps to tile 0 exactly for -48 < p < 48, and to tile t > 0 exactly for 48t <= p < 48(t+1) |
| MapManagers.PositionPassableMeans | MapManager.h:184-195 | a passable position lies strictly inside (-48, 3840) × (-48, 2160), and the result is the passable flag of the tile its truncated coordinates name |
| MapManagers.PositionPassable | MapManager.h:184-195 | a passable position truncates to a tile on the 80 × 45 map |
| MapManagers.MapManager.constructor | MapManager.h:137-140 | a blank 80×45 map, map number 1, the directory recorded |
| MapManagers.MapManager.LoadMap | MapManager.h:142-155 | true exactly when `<dir>/map_<n>.dat` exists; then the map number and file name are updated and the map is loaded; otherwise nothing changes |
| MapManagers.MapManager.IsTilePassable | MapManager.h:179-181 | the current map's passable flag, false off the grid |
| MapManagers.MapManager.IsPositionPassable | MapManager.h:184-195 | passability of the tile under the pixel position |
| Editor.ClickedTile | TileMapEditor.cpp:214-215 | the map-window click column or row: for non-negative pixels the tile whose 48-pixel span holds the pixel; 0 for pixels in (-48, 0) |
| Editor.ClickInWindowOnGrid | TileMapEditor.cpp:14-17 | every click inside the 1027×768 window lands on the 64×48 grid |
| Editor.SnapToTile | TileMapEditor.cpp:263-264 | the snapped coordinate is a multiple of 16, within 16 of the pixel, toward zero |
| Editor.SnapToTileIdempotent | TileMapEditor.cpp:263-264 | snapping an already snapped coordinate changes nothing |
| Editor.SaveWritesEveryCell | TileMapEditor.cpp:76-97 | the editor's map file holds exactly 3072 records in row-major order: 3072 bytes plus 17 per placed cell |
| Editor.TileMapEditor.constructor | TileMapEditor.cpp:132-139 | a blank 64×48 map, the first 16×16 rect selected, placing passable tiles |
| Editor.TileMapEditor.MapClick | TileMapEditor.cpp:212-217 | a left click writes the selected rect and passable flag at the clicked tile through `setTile` |
| Editor.TileMapEditor.TilesheetClick | TileMapEditor.cpp:261-266 | a tilesheet click selects the 16×16 rect at the snapped corner |
| Editor.TileMapEditor.TogglePassable | TileMapEditor.cpp:224-227 | P flips the passable flag for the tiles placed next |
| PlainMapFile.EncodeTile | Assets/TileMapEditor.cpp:73-81 | an unplaced cell is one byte, a placed one 17 (flag and four `int32`) |
| PlainMapFile.EncodedRowLength | Assets/TileMapEditor.cpp:71-83 | a row's records take one byte per cell plus 16 per placed cell |
| PlainMapFile.ReadTile | Assets/TileMapEditor.cpp:92-101 | a record is read exactly when a byte is left and, when placed, its 16 rect bytes follow |
| PlainMapFile.ReadPlacedTile | Assets/TileMapEditor.cpp:94-100 | a placed record sets the rect and the placed flag and consumes 17 bytes |
| PlainMapFile.ReadUnplacedTile | Assets/TileMapEditor.cpp:94 | an unplaced record leaves the cell untouched |
| PlainMapFile.SetPlainCellKeepsValid | Assets/TileMapEditor.cpp:23-30 | placing a tile keeps "an unplaced tile has the default rect" |
| PlainMapFile.LoadGridKeepsInvariant | Assets/TileMapEditor.cpp:87-105 | loading into a valid grid gives a valid grid of the same shape |
| PlainMapFile.SaveLoadRoundTrip | Assets/TileMapEditor.cpp:40-105 | loading the bytes `save` wrote into a fresh map of the same size restores every tile |
| AssetMaps.AssetTileMap.constructor | Assets/TileMapEditor.cpp:40-42 | a blank 64×48 map |
| AssetMaps.AssetTileMap.SetTile | Assets/TileMapEditor.cpp:61-66 | the rect is written and the tile placed at (x, y) when in bounds; nothing changes otherwise |
| AssetMaps.AssetTileMap.Save | Assets/TileMapEditor.cpp:68-85 | the bytes written are the grid's encoding without passable bytes |
| AssetMaps.SaveRowCells | Assets/TileMapEditor.cpp:71-82 | the loop over a row appends that row's records |
| AssetMaps.AssetTileMap.Load | Assets/TileMapEditor.cpp:87-105 | a complete read leaves exactly the decoded grid |
| AssetMaps.LoadRowCells | Assets/TileMapEditor.cpp:90-102 | the loop over a row reads exactly what the row decoder reads |
| Tscn.Find | Assets/TileMapEditor.cpp:139 | `std::string::find`: the first match at or after the start position, or none |
| Tscn.DigitRunEnd | Assets/TileMapEditor.cpp:179 | the end of the maximal run of digits from a position |
| Tscn.MatchesAreIntTokens | Assets/TileMapEditor.cpp:179-184 | every regex match is an optional '-' followed by one or more digits |
| Tscn.MatchesFrom | Assets/TileMapEditor.cpp:179-184 | the `-?\d+` matches from a position on; there are never more matches than characters left |
| Tscn.MatchesCoverDigits | Assets/TileMapEditor.cpp:179-184 | the leftmost-greedy matches of a line take up every digit of the line, none twice |
| Tscn.KeepIds | Assets/TileMapEditor.cpp:185-188 | the kept ids are matches, in order, none of them the text "0" |
| Tscn.KeepIdsSnoc | Assets/TileMapEditor.cpp:183-189 | each match is appended unless it is exactly "0" |
| Tscn.TokensAreIds | Assets/TileMapEditor.cpp:179-189 | every id taken from a line is a signed integer token other than "0" |
| Tscn.Stoi | Assets/TileMapEditor.cpp:209 | `std::stoi` succeeds exactly when the token's value fits in `int`, and then returns that value |
| Tscn.StoiToDecimal | Assets/TileMapEditor.cpp:209 | `stoi` of the decimal text of any `int` gives that `int` back |
| Tscn.ScanFromAppend | Assets/TileMapEditor.cpp:153-192 | scanning two blocks of lines is scanning the first, then the second from the state the first left |
| Tscn.ScanLine | Assets/TileMapEditor.cpp:153-190 | one line of the second pass: the collected ids only grow, and only inside a `tile_data` block of a TileMap node |
| Tscn.ScanFrom | Assets/TileMapEditor.cpp:153-190 | the second pass over a run of lines: the ids collected before stay a prefix of the ids collected after |
| Tscn.ScanKeepsDataInMap | Assets/TileMapEditor.cpp:163-176 | the scanner is inside tile data only while inside a TileMap node |
| Tscn.NothingOutsideTileMap | Assets/TileMapEditor.cpp:155-163 | lines before any TileMap header change nothing |
| Tscn.ScanFromKeepsTokens | Assets/TileMapEditor.cpp:183-189 | the collected ids are always signed integer tokens |
| Tscn.ScanDataLines | Assets/TileMapEditor.cpp:171-189 | inside tile data, lines without ')' contribute their ids in order |
| Tscn.TileDataBlock | Assets/TileMapEditor.cpp:163-176 | a `tile_data` line, data lines and a closing ')' line collect exactly the data lines' ids; the opening and closing lines contribute none, and both flags end reset |
| Tscn.QuotedTextMeans | Assets/TileMapEditor.cpp:140-145 | the text taken from a line is what lies between its first two double quotes, and there is none when the line has fewer than two |
| Tscn.QuotedText | Assets/TileMapEditor.cpp:138-147 | the quoted text of a line never includes the two quotes around it |
| Tscn.TexturePath | Assets/TileMapEditor.cpp:138-147 | the texture path is empty or the quoted text of one of the file's path lines |
| Tscn.TexturePathIsLast | Assets/TileMapEditor.cpp:138-147 | the texture path comes from the last line that contains `path=` and two quotes |
| Tscn.TexturePathNone | Assets/TileMapEditor.cpp:127-147 | with no such line the path stays empty |
| TscnLayout.TileRect | Assets/TileMapEditor.cpp:212-219 | a positive id's rect is 16×16 |
| TscnLayout.TileRectInverse | Assets/TileMapEditor.cpp:215-216 | without overflow, the rect's corner is on the 16-pixel lattice, its column is below the tileset width, and row·w + column + 1 gives the id back |
| TscnLayout.SceneIds | Assets/TileMapEditor.cpp:153-192 | the ids collected from a scene are all integer tokens |
| TscnLayout.ExpectedGrid | Assets/TileMapEditor.cpp:197-223 | the reference layout: a blank grid with id k at (k mod width, k div width) |
| TscnLayout.LayoutSnoc | Assets/TileMapEditor.cpp:202-223 | the layout loop places ids one at a time in list order |
| TscnLayout.PlaceId | Assets/TileMapEditor.cpp:202-223 | one id of the layout loop keeps the map's shape, and the map changes only while placing |
| TscnLayout.LayoutIds | Assets/TileMapEditor.cpp:197-223 | the import's map is always `width` by `height`, however the layout ends |
| TscnLayout.LayoutPrefix | Assets/TileMapEditor.cpp:200-223 | after n usable ids the cursor stands at cell n in row-major order and the grid is the reference layout of those ids |
| TscnLayout.StoppedStays | Assets/TileMapEditor.cpp:207-209 | once the layout stops (full grid or an exception), later ids change nothing |
| TscnLayout.LayoutMatchesExpected | Assets/TileMapEditor.cpp:196-226 | when every id that gets a cell is usable, the import finishes and the grid is the reference layout of the first width·height ids; the rest are ignored |
| TscnLayout.ExpectedCellOfId | Assets/TileMapEditor.cpp:203-221 | id k lands at column k mod width, row k div width: its rect when positive, a blank cell when not |
| TscnLayout.LayoutStopsAt | Assets/TileMapEditor.cpp:209-216 | the first unusable id ends the import: `stoi` throws out of range, or a positive id divides by a zero tileset width, with the cells before it laid out |
| TscnLayout.NothingPlacedWithoutTilesheet | Assets/TileMapEditor.cpp:197-223 | with a zero tileset width no tile is ever placed |
| TscnLayout.FirstPositiveIdFaults | Assets/TileMapEditor.cpp:210-215 | with a zero tileset width, a first id that is positive divides by zero |
| AssetMaps.OutcomeOf | Assets/TileMapEditor.cpp:207-226 | the import returns true when the ids run out or the grid fills; `stoi` throws when an id is out of range |
| AssetMaps.AssetTileMap.ImportFromTscn | Assets/TileMapEditor.cpp:107-227 | a missing file returns false and changes nothing; otherwise the texture path is the last quoted `path=` value, and the map is cleared and laid out from the scene's ids, with the outcome the layout reaches |
| AssetMaps.AssetTileMap.PlaceOne | Assets/TileMapEditor.cpp:203-222 | one turn of the layout loop: wrap the cursor, stop on a full grid, convert the id, place a positive id's rect, advance |
| AssetMaps.AssetTileMap.LayOut | Assets/TileMapEditor.cpp:197-226 | the layout loop leaves the grid, and returns the outcome, of the layout function over all ids |
| AssetMaps.FindTexturePath | Assets/TileMapEditor.cpp:138-147 | the first pass yields the texture path the function defines |
| AssetMaps.CollectIds | Assets/TileMapEditor.cpp:153-192 | the second pass collects exactly the scanner's ids |
| AssetMaps.PushLineIds | Assets/TileMapEditor.cpp:179-189 | a line's ids are appended to the list in order |
| PathFinding.Heuristic | AshVale.cpp:319-322 | the Manhattan distance, scaled by 1000: zero exactly on the goal |
| PathFinding.HeuristicStep | AshVale.cpp:287-322 | one step changes the heuristic by at most two cardinal costs, and a diagonal step can overshoot the step's own cost, so the heuristic is not consistent |
| PathFinding.Chain | AshVale.cpp:324-338 | the parent chain ends at the node's own tile |
| PathFinding.ReversedBackCentres | AshVale.cpp:324-338 | the centres pushed while walking back from the end node, reversed, are the start-to-end centres |
| PathFinding.Reconstruct | AshVale.cpp:324-338 | `reconstructPath` returns the tile centres (48x+24, 48y+24) of the chain from the start to the end node |
| PathFinding.CentreOnTile | AshVale.cpp:327-331 | a tile's centre maps back to that tile |
| PathFinding.TilesOfCentres | AshVale.cpp:327-331 | a path's centres map back to its tiles |
| PathFinding.RouteSnoc | AshVale.cpp:280-290 | extending a route by a passable 8-neighbour gives a route |
| PathFinding.FindLowest | AshVale.cpp:267-268 | `min_element`: a node of minimal f-cost, and the first one in list order |
| PathFinding.FindTile | AshVale.cpp:295-296 | `find_if`: the first open node on the tile, or the end |
| PathFinding.Relax | AshVale.cpp:282-308 | one neighbour: skipped when impassable or closed; added when not open; overwritten only on a strictly smaller cost; afterwards the tile is handled |
| PathFinding.RelaxedTrans | AshVale.cpp:280-310 | relaxations compose |
| PathFinding.PutNode | AshVale.cpp:298-307 | pushing a new tile or overwriting its one node keeps one node per tile, none on a closed tile |
| PathFinding.ExpandNeighbours | AshVale.cpp:280-310 | after the dx/dy loops every passable neighbour of the expanded tile is closed or open |
| PathFinding.PopKeeps | AshVale.cpp:276-277 | erasing the expanded node and closing its tile keeps the open list's invariant |
| PathFinding.CloseOneMore | AshVale.cpp:276-277 | each iteration closes one more of the finitely many candidate tiles, so the search ends |
| PathFinding.RouteStaysClosed | AshVale.cpp:265-310 | once the open list is empty, every route from a closed tile stays within closed tiles |
| PathFinding.NoRouteOut | AshVale.cpp:265-313 | once the open list is empty, no route from the start reaches an unclosed goal |
| PathFinding.FindTilePath | AshVale.cpp:255-313 | a non-empty result starts at the start tile's centre and ends at the goal tile's; consecutive waypoints are distinct 8-neighbours; every waypoint after the first is passable; start == goal gives that one centre; an empty result means no route reaches the goal |
| PathFinding.FindPath | AshVale.cpp:245-313 | `findPath` truncates both pixel positions to tiles and returns that search's outcome |
| Sound.SFX.constructor | AshVale.cpp:25-34 | no music loaded or playing, no enemy counted |
| Sound.SFX.InitializeAudio | AshVale.cpp:36-61 | the music counts as loaded only when both tracks open |
| Sound.SFX.PlayCriticalTheme | AshVale.cpp:64-74 | once loaded, the critical theme is playing afterwards |
| Sound.SFX.PlayBackgroundMusic | AshVale.cpp:76-86 | once loaded, the critical theme is not playing afterwards |
| Sound.SFX.EnemyDetectedPlayer | AshVale.cpp:88-96 | once loaded, the count goes up by one and the critical theme plays; before loading nothing changes |
| Sound.SFX.EnemyLostPlayer | AshVale.cpp:98-110 | once loaded, the count goes down by one but not below 0, and the background track returns only at 0 |
| Sound.AfterDetected | AshVale.cpp:88-96 | the count after a detection |
| Sound.AfterLost | AshVale.cpp:98-110 | the count after a loss: one fewer, clamped at 0 |
| Sound.CountTrue | AshVale.cpp:924-932 | the number of enemies seeing the player, at most their number |
| Sound.CountTrueUpdate | AshVale.cpp:924-932 | changing one enemy's flag changes the count by the difference |
| Sound.SignalKeepsCount | AshVale.cpp:924-932 | with every loss reported, the counter stays equal to the number of enemies that see the player |
| Sound.CountStuckAsWritten | AshVale.cpp:924-932 | as written, two enemies that see the player and then lose it leave the count at 2 |
| Sound.SignalAsWritten | AshVale.cpp:924-932 | the counter signal as written: no change without loaded music or a change of sight, and never below zero |
| Sound.Signal | AshVale.cpp:924-932 | the corrected signal: from a positive count, the count moves by exactly the change in the enemy's sight |
| Sound.LossIgnoredAsWritten | AshVale.cpp:926-930 | as written, a loss reported while two or more enemies are counted changes nothing |
| Players.HealthAfterHit | AshVale.cpp:623-632 | health after a hit: never negative, zero exactly when the damage uses it up, reduced by the damage otherwise |
| Players.Player.constructor | AshVale.cpp:365-383 | 10 health, no score, alive |
| Players.Player.TakeDamage | AshVale.cpp:623-640 | does nothing once dead; otherwise health drops, clamped at 0, the player dies at 0 and the healing clock restarts; health stays within 0..10 |
| Players.UpdateHealing | AshVale.cpp:1391-1399 | one point back when below 10 and more than 5 s passed, then the clock restarts; health stays within 0..10 |
| Enemies.Chosen | AshVale.cpp:935-972 | Attack exactly when it sees the player in attack range, Walk exactly when it sees the player farther away, Idle exactly when it does not see the player |
| Enemies.FrameCount | AshVale.cpp:1185-1287 | every strip has at least 4 frames |
| Enemies.Animate | AshVale.cpp:1185-1287 | frames never go negative; only a goblin's finished attack changes state (to Idle at frame 0); Dead is kept; the death frame never passes the last; with the delay elapsed a living strip advances within its length and the clock restarts |
| Enemies.DeathStripStops | AshVale.cpp:1185-1287 | the death strip advances to its last frame and then stays there without restarting the clock |
| Enemies.GoblinAttackPlaysOnce | AshVale.cpp:1185-1287 | a goblin's attack runs frames 0 to 13 once, then the goblin is Idle at frame 0 |
| Enemies.SlimeStripsLoop | AshVale.cpp:1185-1287 | a living slime's strips loop, wrapping to frame 0 |
| Enemies.SlideChoice | AshVale.cpp:1029-1057 | the full step when its centre is passable, else the horizontal step, else the vertical step, else blocked |
| Enemies.Destination | AshVale.cpp:1029-1057 | each move changes each coordinate by the velocity or not at all; the full step and the blocked probe take the whole step |
| Enemies.Smoothed | AshVale.cpp:1013-1017 | each smoothing step closes 15% of the gap between the velocity and full speed along the heading; at full speed the velocity stays |
| Enemies.Heading | AshVale.cpp:1004-1010 | an enemy already on its waypoint gets the zero heading |
| Enemies.EscapeOffset | AshVale.cpp:1093-1096 | `rand() % 64 - 32` lies in -32..31 |
| Enemies.Probes | AshVale.cpp:1111-1116 | four near-wall probes |
| Enemies.Enemy.constructor | AshVale.cpp:669-749 | 5 health, alive, Idle, no path, no sprite; a goblin hits for 2, a slime for 1 |
| Enemies.Enemy.RenderEnemy | AshVale.cpp:762-801 | the sprite exists once the textures load, at (400, 100) |
| Enemies.Enemy.SetPosition | AshVale.cpp:756-760 | moves the sprite when there is one |
| Enemies.Enemy.TakeDamage | AshVale.cpp:1137-1176 | nothing when dead or within 0.5 s of the last hit. A lethal hit sets health 0, Dead, no path, zero velocity, and scores 20 for a goblin or 10 for a slime. A non-lethal hit enters Hurt and stun only when not already Hurt. An applied hit restarts the cooldown |
| Enemies.Enemy.Die | AshVale.cpp:1144-1162 | the death branch: dead, health 0, path cleared, velocity zeroed, the kill scored |
| Enemies.Enemy.UpdateAnimation | AshVale.cpp:1185-1287 | without a sprite nothing changes; otherwise the state, frame and clock follow the animation step for the time elapsed |
| Enemies.Enemy.HandleDeath | AshVale.cpp:860-873 | a dead enemy plays its death until 1 s after dying, then loses its sprite and the background track returns |
| Enemies.Enemy.HandleHurt | AshVale.cpp:876-884 | a hurt enemy goes Idle and loses its stun 0.3 s after the hit |
| Enemies.Enemy.UpdateDetection | AshVale.cpp:923-932 | the enemy remembers whether it sees the player and signals the counter as the code does |
| Enemies.Enemy.ChooseState | AshVale.cpp:934-973 | the chosen state; outside Walk the path is cleared and the velocity zeroed; a walking enemy searches when it has no path, and re-searches when 1 s is due and the waypoint is more than 32 px away |
| Enemies.Enemy.AdvanceCursor | AshVale.cpp:976-1002 | within 8 px the cursor moves to the next waypoint; an exhausted path is replaced by a new search at index 0, or cleared when the player is out of sight |
| Enemies.Enemy.ChooseMove | AshVale.cpp:1019-1057 | the slide choice from the three probe centres, and where each move leads |
| Enemies.Enemy.Replan | AshVale.cpp:1059-1082 | a blocked enemy stops and takes the first fallback target around the player that is passable and reachable; with none, no path |
| Enemies.FallbackPath | AshVale.cpp:1064-1081 | the fallback loop: the first of right, left, below, above that gives a path; empty when all four fail |
| Enemies.Alternative | AshVale.cpp:1066-1071 | each fallback target lies 32 px from the player along one axis |
| Enemies.Enemy.Escape | AshVale.cpp:1089-1105 | stuck for more than 0.5 s, the enemy searches to a random passable spot near it and restarts the stuck timer |
| Enemies.EscapePath | AshVale.cpp:1093-1102 | the escape target and its search |
| Enemies.Enemy.Slide | AshVale.cpp:1019-1106 | a possible move is taken and restarts the stuck timer; a blocked one keeps the position, stops and re-plans |
| Enemies.NearWallAt | AshVale.cpp:1108-1123 | near a wall exactly when some probe is impassable |
| Enemies.Enemy.FollowPath | AshVale.cpp:976-1130 | the movement step; when the path runs out, the frame ends with the position, velocity and speed unchanged |
| Enemies.Enemy.Perceive | AshVale.cpp:901-973 | the enemy sees the player within 300 px with line of sight, signals the counter, and picks its state; outside Walk the path is cleared and the enemy stopped |
| Enemies.Enemy.Pursue | AshVale.cpp:898-1134 | detection, the counter signal, and the chosen state (or Idle after a goblin's finished attack); outside Walk the path is cleared and the enemy stopped |
| Enemies.Enemy.EnemyMovement | AshVale.cpp:856-1135 | without a sprite nothing happens; Dead stays Dead; Hurt returns to Idle after 0.3 s; otherwise detection, the counter signal and the chosen state, with the path cleared and the enemy stopped outside Walk |
| Game.Intersects | AshVale.cpp:1329-1347 | `intersects`: overlapping boxes have a positive total width and height |
| Game.IntersectsSymmetric | AshVale.cpp:1329-1347 | the test does not depend on which box is the player's |
| Game.IntersectsMeansSharedPoint | AshVale.cpp:1329-1347 | for boxes of positive size, they intersect exactly when some point lies inside both |
| Game.SpawnX | AshVale.cpp:1310 | the spawn x in 0..1179 |
| Game.SpawnY | AshVale.cpp:1311 | the spawn y in 0..619 |
| Game.FirstFitUnique | AshVale.cpp:1309-1316 | the first fitting attempt is unique |
| Game.FindSpawn | AshVale.cpp:1303-1317 | a position is found exactly when one of the 100 attempts fits, and it is the first one that does |
| Game.World.constructor | AshVale.cpp:1291 | no enemies |
| Game.World.SpawnEnemy | AshVale.cpp:1295-1326 | nothing at 5 enemies. Otherwise the list grows by one exactly when some attempt fits: a goblin on map 2, a slime elsewhere, with 5 health, Idle, at the first fitting corner when its sprite loaded. The list never exceeds 5 |
| Game.World.AreAllEnemiesDead | AshVale.cpp:1402-1409 | true exactly when no enemy in the list is alive |

## Left out

- Rendering, windows, sprites, textures, fonts and the menus and main loop are not modelled, nor are `Weapon`, `Player::playerMovement`, `updateHitBox` and `Player::updateDeathAnimation`. They are SFML calls and input handling.
- Audio streams are not modelled. `SFX` keeps only its flags and counter, and whether the two music files open is an input.
- File-system and stream access are not modelled. A file is a byte sequence, and the directory is a map from names to contents. The debug print pass of `importFromTscn` and the editors' directory listings are left out.
- A short read is modelled as an incomplete load. The source then reads an uninitialised `bool`, so `TileMaps.TileMap.Load` and `AssetMaps.AssetTileMap.Load` promise nothing about the grid when the data ends mid-record.
- The console thread of both editors, which calls `loadMap` concurrently with the event loop, is not modelled. Neither are the editors' key handlers other than P (save, load, new, grid toggle).
- `hasLineOfSight` is an input. It samples the segment in floating point.
- The unit vector toward a waypoint is an input function `normalize`.
- The `rand()` results are inputs.
- Float arithmetic is exact real arithmetic. Distances are compared squared, and float rounding is not modelled.
- Enemies.Enemy.FollowPath: the new velocity and speed are computed as in the source, but its contract states only the ended frame. The smoothing is stated by `Enemies.Smoothed`, and the slide and near-wall parts by `Slide` and `NearWallAt`.
- Enemies.Enemy.Pursue: its contract states detection, the counter signal, the state and the stop outside Walk, but not the walking enemy's new position, velocity and speed; those are stated by `Smoothed`, `Slide` and `NearWallAt`, as for `FollowPath`.
- Enemies.Enemy.EnemyMovement: the same as for `Pursue`: the walking enemy's new position, velocity and speed are not in its contract.
- PathFinding.FindLowest: the path costs are scaled integers (1000 cardinal, 1414 diagonal, heuristic ×1000), so f-cost ties between open nodes may resolve differently than with `float` costs.
- The search keeps its parent links as an immutable chain of node values instead of heap-allocated `Node` copies, which are never freed.
- The stun check at AshVale.cpp:887-896 and the `!isAlive` return after it never fire. Only a hurt or dead enemy is stunned, and both states return earlier. `EnemyMovement` proves this rather than modelling the branches.
- `lastPosition` and the other enemy fields that nothing reads are left out.
- The unused rectangle parameters `a` and `b` of `intersects` are left out.
- `enemies` is a `std::list<Enemy>` holding values. The model holds references to `Enemy` objects.
- `updateHealing` does not look at `isDead`, so a dead player below 10 health still heals, as in the source.

## Findings

| source | as written | input that shows it | evidently intended | confidence | as-written member | corrected member |
|---|---|---|---|---|---|---|
| Assets/TileMapEditor.cpp:212-216 | `tilesetWidth` is the width of `tilesheet_`, a texture that is never loaded, so it is 0 and `(tid - 1) % tilesetWidth` divides by zero | a scene whose first tile id is 1 | the width of the loaded tilesheet, which is positive | not executed; high | TscnLayout.FirstPositiveIdFaults | TscnLayout.LayoutMatchesExpected |
| AshVale.cpp:926-930 | an enemy that loses sight of the player reports it only when the counter is at most 1 | two enemies see the player and then both lose it; the counter stays at 2, so the background track never returns through the counter (only a finished death switches it back) | every loss is reported, so the counter equals the number of enemies that see the player | not executed; high | Sound.CountStuckAsWritten | Sound.SignalKeepsCount |

The enemy keeps the code as written for both findings. `ImportFromTscn` takes the tileset width as a parameter, so the corrected layout is the case `w > 0`. `UpdateDetection` signals the counter as the code does, and `Sound.Signal` is the corrected rule.
