# Forest tile generator, modelled in Dafny

This project models the tile-placement generator of the rc3 "Flauschiversum"
world, `forest/forest_generator.py`. The generator is a local, greedy,
non-backtracking constraint fill in the style of Wave Function Collapse:

- **Tiles.** Each tile has an id, a foreground flag and one *matcher* per
  compass direction. A matcher is a predicate on the id of the neighbouring
  tile.
- **Fitting a cell.** `can_be_connected` decides whether a tile fits a cell of
  a partly filled grid. The candidate must accept every filled neighbour, and
  every filled neighbour must accept the candidate from its own side.
- **Generating a map.** `generate_map` first pins the cleared cells to a
  clearance tile. It then visits the cells column by column (x outer, y
  inner). Each empty cell gets the chooser's pick among the tileset tiles
  that fit it at that moment. When no tile fits, the cell gets the conflict
  tile `TILE_FAIL`.
- **Checking a map.** `is_map_valid` checks a finished grid.
- **Export.** `export_map` flattens a grid into the row-by-row id list of the
  Tiled map format.

Modules, in dependency order:

- `Options` (`options.dfy`): the `Option` datatype.
- `Compass` (`compass.dfy`): the eight directions, their offsets and
  `reversed`.
- `Matchers` (`matchers.dfy`): matchers as a datatype. The source builds
  them as closures. Here they are `Always`, `Allow(ids)`, `Deny(ids)` and
  `Both(first, second)`, read by the predicate `Accepts`.
- `Tiles` (`tiles.dfy`): the `Tile` record and its constructor loop,
  `add_matcher` and `connects_with`. Also the reserved tiles `TILE_EMPTY`
  and `TILE_FAIL`, and `constraint_dict` / `constraint_map`.
- `Grids` (`grids.dfy`): generic grids `seq<seq<T>>` indexed `[x][y]`. It
  holds `connected_tiles` and `tile_combinations` as lists in the
  generators' order, plus `flip` and flattening.
- `Connections` (`connections.dfy`): `can_be_connected` and `is_map_valid`.
  Each is a method holding the source's `result &= …` loop. Each is proved
  equal to a direction-wise predicate (`Fits`, `ValidMap`).
- `Generator` (`generator.dfy`): `generate_map`.
  - The ghost function `Scan(…, x, y)` is the grid just before cell (x, y) is
    visited. `Generated` is the grid after the last visit.
  - The method `GenerateMap` holds the source's nested loops and is proved
    to return `Generated`.
  - Lemmas describe the result cell by cell (`GeneratedCell`,
    `PlacedTileFits`).
  - The chooser receives the position of the cell along with the candidate
    list. `generate_map` calls it at most once per cell, so the picks of a
    chooser with hidden state, such as `random.choice`, in any one run are
    those of some function of position and candidates.
  - The headline theorem is `GeneratedConnects` / `GeneratedIsValid`. It
    assumes a chooser that returns a member of the list it is given. Under
    that assumption, a generated grid with no `TILE_FAIL` is consistent: every
    tile accepts every neighbour. With a clearance map, this holds for every
    pair of neighbours except a pair of two cleared cells, which the scan
    never compares. Without one, the grid passes `is_map_valid`.
- `GeneratorExample` (`generator_example.dfy`): the 3 x 1 test of
  `test_forest_generator.py`. With the default chooser it yields the ids
  1, 2, 1.
- `Export` (`export.dfy`): `export_map`, the index rebuild of
  `load_layer_from_tiled_json` (proved to be its inverse), and the split
  into foreground and background layers.

## Model

| member | source | states |
|---|---|---|
| Compass.Value | forest/forest_generator.py:6-14 | every direction's enum value is below `len(Compass)` |
| Compass.FromValue | forest/forest_generator.py:22-23 | `list(Compass)[v]` is the direction whose value is v |
| Compass.AllDirectionsInOrder | forest/forest_generator.py:6-14 | iterating `Compass` yields all eight directions, the i-th having value i |
| Compass.ValueIdentifies | forest/forest_generator.py:6-14 | a direction is determined by its value |
| Compass.Offset | forest/forest_generator.py:16-17 | each `coords()` offset is a step to one of the eight cells around the origin, never (0, 0) |
| Compass.Reversed | forest/forest_generator.py:22-23 | a direction's offset and its reversed direction's offset add up to (0, 0), the property `test_compass` checks (test lines 45-50); see also ReversedInvolutive, ReversedWestIsEast |
| Compass.ReversedInvolutive | forest/forest_generator.py:22-23 | reversing twice gives back the direction |
| Compass.ReversedWestIsEast | forest/test_forest_generator.py:43 | `reversed(WEST)` is `EAST` |
| Matchers.Accepts | forest/forest_generator.py:42-46 | applying a matcher to an id; its meaning for each builder is stated by TileOf, AnyTile, OneOf, ExceptOf and AddMatcher |
| Matchers.TileOf | forest/forest_generator.py:40-46 | a given whitelist alone decides (id in list), else a given blacklist (id not in list), else every id is accepted |
| Matchers.AnyTile | forest/forest_generator.py:36-37 | accepts every id |
| Matchers.OneOf | forest/forest_generator.py:53-54 | accepts exactly the listed ids |
| Matchers.ExceptOf | forest/forest_generator.py:49-50 | accepts exactly the ids not listed |
| Matchers.OneOfExceptOfComplement | forest/test_forest_generator.py:14-20 | for the same ids, `one_of` and `except_of` disagree on every id |
| Tiles.TileFrom | forest/forest_generator.py:58-66 | the built tile keeps id and flag, and its slot for each direction is the last rule naming it, else `any_tile()` |
| Tiles.NewTile | forest/forest_generator.py:63-66 | the constructor's slot-overwriting loop builds exactly that tile |
| Tiles.UnnamedSlotAcceptsAll | forest/forest_generator.py:63-66 | a direction no rule names keeps `any_tile()` and accepts every id |
| Tiles.LastEntryWins | forest/forest_generator.py:64-65 | of several rules for one direction the last one is kept |
| Tiles.AddMatcher | forest/forest_generator.py:68-71 | the slot then accepts an id iff the old matcher and the new one both do; id, flag and other slots unchanged |
| Tiles.ConnectsWith | forest/forest_generator.py:90-94 | `connects_with`; see ConnectsWithSpec, MutualTilesExample, ReservedTilesAcceptAll |
| Tiles.ConnectsWithSpec | forest/forest_generator.py:90-94 | an absent neighbour always connects; a present one connects iff the slot accepts its id, so tiles with equal ids are interchangeable |
| Tiles.MutualTilesExample | forest/test_forest_generator.py:7-12 | `tile_a` accepts `tile_b` towards west and rejects itself there |
| Tiles.ReservedTilesAcceptAll | forest/forest_generator.py:100-101 | `TILE_EMPTY` has id 0, `TILE_FAIL` id 1, and both accept any neighbour in any direction |
| Tiles.ConstraintDict | forest/forest_generator.py:73-81 | a direction is a key iff the tile accepts some tileset tile there, and it maps to exactly the set of those tiles |
| Tiles.CollectAccepted | forest/forest_generator.py:76-80 | the inner loop adds one direction with its accepted set when that set is non-empty, and changes nothing else |
| Tiles.CompassMapMatchesOffsets | forest/forest_generator.py:29-33 | each direction sits in `COMPASS_MAP` at the row and column its offset points to |
| Tiles.ConstraintMap | forest/forest_generator.py:83-88 | a 3x3 view whose centre is `{self}` and whose cell for each direction is its accepted set, or `{self}` when that is empty |
| Grids.ConnectedTiles | forest/forest_generator.py:221-229 | `connected_tiles` as a list; see NeighboursInSound, ConnectedTilesInCompassOrder, ConnectedTilesAll, ConnectedTilesOffsets, ConnectedTilesEdgeExample |
| Grids.NeighboursInSound | forest/forest_generator.py:224-229 | every triple yielded pairs the cell with the in-bounds neighbour in the triple's direction |
| Grids.ConnectedTilesInCompassOrder | forest/forest_generator.py:224 | `connected_tiles` yields the directions in strictly increasing compass order |
| Grids.ConnectedTilesAll | forest/forest_generator.py:221-229 | a property holds for every triple of `connected_tiles` iff it holds for the triple of every in-bounds direction |
| Grids.ConnectedTilesOffsets | forest/test_forest_generator.py:52-59 | in a grid of coordinates, each triple links (x, y) to the cell one offset away |
| Grids.ConnectedTilesEdgeExample | forest/test_forest_generator.py:61 | the edge cell (0, 1) of a 3x3 grid has five neighbours |
| Grids.TileCombinations | forest/forest_generator.py:211-218 | `tile_combinations` as a list; see TileCombinationsAll |
| Grids.TileCombinationsAll | forest/forest_generator.py:211-218 | a property holds for every triple of `tile_combinations` iff it holds for every cell's every in-bounds neighbour |
| Grids.Flip | forest/forest_generator.py:270-271 | `flip` is the transpose, with `len(matrix[0])` lines of `len(matrix)` entries |
| Grids.FlipInvolution | forest/forest_generator.py:270-271 | flipping a rectangular matrix twice gives it back |
| Grids.FlattenAt | forest/forest_generator.py:243 | listing rows of equal length row by row puts entry (y, x) at index y * width + x |
| Connections.CanBeConnected | forest/forest_generator.py:202-208 | true iff the tile accepts every in-bounds neighbour and every filled neighbour accepts the tile from the reversed direction |
| Connections.IsMapValid | forest/forest_generator.py:232-236 | true iff every tile accepts each in-bounds neighbour in that neighbour's direction |
| Generator.CandidatesMembers | forest/forest_generator.py:189 | a tile is a candidate iff it is in the tileset and fits the cell |
| Generator.PossibleTiles | forest/forest_generator.py:189 | the comprehension calling `can_be_connected` returns the fitting tiles in tileset order |
| Generator.FirstCandidateIsFirstFit | forest/forest_generator.py:178 | the default chooser's pick, the head of the candidates, is the first tileset tile that fits |
| Generator.FirstCandidate | forest/forest_generator.py:178 | `lambda p: p[0]` returns a member of its list |
| Generator.FirstCandidatePicksMember | forest/forest_generator.py:178 | the default chooser is defined on, and picks from, every non-empty list |
| Generator.Prefill | forest/forest_generator.py:179-184 | `width` columns of `height` cells, the clearance tile where cleared and empty elsewhere |
| Generator.ClearedGrid | forest/forest_generator.py:179-184 | the pre-fill loops build exactly that grid |
| Generator.Scan | forest/forest_generator.py:186-198 | every point of the scan keeps the grid's shape |
| Generator.ScanFrame | forest/forest_generator.py:186-198 | cells the scan has not reached still hold their initial content |
| Generator.ScanKeeps | forest/forest_generator.py:186-198 | a visited cell keeps what its visit wrote to the end |
| Generator.ScanVisits | forest/forest_generator.py:188-198 | a visit leaves a filled cell alone and fills an empty one with the pick, or `TILE_FAIL` when nothing fits |
| Generator.ScanSnapshot | forest/forest_generator.py:186-198 | mid-scan, visited cells show their final value and the others their initial one |
| Generator.ScanIsSeen | forest/forest_generator.py:186-198 | the grid a visit sees is the final grid before that cell and the pre-filled grid from it on |
| Generator.GenerateMap | forest/forest_generator.py:178-199 | the nested loops return the grid `Generated` describes |
| Generator.GeneratedShape | forest/forest_generator.py:178-199 | the result has `width` columns of `height` cells, all filled |
| Generator.GeneratedCell | forest/forest_generator.py:180-198 | a cleared cell holds the clearance tile; any other holds `TILE_FAIL` if no tile fit what its visit saw, else the chooser's pick among the fitting tiles |
| Generator.PlacedTileFits | forest/forest_generator.py:188-198 | with a member-picking chooser, a placed tile that is not `TILE_FAIL` is from the tileset and fit the grid its visit saw |
| Generator.CheckedOnVisit | forest/forest_generator.py:204-207 | an initially empty cell was checked both ways against each neighbour that was pre-filled or visited earlier |
| Generator.PairConnects | forest/forest_generator.py:202-208 | two neighbours, not both pre-filled, connect in both directions in the final grid |
| Generator.GeneratedConnects | forest/forest_generator.py:178-208 | with a member-picking chooser and no `TILE_FAIL` outside the cleared area, every tile accepts every neighbour except between two cleared cells |
| Generator.GeneratedIsValid | forest/test_forest_generator.py:29-40 | without clearance, with a member-picking chooser, a result with no `TILE_FAIL` satisfies `is_map_valid` |
| Generator.WithoutClearanceAllConnect | forest/forest_generator.py:232-236 | with nothing cleared, the exception for cleared pairs is empty and the grid is valid |
| GeneratorExample.ExampleMap | forest/test_forest_generator.py:26 | `generate_map(3, 1, [tile_1, tile_2])` is a 3 x 1 grid |
| GeneratorExample.ExampleSlots | forest/test_forest_generator.py:23-24 | `tile_1` only restricts east, to id 2; `tile_2` only east, to id 1 |
| GeneratorExample.GeneratedExample | forest/test_forest_generator.py:22-26 | the generated row is `tile_1`, `tile_2`, `tile_1` |
| Export.ExportMap | forest/forest_generator.py:239-243 | `export_map`; see ExportMapAt, ExportExample, ExportInvertsRebuild |
| Export.ExportMapAt | forest/forest_generator.py:239-243 | the export has width * height ids, and (x, y)'s id, or 0 if empty, sits at index y * width + x |
| Export.ExportExample | forest/forest_generator.py:239-243 | a 2 x 2 grid with ids 5, 6 / 7, 8 in its columns exports [5, 7, 6, 8] |
| Export.Rebuild | forest/forest_generator.py:267 | the index rebuild; see RebuiltRow, RebuildAt, RebuildInvertsExport |
| Export.RebuiltRow | forest/forest_generator.py:267 | row y of the rebuild holds `data[x + y * width]` |
| Export.RebuildAt | forest/forest_generator.py:267 | the rebuilt grid has `width` columns of `height` cells, (x, y) holding `data[x + y * width]` |
| Export.RebuildInvertsExport | forest/forest_generator.py:267 | rebuilding an export gives back the grid's ids |
| Export.ExportInvertsRebuild | forest/forest_generator.py:239-243 | a grid whose ids are the rebuild of a width * height list exports exactly that list |
| Export.Layer | forest/forest_generator.py:249-250 | each cell keeps its tile when the tile's flag matches the layer, and `TILE_EMPTY` otherwise |
| Export.LayersSplitExport | forest/forest_generator.py:249-256 | at every index, the foreground and background exports add up to the full export and one of them is 0 |

## Left out

- JSON input and output (`insert_into_tiled_json`, `load_layer_from_tiled_json`, lines 246-267) are not modelled beyond their pure parts: the index rebuild and the layer split. Reading a document, finding a layer by name and writing the file are I/O.
- The `print` of the coordinates of a conflict cell (line 193) is a diagnostic and is left out. The conflict itself is modelled: the cell gets `TILE_FAIL`.
- The random chooser of the tests (`random.choice`) depends on hidden generator state. A chooser here is a function of the cell's position and the candidate list; since each cell calls the chooser at most once, the picks of any one run are those of such a function, but the distribution of the picks is not modelled.
- Generator.GeneratedConnects: the theorem needs two assumptions. The chooser must return a member of its list; the source does not check this. No cell outside the cleared area may hold `TILE_FAIL`; the greedy scan does not guarantee this. Two neighbouring cleared cells are never compared, so they are excluded.
- `clearance_tile=None` is left out. The model takes a tile, and `None` would leave the cell empty and let the scan fill it.
- A clearance flag is a boolean, while the source accepts any truthy value. For example, the loaded Tiled layer holds tile ids, which are true when non-zero.
- Tile `name` and `__repr__` are left out, as is `Compass.diagonals` (no caller in the core).
- `add_matcher` mutates a tile that every grid cell holding it shares. The model returns a new tile value instead, so aliasing is not modelled. Tiles are compared as values, not by object identity, in `constraint_dict`'s sets and in `possible_tiles` membership. Likewise `TILE_FAIL` is recognised by value: Generator.NoFailure and Generator.GeneratedIsValid treat a tileset tile equal to it (id 1, no rules, foreground) as a conflict, so for such a tileset their hypothesis is stronger than "no cell ran out of candidates".
- The concrete tile catalogue (`tree_tileset`, `TILESET`, lines 104-175) is configuration data and is not modelled. The commented-out constraint inference (lines 273-299) is dead code.
- Connections.IsMapValid requires a non-empty, rectangular, fully filled grid. The source reads `len(map_grid[0])`, so it fails on an empty grid, and calls `connects_with` on every cell that has an in-bounds neighbour, so it fails on an unfilled cell that has a neighbour. It accepts more than the model does: a single unfilled cell (1 x 1), for which `is_map_valid` returns true, and a ragged grid whose later columns are longer, of which it reads only `len(map_grid[0])` cells per column. `generate_map` never builds either.
- Export.ExportMap requires a rectangular grid of at least one column and one row (`len(map_grid[0])` before and after `flip`). The source also accepts a ragged grid whose later columns are longer, exporting only the first `len(map_grid[0])` cells of each column; `generate_map` never builds one. Rebuild requires `height > 0`, because `flip` reads the first row. Layer requires every cell to be filled, because the source reads `tile.foreground` of every cell; it takes columns of any lengths.
- A clearance map must cover the grid (Generator.Covers); the source would fail with an index error otherwise.
