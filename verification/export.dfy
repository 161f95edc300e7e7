/**
 * The pure parts of the Tiled export: `export_map`, which writes a grid as a
 * flat list of tile ids row by row (y outer, x inner), the index rebuild
 * that reads such a list back into a grid indexed [x][y], and the split of
 * a grid into its foreground and background layers.
 */
module Export {
  import opened Options
  import opened Tiles
  import opened Grids
  import opened Connections

  /** The id a cell is exported as: its tile's id, or 0 for an empty cell. */
  function CellId(c: Cell): int
  {
    if c.Some? then c.value.id else 0
  }

  /**
   * `export_map(map_grid)`: flip the grid to rows, then list the ids of each
   * row in turn.  The source reads `len(map_grid[0])` before and after the
   * flip, so the grid needs at least one column and one row.  The model takes
   * rectangular grids, the only ones `generate_map` builds.
   */
  function ExportMap(g: Grid): seq<int>
    requires |g| > 0 && Height(g) > 0 && IsRect(g)
  {
    var rows := Flip(g);
    Flatten(seq(|rows|, y requires 0 <= y < |rows| => seq(|rows[y]|, x requires 0 <= x < |rows[y]| => CellId(rows[y][x]))))
  }

  /** The grid of ids a grid is exported from. */
  function IdGrid(g: Grid): (r: seq<seq<int>>)
    ensures |r| == |g| && forall x :: 0 <= x < |g| ==> |r[x]| == |g[x]|
    ensures forall x, y :: 0 <= x < |g| && 0 <= y < |g[x]| ==> r[x][y] == CellId(g[x][y])
  {
    seq(|g|, x requires 0 <= x < |g| => seq(|g[x]|, y requires 0 <= y < |g[x]| => CellId(g[x][y])))
  }

  /**
   * The export lists width * height ids, and the id of the cell (x, y) sits
   * at index y * width + x.
   */
  lemma ExportMapAt(g: Grid, x: nat, y: nat)
    requires |g| > 0 && Height(g) > 0 && IsRect(g)
    requires x < |g| && y < Height(g)
    ensures |ExportMap(g)| == |g| * Height(g)
    ensures y * |g| + x < |ExportMap(g)| && ExportMap(g)[y * |g| + x] == CellId(g[x][y])
  {
    var rows := Flip(g);
    var ids := seq(|rows|, y requires 0 <= y < |rows| => seq(|rows[y]|, x requires 0 <= x < |rows[y]| => CellId(rows[y][x])));
    assert forall k :: 0 <= k < |ids| ==> |ids[k]| == |g|;
    FlattenAt(ids, |g|, y, x);
    assert |ids| * |g| == |g| * Height(g);
  }

  /** Row `y` of the list rebuilt from `data`: the entries `data[x + y * width]`. */
  function RebuiltRow(data: seq<int>, width: nat, y: nat): (row: seq<int>)
    requires (y + 1) * width <= |data|
    ensures |row| == width && forall x :: 0 <= x < width ==> row[x] == data[x + y * width]
  {
    seq(width, x requires 0 <= x < width => data[x + y * width])
  }

  lemma RowFits(width: nat, height: nat, y: nat)
    requires y < height
    ensures (y + 1) * width <= width * height
  {
    assert (y + 1) * width <= height * width by {
      assert y + 1 <= height;
    }
  }

  /**
   * The index rebuild of `load_layer_from_tiled_json`: rows of `width`
   * entries `data[x + y * width]`, flipped back into a grid indexed [x][y].
   * `flip` reads the first row, so there must be one.
   */
  function Rebuild(data: seq<int>, width: nat, height: nat): seq<seq<int>>
    requires height > 0 && width * height <= |data|
  {
    var rows := seq(height, y requires 0 <= y < height => RowFits(width, height, y); RebuiltRow(data, width, y));
    Flip(rows)
  }

  /** The rebuilt grid has `width` columns of `height` entries, (x, y) holding `data[x + y * width]`. */
  lemma RebuildAt(data: seq<int>, width: nat, height: nat, x: nat, y: nat)
    requires height > 0 && width * height <= |data|
    requires x < width && y < height
    ensures |Rebuild(data, width, height)| == width
    ensures forall i :: 0 <= i < width ==> |Rebuild(data, width, height)[i]| == height
    ensures x + y * width < |data| && Rebuild(data, width, height)[x][y] == data[x + y * width]
  {
    RowFits(width, height, y);
  }

  /** Rebuilding an export gives back the ids of the grid. */
  lemma RebuildInvertsExport(g: Grid)
    requires |g| > 0 && Height(g) > 0 && IsRect(g)
    ensures |ExportMap(g)| == |g| * Height(g)
    ensures Rebuild(ExportMap(g), |g|, Height(g)) == IdGrid(g)
  {
    var w, h := |g|, Height(g);
    ExportMapAt(g, 0, 0);
    var data := ExportMap(g);
    var r := Rebuild(data, w, h);
    RebuildAt(data, w, h, 0, 0);
    forall x | 0 <= x < w ensures r[x] == IdGrid(g)[x] {
      forall y | 0 <= y < h ensures r[x][y] == IdGrid(g)[x][y] {
        RebuildAt(data, w, h, x, y);
        ExportMapAt(g, x, y);
        assert x + y * w == y * w + x;
      }
    }
  }

  /** A grid whose ids are those rebuilt from `data` exports exactly `data`. */
  lemma ExportInvertsRebuild(data: seq<int>, width: nat, height: nat, g: Grid)
    requires width > 0 && height > 0 && |data| == width * height
    requires |g| == width && IsRect(g) && Height(g) == height
    requires IdGrid(g) == Rebuild(data, width, height)
    ensures ExportMap(g) == data
  {
    ExportMapAt(g, 0, 0);
    var e := ExportMap(g);
    forall k | 0 <= k < |data| ensures e[k] == data[k] {
      var y, x := k / width, k % width;
      IndexSplits(k, width, height);
      ExportMapAt(g, x, y);
      RebuildAt(data, width, height, x, y);
      assert x + y * width == k;
    }
  }

  /** An index below width * height is y * width + x for a cell (x, y). */
  lemma IndexSplits(k: nat, width: nat, height: nat)
    requires width > 0 && k < width * height
    ensures k == (k / width) * width + k % width
    ensures k % width < width && k / width < height
  {
    var y := k / width;
    if y >= height {
      assert y * width >= height * width by {
        MultiplyMonotone(height, y, width);
      }
    }
  }

  lemma MultiplyMonotone(a: nat, b: nat, c: nat)
    requires a <= b
    ensures a * c <= b * c
  {
  }

  /** The cell a layer keeps: the tile if it belongs to the layer, `TILE_EMPTY` otherwise. */
  function LayerCell(c: Cell, foreground: bool): Cell
    requires c.Some?
  {
    if c.value.foreground == foreground then c else Some(TileEmpty)
  }

  /**
   * `map_grid_foreground` (`foreground` true) or `map_grid_background`
   * (false): each tile kept in its own layer and replaced by `TILE_EMPTY`
   * in the other.  The source reads `tile.foreground` of every cell, so every
   * cell must be filled; the columns may have any lengths.
   */
  function Layer(g: Grid, foreground: bool): (r: Grid)
    requires forall x, y :: 0 <= x < |g| && 0 <= y < |g[x]| ==> g[x][y].Some?
    ensures |r| == |g| && forall x :: 0 <= x < |g| ==> |r[x]| == |g[x]|
    ensures forall x, y :: 0 <= x < |g| && 0 <= y < |g[x]| ==> r[x][y] == LayerCell(g[x][y], foreground)
  {
    seq(|g|, x requires 0 <= x < |g| => seq(|g[x]|, y requires 0 <= y < |g[x]| => LayerCell(g[x][y], foreground)))
  }

  /**
   * Every tile lands in exactly one of the two layers: at each index of the
   * export, one layer shows the tile's id and the other 0 (`TILE_EMPTY`), so
   * the two exports add up to the export of the whole grid.
   */
  lemma LayersSplitExport(g: Grid, x: nat, y: nat)
    requires |g| > 0 && Height(g) > 0 && IsRect(g) && Full(g)
    requires x < |g| && y < Height(g)
    ensures IsRect(Layer(g, true)) && Height(Layer(g, true)) == Height(g)
    ensures IsRect(Layer(g, false)) && Height(Layer(g, false)) == Height(g)
    ensures var k := y * |g| + x;
      k < |ExportMap(g)| && |ExportMap(Layer(g, true))| == |ExportMap(Layer(g, false))| == |ExportMap(g)| &&
      ExportMap(Layer(g, true))[k] + ExportMap(Layer(g, false))[k] == ExportMap(g)[k] &&
      (ExportMap(Layer(g, true))[k] == 0 || ExportMap(Layer(g, false))[k] == 0)
  {
    var fg, bg := Layer(g, true), Layer(g, false);
    ExportMapAt(g, x, y);
    ExportMapAt(fg, x, y);
    ExportMapAt(bg, x, y);
    assert TileEmpty.id == 0;
  }

  /** A 2 x 2 grid holding ids 5, 6 in column 0 and 7, 8 in column 1 exports [5, 7, 6, 8]. */
  lemma ExportExample()
    ensures var g := [[Some(TileFrom(5, [], true)), Some(TileFrom(6, [], true))],
                      [Some(TileFrom(7, [], true)), Some(TileFrom(8, [], true))]];
      IsRect(g) && ExportMap(g) == [5, 7, 6, 8]
  {
    var g := [[Some(TileFrom(5, [], true)), Some(TileFrom(6, [], true))],
              [Some(TileFrom(7, [], true)), Some(TileFrom(8, [], true))]];
    ExportMapAt(g, 0, 0);
    ExportMapAt(g, 1, 0);
    ExportMapAt(g, 0, 1);
    ExportMapAt(g, 1, 1);
  }
}
