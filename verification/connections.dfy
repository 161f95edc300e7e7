/**
 * The two fold-over-neighbours checks of the generator: whether a candidate
 * tile fits a cell in both directions (`can_be_connected`), and whether a
 * whole grid is consistent (`is_map_valid`).  Each is a method with the
 * source's `result &= ...` loop, proved equal to a direction-wise predicate.
 */
module Connections {
  import opened Options
  import opened Compass
  import opened Tiles
  import opened Grids

  /** A cell of the generator's grid: a tile, or `None` while unfilled. */
  type Cell = Option<Tile>

  /** `map_grid`, a sequence of columns indexed g[x][y]. */
  type Grid = seq<seq<Cell>>

  /**
   * Placing `tile` at (x, y) agrees with the neighbour towards `d`, if that
   * neighbour is on the grid: `tile` accepts it, and a present neighbour
   * accepts `tile` back, seen from its side (the reversed direction).
   */
  ghost predicate AcceptsNeighbour(tile: Tile, x: int, y: int, g: Grid, d: Direction)
    requires IsRect(g)
  {
    HasNeighbour(g, x, y, d) ==>
      var other := g[x + Dx(d)][y + Dy(d)];
      ConnectsWith(tile, d, other) && (other.Some? ==> ConnectsWith(other.value, Reversed(d), Some(tile)))
  }

  /** `tile` agrees with all eight neighbours of (x, y). */
  ghost predicate Fits(tile: Tile, x: int, y: int, g: Grid)
    requires IsRect(g)
  {
    forall d :: AcceptsNeighbour(tile, x, y, g, d)
  }

  /** The test `can_be_connected` applies to one triple of `connected_tiles`. */
  predicate TripleFits(tile: Tile, t: (Cell, Direction, Cell))
  {
    ConnectsWith(tile, t.1, t.2) && (t.2.Some? ==> ConnectsWith(t.2.value, Reversed(t.1), Some(tile)))
  }

  /**
   * `can_be_connected(tile, x, y, map_grid)`: true exactly when `tile` agrees
   * with every neighbour of (x, y) in both directions; unfilled and
   * off-grid neighbours impose nothing.
   */
  method CanBeConnected(tile: Tile, x: int, y: int, g: Grid) returns (result: bool)
    requires IsRect(g) && InBounds(g, x, y)
    ensures result == Fits(tile, x, y, g)
  {
    var neighbours := ConnectedTiles(x, y, g);
    result := true;
    for i := 0 to |neighbours|
      invariant result <==> forall k :: 0 <= k < i ==> TripleFits(tile, neighbours[k])
    {
      var (_, d, other) := neighbours[i];
      result := result && ConnectsWith(tile, d, other);
      if other.Some? {
        result := result && ConnectsWith(other.value, Reversed(d), Some(tile));
      }
    }
    var P := (t: (Cell, Direction, Cell)) => TripleFits(tile, t);
    ConnectedTilesAll(x, y, g, P);
    assert result <==> All(neighbours, P);
    if result {
      forall d ensures AcceptsNeighbour(tile, x, y, g, d) {
        if HasNeighbour(g, x, y, d) {
          assert P(NeighbourTriple(g, x, y, d));
        }
      }
    } else {
      assert !Fits(tile, x, y, g) by {
        var d :| HasNeighbour(g, x, y, d) && !P(NeighbourTriple(g, x, y, d));
        assert !AcceptsNeighbour(tile, x, y, g, d);
      }
    }
  }

  /** Every cell of the grid holds a tile. */
  ghost predicate Full(g: Grid)
    requires IsRect(g)
  {
    forall x, y :: InBounds(g, x, y) ==> g[x][y].Some?
  }

  /** The tile at (x, y) accepts its neighbour towards `d`, if there is one. */
  ghost predicate ConnectsAt(g: Grid, x: int, y: int, d: Direction)
    requires IsRect(g) && Full(g) && InBounds(g, x, y)
  {
    HasNeighbour(g, x, y, d) ==> ConnectsWith(g[x][y].value, d, g[x + Dx(d)][y + Dy(d)])
  }

  /** Every tile accepts every neighbour it has, checked from its own side. */
  ghost predicate ValidMap(g: Grid)
    requires IsRect(g) && Full(g)
  {
    forall x, y, d :: InBounds(g, x, y) ==> ConnectsAt(g, x, y, d)
  }

  /** The test `is_map_valid` applies to one triple of `tile_combinations`. */
  predicate TripleConnects(t: (Cell, Direction, Cell))
  {
    t.0.Some? && ConnectsWith(t.0.value, t.1, t.2)
  }

  /**
   * `is_map_valid(map_grid)`: true exactly when every tile accepts every
   * in-bounds neighbour in the direction it lies in.  The source reads
   * `len(map_grid[0])`, so the grid must have a column, and calls
   * `connects_with` on every cell that has an in-bounds neighbour, so those
   * cells must be filled.  The model takes rectangular, filled grids, which
   * is what `generate_map` returns.
   */
  method IsMapValid(g: Grid) returns (result: bool)
    requires |g| > 0 && IsRect(g) && Full(g)
    ensures result == ValidMap(g)
  {
    var combinations := TileCombinations(g);
    var filled := (t: (Cell, Direction, Cell)) => t.0.Some?;
    TileCombinationsAll(g, filled);
    assert All(combinations, filled);
    result := true;
    for i := 0 to |combinations|
      invariant result <==> forall k :: 0 <= k < i ==> TripleConnects(combinations[k])
    {
      var (tile, d, other) := combinations[i];
      assert filled(combinations[i]);
      result := result && ConnectsWith(tile.value, d, other);
    }
    var P := (t: (Cell, Direction, Cell)) => TripleConnects(t);
    TileCombinationsAll(g, P);
    assert result <==> All(combinations, P);
    if result {
      forall x, y, d | InBounds(g, x, y) ensures ConnectsAt(g, x, y, d) {
        if HasNeighbour(g, x, y, d) {
          assert P(NeighbourTriple(g, x, y, d));
        }
      }
    } else {
      assert !ValidMap(g) by {
        var x, y, d :| InBounds(g, x, y) && HasNeighbour(g, x, y, d) && !P(NeighbourTriple(g, x, y, d));
        assert !ConnectsAt(g, x, y, d);
      }
    }
  }
}
