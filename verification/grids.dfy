/**
 * Rectangular grids stored as a sequence of columns, indexed g[x][y] as the
 * generator's `map_grid` is, the neighbour enumeration over them, and the
 * transposition and flattening used when grids are exported.
 */
module Grids {
  import opened Compass

  /** `len(map_grid[0])`: the column length, taken from the first column. */
  function Height<T>(g: seq<seq<T>>): nat
  {
    if |g| == 0 then 0 else |g[0]|
  }

  /** Every column has the length of the first one. */
  ghost predicate IsRect<T>(g: seq<seq<T>>)
  {
    forall x :: 0 <= x < |g| ==> |g[x]| == Height(g)
  }

  predicate InBounds<T>(g: seq<seq<T>>, x: int, y: int)
  {
    0 <= x < |g| && 0 <= y < Height(g)
  }

  /** The neighbour of (x, y) towards `d` lies on the grid. */
  predicate HasNeighbour<T>(g: seq<seq<T>>, x: int, y: int, d: Direction)
  {
    InBounds(g, x + Dx(d), y + Dy(d))
  }

  /** `(map_grid[x][y], compass, map_grid[x1][y1])`, the triple `connected_tiles` yields. */
  function NeighbourTriple<T>(g: seq<seq<T>>, x: int, y: int, d: Direction): (T, Direction, T)
    requires IsRect(g) && InBounds(g, x, y) && HasNeighbour(g, x, y, d)
  {
    (g[x][y], d, g[x + Dx(d)][y + Dy(d)])
  }

  ghost predicate IsNeighbourTriple<T>(g: seq<seq<T>>, x: int, y: int, t: (T, Direction, T))
    requires IsRect(g) && InBounds(g, x, y)
  {
    HasNeighbour(g, x, y, t.1) && t == NeighbourTriple(g, x, y, t.1)
  }

  /** The triples for the directions of `ds`, in the order of `ds`. */
  function NeighboursIn<T>(x: int, y: int, g: seq<seq<T>>, ds: seq<Direction>): seq<(T, Direction, T)>
    requires IsRect(g) && InBounds(g, x, y)
  {
    if ds == [] then []
    else
      (if HasNeighbour(g, x, y, ds[0]) then [NeighbourTriple(g, x, y, ds[0])] else []) + NeighboursIn(x, y, g, ds[1..])
  }

  /** `connected_tiles(x, y, map_grid)`: the cell with each neighbour that lies on the grid. */
  function ConnectedTiles<T>(x: int, y: int, g: seq<seq<T>>): seq<(T, Direction, T)>
    requires IsRect(g) && InBounds(g, x, y)
  {
    NeighboursIn(x, y, g, AllDirections)
  }

  /** The directions of `ds` come in strictly increasing compass order. */
  ghost predicate InCompassOrder(ds: seq<Direction>)
  {
    forall i, j :: 0 <= i < j < |ds| ==> Value(ds[i]) < Value(ds[j])
  }

  lemma {:induction false} NeighboursInSound<T>(x: int, y: int, g: seq<seq<T>>, ds: seq<Direction>)
    requires IsRect(g) && InBounds(g, x, y)
    ensures forall k :: 0 <= k < |NeighboursIn(x, y, g, ds)| ==>
      IsNeighbourTriple(g, x, y, NeighboursIn(x, y, g, ds)[k]) && NeighboursIn(x, y, g, ds)[k].1 in ds
  {
    if ds != [] {
      var rest := NeighboursIn(x, y, g, ds[1..]);
      NeighboursInSound(x, y, g, ds[1..]);
      var here := if HasNeighbour(g, x, y, ds[0]) then [NeighbourTriple(g, x, y, ds[0])] else [];
      var r := here + rest;
      assert NeighboursIn(x, y, g, ds) == r;
      assert ds == [ds[0]] + ds[1..];
      forall k | 0 <= k < |r| ensures IsNeighbourTriple(g, x, y, r[k]) && r[k].1 in ds {
        if k >= |here| {
          assert r[k] == rest[k - |here|];
          assert IsNeighbourTriple(g, x, y, rest[k - |here|]) && rest[k - |here|].1 in ds[1..];
        }
      }
    }
  }

  lemma {:induction false} NeighboursInOrdered<T>(x: int, y: int, g: seq<seq<T>>, ds: seq<Direction>)
    requires IsRect(g) && InBounds(g, x, y) && InCompassOrder(ds)
    ensures forall j, k :: 0 <= j < k < |NeighboursIn(x, y, g, ds)| ==>
      Value(NeighboursIn(x, y, g, ds)[j].1) < Value(NeighboursIn(x, y, g, ds)[k].1)
  {
    if ds != [] {
      var rest := NeighboursIn(x, y, g, ds[1..]);
      assert InCompassOrder(ds[1..]);
      NeighboursInOrdered(x, y, g, ds[1..]);
      HeadPrecedesRest(x, y, g, ds);
      var here := if HasNeighbour(g, x, y, ds[0]) then [NeighbourTriple(g, x, y, ds[0])] else [];
      var r := here + rest;
      assert NeighboursIn(x, y, g, ds) == r;
      forall j, k | 0 <= j < k < |r| ensures Value(r[j].1) < Value(r[k].1) {
        assert r[k] == rest[k - |here|];
        if j >= |here| {
          assert r[j] == rest[j - |here|];
        }
      }
    }
  }

  /** The first direction of an ordered list precedes every direction the rest yields. */
  lemma HeadPrecedesRest<T>(x: int, y: int, g: seq<seq<T>>, ds: seq<Direction>)
    requires IsRect(g) && InBounds(g, x, y) && InCompassOrder(ds) && ds != []
    ensures forall k :: 0 <= k < |NeighboursIn(x, y, g, ds[1..])| ==>
      Value(ds[0]) < Value(NeighboursIn(x, y, g, ds[1..])[k].1)
  {
    var rest := NeighboursIn(x, y, g, ds[1..]);
    NeighboursInSound(x, y, g, ds[1..]);
    forall k | 0 <= k < |rest| ensures Value(ds[0]) < Value(rest[k].1) {
      var i :| 0 <= i < |ds[1..]| && ds[1..][i] == rest[k].1;
      assert ds[1..][i] == ds[i + 1];
    }
  }

  /**
   * The triples of `connected_tiles` pair the cell with an on-grid neighbour
   * and come in strictly increasing compass order, so at most one per
   * direction; `ConnectedTilesAll` shows that none is missing.
   */
  lemma ConnectedTilesInCompassOrder<T>(x: int, y: int, g: seq<seq<T>>)
    requires IsRect(g) && InBounds(g, x, y)
    ensures forall k :: 0 <= k < |ConnectedTiles(x, y, g)| ==> IsNeighbourTriple(g, x, y, ConnectedTiles(x, y, g)[k])
    ensures forall j, k :: 0 <= j < k < |ConnectedTiles(x, y, g)| ==>
      Value(ConnectedTiles(x, y, g)[j].1) < Value(ConnectedTiles(x, y, g)[k].1)
  {
    AllDirectionsInOrder();
    NeighboursInSound(x, y, g, AllDirections);
    NeighboursInOrdered(x, y, g, AllDirections);
  }

  /** Every element of `s` satisfies `P`. */
  ghost predicate All<T>(s: seq<T>, P: T -> bool)
  {
    forall k :: 0 <= k < |s| ==> P(s[k])
  }

  lemma AllConcat<T>(a: seq<T>, b: seq<T>, P: T -> bool)
    ensures All(a + b, P) <==> All(a, P) && All(b, P)
  {
    if All(a, P) && All(b, P) {
      forall k | 0 <= k < |a + b| ensures P((a + b)[k]) {
        if k >= |a| { assert (a + b)[k] == b[k - |a|]; }
      }
    }
    if All(a + b, P) {
      forall k | 0 <= k < |a| ensures P(a[k]) { assert (a + b)[k] == a[k]; }
      forall k | 0 <= k < |b| ensures P(b[k]) { assert (a + b)[|a| + k] == b[k]; }
    }
  }

  lemma {:induction false} NeighboursInAll<T>(x: int, y: int, g: seq<seq<T>>, ds: seq<Direction>, P: ((T, Direction, T)) -> bool)
    requires IsRect(g) && InBounds(g, x, y)
    ensures All(NeighboursIn(x, y, g, ds), P) <==>
      forall d :: d in ds && HasNeighbour(g, x, y, d) ==> P(NeighbourTriple(g, x, y, d))
  {
    if ds != [] {
      var here := if HasNeighbour(g, x, y, ds[0]) then [NeighbourTriple(g, x, y, ds[0])] else [];
      AllConcat(here, NeighboursIn(x, y, g, ds[1..]), P);
      NeighboursInAll(x, y, g, ds[1..], P);
      assert forall d :: d in ds <==> d == ds[0] || d in ds[1..] by {
        assert ds == [ds[0]] + ds[1..];
      }
    }
  }

  /**
   * For any property `P` of triples, all of `connected_tiles(x, y)` satisfy
   * `P` exactly when every in-bounds neighbour triple of (x, y) does: no
   * direction with an in-bounds neighbour is skipped.
   */
  lemma ConnectedTilesAll<T>(x: int, y: int, g: seq<seq<T>>, P: ((T, Direction, T)) -> bool)
    requires IsRect(g) && InBounds(g, x, y)
    ensures All(ConnectedTiles(x, y, g), P) <==>
      forall d :: HasNeighbour(g, x, y, d) ==> P(NeighbourTriple(g, x, y, d))
  {
    AllDirectionsInOrder();
    NeighboursInAll(x, y, g, AllDirections, P);
  }

  /** The triples of the cells (x, y'), y' >= y, of one column. */
  function ColumnCombinations<T>(g: seq<seq<T>>, x: int, y: nat): seq<(T, Direction, T)>
    requires IsRect(g) && 0 <= x < |g| && y <= Height(g)
    decreases Height(g) - y
  {
    if y == Height(g) then [] else ConnectedTiles(x, y, g) + ColumnCombinations(g, x, y + 1)
  }

  /** `P` holds of the triple of every cell (x, y'), y' >= y, and every in-bounds neighbour. */
  ghost predicate ColumnAll<T>(g: seq<seq<T>>, x: int, y: nat, P: ((T, Direction, T)) -> bool)
    requires IsRect(g) && 0 <= x < |g|
  {
    forall y', d :: y <= y' < Height(g) && HasNeighbour(g, x, y', d) ==> P(NeighbourTriple(g, x, y', d))
  }

  lemma {:induction false} ColumnCombinationsAll<T>(g: seq<seq<T>>, x: int, y: nat, P: ((T, Direction, T)) -> bool)
    requires IsRect(g) && 0 <= x < |g| && y <= Height(g)
    ensures All(ColumnCombinations(g, x, y), P) <==> ColumnAll(g, x, y, P)
    decreases Height(g) - y
  {
    if y < Height(g) {
      var here, rest := ConnectedTiles(x, y, g), ColumnCombinations(g, x, y + 1);
      assert ColumnCombinations(g, x, y) == here + rest;
      AllConcat(here, rest, P);
      ConnectedTilesAll(x, y, g, P);
      ColumnCombinationsAll(g, x, y + 1, P);
      if ColumnAll(g, x, y, P) {
        forall d | HasNeighbour(g, x, y, d) ensures P(NeighbourTriple(g, x, y, d)) {}
        forall y', d | y + 1 <= y' < Height(g) && HasNeighbour(g, x, y', d)
          ensures P(NeighbourTriple(g, x, y', d)) {}
      }
      if All(here, P) && ColumnAll(g, x, y + 1, P) {
        forall y', d | y <= y' < Height(g) && HasNeighbour(g, x, y', d)
          ensures P(NeighbourTriple(g, x, y', d))
        {
          if y' == y {}
        }
      }
    } else {
      assert ColumnCombinations(g, x, y) == [];
    }
  }

  /** The triples of every cell in the columns x' >= x. */
  function CombinationsFrom<T>(g: seq<seq<T>>, x: nat): seq<(T, Direction, T)>
    requires IsRect(g) && x <= |g|
    decreases |g| - x
  {
    if x == |g| then [] else ColumnCombinations(g, x, 0) + CombinationsFrom(g, x + 1)
  }

  /** `P` holds of the triple of every cell in the columns x' >= x and every in-bounds neighbour. */
  ghost predicate ColumnsAll<T>(g: seq<seq<T>>, x: nat, P: ((T, Direction, T)) -> bool)
    requires IsRect(g)
  {
    forall x' :: x <= x' < |g| ==> ColumnAll(g, x', 0, P)
  }

  lemma ColumnsAllSplit<T>(g: seq<seq<T>>, x: nat, P: ((T, Direction, T)) -> bool)
    requires IsRect(g) && x < |g|
    ensures ColumnsAll(g, x, P) <==> ColumnAll(g, x, 0, P) && ColumnsAll(g, x + 1, P)
  {
    if ColumnAll(g, x, 0, P) && ColumnsAll(g, x + 1, P) {
      forall x' | x <= x' < |g| ensures ColumnAll(g, x', 0, P) {
        if x' > x { assert x + 1 <= x'; }
      }
    }
  }

  lemma CombinationsFromStep<T>(g: seq<seq<T>>, x: nat, P: ((T, Direction, T)) -> bool)
    requires IsRect(g) && x < |g|
    ensures All(CombinationsFrom(g, x), P) <==>
      All(ColumnCombinations(g, x, 0), P) && All(CombinationsFrom(g, x + 1), P)
  {
    AllConcat(ColumnCombinations(g, x, 0), CombinationsFrom(g, x + 1), P);
  }

  lemma {:induction false} CombinationsFromAll<T>(g: seq<seq<T>>, x: nat, P: ((T, Direction, T)) -> bool)
    requires IsRect(g) && x <= |g|
    ensures All(CombinationsFrom(g, x), P) <==> ColumnsAll(g, x, P)
    decreases |g| - x
  {
    if x < |g| {
      CombinationsFromStep(g, x, P);
      ColumnCombinationsAll(g, x, 0, P);
      CombinationsFromAll(g, x + 1, P);
      ColumnsAllSplit(g, x, P);
    } else {
      assert CombinationsFrom(g, x) == [];
    }
  }

  /** `tile_combinations(map_grid)`: `connected_tiles` of every cell, x-outer and y-inner. */
  function TileCombinations<T>(g: seq<seq<T>>): seq<(T, Direction, T)>
    requires |g| > 0 && IsRect(g)
  {
    CombinationsFrom(g, 0)
  }

  /**
   * For any property `P` of triples, all of `tile_combinations` satisfy `P`
   * exactly when every (cell, direction, in-bounds neighbour) triple does.
   */
  lemma TileCombinationsAll<T>(g: seq<seq<T>>, P: ((T, Direction, T)) -> bool)
    requires |g| > 0 && IsRect(g)
    ensures All(TileCombinations(g), P) <==>
      forall x, y, d :: InBounds(g, x, y) && HasNeighbour(g, x, y, d) ==> P(NeighbourTriple(g, x, y, d))
  {
    CombinationsFromAll(g, 0, P);
    if ColumnsAll(g, 0, P) {
      forall x, y, d | InBounds(g, x, y) && HasNeighbour(g, x, y, d) ensures P(NeighbourTriple(g, x, y, d)) {
        assert ColumnAll(g, x, 0, P);
      }
    }
  }

  /**
   * In a grid whose cells hold their own coordinates, every triple of
   * `connected_tiles(x, y, ...)` pairs (x, y) with the cell one offset away
   * in the triple's direction.
   */
  lemma ConnectedTilesOffsets(g: seq<seq<(int, int)>>, x: int, y: int)
    requires IsRect(g) && InBounds(g, x, y)
    requires forall a, b :: InBounds(g, a, b) ==> g[a][b] == (a, b)
    ensures forall t :: t in ConnectedTiles(x, y, g) ==> t.0 == (x, y) && t.2 == (x + Dx(t.1), y + Dy(t.1))
  {
    var P := (t: ((int, int), Direction, (int, int))) => t.0 == (x, y) && t.2 == (x + Dx(t.1), y + Dy(t.1));
    forall d | HasNeighbour(g, x, y, d) ensures P(NeighbourTriple(g, x, y, d)) {
      assert InBounds(g, x + Dx(d), y + Dy(d));
    }
    ConnectedTilesAll(x, y, g, P);
    var r := ConnectedTiles(x, y, g);
    forall t | t in r ensures P(t) {
      var k :| 0 <= k < |r| && r[k] == t;
      assert P(r[k]);
    }
  }

  /** The edge cell (0, 1) of a 3x3 grid has five neighbours: N, NE, E, SE and S. */
  lemma ConnectedTilesEdgeExample<T>(g: seq<seq<T>>)
    requires IsRect(g) && |g| == 3 && Height(g) == 3
    ensures |ConnectedTiles(0, 1, g)| == 5
  {
    var ds := AllDirections;
    assert NeighboursIn(0, 1, g, ds[8..]) == [];
    NeighboursInStep(0, 1, g, ds, 7);
    NeighboursInStep(0, 1, g, ds, 6);
    NeighboursInStep(0, 1, g, ds, 5);
    NeighboursInStep(0, 1, g, ds, 4);
    NeighboursInStep(0, 1, g, ds, 3);
    NeighboursInStep(0, 1, g, ds, 2);
    NeighboursInStep(0, 1, g, ds, 1);
    NeighboursInStep(0, 1, g, ds, 0);
    assert ds[0..] == ds;
  }

  /** One step of `NeighboursIn` over a suffix of a direction list. */
  lemma NeighboursInStep<T>(x: int, y: int, g: seq<seq<T>>, ds: seq<Direction>, i: nat)
    requires IsRect(g) && InBounds(g, x, y) && i < |ds|
    ensures |NeighboursIn(x, y, g, ds[i..])| ==
      (if HasNeighbour(g, x, y, ds[i]) then 1 else 0) + |NeighboursIn(x, y, g, ds[i + 1..])|
  {
    assert ds[i..][1..] == ds[i + 1..];
  }

  /** `flip(matrix)`: the transpose, `len(matrix[0])` lines of `len(matrix)` entries. */
  function Flip<T>(m: seq<seq<T>>): (r: seq<seq<T>>)
    requires |m| > 0 && forall y :: 0 <= y < |m| ==> |m[y]| >= |m[0]|
    ensures |r| == |m[0]| && forall x :: 0 <= x < |r| ==> |r[x]| == |m|
    ensures forall x, y :: 0 <= x < |r| && 0 <= y < |m| ==> r[x][y] == m[y][x]
  {
    seq(|m[0]|, x requires 0 <= x < |m[0]| => seq(|m|, y requires 0 <= y < |m| => m[y][x]))
  }

  /** On a non-empty rectangular grid, flipping twice gives the grid back. */
  lemma FlipInvolution<T>(m: seq<seq<T>>)
    requires |m| > 0 && Height(m) > 0 && IsRect(m)
    ensures Flip(Flip(m)) == m
  {
    var f := Flip(m);
    var ff := Flip(f);
    assert |ff| == |m|;
    forall y | 0 <= y < |m| ensures ff[y] == m[y] {
      assert |ff[y]| == |m[y]|;
    }
  }

  /** The lines of a grid written one after another. */
  function Flatten<T>(m: seq<seq<T>>): seq<T>
  {
    if |m| == 0 then [] else m[0] + Flatten(m[1..])
  }

  /** In a grid of lines of length n, entry j of line i lands at i * n + j. */
  lemma {:induction false} FlattenAt<T>(m: seq<seq<T>>, n: nat, i: nat, j: nat)
    requires forall k :: 0 <= k < |m| ==> |m[k]| == n
    requires i < |m| && j < n
    ensures |Flatten(m)| == |m| * n
    ensures i * n + j < |Flatten(m)| && Flatten(m)[i * n + j] == m[i][j]
  {
    FlattenLength(m, n);
    if i > 0 {
      FlattenAt(m[1..], n, i - 1, j);
      assert (i - 1) * n + j + n == i * n + j by {
        assert (i - 1) * n == i * n - n;
      }
    }
  }

  lemma {:induction false} FlattenLength<T>(m: seq<seq<T>>, n: nat)
    requires forall k :: 0 <= k < |m| ==> |m[k]| == n
    ensures |Flatten(m)| == |m| * n
  {
    if |m| > 0 {
      FlattenLength(m[1..], n);
      assert (|m| - 1) * n + n == |m| * n by {
        assert (|m| - 1) * n == |m| * n - n;
      }
    }
  }
}
