/**
 * `generate_map`: the greedy, non-backtracking fill of a width x height grid.
 * Cleared cells are pre-filled; then the cells are visited column by column
 * (x outer, y inner) and every empty one receives the chooser's pick among
 * the tileset tiles that fit there at that moment, or `TILE_FAIL` if none do.
 *
 * The scan is specified by `Scan`, the grid just before a given cell is
 * visited; `GenerateMap` is the source's nested loop proved to end in
 * `Generated`, and the lemmas below state what each cell of the result holds
 * and why the result is consistent.
 */
module Generator {
  import opened Options
  import opened Compass
  import opened Tiles
  import opened Grids
  import opened Connections

  /** `possible_tiles`: the tiles of `tileset` that fit at (x, y) in `g`, in tileset order. */
  ghost function Candidates(tileset: seq<Tile>, x: int, y: int, g: Grid): seq<Tile>
    requires IsRect(g) && InBounds(g, x, y)
  {
    if tileset == [] then []
    else
      var last := tileset[|tileset| - 1];
      Candidates(tileset[..|tileset| - 1], x, y, g) + (if Fits(last, x, y, g) then [last] else [])
  }

  /** A tile is a candidate exactly when it belongs to the tileset and fits. */
  lemma {:induction false} CandidatesMembers(tileset: seq<Tile>, x: int, y: int, g: Grid)
    requires IsRect(g) && InBounds(g, x, y)
    ensures forall t :: t in Candidates(tileset, x, y, g) <==> t in tileset && Fits(t, x, y, g)
  {
    if tileset != [] {
      var front := tileset[..|tileset| - 1];
      CandidatesMembers(front, x, y, g);
      assert tileset == front + [tileset[|tileset| - 1]];
    }
  }

  /** Filtering a concatenation filters each part. */
  lemma {:induction false} CandidatesAppend(a: seq<Tile>, b: seq<Tile>, x: int, y: int, g: Grid)
    requires IsRect(g) && InBounds(g, x, y)
    ensures Candidates(a + b, x, y, g) == Candidates(a, x, y, g) + Candidates(b, x, y, g)
  {
    if b != [] {
      var front := b[..|b| - 1];
      CandidatesAppend(a, front, x, y, g);
      assert (a + b)[..|a + b| - 1] == a + front;
      assert (a + b)[|a + b| - 1] == b[|b| - 1];
    } else {
      assert a + b == a;
    }
  }

  /**
   * The head of the candidate list, which the default chooser picks, is the
   * first tile of the tileset that fits.
   */
  lemma FirstCandidateIsFirstFit(tileset: seq<Tile>, x: int, y: int, g: Grid, i: nat)
    requires IsRect(g) && InBounds(g, x, y)
    requires i < |tileset| && Fits(tileset[i], x, y, g)
    requires forall j :: 0 <= j < i ==> !Fits(tileset[j], x, y, g)
    ensures Candidates(tileset, x, y, g) != [] && Candidates(tileset, x, y, g)[0] == tileset[i]
  {
    var front, rest := tileset[..i], tileset[i..];
    assert tileset == front + rest;
    CandidatesAppend(front, rest, x, y, g);
    NoFitNoCandidate(front, x, y, g);
    CandidatesStartWithFit(rest, x, y, g);
  }

  /** A tileset none of whose tiles fit has no candidates. */
  lemma NoFitNoCandidate(tileset: seq<Tile>, x: int, y: int, g: Grid)
    requires IsRect(g) && InBounds(g, x, y)
    requires forall j :: 0 <= j < |tileset| ==> !Fits(tileset[j], x, y, g)
    ensures Candidates(tileset, x, y, g) == []
  {
    CandidatesMembers(tileset, x, y, g);
    if Candidates(tileset, x, y, g) != [] {
      assert Candidates(tileset, x, y, g)[0] in Candidates(tileset, x, y, g);
    }
  }

  /** A tileset whose first tile fits has that tile as its first candidate. */
  lemma CandidatesStartWithFit(tileset: seq<Tile>, x: int, y: int, g: Grid)
    requires IsRect(g) && InBounds(g, x, y)
    requires tileset != [] && Fits(tileset[0], x, y, g)
    ensures Candidates(tileset, x, y, g) != [] && Candidates(tileset, x, y, g)[0] == tileset[0]
  {
    assert tileset == [tileset[0]] + tileset[1..];
    CandidatesAppend([tileset[0]], tileset[1..], x, y, g);
    assert [tileset[0]][..0] == [];
  }

  /**
   * The list comprehension that collects `possible_tiles`, calling
   * `can_be_connected` on each tile of the tileset in turn.
   */
  method PossibleTiles(tileset: seq<Tile>, x: int, y: int, g: Grid) returns (possible: seq<Tile>)
    requires IsRect(g) && InBounds(g, x, y)
    ensures possible == Candidates(tileset, x, y, g)
  {
    possible := [];
    for i := 0 to |tileset|
      invariant possible == Candidates(tileset[..i], x, y, g)
    {
      var fits := CanBeConnected(tileset[i], x, y, g);
      assert tileset[..i + 1][..i] == tileset[..i];
      if fits {
        possible := possible + [tileset[i]];
      }
    }
    assert tileset[..|tileset|] == tileset;
  }

  /**
   * `tile_chooser`, given the position of the cell it is called for as well
   * as the candidate list.  `generate_map` calls it at most once per cell, in
   * scan order, so a chooser with hidden state, such as `random.choice`, makes
   * in any one run the same picks as some function of position and candidates.
   */
  type Choice = (int, int, seq<Tile>) --> Tile

  /** The chooser can be applied to every non-empty candidate list. */
  ghost predicate Chooser(choose: Choice)
  {
    forall x: int, y: int, p: seq<Tile> :: |p| > 0 ==> choose.requires(x, y, p)
  }

  /** The chooser picks a member of every non-empty candidate list. */
  ghost predicate PicksMember(choose: Choice)
  {
    Chooser(choose) && forall x: int, y: int, p: seq<Tile> :: |p| > 0 ==> choose(x, y, p) in p
  }

  /** The default chooser `lambda p: p[0]`, which ignores the position. */
  function FirstCandidate(x: int, y: int, p: seq<Tile>): (t: Tile)
    requires |p| > 0
    ensures t in p
  {
    p[0]
  }

  lemma FirstCandidatePicksMember()
    ensures Chooser(FirstCandidate) && PicksMember(FirstCandidate)
  {
    forall x: int, y: int, p: seq<Tile> | |p| > 0
      ensures FirstCandidate.requires(x, y, p) && FirstCandidate(x, y, p) in p
    {
      assert FirstCandidate(x, y, p) == p[0];
    }
  }

  /** What an empty cell (x, y) receives when visited in grid `g`. */
  ghost function Place(tileset: seq<Tile>, choose: Choice, x: int, y: int, g: Grid): Cell
    requires Chooser(choose) && IsRect(g) && InBounds(g, x, y)
  {
    var possible := Candidates(tileset, x, y, g);
    if |possible| == 0 then Some(TileFail) else Some(choose(x, y, possible))
  }

  /** One visit of the scan: an empty cell is filled, a filled one is left alone. */
  ghost function Visit(tileset: seq<Tile>, choose: Choice, g: Grid, x: int, y: int): Grid
    requires Chooser(choose) && IsRect(g) && InBounds(g, x, y)
  {
    if g[x][y].Some? then g else g[x := g[x][y := Place(tileset, choose, x, y, g)]]
  }

  /** A visit changes no cell but the visited one. */
  lemma VisitTouchesOneCell(tileset: seq<Tile>, choose: Choice, g: Grid, x: int, y: int, a: int, b: int)
    requires Chooser(choose) && IsRect(g) && InBounds(g, x, y) && InBounds(g, a, b) && (a, b) != (x, y)
    ensures Visit(tileset, choose, g, x, y)[a][b] == g[a][b]
  {
  }

  /** Two grids with the same columns of the same lengths. */
  predicate SameShape(g: Grid, h: Grid)
  {
    |g| == |h| && forall x :: 0 <= x < |g| ==> |g[x]| == |h[x]|
  }

  /** (a, b) comes before (x, y) in the scan order: x outer, y inner. */
  predicate ScanBefore(a: int, b: int, x: int, y: int)
  {
    a < x || (a == x && b < y)
  }

  /** A point of the scan: before some cell (x, y), or (width, 0) once it is over. */
  ghost predicate Position(g0: Grid, x: nat, y: nat)
  {
    IsRect(g0) && ((x < |g0| && y <= Height(g0)) || (x == |g0| && y == 0))
  }

  /** The grid just before the scan that started from `g0` visits (x, y). */
  ghost function Scan(tileset: seq<Tile>, choose: Choice, g0: Grid, x: nat, y: nat): (g: Grid)
    requires Chooser(choose) && Position(g0, x, y)
    ensures SameShape(g, g0) && IsRect(g) && Height(g) == Height(g0)
    decreases x, y
  {
    if y > 0 then Visit(tileset, choose, Scan(tileset, choose, g0, x, y - 1), x, y - 1)
    else if x > 0 then Scan(tileset, choose, g0, x - 1, Height(g0))
    else g0
  }

  /** Cells the scan has not reached yet still hold their initial content. */
  lemma {:induction false} ScanFrame(tileset: seq<Tile>, choose: Choice, g0: Grid, x: nat, y: nat, a: int, b: int)
    requires Chooser(choose) && Position(g0, x, y) && InBounds(g0, a, b) && !ScanBefore(a, b, x, y)
    ensures Scan(tileset, choose, g0, x, y)[a][b] == g0[a][b]
    decreases x, y
  {
    if y > 0 {
      ScanFrame(tileset, choose, g0, x, y - 1, a, b);
    } else if x > 0 {
      ScanFrame(tileset, choose, g0, x - 1, Height(g0), a, b);
    }
  }

  /** A visited cell keeps what its visit wrote for the rest of the scan. */
  lemma {:induction false} ScanKeeps(tileset: seq<Tile>, choose: Choice, g0: Grid, x: nat, y: nat, a: nat, b: nat)
    requires Chooser(choose) && Position(g0, x, y) && InBounds(g0, a, b) && ScanBefore(a, b, x, y)
    ensures Scan(tileset, choose, g0, x, y)[a][b] == Scan(tileset, choose, g0, a, b + 1)[a][b]
    decreases x, y
  {
    if y > 0 {
      if !(a == x && b == y - 1) {
        var prev := Scan(tileset, choose, g0, x, y - 1);
        assert Scan(tileset, choose, g0, x, y) == Visit(tileset, choose, prev, x, y - 1);
        ScanKeeps(tileset, choose, g0, x, y - 1, a, b);
        VisitTouchesOneCell(tileset, choose, prev, x, y - 1, a, b);
      }
    } else {
      assert Scan(tileset, choose, g0, x, y) == Scan(tileset, choose, g0, x - 1, Height(g0));
      ScanKeeps(tileset, choose, g0, x - 1, Height(g0), a, b);
    }
  }

  /** The visit of (a, b) leaves a filled cell alone and fills an empty one by `Place`. */
  lemma ScanVisits(tileset: seq<Tile>, choose: Choice, g0: Grid, a: nat, b: nat)
    requires Chooser(choose) && IsRect(g0) && InBounds(g0, a, b)
    ensures Scan(tileset, choose, g0, a, b + 1)[a][b] ==
      if g0[a][b].Some? then g0[a][b] else Place(tileset, choose, a, b, Scan(tileset, choose, g0, a, b))
  {
    ScanFrame(tileset, choose, g0, a, b, a, b);
  }

  /**
   * The `clearance_map` flag of (x, y).  An absent or empty map clears
   * nothing, as Python's truth test on the list does.
   */
  predicate Cleared(clearance: Option<seq<seq<bool>>>, x: int, y: int)
  {
    clearance.Some? && clearance.value != [] &&
    0 <= x < |clearance.value| && 0 <= y < |clearance.value[x]| && clearance.value[x][y]
  }

  /** A non-empty clearance map must have a flag for every cell, as the source indexes it. */
  predicate Covers(clearance: Option<seq<seq<bool>>>, width: nat, height: nat)
  {
    clearance.Some? && clearance.value != [] ==>
      |clearance.value| >= width && forall x :: 0 <= x < width ==> |clearance.value[x]| >= height
  }

  /** The grid after the pre-fill: `clearance_tile` where cleared, empty elsewhere. */
  function Prefill(width: nat, height: nat, clearance: Option<seq<seq<bool>>>, clearanceTile: Tile): (g: Grid)
    ensures |g| == width && forall x :: 0 <= x < width ==> |g[x]| == height
    ensures forall x, y :: 0 <= x < width && 0 <= y < height ==>
      g[x][y] == if Cleared(clearance, x, y) then Some(clearanceTile) else None
  {
    seq(width, x => seq(height, y => if Cleared(clearance, x, y) then Some(clearanceTile) else None))
  }

  /**
   * The first part of `generate_map`: an empty grid of `width` columns of
   * `height` cells, with `clearance_tile` written into every cleared cell.
   */
  method ClearedGrid(width: nat, height: nat, clearance: Option<seq<seq<bool>>>, clearanceTile: Tile)
    returns (g: Grid)
    requires Covers(clearance, width, height)
    ensures g == Prefill(width, height, clearance, clearanceTile)
  {
    g := seq(width, x => seq(height, y => None));
    if clearance.Some? && clearance.value != [] {
      var flags := clearance.value;
      for x := 0 to width
        invariant |g| == width && forall i :: 0 <= i < width ==> |g[i]| == height
        invariant forall i, j :: 0 <= i < width && 0 <= j < height ==>
          g[i][j] == if i < x && Cleared(clearance, i, j) then Some(clearanceTile) else None
      {
        for y := 0 to height
          invariant |g| == width && forall i :: 0 <= i < width ==> |g[i]| == height
          invariant forall i, j :: 0 <= i < width && 0 <= j < height ==>
            g[i][j] == if ScanBefore(i, j, x, y) && Cleared(clearance, i, j) then Some(clearanceTile) else None
        {
          if flags[x][y] {
            g := g[x := g[x][y := Some(clearanceTile)]];
          }
        }
      }
    }
    ghost var g0 := Prefill(width, height, clearance, clearanceTile);
    assert g == g0 by {
      forall i | 0 <= i < width ensures g[i] == g0[i] {
        assert |g[i]| == |g0[i]|;
      }
    }
  }

  /** The result of `generate_map`: the grid once the scan has passed every cell. */
  ghost function Generated(width: nat, height: nat, tileset: seq<Tile>, choose: Choice,
                           clearance: Option<seq<seq<bool>>>, clearanceTile: Tile): Grid
    requires Chooser(choose)
  {
    var g0 := Prefill(width, height, clearance, clearanceTile);
    Scan(tileset, choose, g0, width, 0)
  }

  /**
   * `generate_map(width, height, tileset, tile_chooser, clearance_map,
   * clearance_tile)`: the pre-fill loop, then the x-outer, y-inner loop
   * that fills every empty cell in place.
   */
  method GenerateMap(width: nat, height: nat, tileset: seq<Tile>, choose: Choice,
                     clearance: Option<seq<seq<bool>>>, clearanceTile: Tile) returns (g: Grid)
    requires Covers(clearance, width, height) && Chooser(choose)
    ensures g == Generated(width, height, tileset, choose, clearance, clearanceTile)
  {
    g := ClearedGrid(width, height, clearance, clearanceTile);
    ghost var g0 := g;
    for x := 0 to width
      invariant g == Scan(tileset, choose, g0, x, 0)
    {
      for y := 0 to height
        invariant g == Scan(tileset, choose, g0, x, y)
      {
        if g[x][y].None? {
          var possible := PossibleTiles(tileset, x, y, g);
          if |possible| == 0 {
            g := g[x := g[x][y := Some(TileFail)]];
          } else {
            g := g[x := g[x][y := Some(choose(x, y, possible))]];
          }
        }
      }
    }
  }

  /** Any point of the scan shows visited cells in their final state and the others as they started. */
  lemma ScanSnapshot(tileset: seq<Tile>, choose: Choice, g0: Grid, x: nat, y: nat, a: nat, b: nat)
    requires Chooser(choose) && Position(g0, x, y) && InBounds(g0, a, b)
    ensures Scan(tileset, choose, g0, x, y)[a][b] ==
      if ScanBefore(a, b, x, y) then Scan(tileset, choose, g0, |g0|, 0)[a][b] else g0[a][b]
  {
    if ScanBefore(a, b, x, y) {
      ScanKeeps(tileset, choose, g0, x, y, a, b);
      ScanKeeps(tileset, choose, g0, |g0|, 0, a, b);
    } else {
      ScanFrame(tileset, choose, g0, x, y, a, b);
    }
  }

  /**
   * The grid the visit of (a, b) sees, described without the scan: the cells
   * before (a, b) as they are in `final`, the others as in `g0`.
   */
  ghost function Seen(final: Grid, g0: Grid, a: int, b: int): (s: Grid)
    requires IsRect(g0) && SameShape(final, g0)
    ensures SameShape(s, g0) && IsRect(s) && Height(s) == Height(g0)
  {
    seq(|g0|, i requires 0 <= i < |g0| =>
      seq(|g0[i]|, j requires 0 <= j < |g0[i]| => if ScanBefore(i, j, a, b) then final[i][j] else g0[i][j]))
  }

  lemma ScanIsSeen(tileset: seq<Tile>, choose: Choice, g0: Grid, a: nat, b: nat)
    requires Chooser(choose) && Position(g0, a, b)
    ensures Scan(tileset, choose, g0, a, b) == Seen(Scan(tileset, choose, g0, |g0|, 0), g0, a, b)
  {
    var s, t := Scan(tileset, choose, g0, a, b), Seen(Scan(tileset, choose, g0, |g0|, 0), g0, a, b);
    forall i | 0 <= i < |g0| ensures s[i] == t[i] {
      forall j | 0 <= j < |g0[i]| ensures s[i][j] == t[i][j] {
        ScanSnapshot(tileset, choose, g0, a, b, i, j);
      }
    }
  }

  /** `generate_map` returns `width` columns of `height` cells, none of them empty. */
  lemma GeneratedShape(width: nat, height: nat, tileset: seq<Tile>, choose: Choice,
                       clearance: Option<seq<seq<bool>>>, clearanceTile: Tile, g: Grid)
    requires Chooser(choose) && g == Generated(width, height, tileset, choose, clearance, clearanceTile)
    ensures |g| == width && forall x :: 0 <= x < width ==> |g[x]| == height
    ensures IsRect(g) && Full(g)
  {
    var g0 := Prefill(width, height, clearance, clearanceTile);
    forall x, y | InBounds(g, x, y) ensures g[x][y].Some? {
      ScanKeeps(tileset, choose, g0, width, 0, x, y);
      ScanVisits(tileset, choose, g0, x, y);
    }
  }

  /**
   * What each cell of `generate_map`'s result holds: a cleared cell holds
   * `clearance_tile`; any other cell holds `TILE_FAIL` when no tile of the
   * tileset fits the grid its visit saw (`Seen`), and otherwise the chooser's
   * pick from the tiles that fit, listed in tileset order.
   */
  lemma GeneratedCell(width: nat, height: nat, tileset: seq<Tile>, choose: Choice,
                      clearance: Option<seq<seq<bool>>>, clearanceTile: Tile, g: Grid, x: nat, y: nat)
    requires Chooser(choose) && g == Generated(width, height, tileset, choose, clearance, clearanceTile)
    requires x < width && y < height
    ensures SameShape(g, Prefill(width, height, clearance, clearanceTile))
    ensures Cleared(clearance, x, y) ==> g[x][y] == Some(clearanceTile)
    ensures !Cleared(clearance, x, y) ==>
      var possible := Candidates(tileset, x, y, Seen(g, Prefill(width, height, clearance, clearanceTile), x, y));
      g[x][y] == if possible == [] then Some(TileFail) else Some(choose(x, y, possible))
  {
    var g0 := Prefill(width, height, clearance, clearanceTile);
    ScanKeeps(tileset, choose, g0, width, 0, x, y);
    ScanVisits(tileset, choose, g0, x, y);
    ScanIsSeen(tileset, choose, g0, x, y);
  }

  /** A cell that did not fail holds a tile that fits the grid its visit saw. */
  lemma PlacedTileFits(width: nat, height: nat, tileset: seq<Tile>, choose: Choice,
                       clearance: Option<seq<seq<bool>>>, clearanceTile: Tile, g: Grid, x: nat, y: nat)
    requires PicksMember(choose) && g == Generated(width, height, tileset, choose, clearance, clearanceTile)
    requires x < width && y < height && !Cleared(clearance, x, y) && g[x][y] != Some(TileFail)
    ensures g[x][y].Some? && g[x][y].value in tileset
    ensures Fits(g[x][y].value, x, y, Seen(g, Prefill(width, height, clearance, clearanceTile), x, y))
  {
    var s := Seen(g, Prefill(width, height, clearance, clearanceTile), x, y);
    GeneratedCell(width, height, tileset, choose, clearance, clearanceTile, g, x, y);
    CandidatesMembers(tileset, x, y, s);
    assert choose(x, y, Candidates(tileset, x, y, s)) in Candidates(tileset, x, y, s);
  }

  /** No cell outside the cleared area holds `TILE_FAIL`. */
  ghost predicate NoFailure(width: nat, height: nat, clearance: Option<seq<seq<bool>>>, g: Grid)
    requires |g| == width && forall x :: 0 <= x < width ==> |g[x]| == height
  {
    forall x, y :: 0 <= x < width && 0 <= y < height && !Cleared(clearance, x, y) ==> g[x][y] != Some(TileFail)
  }

  /** Every cell that started empty holds a tile that fit the grid its visit saw. */
  ghost predicate PlacedTilesFit(g: Grid, g0: Grid)
    requires IsRect(g0) && SameShape(g, g0)
  {
    forall x, y :: InBounds(g0, x, y) && g0[x][y].None? ==>
      g[x][y].Some? && Fits(g[x][y].value, x, y, Seen(g, g0, x, y))
  }

  /** Every cell that started filled still holds what it started with. */
  ghost predicate KeepsPrefilled(g: Grid, g0: Grid)
    requires SameShape(g, g0)
  {
    forall x, y :: 0 <= x < |g0| && 0 <= y < |g0[x]| && g0[x][y].Some? ==> g[x][y] == g0[x][y]
  }

  /**
   * A tile that fit the grid `s` at (x, y), placed there in `g`, connects
   * both ways with its neighbour towards `d` if `g` holds what `s` held there.
   */
  lemma FitsAgainstFinal(t: Tile, x: int, y: int, d: Direction, s: Grid, g: Grid)
    requires IsRect(s) && SameShape(g, s) && InBounds(s, x, y) && HasNeighbour(s, x, y, d)
    requires Fits(t, x, y, s) && g[x][y] == Some(t)
    requires s[x + Dx(d)][y + Dy(d)] == g[x + Dx(d)][y + Dy(d)]
    ensures ConnectsWith(t, d, g[x + Dx(d)][y + Dy(d)])
    ensures g[x + Dx(d)][y + Dy(d)].Some? ==> ConnectsWith(g[x + Dx(d)][y + Dy(d)].value, Reversed(d), g[x][y])
  {
    assert AcceptsNeighbour(t, x, y, s, d);
  }

  /**
   * Two neighbours, not both filled from the start, connect in the direction
   * from the first to the second: whichever of them was visited later was
   * checked in both directions against the other.
   */
  lemma PairConnects(g: Grid, g0: Grid, x: int, y: int, d: Direction)
    requires IsRect(g0) && SameShape(g, g0) && IsRect(g) && Full(g)
    requires PlacedTilesFit(g, g0) && KeepsPrefilled(g, g0)
    requires InBounds(g0, x, y) && HasNeighbour(g0, x, y, d)
    requires !(g0[x][y].Some? && g0[x + Dx(d)][y + Dy(d)].Some?)
    ensures ConnectsAt(g, x, y, d)
  {
    var x', y' := x + Dx(d), y + Dy(d);
    if g0[x][y].None? && (g0[x'][y'].Some? || ScanBefore(x', y', x, y)) {
      CheckedOnVisit(g, g0, x, y, d);
    } else {
      ReversedInvolutive(d);
      CheckedOnVisit(g, g0, x', y', Reversed(d));
    }
  }

  /**
   * The visit of an initially empty cell (x, y) checked it in both
   * directions against its neighbour towards `d`, if that neighbour was
   * filled from the start or visited earlier.
   */
  lemma CheckedOnVisit(g: Grid, g0: Grid, x: int, y: int, d: Direction)
    requires IsRect(g0) && SameShape(g, g0) && PlacedTilesFit(g, g0) && KeepsPrefilled(g, g0)
    requires InBounds(g0, x, y) && HasNeighbour(g0, x, y, d) && g0[x][y].None?
    requires g0[x + Dx(d)][y + Dy(d)].Some? || ScanBefore(x + Dx(d), y + Dy(d), x, y)
    ensures g[x][y].Some? && ConnectsWith(g[x][y].value, d, g[x + Dx(d)][y + Dy(d)])
    ensures g[x + Dx(d)][y + Dy(d)].Some? ==> ConnectsWith(g[x + Dx(d)][y + Dy(d)].value, Reversed(d), g[x][y])
  {
    FitsAgainstFinal(g[x][y].value, x, y, d, Seen(g, g0, x, y), g);
  }

  /** Every tile accepts each neighbour, except where both cells are cleared. */
  ghost predicate ConnectsUnlessBothCleared(g: Grid, clearance: Option<seq<seq<bool>>>)
    requires IsRect(g) && Full(g)
  {
    forall x, y, d :: InBounds(g, x, y) && !(Cleared(clearance, x, y) && Cleared(clearance, x + Dx(d), y + Dy(d))) ==>
      ConnectsAt(g, x, y, d)
  }

  /**
   * Every tile of a generated grid accepts each neighbour that is not, like
   * itself, a cleared cell, provided the chooser picks among the candidates
   * and no cell failed.
   */
  lemma GeneratedConnects(width: nat, height: nat, tileset: seq<Tile>, choose: Choice,
                          clearance: Option<seq<seq<bool>>>, clearanceTile: Tile, g: Grid)
    requires PicksMember(choose) && g == Generated(width, height, tileset, choose, clearance, clearanceTile)
    ensures |g| == width && forall i :: 0 <= i < width ==> |g[i]| == height
    ensures IsRect(g) && Full(g)
    ensures NoFailure(width, height, clearance, g) ==> ConnectsUnlessBothCleared(g, clearance)
  {
    GeneratedShape(width, height, tileset, choose, clearance, clearanceTile, g);
    var g0: Grid := Prefill(width, height, clearance, clearanceTile);
    if NoFailure(width, height, clearance, g) {
      forall x: int, y: int | InBounds(g0, x, y) && g0[x][y].None?
        ensures g[x][y].Some? && Fits(g[x][y].value, x, y, Seen(g, g0, x, y))
      {
        PlacedTileFits(width, height, tileset, choose, clearance, clearanceTile, g, x, y);
      }
      forall x: int, y: int | 0 <= x < |g0| && 0 <= y < |g0[x]| && g0[x][y].Some? ensures g[x][y] == g0[x][y] {
        GeneratedCell(width, height, tileset, choose, clearance, clearanceTile, g, x, y);
      }
      forall x, y, d | InBounds(g, x, y) && !(Cleared(clearance, x, y) && Cleared(clearance, x + Dx(d), y + Dy(d)))
        ensures ConnectsAt(g, x, y, d)
      {
        if HasNeighbour(g, x, y, d) {
          PairConnects(g, g0, x, y, d);
        }
      }
    }
  }

  /**
   * Without a clearance map, with a chooser that picks among the candidates,
   * a generated grid in which no cell failed passes `is_map_valid`.
   */
  lemma GeneratedIsValid(width: nat, height: nat, tileset: seq<Tile>, choose: Choice, g: Grid)
    requires PicksMember(choose) && g == Generated(width, height, tileset, choose, None, TileEmpty)
    ensures |g| == width && forall i :: 0 <= i < width ==> |g[i]| == height
    ensures IsRect(g) && Full(g)
    ensures (forall x, y :: InBounds(g, x, y) ==> g[x][y] != Some(TileFail)) ==> ValidMap(g)
  {
    GeneratedConnects(width, height, tileset, choose, None, TileEmpty, g);
    if forall x, y :: InBounds(g, x, y) ==> g[x][y] != Some(TileFail) {
      assert NoFailure(width, height, None, g);
      WithoutClearanceAllConnect(g);
    }
  }

  lemma WithoutClearanceAllConnect(g: Grid)
    requires IsRect(g) && Full(g) && ConnectsUnlessBothCleared(g, None)
    ensures ValidMap(g)
  {
    forall x, y, d | InBounds(g, x, y) ensures ConnectsAt(g, x, y, d) {
      assert !Cleared(None, x, y) && !Cleared(None, x + Dx(d), y + Dy(d));
    }
  }
}
