/**
 * The 3 x 1 generation example: two tiles, each of which accepts only the
 * other towards east, generated with the default chooser.  The result
 * alternates the two tiles, ids 1, 2, 1.
 */
module GeneratorExample {
  import opened Options
  import opened Compass
  import opened Matchers
  import opened Tiles
  import opened Grids
  import opened Connections
  import opened Generator

  /** `tile_1` and `tile_2` of the example. */
  const ExampleTiles: seq<Tile> := [TileFrom(1, [(East, OneOf([2]))], true), TileFrom(2, [(East, OneOf([1]))], true)]

  /** `generate_map(3, 1, [tile_1, tile_2])`. */
  ghost function ExampleMap(): (g: Grid)
    ensures |g| == 3 && |g[0]| == 1 && |g[1]| == 1 && |g[2]| == 1
  {
    FirstCandidatePicksMember();
    var g := Generated(3, 1, ExampleTiles, FirstCandidate, None, TileEmpty);
    GeneratedShape(3, 1, ExampleTiles, FirstCandidate, None, TileEmpty, g);
    g
  }

  /** The slots of the example tiles: only east is restricted. */
  lemma ExampleSlots(d: Direction, id: int)
    ensures Accepts(Slot(ExampleTiles[0], d), id) <==> d != East || id == 2
    ensures Accepts(Slot(ExampleTiles[1], d), id) <==> d != East || id == 1
  {
  }

  /** The 3 x 1 grid of the example generates tile ids 1, 2, 1 from west to east. */
  lemma GeneratedExample()
    ensures ExampleMap()[0][0] == Some(ExampleTiles[0])
    ensures ExampleMap()[1][0] == Some(ExampleTiles[1])
    ensures ExampleMap()[2][0] == Some(ExampleTiles[0])
  {
    ExampleFirstCell();
    ExampleSecondCell();
    ExampleThirdCell();
  }

  lemma ExampleFirstCell()
    ensures ExampleMap()[0][0] == Some(ExampleTiles[0])
  {
    FirstCandidatePicksMember();
    var g := ExampleMap();
    var g0 := Prefill(3, 1, None, TileEmpty);
    GeneratedCell(3, 1, ExampleTiles, FirstCandidate, None, TileEmpty, g, 0, 0);
    var s := Seen(g, g0, 0, 0);
    assert s[1][0] == None && s[2][0] == None;
    FitsFirstCell(s);
    FirstCandidateIsFirstFit(ExampleTiles, 0, 0, s, 0);
  }

  lemma ExampleSecondCell()
    ensures ExampleMap()[1][0] == Some(ExampleTiles[1])
  {
    FirstCandidatePicksMember();
    var g := ExampleMap();
    var g0 := Prefill(3, 1, None, TileEmpty);
    var s := Seen(g, g0, 1, 0);
    assert s[0][0] == Some(ExampleTiles[0]) && s[2][0] == None by {
      ExampleFirstCell();
    }
    SecondCellCandidates(s);
    GeneratedCell(3, 1, ExampleTiles, FirstCandidate, None, TileEmpty, g, 1, 0);
  }

  lemma ExampleThirdCell()
    ensures ExampleMap()[2][0] == Some(ExampleTiles[0])
  {
    FirstCandidatePicksMember();
    ExampleSecondCell();
    var g := ExampleMap();
    var g0 := Prefill(3, 1, None, TileEmpty);
    GeneratedCell(3, 1, ExampleTiles, FirstCandidate, None, TileEmpty, g, 2, 0);
    var s := Seen(g, g0, 2, 0);
    assert s[1][0] == Some(ExampleTiles[1]);
    FitsThirdCell(s);
    FirstCandidateIsFirstFit(ExampleTiles, 2, 0, s, 0);
  }

  /** On an empty 3 x 1 row, `tile_1` fits the west end. */
  lemma FitsFirstCell(s: Grid)
    requires IsRect(s) && |s| == 3 && Height(s) == 1 && s[1][0] == None && s[2][0] == None
    ensures Fits(ExampleTiles[0], 0, 0, s)
  {
    forall d ensures AcceptsNeighbour(ExampleTiles[0], 0, 0, s, d) {
      if HasNeighbour(s, 0, 0, d) {
        assert s[Dx(d)][Dy(d)] == None;
      }
    }
  }

  /** East of `tile_1`, `tile_1` does not fit and `tile_2` does. */
  lemma FitsSecondCell(s: Grid)
    requires IsRect(s) && |s| == 3 && Height(s) == 1 && s[0][0] == Some(ExampleTiles[0]) && s[2][0] == None
    ensures !Fits(ExampleTiles[0], 1, 0, s) && Fits(ExampleTiles[1], 1, 0, s)
  {
    ExampleSlots(East, 1);
    assert !AcceptsNeighbour(ExampleTiles[0], 1, 0, s, West);
    forall d ensures AcceptsNeighbour(ExampleTiles[1], 1, 0, s, d) {
      ExampleSlots(d, 1);
      ExampleSlots(Reversed(d), 2);
    }
  }

  lemma SecondCellCandidates(s: Grid)
    requires IsRect(s) && |s| == 3 && Height(s) == 1 && s[0][0] == Some(ExampleTiles[0]) && s[2][0] == None
    ensures Candidates(ExampleTiles, 1, 0, s) != [] && Candidates(ExampleTiles, 1, 0, s)[0] == ExampleTiles[1]
  {
    FitsSecondCell(s);
    FirstCandidateIsFirstFit(ExampleTiles, 1, 0, s, 1);
  }

  /** East of `tile_2`, `tile_1` fits. */
  lemma FitsThirdCell(s: Grid)
    requires IsRect(s) && |s| == 3 && Height(s) == 1 && s[1][0] == Some(ExampleTiles[1])
    ensures Fits(ExampleTiles[0], 2, 0, s)
  {
    forall d ensures AcceptsNeighbour(ExampleTiles[0], 2, 0, s, d) {
      ExampleSlots(d, 2);
      ExampleSlots(Reversed(d), 1);
    }
  }
}
