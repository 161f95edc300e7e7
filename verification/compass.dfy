/**
 * The eight compass directions of the tile generator, their integer offsets
 * and their opposites.  A grid is indexed [x][y] with y growing southwards,
 * so NORTH is (0, -1).
 */
module Compass {
  import opened Options

  datatype Direction = North | NorthEast | East | SouthEast | South | SouthWest | West | NorthWest

  /** The number of directions, `len(Compass)`. */
  const Count: nat := 8

  /** The enum value of a direction, 0 for North through 7 for NorthWest. */
  function Value(d: Direction): (v: nat)
    ensures v < Count
  {
    match d
    case North => 0
    case NorthEast => 1
    case East => 2
    case SouthEast => 3
    case South => 4
    case SouthWest => 5
    case West => 6
    case NorthWest => 7
  }

  /** The direction with a given enum value, `list(Compass)[v]`. */
  function FromValue(v: nat): (d: Direction)
    requires v < Count
    ensures Value(d) == v
  {
    AllDirections[v]
  }

  /** The directions in declaration order, as `for compass in Compass` visits them. */
  const AllDirections: seq<Direction> :=
    [North, NorthEast, East, SouthEast, South, SouthWest, West, NorthWest]

  lemma AllDirectionsInOrder()
    ensures |AllDirections| == Count
    ensures forall i :: 0 <= i < Count ==> Value(AllDirections[i]) == i
    ensures forall d :: d in AllDirections
  {
    forall d ensures d in AllDirections {
      assert AllDirections[Value(d)] == d;
    }
  }

  /** Distinct directions have distinct values, so a value identifies its direction. */
  lemma ValueIdentifies(d: Direction)
    ensures FromValue(Value(d)) == d
  {
  }

  /** The offset table of `Compass.coords`: a step to one of the eight cells around the origin. */
  function Offset(d: Direction): (o: (int, int))
    ensures -1 <= o.0 <= 1 && -1 <= o.1 <= 1 && o != (0, 0)
  {
    [(0, -1), (1, -1), (1, 0), (1, 1), (0, 1), (-1, 1), (-1, 0), (-1, -1)][Value(d)]
  }

  function Dx(d: Direction): int { Offset(d).0 }

  function Dy(d: Direction): int { Offset(d).1 }

  /**
   * `reversed(compass)`: the direction half-way round the compass, whose
   * offset cancels the offset of `d`.
   */
  function Reversed(d: Direction): (r: Direction)
    ensures Dx(d) + Dx(r) == 0 && Dy(d) + Dy(r) == 0
  {
    FromValue((Value(d) + Count / 2) % Count)
  }

  lemma ReversedInvolutive(d: Direction)
    ensures Reversed(Reversed(d)) == d
  {
  }

  lemma ReversedWestIsEast()
    ensures Reversed(West) == East
  {
  }

  /** The 3x3 layout `COMPASS_MAP`, rows from north to south; the centre is no direction. */
  const CompassMap: seq<seq<Option<Direction>>> := [
    [Some(NorthWest), Some(North), Some(NorthEast)],
    [Some(West), None, Some(East)],
    [Some(SouthWest), Some(South), Some(SouthEast)]
  ]
}
