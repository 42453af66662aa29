/** Coordinates and compass directions of the maze grid. */
module Geometry {
  import opened Options

  /** A cell position (row, column): row 0 is the northern edge, column 0 the western one. */
  type Coord = (int, int)

  /** The four sides of a cell. */
  datatype Direction = North | South | East | West {

    /** The position of this side in a cell's wall and border lists
        (NORTH = 0, SOUTH = 1, EAST = 2, WEST = 3). */
    function Index(): (k: nat)
      ensures k < 4
    {
      match this
      case North => 0
      case South => 1
      case East => 2
      case West => 3
    }

    /** The side facing this one across a shared wall. */
    function Opposite(): (o: Direction)
      ensures o != this
    {
      match this
      case North => South
      case South => North
      case East => West
      case West => East
    }
  }

  /** Distinct sides have distinct list positions, and Opposite is an involution. */
  lemma DirectionFacts(d: Direction, e: Direction)
    ensures d.Index() == e.Index() ==> d == e
    ensures d.Opposite().Opposite() == d
  {
  }

  /** The cell one step away in direction d. */
  function Neighbour(p: Coord, d: Direction): Coord
  {
    match d
    case North => (p.0 - 1, p.1)
    case South => (p.0 + 1, p.1)
    case East => (p.0, p.1 + 1)
    case West => (p.0, p.1 - 1)
  }

  /** Two cells share a wall: they differ by one in exactly one coordinate. */
  predicate Adjacent(a: Coord, b: Coord)
  {
    (a.0 == b.0 && (a.1 - b.1 == 1 || b.1 - a.1 == 1)) ||
    (a.1 == b.1 && (a.0 - b.0 == 1 || b.0 - a.0 == 1))
  }

  predicate InBounds(length: int, width: int, p: Coord)
  {
    0 <= p.0 < length && 0 <= p.1 < width
  }

  /** The side of `from` that faces `to`, computed from the coordinate delta;
      None when the two cells are not adjacent (the source then falls off the
      end of its if-chain). */
  function RelativeDirection(from: Coord, to: Coord): (r: Option<Direction>)
    ensures r.Some? <==> Adjacent(from, to)
    ensures forall d: Direction :: r == Some(d) <==> Neighbour(from, d) == to
  {
    var delta := (to.0 - from.0, to.1 - from.1);
    if delta == (-1, 0) then Some(North)
    else if delta == (1, 0) then Some(South)
    else if delta == (0, 1) then Some(East)
    else if delta == (0, -1) then Some(West)
    else None
  }

  /** Seen from the other cell, the shared wall is on the opposite side. */
  lemma RelativeDirectionReverses(a: Coord, b: Coord)
    requires Adjacent(a, b)
    ensures RelativeDirection(b, a) == Some(RelativeDirection(a, b).value.Opposite())
    ensures Neighbour(a, RelativeDirection(a, b).value) == b
  {
  }

  /** The border flag the grid construction gives side d of cell p: WEST in
      column 0, otherwise EAST in the last column; NORTH in row 0, otherwise
      SOUTH in the last row. */
  function BorderFlag(length: int, width: int, p: Coord, d: Direction): bool
  {
    match d
    case West => p.1 == 0
    case East => p.1 != 0 && p.1 == width - 1
    case North => p.0 == 0
    case South => p.0 != 0 && p.0 == length - 1
  }

  /** A border flag always lies on the outer edge of the grid, and every side on
      the outer edge carries one, except the EAST side of a one-column grid and
      the SOUTH side of a one-row grid. */
  lemma BorderFlagMarksOuterEdge(length: int, width: int, p: Coord, d: Direction)
    requires InBounds(length, width, p)
    ensures BorderFlag(length, width, p, d) ==> !InBounds(length, width, Neighbour(p, d))
    ensures !InBounds(length, width, Neighbour(p, d)) ==>
              BorderFlag(length, width, p, d) || (d == East && width == 1) || (d == South && length == 1)
  {
  }
}
