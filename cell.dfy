/** One position of the maze: its coordinates, its four walls, its four
    border flags and the flag the carving uses to mark it visited. */
module MazeCells {
  import opened Geometry

  /** Four flags, one per side, at the position Direction.Index() gives. */
  type Sides = s: seq<bool> | |s| == 4 witness [false, false, false, false]

  class Cell {
    const coordinates: Coord
    /** true: the wall on that side is standing. */
    var walls: Sides
    /** true: that side was marked as lying on the outer edge. */
    var borders: Sides
    var visited: bool

    /** A new cell has every wall up, no border flag, and is not visited. */
    constructor (coordinates: Coord)
      ensures this.coordinates == coordinates
      ensures walls == [true, true, true, true]
      ensures borders == [false, false, false, false]
      ensures !visited
    {
      this.coordinates := coordinates;
      walls := [true, true, true, true];
      borders := [false, false, false, false];
      visited := false;
    }

    /** Whether the wall on the given side is standing. */
    function IsThereAWall(direction: Direction): bool
      reads this
    {
      walls[direction.Index()]
    }

    /** Sets both the border flag and the wall of one side to `value`. */
    method SetBorders(direction: Direction, value: bool)
      modifies this
      ensures borders == old(borders)[direction.Index() := value]
      ensures walls == old(walls)[direction.Index() := value]
      ensures IsThereAWall(direction) == value
      ensures forall d :: d != direction ==> IsThereAWall(d) == old(IsThereAWall(d))
      ensures visited == old(visited)
    {
      borders := borders[direction.Index() := value];
      walls := walls[direction.Index() := value];
    }

    /** Takes down the wall of one side; nothing else changes. */
    method KnockDownWall(direction: Direction)
      modifies this
      ensures walls == old(walls)[direction.Index() := false]
      ensures !IsThereAWall(direction)
      ensures forall d :: d != direction ==> IsThereAWall(d) == old(IsThereAWall(d))
      ensures borders == old(borders) && visited == old(visited)
    {
      walls := walls[direction.Index() := false];
    }
  }
}
