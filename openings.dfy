/** The entrance and exit of a generated maze: two boundary walls cleared on
    opposite sides of the grid. */
module Openings {
  import opened Geometry
  import opened MazeCells

  /** A boundary side cleared as an entrance or exit: `side` of the cell at `cell`. */
  datatype Opening = Opening(cell: Coord, side: Direction)

  /** The two openings the generator can pick: NORTH of a cell in the first row
      and SOUTH of a cell in the last row, or WEST of a cell in the first
      column and EAST of a cell in the last column; each at a position drawn
      from the full range of its row or column. */
  predicate OppositeOpenings(length: int, width: int, start: Opening, end: Opening)
  {
    (start.side == North && end.side == South &&
     start.cell.0 == 0 && 0 <= start.cell.1 < width &&
     end.cell.0 == length - 1 && 0 <= end.cell.1 < width) ||
    (start.side == West && end.side == East &&
     0 <= start.cell.0 < length && start.cell.1 == 0 &&
     0 <= end.cell.0 < length && end.cell.1 == width - 1)
  }

  /** Both openings are cells of the grid whose opened side faces out of it,
      and the two sides face opposite ways. */
  lemma OpeningsFaceOut(length: int, width: int, start: Opening, end: Opening)
    requires 0 < length && 0 < width
    requires OppositeOpenings(length, width, start, end)
    ensures InBounds(length, width, start.cell) && InBounds(length, width, end.cell)
    ensures !InBounds(length, width, Neighbour(start.cell, start.side))
    ensures !InBounds(length, width, Neighbour(end.cell, end.side))
    ensures end.side == start.side.Opposite()
  {
  }

  /** The sides `s` of the cell at p once the openings are cleared: the side
      of `start`, then the side of `end`, is set to false where p is their cell. */
  function Opened(s: Sides, p: Coord, start: Opening, end: Opening): Sides
  {
    var s' := if p == start.cell then s[start.side.Index() := false] else s;
    if p == end.cell then s'[end.side.Index() := false] else s'
  }

  /** Clearing the openings clears exactly the opening sides and leaves every
      other side of every cell as it was. */
  lemma OpenedClearsOnlyOpenings(s: Sides, p: Coord, start: Opening, end: Opening, d: Direction)
    ensures Opened(s, p, start, end)[d.Index()] ==
              if Opening(p, d) == start || Opening(p, d) == end then false else s[d.Index()]
  {
    DirectionFacts(d, start.side);
    DirectionFacts(d, end.side);
  }
}
