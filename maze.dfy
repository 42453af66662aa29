/** The perfect-maze generator: a length x width matrix of cells carved by a
    randomised depth-first traversal, then opened at two opposite sides.
    Each random draw of the generator is an arbitrary choice within the range
    it is drawn from, so everything proved here holds for every draw. */
module Generator {
  import opened Options
  import opened Geometry
  import opened Coverage
  import opened Carving
  import opened Traversal
  import opened MazeCells
  import opened Openings

  const DIMENSION_ERROR := "dimensions of the maze must be stricly positive"

  /** The order in which the neighbour search looks at the four sides. */
  function SearchRank(d: Direction): nat
  {
    match d
    case South => 0
    case North => 1
    case East => 2
    case West => 3
  }

  class Maze {
    const length: int
    const width: int
    /** matrix[i][j] is the cell in row i, column j. */
    var matrix: seq<seq<Cell>>

    /** The matrix has the maze's shape and each cell sits at its own
        coordinates, so a cell is identified by its coordinates. */
    ghost predicate Valid()
      reads this
    {
      0 < length && 0 < width &&
      |matrix| == length &&
      (forall i :: 0 <= i < length ==> |matrix[i]| == width) &&
      (forall i, j {:trigger matrix[i][j]} :: 0 <= i < length && 0 <= j < width ==> matrix[i][j].coordinates == (i, j))
    }

    /** The cell at position p. */
    function At(p: Coord): Cell
      requires Valid() && InBounds(length, width, p)
      reads this
    {
      matrix[p.0][p.1]
    }

    /** c is the matrix's cell at c's own coordinates. */
    ghost predicate Owns(c: Cell)
      reads this
    {
      Valid() && InBounds(length, width, c.coordinates) && At(c.coordinates) == c
    }

    /** Every cell of the list belongs to the matrix. */
    ghost predicate OwnsAll(cells: seq<Cell>)
      reads this
      decreases |cells|
    {
      cells == [] || (OwnsAll(cells[..|cells| - 1]) && Owns(cells[|cells| - 1]))
    }

    /** Pushing a cell of the matrix keeps every cell of the list in it. */
    lemma OwnsAllPush(cells: seq<Cell>, c: Cell)
      requires OwnsAll(cells) && Owns(c)
      ensures OwnsAll(cells + [c])
    {
      assert (cells + [c])[..|cells|] == cells;
    }

    ghost function Cells(): set<Cell>
      reads this
    {
      set i, j | 0 <= i < |matrix| && 0 <= j < |matrix[i]| :: matrix[i][j]
    }

    lemma OwnedCellIsInCells(c: Cell)
      requires Owns(c)
      ensures c in Cells()
    {
      var (i, j) := c.coordinates;
      assert matrix[i][j] == c;
    }

    constructor (length: int, width: int)
      requires length > 0 && width > 0
      ensures this.length == length && this.width == width && matrix == []
    {
      this.length := length;
      this.width := width;
      matrix := [];
    }

    /** Construction fails exactly when a dimension is not strictly positive;
        otherwise the dimensions are stored unchanged. */
    static method New(length: int, width: int) returns (r: Result<Maze>)
      ensures r.Failure? <==> length <= 0 || width <= 0
      ensures r.Failure? ==> r.message == DIMENSION_ERROR
      ensures r.Success? ==> fresh(r.value) && r.value.length == length && r.value.width == width
    {
      if length <= 0 || width <= 0 {
        return Failure(DIMENSION_ERROR);
      }
      var maze := new Maze(length, width);
      return Success(maze);
    }

    /** The state grid construction leaves a cell in: all walls up, the border
        flags of its position, not visited. */
    ghost predicate Pristine(c: Cell)
      reads c
    {
      c.walls == [true, true, true, true] && !c.visited &&
      forall d: Direction :: c.borders[d.Index()] == BorderFlag(length, width, c.coordinates, d)
    }

    /** Builds the length x width matrix row by row: each new cell has every
        wall up, is not visited, and carries the border flags of its position. */
    method GenerateMatrix()
      requires 0 < length && 0 < width
      modifies this
      ensures Valid()
      ensures forall c :: c in Cells() ==> fresh(c)
      ensures forall p :: InBounds(length, width, p) ==> fresh(At(p)) && Pristine(At(p))
    {
      matrix := [];
      var i := 0;
      while i < length
        invariant 0 <= i <= length && |matrix| == i
        invariant forall a :: 0 <= a < i ==> |matrix[a]| == width
        invariant forall a, b {:trigger matrix[a][b]} :: 0 <= a < i && 0 <= b < width ==>
                    matrix[a][b].coordinates == (a, b) && fresh(matrix[a][b]) && Pristine(matrix[a][b])
      {
        var row: seq<Cell> := [];
        var j := 0;
        while j < width
          invariant 0 <= j <= width && |row| == j
          invariant |matrix| == i && forall a :: 0 <= a < i ==> |matrix[a]| == width
          invariant forall a, b {:trigger matrix[a][b]} :: 0 <= a < i && 0 <= b < width ==>
                      matrix[a][b].coordinates == (a, b) && fresh(matrix[a][b]) && Pristine(matrix[a][b])
          invariant forall b {:trigger row[b]} :: 0 <= b < j ==> row[b].coordinates == (i, b) && fresh(row[b]) && Pristine(row[b])
        {
          var cell := new Cell((i, j));
          if j == 0 {
            cell.SetBorders(West, true);
          } else if j == width - 1 {
            cell.SetBorders(East, true);
          }
          if i == 0 {
            cell.SetBorders(North, true);
          } else if i == length - 1 {
            cell.SetBorders(South, true);
          }
          row := row + [cell];
          j := j + 1;
        }
        matrix := matrix + [row];
        i := i + 1;
      }
    }

    /** The side of `from` that faces the adjacent cell `to`. */
    function DirectionBetween(from: Cell, to: Cell): Direction
      requires Adjacent(from.coordinates, to.coordinates)
    {
      RelativeDirection(from.coordinates, to.coordinates).value
    }

    /** Each cell the search finds is an unvisited neighbour of `current`. */
    lemma AvailableMember(current: Cell, k: int)
      requires Owns(current) && 0 <= k < |AnyNeighborAvailable(current)|
      ensures Owns(AnyNeighborAvailable(current)[k]) && !AnyNeighborAvailable(current)[k].visited
      ensures Adjacent(current.coordinates, AnyNeighborAvailable(current)[k].coordinates)
    {
      AvailableInSearchOrder(current);
    }

    /** When the search finds nothing, every in-bounds neighbour of `current`
        is visited. */
    lemma NoneAvailable(current: Cell)
      requires Owns(current) && AnyNeighborAvailable(current) == []
      ensures forall d :: InBounds(length, width, Neighbour(current.coordinates, d)) ==>
                At(Neighbour(current.coordinates, d)).visited
    {
      AvailableInSearchOrder(current);
    }

    /** The unvisited in-bounds neighbours of `current`, searched south,
        north, east, west; nothing is changed. At most one cell is found per
        side; AvailableInSearchOrder states exactly which cells are found. */
    function AnyNeighborAvailable(current: Cell): (found: seq<Cell>)
      requires Owns(current)
      reads this, Cells()
      ensures |found| <= 4
      ensures forall c :: c in found ==> c in Cells() && !c.visited
    {
      Candidate(current, South) + Candidate(current, North) + Candidate(current, East) + Candidate(current, West)
    }

    /** The search result holds exactly the unvisited in-bounds neighbours, in search order. */
    lemma AvailableInSearchOrder(current: Cell)
      requires Owns(current)
      ensures |AnyNeighborAvailable(current)| <= 4
      ensures forall k :: 0 <= k < |AnyNeighborAvailable(current)| ==>
                Owns(AnyNeighborAvailable(current)[k]) && !AnyNeighborAvailable(current)[k].visited &&
                Adjacent(current.coordinates, AnyNeighborAvailable(current)[k].coordinates)
      ensures forall d :: (InBounds(length, width, Neighbour(current.coordinates, d)) &&
                !At(Neighbour(current.coordinates, d)).visited) ==>
                At(Neighbour(current.coordinates, d)) in AnyNeighborAvailable(current)
      ensures forall k, l :: 0 <= k < l < |AnyNeighborAvailable(current)| ==>
                SearchRank(DirectionBetween(current, AnyNeighborAvailable(current)[k])) <
                SearchRank(DirectionBetween(current, AnyNeighborAvailable(current)[l]))
    {
      AvailableSearchesAllSides(current);
      SearchComplete(current, AnyNeighborAvailable(current), [South, North, East, West]);
    }

    /** AnyNeighborAvailable(current) is the result of searching the four sides in order. */
    lemma AvailableSearchesAllSides(current: Cell)
      requires Owns(current)
      ensures Searched(current, AnyNeighborAvailable(current), [South, North, East, West])
    {
      var north := Candidate(current, South) + Candidate(current, North);
      VerticalSidesSearched(current);
      SearchStep(current, north, [South, North], East);
      SearchStep(current, north + Candidate(current, East), [South, North, East], West);
    }

    /** The first side of the search, south. */
    lemma SouthSideSearched(current: Cell)
      requires Owns(current)
      ensures Searched(current, Candidate(current, South), [South])
    {
      var south := Candidate(current, South);
      assert [] + south == south;
      SearchStep(current, [], [], South);
    }

    /** The first two sides of the search, south then north. */
    lemma VerticalSidesSearched(current: Cell)
      requires Owns(current)
      ensures Searched(current, Candidate(current, South) + Candidate(current, North), [South, North])
    {
      SouthSideSearched(current);
      SearchStep(current, Candidate(current, South), [South], North);
    }

    /** The unvisited in-bounds neighbour of `current` on side d, if any. */
    function Candidate(current: Cell, d: Direction): seq<Cell>
      requires Owns(current)
      reads this, Cells()
    {
      var q := Neighbour(current.coordinates, d);
      if InBounds(length, width, q) && !At(q).visited then [At(q)] else []
    }

    /** `found` lists, in search order, exactly the unvisited in-bounds
        neighbours of `current` on the sides `sides`. */
    ghost predicate Searched(current: Cell, found: seq<Cell>, sides: seq<Direction>)
      requires Owns(current)
      reads this, Cells()
    {
      |found| <= |sides| &&
      (forall k :: 0 <= k < |found| ==>
         Owns(found[k]) && !found[k].visited &&
         Adjacent(current.coordinates, found[k].coordinates) &&
         DirectionBetween(current, found[k]) in sides) &&
      (forall d :: (d in sides && InBounds(length, width, Neighbour(current.coordinates, d)) &&
         !At(Neighbour(current.coordinates, d)).visited) ==>
         At(Neighbour(current.coordinates, d)) in found) &&
      (forall k, l :: 0 <= k < l < |found| ==>
         SearchRank(DirectionBetween(current, found[k])) < SearchRank(DirectionBetween(current, found[l])))
    }

    /** Once every side has been searched, `found` is exactly the list of
        unvisited in-bounds neighbours of `current`, in search order. */
    lemma SearchComplete(current: Cell, found: seq<Cell>, sides: seq<Direction>)
      requires Owns(current) && Searched(current, found, sides)
      requires |sides| == 4 && North in sides && South in sides && East in sides && West in sides
      ensures |found| <= 4
      ensures forall k :: 0 <= k < |found| ==>
                Owns(found[k]) && !found[k].visited &&
                Adjacent(current.coordinates, found[k].coordinates)
      ensures forall d :: (InBounds(length, width, Neighbour(current.coordinates, d)) &&
                !At(Neighbour(current.coordinates, d)).visited) ==>
                At(Neighbour(current.coordinates, d)) in found
      ensures forall k, l :: 0 <= k < l < |found| ==>
                SearchRank(DirectionBetween(current, found[k])) <
                SearchRank(DirectionBetween(current, found[l]))
    {
      forall d: Direction
        ensures d in sides
      {
        match d
        case North =>
        case South =>
        case East =>
        case West =>
      }
    }

    /** Searching one more side, later in the order than all before it,
        extends the search result by that side's candidate. */
    lemma SearchStep(current: Cell, found: seq<Cell>, sides: seq<Direction>, d: Direction)
      requires Owns(current) && Searched(current, found, sides)
      requires forall e :: e in sides ==> SearchRank(e) < SearchRank(d)
      ensures Searched(current, found + Candidate(current, d), sides + [d])
    {
      var q := Neighbour(current.coordinates, d);
      if InBounds(length, width, q) && !At(q).visited {
        RelativeDirectionReverses(current.coordinates, q);
        assert DirectionBetween(current, At(q)) == d;
      }
    }

    /** While the maze is carved from `root`, a cell is visited exactly when
        the carves have reached it. */
    ghost predicate VisitedAsReached(root: Coord, carved: seq<Passage>)
      requires Valid()
      reads this, Cells()
    {
      forall p :: InBounds(length, width, p) ==> (At(p).visited <==> p in Reached(root, carved))
    }

    /** Every cell's walls are the ones the carves leave standing. */
    ghost predicate WallsAsCarved(carved: seq<Passage>)
      requires Valid()
      reads this, Cells()
    {
      forall p :: InBounds(length, width, p) ==> At(p).walls == WallsOf(carved, p)
    }

    /** Every cell's border flags are the ones recorded in `borders`. */
    ghost predicate BordersAs(borders: map<Coord, Sides>)
      requires Valid()
      reads this, Cells()
    {
      forall p :: InBounds(length, width, p) ==> p in borders && At(p).borders == borders[p]
    }

    /** The border flags of every cell, by position. */
    ghost function BorderFlags(): (m: map<Coord, Sides>)
      requires Valid()
      reads this, Cells()
      ensures BordersAs(m)
    {
      map p | p in AllCoords(length, width) :: At(p).borders
    }

    /** A carve from c to n that marks the cell at n visited, knocks down the
        facing walls of the cells at c and n, and changes nothing else keeps
        every cell as the carves, extended by the passage from c to n, leave it. */
    twostate lemma CarveKeepsCells(new root: Coord, new carved: seq<Passage>, new borders: map<Coord, Sides>,
                                   new c: Coord, new n: Coord)
      requires unchanged(this) && Valid() && InBounds(length, width, c) && InBounds(length, width, n)
      requires Adjacent(c, n)
      requires old(allocated(root)) && old(allocated(carved)) && old(allocated(borders))
      requires old(VisitedAsReached(root, carved) && WallsAsCarved(carved) && BordersAs(borders))
      requires At(n).visited && At(c).visited == old(At(c).visited)
      requires At(c).walls == old(At(c).walls)[RelativeDirection(c, n).value.Index() := false]
      requires At(n).walls == old(At(n).walls)[RelativeDirection(n, c).value.Index() := false]
      requires forall o: Cell :: old(allocated(o)) ==>
                 o.borders == old(o.borders) &&
                 (o != At(c) && o != At(n) ==> o.walls == old(o.walls) && o.visited == old(o.visited))
      ensures VisitedAsReached(root, carved + [(c, n)])
      ensures WallsAsCarved(carved + [(c, n)])
      ensures BordersAs(borders)
    {
      ReachedAppend(root, carved, (c, n));
      forall p | InBounds(length, width, p)
        ensures At(p).visited <==> p in Reached(root, carved + [(c, n)])
        ensures At(p).walls == WallsOf(carved + [(c, n)], p)
        ensures p in borders && At(p).borders == borders[p]
      {
        CarveOpensFacingWalls(carved, c, n, p);
        var cell := At(p);
        assert old(cell.visited) <==> p in Reached(root, carved);
        assert old(cell.walls) == WallsOf(carved, p);
        assert old(cell.borders) == borders[p];
        if p != c && p != n {
          assert cell != At(c) && cell != At(n);
        }
      }
    }

    /** One carve: knocks down the wall of `next` that faces `current` and
        the wall of `current` that faces `next`, and marks `next` visited.
        Every cell then stands as the carves so far, extended by the passage
        from `current` to `next`, leave it. */
    method Carve(current: Cell, next: Cell, ghost root: Coord, ghost carved: seq<Passage>,
                 ghost borders: map<Coord, Sides>)
      requires Owns(current) && Owns(next) && Adjacent(current.coordinates, next.coordinates)
      requires VisitedAsReached(root, carved) && WallsAsCarved(carved) && BordersAs(borders)
      modifies current, next
      ensures current.walls == old(current.walls)[DirectionBetween(current, next).Index() := false]
      ensures next.walls == old(next.walls)[DirectionBetween(next, current).Index() := false]
      ensures next.visited && current.visited == old(current.visited)
      ensures VisitedAsReached(root, carved + [(current.coordinates, next.coordinates)])
      ensures WallsAsCarved(carved + [(current.coordinates, next.coordinates)])
      ensures BordersAs(borders)
    {
      next.KnockDownWall(DirectionBetween(next, current));
      current.KnockDownWall(DirectionBetween(current, next));
      next.visited := true;
      CarveKeepsCells(root, carved, borders, current.coordinates, next.coordinates);
    }

    /** Marking the starting cell visited, in a maze with every wall up and
        no cell visited, starts the traversal from it. */
    twostate lemma StartTraversal(new root: Coord, new borders: map<Coord, Sides>)
      requires unchanged(this) && Valid() && InBounds(length, width, root)
      requires forall p :: InBounds(length, width, p) ==>
                 old(At(p).walls) == [true, true, true, true] && !old(At(p).visited)
      requires old(allocated(borders))
      requires old(BordersAs(borders))
      requires At(root).visited
      requires forall o: Cell :: old(allocated(o)) ==>
                 (o != At(root) ==> o.visited == old(o.visited)) &&
                 o.walls == old(o.walls) && o.borders == old(o.borders)
      ensures LoopInvariant(root, [], At(root), [], AllCoords(length, width) - {root}, borders)
    {
      StartFrontier(length, width, root);
      forall p | InBounds(length, width, p)
        ensures (At(p).visited <==> p in Reached(root, [])) && At(p).walls == WallsOf([], p)
        ensures p in borders && At(p).borders == borders[p]
      {
        NothingCarvedAllWalls(p);
        var cell := At(p);
        if p != root {
          assert cell != At(root);
        }
      }
    }

    /** What the depth-first loop keeps true: the current and stacked cells
        belong to the maze, the traversal's frontier holds for their
        coordinates, and every cell's visited flag, walls and border flags are
        as the carves so far leave them. */
    ghost predicate LoopInvariant(root: Coord, carved: seq<Passage>, current: Cell, stack: seq<Cell>,
                                  toVisit: set<Coord>, borders: map<Coord, Sides>)
      reads this, Cells()
    {
      Owns(current) && OwnsAll(stack) &&
      Frontier(length, width, root, carved, current.coordinates, CoordsOf(stack), toVisit) &&
      VisitedAsReached(root, carved) && WallsAsCarved(carved) && BordersAs(borders)
    }

    /** The carving branch of the loop: carves from `current` to its
        unvisited neighbour `next`, pushes `current` and takes `next` off the
        cells to visit; `next` becomes the current cell. */
    method CarveTo(current: Cell, next: Cell, stack: seq<Cell>, toVisit: set<Coord>,
                   ghost root: Coord, ghost carved: seq<Passage>, ghost borders: map<Coord, Sides>)
      returns (stack': seq<Cell>, toVisit': set<Coord>, ghost carved': seq<Passage>)
      requires LoopInvariant(root, carved, current, stack, toVisit, borders)
      requires Owns(next) && !next.visited && Adjacent(current.coordinates, next.coordinates)
      modifies current, next
      ensures stack' == stack + [current] && toVisit' == toVisit - {next.coordinates}
      ensures carved' == carved + [(current.coordinates, next.coordinates)]
      ensures next.coordinates in toVisit
      ensures LoopInvariant(root, carved', next, stack', toVisit', borders)
    {
      CoordsOfPush(stack, current);
      OwnsAllPush(stack, current);
      AdvanceFrontier(length, width, root, carved, current.coordinates, CoordsOf(stack), toVisit, next.coordinates,
                      CoordsOf(stack + [current]));
      Carve(current, next, root, carved, borders);
      stack' := stack + [current];
      toVisit' := toVisit - {next.coordinates};
      carved' := carved + [(current.coordinates, next.coordinates)];
    }

    /** The backing-up branch of the loop: when `current` has no unvisited
        neighbour and cells remain to be visited, the stack is not empty and
        popping its top as the current cell keeps the loop's invariant. */
    lemma BacktrackKeepsInvariant(current: Cell, stack: seq<Cell>, toVisit: set<Coord>,
                                root: Coord, carved: seq<Passage>, borders: map<Coord, Sides>)
      requires LoopInvariant(root, carved, current, stack, toVisit, borders) && toVisit != {}
      requires forall d :: InBounds(length, width, Neighbour(current.coordinates, d)) ==>
                 At(Neighbour(current.coordinates, d)).visited
      ensures stack != []
      ensures LoopInvariant(root, carved, stack[|stack| - 1], stack[..|stack| - 1], toVisit, borders)
    {
      StackNotEmpty(length, width, root, carved, current.coordinates, CoordsOf(stack), toVisit);
      RetreatFrontier(length, width, root, carved, current.coordinates, CoordsOf(stack), toVisit,
                      stack[|stack| - 1].coordinates, CoordsOf(stack[..|stack| - 1]));
    }

    /** One round of the depth-first loop: carve to a random unvisited
        neighbour of `current` if it has one, otherwise back up. */
    method Step(current: Cell, stack: seq<Cell>, toVisit: set<Coord>,
                ghost root: Coord, ghost carved: seq<Passage>, ghost borders: map<Coord, Sides>)
      returns (current': Cell, stack': seq<Cell>, toVisit': set<Coord>, ghost carved': seq<Passage>)
      requires LoopInvariant(root, carved, current, stack, toVisit, borders) && toVisit != {}
      modifies Cells()
      ensures LoopInvariant(root, carved', current', stack', toVisit', borders)
      ensures (Adjacent(current.coordinates, current'.coordinates) && !old(current'.visited) &&
               current'.coordinates in toVisit && stack' == stack + [current] &&
               toVisit' == toVisit - {current'.coordinates} &&
               carved' == carved + [(current.coordinates, current'.coordinates)]) ||
              (stack != [] && current' == stack[|stack| - 1] && stack' == stack[..|stack| - 1] &&
               toVisit' == toVisit && carved' == carved)
      ensures |toVisit'| == |toVisit| - 1 || (|toVisit'| == |toVisit| && |stack'| == |stack| - 1)
    {
      var notVisited := AnyNeighborAvailable(current);
      if notVisited != [] {
        var k :| 0 <= k < |notVisited|;
        var next := notVisited[k];
        AvailableMember(current, k);
        OwnedCellIsInCells(current);
        OwnedCellIsInCells(next);
        stack', toVisit', carved' := CarveTo(current, next, stack, toVisit, root, carved, borders);
        current' := next;
      } else {
        NoneAvailable(current);
        BacktrackKeepsInvariant(current, stack, toVisit, root, carved, borders);
        current', stack' := stack[|stack| - 1], stack[..|stack| - 1];
        toVisit', carved' := toVisit, carved;
      }
    }

    /** The depth-first carve. From a randomly chosen cell it repeatedly
        carves to a random unvisited neighbour, pushing the cell it leaves,
        and backs up to the last pushed cell when there is none, until every
        cell has been visited. `root` is the starting cell and `carved` lists
        the carves in order: they grow a spanning tree of the grid, and the
        walls left standing are exactly the ones not carved through. */
    method GenerateMaze() returns (ghost root: Coord, ghost carved: seq<Passage>)
      requires Valid()
      requires forall p :: InBounds(length, width, p) ==>
                 At(p).walls == [true, true, true, true] && !At(p).visited
      modifies Cells()
      ensures Valid()
      ensures InBounds(length, width, root) && GrowsTree(root, carved)
      ensures Reached(root, carved) == AllCoords(length, width)
      ensures |carved| == length * width - 1
      ensures forall p :: InBounds(length, width, p) ==>
                At(p).visited && At(p).walls == WallsOf(carved, p) && At(p).borders == old(At(p).borders)
    {
      ghost var borders := BorderFlags();
      var i :| 0 <= i < length;
      var j :| 0 <= j < width;
      var current := matrix[i][j];
      current.visited := true;
      root, carved := (i, j), [];
      var toVisit := AllCoords(length, width) - {(i, j)};
      StartTraversal(root, borders);
      carved := Traverse(current, toVisit, root, borders);
    }

    /** The depth-first loop: from a started traversal with an empty stack,
        carve or back up until no cell is left to visit. The carves then
        span the grid and every cell stands as they leave it. */
    method Traverse(current: Cell, toVisit: set<Coord>, ghost root: Coord, ghost borders: map<Coord, Sides>)
      returns (ghost carved: seq<Passage>)
      requires LoopInvariant(root, [], current, [], toVisit, borders)
      modifies Cells()
      ensures Valid() && InBounds(length, width, root) && GrowsTree(root, carved)
      ensures Reached(root, carved) == AllCoords(length, width)
      ensures |carved| == length * width - 1
      ensures VisitedAsReached(root, carved) && WallsAsCarved(carved) && BordersAs(borders)
    {
      var current, toVisit, stack := current, toVisit, [];
      carved := [];
      while toVisit != {}
        invariant LoopInvariant(root, carved, current, stack, toVisit, borders)
        decreases |toVisit|, |stack|
      {
        current, stack, toVisit, carved := Step(current, stack, toVisit, root, carved, borders);
      }
      FrontierDone(length, width, root, carved, current.coordinates, CoordsOf(stack));
    }

    /** Clears the border flag and the wall on side `side` of the cell in row
        i, column j; no other cell and no other side changes. */
    method OpenBoundary(i: int, j: int, side: Direction)
      requires Valid() && InBounds(length, width, (i, j))
      modifies matrix[i][j]
      ensures Valid()
      ensures forall p :: InBounds(length, width, p) ==>
                At(p).walls == (if p == (i, j) then old(At(p).walls)[side.Index() := false] else old(At(p).walls)) &&
                At(p).borders == (if p == (i, j) then old(At(p).borders)[side.Index() := false] else old(At(p).borders)) &&
                At(p).visited == old(At(p).visited)
    {
      matrix[i][j].SetBorders(side, false);
    }

    /** Opens an entrance and an exit on opposite sides of the grid: on a coin
        roll of 1, the NORTH side of a random cell of the first row and the
        SOUTH side of a random cell of the last row; otherwise the WEST side of
        a random cell of the first column and the EAST side of a random cell
        of the last column. Only those sides change. */
    method PickStartEnd() returns (ghost start: Opening, ghost end: Opening)
      requires Valid()
      modifies Cells()
      ensures Valid()
      ensures OppositeOpenings(length, width, start, end)
      ensures forall p :: InBounds(length, width, p) ==>
                At(p).walls == Opened(old(At(p).walls), p, start, end) &&
                At(p).borders == Opened(old(At(p).borders), p, start, end) &&
                At(p).visited == old(At(p).visited)
    {
      var roll :| 0 <= roll <= 1;
      if roll == 1 {
        var first :| 0 <= first < width;
        var last :| 0 <= last < width;
        OpenBoundary(0, first, North);
        OpenBoundary(length - 1, last, South);
        start, end := Opening((0, first), North), Opening((length - 1, last), South);
      } else {
        var first :| 0 <= first < length;
        var last :| 0 <= last < length;
        OpenBoundary(first, 0, West);
        OpenBoundary(last, width - 1, East);
        start, end := Opening((first, 0), West), Opening((last, width - 1), East);
      }
    }

    /** Generates a maze: builds the matrix, carves it depth-first from
        `root`, then opens the entrance `start` and the exit `end`. Every cell
        is visited, the carves form a spanning tree of the grid, a wall
        stands exactly where no passage was carved and no opening was made,
        and a border flag is set exactly where construction set it and no
        opening was made. */
    method Generate() returns (ghost root: Coord, ghost carved: seq<Passage>,
                               ghost start: Opening, ghost end: Opening)
      requires 0 < length && 0 < width
      modifies this
      ensures Valid()
      ensures InBounds(length, width, root) && GrowsTree(root, carved)
      ensures Reached(root, carved) == AllCoords(length, width)
      ensures |carved| == length * width - 1
      ensures OppositeOpenings(length, width, start, end)
      ensures forall p :: InBounds(length, width, p) ==> fresh(At(p)) && At(p).visited
      ensures forall p, d: Direction :: InBounds(length, width, p) ==>
                At(p).walls[d.Index()] ==
                  (!Joined(carved, p, Neighbour(p, d)) && Opening(p, d) != start && Opening(p, d) != end)
      ensures forall p, d: Direction :: InBounds(length, width, p) ==>
                At(p).borders[d.Index()] ==
                  (BorderFlag(length, width, p, d) && Opening(p, d) != start && Opening(p, d) != end)
    {
      GenerateMatrix();
      root, carved := GenerateMaze();
      label Carved:
      start, end := PickStartEnd();
      forall p, d: Direction | InBounds(length, width, p)
        ensures At(p).walls[d.Index()] ==
                  (!Joined(carved, p, Neighbour(p, d)) && Opening(p, d) != start && Opening(p, d) != end)
        ensures At(p).borders[d.Index()] ==
                  (BorderFlag(length, width, p, d) && Opening(p, d) != start && Opening(p, d) != end)
      {
        WallStandsUnlessJoined(carved, p, d);
        OpenedClearsOnlyOpenings(WallsOf(carved, p), p, start, end, d);
        OpenedClearsOnlyOpenings(old@Carved(At(p).borders), p, start, end, d);
      }
    }
  }

  /** The coordinates of a list of cells. */
  ghost function CoordsOf(cells: seq<Cell>): set<Coord>
    decreases |cells|
  {
    if cells == [] then {} else CoordsOf(cells[..|cells| - 1]) + {cells[|cells| - 1].coordinates}
  }

  /** Pushing a cell adds its coordinates. */
  lemma CoordsOfPush(cells: seq<Cell>, c: Cell)
    ensures CoordsOf(cells + [c]) == CoordsOf(cells) + {c.coordinates}
  {
    assert (cells + [c])[..|cells|] == cells;
  }
}
