# Perfect maze generator, modelled in Dafny

`maze.py` builds a *perfect* maze: a `length` x `width` grid of cells in which
every cell can be reached from every other one by exactly one path. `Maze`
stores the grid as a matrix of `_Cell` objects. Each cell has four walls and
four border flags (NORTH = 0, SOUTH = 1, EAST = 2, WEST = 3) and a `visited`
flag. `generate` runs three steps:

1. Build the matrix. Every wall is up, and the cells on the outer edge get
   border flags.
2. Carve passages by a randomised depth-first traversal.
3. Open an entrance and an exit on two opposite sides of the grid.

The Dafny model keeps that shape:

- `MazeCells.Cell` is a class. Its methods update `walls` and `borders` in
  place.
- `Generator.Maze` is a class holding the matrix as a `seq<seq<Cell>>`. Its
  methods change walls and borders through the cells' methods, and set a
  cell's `visited` field directly, as the source does.
- Every random draw (`randint`) is an arbitrary choice in the drawn range,
  written `:|`. Everything proved holds for every sequence of draws.

The carving is tied to a record of what it did. The ghost out-parameter
`carved` lists the passages in the order they were carved, and `root` is the
starting cell. On that record, the model proves:

- the passages grow a tree (`Carving.GrowsTree`) that spans the grid;
- there are `length * width - 1` passages;
- every cell is joined to the root (`Carving.PathToRoot`);
- at the end, a wall stands exactly where no passage was carved and no
  opening was made.

The bookkeeping of the traversal is done on coordinates in `Traversal`. It
shows that `cell_stack.pop()` is never called on an empty stack, and that
`cell_to_visit.remove(next_cell)` always finds its cell.

Modules:

| file | module | contents |
|---|---|---|
| options.dfy | `Options` | `Option`, `Result` |
| geometry.dfy | `Geometry` | coordinates, directions, adjacency, `RelativeDirection`, border flags |
| coverage.dfy | `Coverage` | the set of grid coordinates and its size; connectivity of the grid |
| carving.dfy | `Carving` | the carve record: reached cells, tree growth, walls left standing |
| traversal.dfy | `Traversal` | the invariant of the depth-first loop on coordinates |
| cell.dfy | `MazeCells` | `_Cell` as the class `Cell` |
| openings.dfy | `Openings` | the entrance and exit and the sides they clear |
| maze.dfy | `Generator` | `Maze` as a class: matrix, neighbour search, carving loop, openings |

## Model

| member | source | states |
|---|---|---|
| Generator.Maze.New | maze.py:10-15 | Construction fails, with the source's message, exactly when `length <= 0` or `width <= 0`. Otherwise the fresh maze stores both dimensions unchanged. |
| Generator.Maze.constructor | maze.py:10-15 | Stores the two positive dimensions. There is no matrix yet. |
| MazeCells.Cell.constructor | maze.py:166-178 | A new cell keeps its coordinates, has all four walls up and no border flag, and is not visited. |
| MazeCells.Cell.SetBorders | maze.py:180-189 | Sets both the border flag and the wall at index d to `value`. Every other side, as seen through `IsThereAWall`, is unchanged, and so is `visited`. |
| MazeCells.Cell.KnockDownWall | maze.py:194-202 | Takes down the wall at index d only. The other walls, the border flags and `visited` are unchanged. |
| Geometry.Direction.Index | maze.py:160-164 | The wall-list position of a side is one of 0..3. |
| Geometry.RelativeDirection | maze.py:77-89 | Returns a direction exactly when the two cells are adjacent. The returned direction is the one whose step leads from `from` to `to`. |
| Geometry.RelativeDirectionReverses | maze.py:66-69 | Seen from the other cell, the shared wall lies on the opposite side. |
| Geometry.BorderFlagMarksOuterEdge | maze.py:35-42 | A border flag set by construction always lies on the outer edge. Every outer side carries one, except that the `elif` leaves EAST unflagged in a one-column grid and SOUTH unflagged in a one-row grid. |
| Generator.Maze.GenerateMatrix | maze.py:28-44 | Builds a `length` x `width` matrix of fresh cells, each at its own coordinates. Every cell has all walls up, is not visited, and has the border flags of its position (`Geometry.BorderFlag`). |
| Generator.Maze.AnyNeighborAvailable | maze.py:91-108 | Reads the maze and changes nothing. It finds at most 4 cells, each a cell of the maze that is not visited. |
| Generator.Maze.AvailableInSearchOrder | maze.py:91-108 | The neighbour search returns at most 4 cells. Each is an unvisited in-bounds neighbour. Every unvisited in-bounds neighbour is included. They are listed south, north, east, west. |
| Generator.Maze.AvailableMember | maze.py:63-65 | The randomly picked entry of a non-empty search result is an unvisited cell of the maze adjacent to the current one. |
| Generator.Maze.NoneAvailable | maze.py:63-64 | An empty search result means every in-bounds neighbour is visited. |
| Carving.CarveOpensFacingWalls | maze.py:66-69 | A carve from a to b takes down exactly the wall of a facing b and the wall of b facing a. Every other wall of every cell is unchanged. |
| Carving.WallsAgreeAcrossSides | maze.py:66-69 | The walls left by the carves are shared: a cell's wall on side d stands exactly when its neighbour's wall on the opposite side does. |
| Carving.WallStandsUnlessJoined | maze.py:66-69 | The wall of p on side d stands exactly when no passage to the neighbour on that side was carved. |
| Carving.NothingCarvedAllWalls | maze.py:168 | Before any carve, every wall stands. |
| Generator.Maze.CarveKeepsCells | maze.py:66-72 | Knocking down the two facing walls and marking the neighbour visited keeps every cell as the extended carve record leaves it. |
| Generator.Maze.Carve | maze.py:66-72 | Clears exactly the two facing walls and marks the neighbour visited. Afterwards, visited cells are the reached ones, walls are those left by the extended record, and border flags are unchanged. |
| Generator.Maze.CarveTo | maze.py:64-73 | The carve branch pushes the current cell and appends the passage to the record. The neighbour was in `cell_to_visit`, so `remove` finds it, and it leaves the set. The loop invariant holds for the neighbour as the new current cell. |
| Generator.Maze.BacktrackKeepsInvariant | maze.py:74-75 | When no neighbour is available and cells remain to visit, the stack is not empty. Popping its top as the current cell keeps the loop invariant. |
| Generator.Maze.Step | maze.py:62-75 | One iteration makes exactly one of the source's two moves and keeps the loop invariant. Carve: the new current cell is an adjacent cell that was unvisited and still to visit, the old current cell is pushed, the new one leaves the cells to visit, and the passage is appended to the record. Back up: the stack was not empty, its top is popped as the new current cell, and the cells to visit and the record are unchanged. So either one fewer cell is left to visit, or as many are left and the stack is one shorter. |
| Generator.Maze.StartTraversal | maze.py:55-60 | Marking the start cell visited in an untouched matrix starts the traversal. The record is empty, the stack is empty, and every other cell is left to visit. |
| Generator.Maze.Traverse | maze.py:62-75 | When the loop ends, the record is a tree of `length * width - 1` passages spanning the grid. Every cell is visited, its walls are those left by the record, and its border flags are unchanged. |
| Generator.Maze.GenerateMaze | maze.py:46-75 | From a random start cell in an untouched matrix, the carve leaves every cell visited and its border flags as they were. The record grows a tree spanning the grid with one passage fewer than there are cells, and every wall stands exactly where no passage was carved. |
| Traversal.StartFrontier | maze.py:55-60 | The traversal starts from one visited cell with an empty stack, and every other cell is left to visit. |
| Traversal.AdvanceFrontier | maze.py:64-73 | Carving to an unvisited neighbour keeps the traversal invariant, and the neighbour leaves the cells to visit. |
| Traversal.RetreatFrontier | maze.py:74-75 | Backing up to the top of the stack keeps the traversal invariant. |
| Traversal.StackNotEmpty | maze.py:74-75 | While cells remain to visit, a cell with no unvisited neighbour has a non-empty stack beneath it: `pop` never fails. |
| Traversal.FrontierDone | maze.py:62 | When no cell is left to visit, the reached cells are the whole grid and there are `length * width - 1` carves. |
| Coverage.AllCoordsSize | maze.py:51-53 | The grid has `length * width` cells, the size of `cell_to_visit` before the start cell is removed. |
| Coverage.EscapeThroughOpen | maze.py:74-75 | Let s be a set containing a grid cell, such that only the members of `open` may have in-bounds neighbours outside s. If some grid cell lies outside s, then some member of both `open` and s has an in-bounds neighbour outside s. With `open` the current and stacked cells, this is why the stack is not empty when `pop` runs. |
| Carving.ReachedAppend | maze.py:70-72 | A carve adds exactly its target cell to the reached cells. It extends the tree exactly when it starts inside the tree, ends outside it, and joins adjacent cells. |
| Carving.ReachedSize | maze.py:62-75 | A tree grown by n carves has n + 1 cells. |
| Carving.EndsReached | maze.py:64-73 | Both ends of every carve are cells of the tree. |
| Carving.CarvesDistinct | maze.py:64-73 | No passage is carved twice, in either direction, and the start cell is never carved into. |
| Carving.PathToRoot | maze.py:24-26 | Every cell of the tree is joined to the start cell by a walk along carved passages, so every cell is reachable. |
| Generator.Maze.OpenBoundary | maze.py:119-125 | Clears the border flag and the wall of one side of one matrix cell. Nothing else changes. |
| Generator.Maze.PickStartEnd | maze.py:110-125 | The two openings are in range and on opposite sides: NORTH of a first-row cell and SOUTH of a last-row cell, or WEST of a first-column cell and EAST of a last-column cell. Exactly those walls and border flags are cleared, and no cell's `visited` flag changes. |
| Openings.OpeningsFaceOut | maze.py:110-125 | Both openings lie in the grid, their cleared sides face out of it, and the two sides face opposite ways. |
| Openings.OpenedClearsOnlyOpenings | maze.py:119-125 | Opening clears exactly the opening sides. Every other side of every cell keeps its value. |
| Generator.Maze.Generate | maze.py:17-26 | After `generate`, every cell is fresh and visited, and the carves form a tree spanning the grid. A wall stands exactly where no passage was carved and no opening was made. A border flag is set exactly where construction set it and no opening was made. |

`MazeCells.Cell.IsThereAWall` (maze.py:191-192) is the wall lookup. It is a
plain read of one wall flag, and the contracts of `SetBorders` and
`KnockDownWall` are written in its terms.

## Left out

- `draw` (maze.py:127-153): ASCII output only. Nothing in the model depends on it.
- `MazeGenerationError`: the class is declared but never raised.
- The type checks of `_Cell.__init__` (a non-tuple, `None`, or a tuple whose length is not 2): coordinates are a pair of integers by type, so these errors cannot arise.
- The distribution of `randint` and the random seed: each draw is an arbitrary value of its range, so the model says nothing about how likely a given maze is.
- Walls and border flags are the integers 0 and 1 in the source. The model uses `false` and `true`.
- `cell_to_visit` is a list of cells in the source. The model keeps the set of their coordinates. Cells and coordinates correspond one to one, and `remove` never fails.
- Order of the carve branch: the source pushes the current cell and removes the neighbour from `cell_to_visit` before setting `visited`. The model sets `visited` in `Carve` first. The statements touch disjoint state.
- `Generator.Maze.GenerateMaze` requires an untouched matrix: all walls up, no cell visited. `generate` is its only caller and calls it right after `__generate_matrix`. A second call of `generate` rebuilds the matrix the same way.
- `Generator.Maze.Step`, `CarveTo`, `Traverse` and `OpenBoundary` are helper methods that split `__generate_maze` and `__pick_start_end` into parts. Taken together they run the source's statements in the source's order, apart from the `visited` assignment noted above.
- The knock-down docstring of `knock_down_wall` describes a random choice the code does not make. The model follows the code.
