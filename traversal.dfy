/** The bookkeeping of the depth-first traversal, on coordinates alone: why
    the stack is never popped while empty, and why the traversal ends with a
    spanning tree of the grid. */
module Traversal {
  import opened Geometry
  import opened Coverage
  import opened Carving

  /** What holds between two iterations of the traversal: the carves grow a
      tree from `root` inside the grid, `toVisit` is the rest of the grid,
      the current and stacked cells are in the tree, and only they can still
      have an in-bounds neighbour outside it. */
  ghost predicate Frontier(length: int, width: int, root: Coord, carved: seq<Passage>,
                           current: Coord, stacked: set<Coord>, toVisit: set<Coord>)
  {
    InBounds(length, width, root) && GrowsTree(root, carved) &&
    (forall p :: p in Reached(root, carved) ==> InBounds(length, width, p)) &&
    (forall p :: p in toVisit <==> InBounds(length, width, p) && p !in Reached(root, carved)) &&
    current in Reached(root, carved) && stacked <= Reached(root, carved) &&
    ClosedExcept(length, width, Reached(root, carved), {current} + stacked)
  }

  /** The traversal starts from one visited cell with an empty stack. */
  lemma StartFrontier(length: int, width: int, root: Coord)
    requires InBounds(length, width, root)
    ensures Frontier(length, width, root, [], root, {}, AllCoords(length, width) - {root})
  {
  }

  /** Carving from the current cell to an unvisited neighbour keeps the
      frontier, with the neighbour as the new current cell and the old one
      pushed (`pushed` is the stack after the push); the neighbour leaves
      `toVisit`. */
  lemma AdvanceFrontier(length: int, width: int, root: Coord, carved: seq<Passage>,
                        current: Coord, stacked: set<Coord>, toVisit: set<Coord>, next: Coord,
                        pushed: set<Coord>)
    requires Frontier(length, width, root, carved, current, stacked, toVisit)
    requires InBounds(length, width, next) && next !in Reached(root, carved)
    requires Adjacent(current, next)
    requires pushed == stacked + {current}
    ensures next in toVisit
    ensures Frontier(length, width, root, carved + [(current, next)], next, pushed, toVisit - {next})
  {
    ReachedAppend(root, carved, (current, next));
  }

  /** Backing up from a cell with no unvisited neighbour to the top of the
      stack keeps the frontier. */
  lemma RetreatFrontier(length: int, width: int, root: Coord, carved: seq<Passage>,
                        current: Coord, stacked: set<Coord>, toVisit: set<Coord>,
                        top: Coord, below: set<Coord>)
    requires Frontier(length, width, root, carved, current, stacked, toVisit)
    requires stacked == below + {top}
    requires forall d :: InBounds(length, width, Neighbour(current, d)) ==> Neighbour(current, d) in Reached(root, carved)
    ensures Frontier(length, width, root, carved, top, below, toVisit)
  {
  }

  /** While cells remain to be visited, a current cell with no unvisited
      neighbour has a non-empty stack beneath it: the pop never fails. */
  lemma StackNotEmpty(length: int, width: int, root: Coord, carved: seq<Passage>,
                      current: Coord, stacked: set<Coord>, toVisit: set<Coord>)
    requires Frontier(length, width, root, carved, current, stacked, toVisit)
    requires toVisit != {}
    requires forall d :: InBounds(length, width, Neighbour(current, d)) ==> Neighbour(current, d) in Reached(root, carved)
    ensures stacked != {}
  {
    var reached := Reached(root, carved);
    var q :| q in toVisit;
    EscapeThroughOpen(length, width, reached, {current} + stacked, root, q);
    var p, d :| p in {current} + stacked && p in reached &&
      InBounds(length, width, Neighbour(p, d)) && Neighbour(p, d) !in reached;
    assert p in stacked;
  }

  /** When nothing is left to visit the tree spans the grid, with one carve
      fewer than there are cells. */
  lemma FrontierDone(length: nat, width: nat, root: Coord, carved: seq<Passage>,
                     current: Coord, stacked: set<Coord>)
    requires Frontier(length, width, root, carved, current, stacked, {})
    ensures Reached(root, carved) == AllCoords(length, width)
    ensures |carved| == length * width - 1
  {
    AllCoordsSize(length, width);
    ReachedSize(root, carved);
  }
}
