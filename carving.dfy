/** The carving history of a depth-first maze, and why it is a spanning tree.

    A carve opens the wall between a cell already in the maze and a neighbour
    that is not; `carved` lists the carves in order as (from, to) pairs. */
module Carving {
  import opened Geometry

  /** One carve: the passage opened from a cell of the maze to a new neighbour. */
  type Passage = (Coord, Coord)

  /** The cells joined to `root` by the first |carved| carves. */
  ghost function Reached(root: Coord, carved: seq<Passage>): (t: set<Coord>)
    ensures root in t
    decreases |carved|
  {
    if carved == [] then {root}
    else Reached(root, carved[..|carved| - 1]) + {carved[|carved| - 1].1}
  }

  /** Every carve starts in the maze built so far, ends in a cell outside it,
      and joins two adjacent cells: the maze grows as a tree from `root`. */
  ghost predicate GrowsTree(root: Coord, carved: seq<Passage>)
    decreases |carved|
  {
    carved == [] ||
    (var prior := carved[..|carved| - 1];
     var last := carved[|carved| - 1];
     GrowsTree(root, prior) &&
     last.0 in Reached(root, prior) && last.1 !in Reached(root, prior) &&
     Adjacent(last.0, last.1))
  }

  /** The passage between a and b was carved, in either direction. */
  ghost predicate Joined(carved: seq<Passage>, a: Coord, b: Coord)
  {
    (a, b) in carved || (b, a) in carved
  }

  /** Appending one carve reaches exactly one more cell. */
  lemma ReachedAppend(root: Coord, carved: seq<Passage>, p: Passage)
    ensures Reached(root, carved + [p]) == Reached(root, carved) + {p.1}
    ensures GrowsTree(root, carved + [p]) <==>
              GrowsTree(root, carved) && p.0 in Reached(root, carved) &&
              p.1 !in Reached(root, carved) && Adjacent(p.0, p.1)
  {
    assert (carved + [p])[..|carved|] == carved;
  }

  /** A tree grown by n carves has n + 1 cells. */
  lemma {:induction false} ReachedSize(root: Coord, carved: seq<Passage>)
    requires GrowsTree(root, carved)
    ensures |Reached(root, carved)| == |carved| + 1
    decreases |carved|
  {
    if carved != [] {
      ReachedSize(root, carved[..|carved| - 1]);
    }
  }

  /** Both ends of every carve belong to the tree. */
  lemma {:induction false} EndsReached(root: Coord, carved: seq<Passage>)
    requires GrowsTree(root, carved)
    ensures forall k :: 0 <= k < |carved| ==>
              carved[k].0 in Reached(root, carved) && carved[k].1 in Reached(root, carved)
    decreases |carved|
  {
    if carved != [] {
      var prior := carved[..|carved| - 1];
      EndsReached(root, prior);
      forall k | 0 <= k < |carved| - 1
        ensures carved[k].0 in Reached(root, carved) && carved[k].1 in Reached(root, carved)
      {
        assert carved[k] == prior[k];
      }
    }
  }

  /** No passage is carved twice, in either direction, and the root is never
      carved into: so the carves are |carved| distinct walls, each the only
      carve into its target. */
  lemma {:induction false} CarvesDistinct(root: Coord, carved: seq<Passage>)
    requires GrowsTree(root, carved)
    ensures forall k :: 0 <= k < |carved| ==> carved[k].1 != root
    ensures forall k, l :: 0 <= k < l < |carved| ==>
              carved[l].1 != carved[k].1 && carved[l] != (carved[k].1, carved[k].0)
    decreases |carved|
  {
    if carved != [] {
      var prior := carved[..|carved| - 1];
      CarvesDistinct(root, prior);
      EndsReached(root, prior);
      forall k, l | 0 <= k < l < |carved|
        ensures carved[l].1 != carved[k].1 && carved[l] != (carved[k].1, carved[k].0)
      {
        if l < |carved| - 1 {
          assert carved[k] == prior[k] && carved[l] == prior[l];
        } else {
          assert carved[k] == prior[k];
        }
      }
    }
  }

  /** A walk from v back to the root that crosses only carved passages: every
      cell of the tree is connected to the root. */
  ghost function PathToRoot(root: Coord, carved: seq<Passage>, v: Coord): (path: seq<Coord>)
    requires GrowsTree(root, carved) && v in Reached(root, carved)
    ensures |path| >= 1 && path[0] == v && path[|path| - 1] == root
    ensures forall k :: 0 <= k < |path| - 1 ==> Joined(carved, path[k], path[k + 1])
    decreases |carved|
  {
    if carved == [] then [root]
    else
      var prior := carved[..|carved| - 1];
      var last := carved[|carved| - 1];
      assert carved == prior + [last];
      if v == last.1 then [v] + PathToRoot(root, prior, last.0)
      else PathToRoot(root, prior, v)
  }

  /** The walls a cell at p keeps once `carved` has been carved: the wall on
      side d is standing exactly when no passage to the neighbour on that side
      was carved. Listed in Direction.Index() order. */
  ghost function WallsOf(carved: seq<Passage>, p: Coord): (w: seq<bool>)
    ensures |w| == 4
  {
    [!Joined(carved, p, Neighbour(p, North)), !Joined(carved, p, Neighbour(p, South)),
     !Joined(carved, p, Neighbour(p, East)), !Joined(carved, p, Neighbour(p, West))]
  }

  /** The wall of p on side d stands exactly when no passage to the
      neighbour on that side was carved. */
  lemma WallStandsUnlessJoined(carved: seq<Passage>, p: Coord, d: Direction)
    ensures WallsOf(carved, p)[d.Index()] == !Joined(carved, p, Neighbour(p, d))
  {
  }

  /** Before anything is carved every wall stands. */
  lemma NothingCarvedAllWalls(p: Coord)
    ensures WallsOf([], p) == [true, true, true, true]
  {
  }

  /** A carve from a to its neighbour b takes down exactly the wall of a that
      faces b and the wall of b that faces a; every other wall is unchanged. */
  lemma CarveOpensFacingWalls(carved: seq<Passage>, a: Coord, b: Coord, p: Coord)
    requires Adjacent(a, b)
    ensures WallsOf(carved + [(a, b)], p) ==
              if p == a then WallsOf(carved, a)[RelativeDirection(a, b).value.Index() := false]
              else if p == b then WallsOf(carved, b)[RelativeDirection(b, a).value.Index() := false]
              else WallsOf(carved, p)
  {
  }

  /** Walls are shared: the wall of p on side d stands exactly when the wall
      of its neighbour on the opposite side does. */
  lemma WallsAgreeAcrossSides(carved: seq<Passage>, p: Coord, d: Direction)
    ensures WallsOf(carved, p)[d.Index()] == WallsOf(carved, Neighbour(p, d))[d.Opposite().Index()]
  {
    WallStandsUnlessJoined(carved, p, d);
    WallStandsUnlessJoined(carved, Neighbour(p, d), d.Opposite());
    assert Neighbour(Neighbour(p, d), d.Opposite()) == p;
  }
}
