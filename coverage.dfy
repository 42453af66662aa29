/** The set of all positions of a grid, and the fact that a set of positions
    that is closed under stepping to a neighbour covers the whole grid. */
module Coverage {
  import opened Geometry

  /** The positions of row i, columns 0 .. w-1. */
  function RowCoords(i: int, w: int): (s: set<Coord>)
    ensures forall p :: p in s <==> p.0 == i && 0 <= p.1 < w
    ensures w >= 0 ==> |s| == w
    decreases w
  {
    if w <= 0 then {} else RowCoords(i, w - 1) + {(i, w - 1)}
  }

  /** Every position of a length x width grid. */
  function AllCoords(length: int, width: int): (s: set<Coord>)
    ensures forall p :: p in s <==> InBounds(length, width, p)
  {
    set i, j | 0 <= i < length && 0 <= j < width :: (i, j)
  }

  /** The grid built row by row, the form its size is counted in. */
  ghost function Rows(length: int, width: int): (s: set<Coord>)
    ensures forall p :: p in s <==> InBounds(length, width, p)
    decreases length
  {
    if length <= 0 then {} else Rows(length - 1, width) + RowCoords(length - 1, width)
  }

  lemma RowsAreAllCoords(length: nat, width: nat)
    ensures Rows(length, width) == AllCoords(length, width)
  {
  }

  /** A length x width grid has length * width positions. */
  lemma {:induction false} AllCoordsSize(length: nat, width: nat)
    ensures |AllCoords(length, width)| == length * width
  {
    RowsSize(length, width);
    RowsAreAllCoords(length, width);
  }

  lemma {:induction false} RowsSize(length: nat, width: nat)
    ensures |Rows(length, width)| == length * width
  {
    if length > 0 {
      var above: nat := length - 1;
      RowsSize(above, width);
      var n := |Rows(above, width)|;
      LastRowIsNew(above, width);
      assert |Rows(length, width)| == n + width;
      MulStep(above, width, length);
    }
  }

  /** The row added below a grid is disjoint from the rows above it. */
  lemma LastRowIsNew(above: nat, width: nat)
    ensures |Rows(above + 1, width)| == |Rows(above, width)| + width
  {
    var s := Rows(above, width);
    var row := RowCoords(above, width);
    assert s !! row by {
      forall p | p in row ensures p !in s {
      }
    }
    assert |s + row| == |s| + |row|;
  }

  /** One more row of width b adds b cells; kept apart so that the
      multiplication stays out of RowsSize's larger proof context. */
  lemma MulStep(a: int, b: int, c: int)
    requires c == a + 1
    ensures a * b + b == c * b
  {
  }

  /** No in-bounds neighbour of a member of s lies outside s. */
  ghost predicate Closed(length: int, width: int, s: set<Coord>)
  {
    forall p, d :: p in s && InBounds(length, width, Neighbour(p, d)) ==> Neighbour(p, d) in s
  }

  lemma {:induction false} WalkAlongRow(length: int, width: int, s: set<Coord>, i: int, from: int, to: int)
    requires Closed(length, width, s)
    requires InBounds(length, width, (i, from)) && (i, from) in s
    requires 0 <= to < width
    ensures (i, to) in s
    decreases if from <= to then to - from else from - to
  {
    if to > from {
      WalkAlongRow(length, width, s, i, from, to - 1);
      assert Neighbour((i, to - 1), East) == (i, to);
    } else if to < from {
      WalkAlongRow(length, width, s, i, from, to + 1);
      assert Neighbour((i, to + 1), West) == (i, to);
    }
  }

  lemma {:induction false} WalkAlongColumn(length: int, width: int, s: set<Coord>, j: int, from: int, to: int)
    requires Closed(length, width, s)
    requires InBounds(length, width, (from, j)) && (from, j) in s
    requires 0 <= to < length
    ensures (to, j) in s
    decreases if from <= to then to - from else from - to
  {
    if to > from {
      WalkAlongColumn(length, width, s, j, from, to - 1);
      assert Neighbour((to - 1, j), South) == (to, j);
    } else if to < from {
      WalkAlongColumn(length, width, s, j, from, to + 1);
      assert Neighbour((to + 1, j), North) == (to, j);
    }
  }

  /** The grid is connected: a closed set holding one position holds them all. */
  lemma {:induction false} ClosedSetCoversGrid(length: int, width: int, s: set<Coord>, seed: Coord)
    requires Closed(length, width, s)
    requires InBounds(length, width, seed) && seed in s
    ensures forall p :: InBounds(length, width, p) ==> p in s
  {
    forall p | InBounds(length, width, p)
      ensures p in s
    {
      WalkAlongRow(length, width, s, seed.0, seed.1, p.1);
      WalkAlongColumn(length, width, s, p.1, seed.0, p.0);
    }
  }

  /** No in-bounds neighbour of a member of s lies outside s, except possibly
      neighbours of the members of `open`. */
  ghost predicate ClosedExcept(length: int, width: int, s: set<Coord>, open: set<Coord>)
  {
    forall p, d :: p in s && p !in open && InBounds(length, width, Neighbour(p, d)) ==> Neighbour(p, d) in s
  }

  /** While some position q of the grid lies outside s, one of the open
      members of s has an in-bounds neighbour outside s. */
  lemma EscapeThroughOpen(length: int, width: int, s: set<Coord>, open: set<Coord>, seed: Coord, q: Coord)
    requires ClosedExcept(length, width, s, open)
    requires InBounds(length, width, seed) && seed in s
    requires InBounds(length, width, q) && q !in s
    ensures exists p, d :: p in open && p in s && InBounds(length, width, Neighbour(p, d)) && Neighbour(p, d) !in s
  {
    if !exists p, d :: p in open && p in s && InBounds(length, width, Neighbour(p, d)) && Neighbour(p, d) !in s {
      ClosedSetCoversGrid(length, width, s, seed);
    }
  }
}
