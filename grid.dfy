/**
 * The rectangular lattice behind a maze: cells are numbered row-major, so the
 * cell at (row, column) of a grid with `columns` columns has flat index
 * row * columns + column.  Every fact about coordinates, neighbour lists and
 * connectivity that the maze operations rely on is proved here, once.
 */
module Grid {

  /** The flat indices of an n-cell grid: exactly the numbers below n, and n of them. */
  function Cells(n: nat): (r: set<nat>)
    ensures forall i :: i in r <==> 0 <= i < n
    ensures |r| == n
  {
    if n == 0 then {} else Cells(n - 1) + {n - 1}
  }

  /** A set of cell indices fills the grid as soon as it is as large as the grid. */
  lemma {:induction false} SubsetOfCells(s: set<nat>, n: nat)
    requires forall i :: i in s ==> i < n
    ensures |s| <= n
    ensures |s| == n ==> s == Cells(n)
  {
    var rest := Cells(n) - s;
    assert Cells(n) == s + rest;
  }

  /** Flat index of the cell at (row, col). */
  function Index(columns: nat, row: nat, col: nat): nat
  {
    row * columns + col
  }

  function RowOf(columns: nat, i: nat): nat
    requires columns > 0
  {
    i / columns
  }

  function ColOf(columns: nat, i: nat): nat
    requires columns > 0
  {
    i % columns
  }

  /** Hop count from the top-left corner (0, 0) to cell i when every move is one step. */
  function Manhattan(columns: nat, i: nat): nat
    requires columns > 0
  {
    RowOf(columns, i) + ColOf(columns, i)
  }

  /** Cells i and j differ by exactly one in exactly one coordinate. */
  predicate Adjacent(columns: nat, i: nat, j: nat)
    requires columns > 0
  {
    var ri, ci, rj, cj := RowOf(columns, i), ColOf(columns, i), RowOf(columns, j), ColOf(columns, j);
    (ri == rj && (ci + 1 == cj || cj + 1 == ci)) || (ci == cj && (ri + 1 == rj || rj + 1 == ri))
  }

  /** Rank of the move from i to j: 0 up, 1 down, 2 left, 3 right. */
  function Direction(columns: nat, i: nat, j: nat): nat
    requires columns > 0
  {
    if RowOf(columns, j) < RowOf(columns, i) then 0
    else if RowOf(columns, j) > RowOf(columns, i) then 1
    else if ColOf(columns, j) < ColOf(columns, i) then 2
    else 3
  }

  /** The neighbour list the maze gives cell i: the in-bounds cells up, down, left and right of it, in that order. */
  function NeighborList(rows: nat, columns: nat, i: nat): (r: seq<nat>)
    requires columns > 0
    ensures |r| <= 4
  {
    var row, col := RowOf(columns, i), ColOf(columns, i);
    (if row > 0 then [Index(columns, row - 1, col)] else [])
    + (if row + 1 < rows then [Index(columns, row + 1, col)] else [])
    + (if col > 0 then [Index(columns, row, col - 1)] else [])
    + (if col + 1 < columns then [Index(columns, row, col + 1)] else [])
  }

  lemma Coordinates(columns: nat, row: nat, col: nat)
    requires col < columns
    ensures RowOf(columns, Index(columns, row, col)) == row
    ensures ColOf(columns, Index(columns, row, col)) == col
  {
    var i := Index(columns, row, col);
    var q, r := i / columns, i % columns;
    assert (q - row) * columns == col - r;
    assert (row - q) * columns == r - col;
    if q > row {
      MultipleAtLeast(q - row, columns);
      assert false;
    }
    if q < row {
      MultipleAtLeast(row - q, columns);
      assert false;
    }
  }

  lemma MultipleAtLeast(d: int, c: nat)
    requires d >= 1
    ensures d * c >= c
  {
  }

  lemma Decompose(columns: nat, i: nat)
    requires columns > 0
    ensures Index(columns, RowOf(columns, i), ColOf(columns, i)) == i
    ensures ColOf(columns, i) < columns
  {
  }

  lemma IndexInRange(rows: nat, columns: nat, row: nat, col: nat)
    requires row < rows && col < columns
    ensures Index(columns, row, col) < rows * columns
  {
    assert (row + 1) * columns <= rows * columns;
  }

  lemma RowInRange(rows: nat, columns: nat, i: nat)
    requires columns > 0 && i < rows * columns
    ensures RowOf(columns, i) < rows
  {
  }

  /** Every cell on i's list is an in-bounds cell adjacent to i. */
  lemma ListedAdjacent(rows: nat, columns: nat, i: nat)
    requires columns > 0 && i < rows * columns
    ensures forall j: nat :: j in NeighborList(rows, columns, i) ==> j < rows * columns && Adjacent(columns, i, j)
  {
    var row, col := RowOf(columns, i), ColOf(columns, i);
    RowInRange(rows, columns, i);
    Decompose(columns, i);
    if row > 0 {
      Coordinates(columns, row - 1, col);
      IndexInRange(rows, columns, row - 1, col);
    }
    if row + 1 < rows {
      Coordinates(columns, row + 1, col);
      IndexInRange(rows, columns, row + 1, col);
    }
    if col > 0 {
      Coordinates(columns, row, col - 1);
      IndexInRange(rows, columns, row, col - 1);
    }
    if col + 1 < columns {
      Coordinates(columns, row, col + 1);
      IndexInRange(rows, columns, row, col + 1);
    }
  }

  /** Every in-bounds cell adjacent to i is on i's list. */
  lemma AdjacentListed(rows: nat, columns: nat, i: nat, j: nat)
    requires columns > 0 && j < rows * columns && Adjacent(columns, i, j)
    ensures j in NeighborList(rows, columns, i)
  {
    Decompose(columns, i);
    Decompose(columns, j);
    RowInRange(rows, columns, j);
  }

  /** Cell i's list holds exactly the in-bounds cells adjacent to it. */
  lemma NeighborsExact(rows: nat, columns: nat, i: nat)
    requires columns > 0 && i < rows * columns
    ensures forall j: nat :: j in NeighborList(rows, columns, i) <==> j < rows * columns && Adjacent(columns, i, j)
  {
    ListedAdjacent(rows, columns, i);
    forall j: nat | j < rows * columns && Adjacent(columns, i, j)
      ensures j in NeighborList(rows, columns, i)
    {
      AdjacentListed(rows, columns, i, j);
    }
  }

  /** The list runs up, down, left, right: directions strictly increase along it, so it has at most four entries. */
  lemma NeighborsInOrder(rows: nat, columns: nat, i: nat)
    requires columns > 0 && i < rows * columns
    ensures |NeighborList(rows, columns, i)| <= 4
    ensures forall a, b :: 0 <= a < b < |NeighborList(rows, columns, i)| ==>
      Direction(columns, i, NeighborList(rows, columns, i)[a]) < Direction(columns, i, NeighborList(rows, columns, i)[b])
  {
    var row, col := RowOf(columns, i), ColOf(columns, i);
    if row > 0 {
      Coordinates(columns, row - 1, col);
    }
    if row + 1 < rows {
      Coordinates(columns, row + 1, col);
    }
    if col > 0 {
      Coordinates(columns, row, col - 1);
    }
    if col + 1 < columns {
      Coordinates(columns, row, col + 1);
    }
  }

  /** Adjacency lists are symmetric: j lists i whenever i lists j. */
  lemma NeighborsSymmetric(rows: nat, columns: nat, i: nat, j: nat)
    requires columns > 0 && i < rows * columns
    requires j in NeighborList(rows, columns, i)
    ensures i in NeighborList(rows, columns, j)
  {
    NeighborsExact(rows, columns, i);
    NeighborsExact(rows, columns, j);
  }

  /** Every cell but the corner has a neighbour one hop closer to the corner. */
  lemma Predecessor(rows: nat, columns: nat, w: nat) returns (p: nat)
    requires columns > 0 && 0 < w < rows * columns
    ensures p < rows * columns
    ensures w in NeighborList(rows, columns, p)
    ensures Manhattan(columns, p) + 1 == Manhattan(columns, w)
  {
    var row, col := RowOf(columns, w), ColOf(columns, w);
    Decompose(columns, w);
    RowInRange(rows, columns, w);
    if row > 0 {
      p := Index(columns, row - 1, col);
      Coordinates(columns, row - 1, col);
      IndexInRange(rows, columns, row - 1, col);
    } else {
      p := Index(columns, row, col - 1);
      Coordinates(columns, row, col - 1);
      IndexInRange(rows, columns, row, col - 1);
    }
    NeighborsExact(rows, columns, p);
  }

  /** A set that holds the corner and is closed under neighbour lists reaches cell w. */
  lemma {:induction false} ClosedReaches(rows: nat, columns: nat, s: set<nat>, w: nat)
    requires columns > 0 && w < rows * columns && 0 in s
    requires forall v, n :: v in s && v < rows * columns && n in NeighborList(rows, columns, v) ==> n in s
    ensures w in s
    decreases Manhattan(columns, w)
  {
    if w > 0 {
      var p := Predecessor(rows, columns, w);
      ClosedReaches(rows, columns, s, p);
    }
  }

  /** The grid is connected: a set of cells holding the corner and closed under neighbour lists is the whole grid. */
  lemma ClosedIsAll(rows: nat, columns: nat, s: set<nat>)
    requires columns > 0 && 0 in s
    requires forall v :: v in s ==> v < rows * columns
    requires forall v, n :: v in s && v < rows * columns && n in NeighborList(rows, columns, v) ==> n in s
    ensures s == Cells(rows * columns)
  {
    forall w | 0 <= w < rows * columns
      ensures w in s
    {
      ClosedReaches(rows, columns, s, w);
    }
  }

  /** A move along a neighbour list changes the hop count from the corner by exactly one. */
  lemma NeighborsOneHop(rows: nat, columns: nat, i: nat)
    requires columns > 0 && i < rows * columns
    ensures forall j :: j in NeighborList(rows, columns, i) ==>
      j < rows * columns && (Manhattan(columns, j) == Manhattan(columns, i) + 1 || Manhattan(columns, j) + 1 == Manhattan(columns, i))
  {
    NeighborsExact(rows, columns, i);
  }

  /** A neighbour list stays inside the grid and never lists the cell itself. */
  lemma NeighborsInGrid(rows: nat, columns: nat, i: nat)
    requires columns > 0 && i < rows * columns
    ensures i !in NeighborList(rows, columns, i)
    ensures forall k :: 0 <= k < |NeighborList(rows, columns, i)| ==> NeighborList(rows, columns, i)[k] < rows * columns
  {
    var ns := NeighborList(rows, columns, i);
    NeighborsOneHop(rows, columns, i);
    forall k | 0 <= k < |ns|
      ensures ns[k] < rows * columns
    {
      assert ns[k] in ns;
    }
  }

  /** The far corner is the last cell, rows - 1 + columns - 1 hops from the first. */
  lemma FarCorner(rows: nat, columns: nat)
    requires rows > 0 && columns > 0
    ensures Index(columns, rows - 1, columns - 1) == rows * columns - 1
    ensures Manhattan(columns, rows * columns - 1) == rows - 1 + columns - 1
  {
    assert (rows - 1) * columns + columns == rows * columns;
    Coordinates(columns, rows - 1, columns - 1);
  }
}
