/**
 * A maze cell.  A cell refers to other cells (its neighbours, its predecessor
 * on the shortest-path tree) by flat grid index rather than by reference.
 */
module Nodes {
  import opened Grid

  datatype Option<T> = None | Some(value: T)

  /** A hop count, or the "Infinity" an unreached cell starts with. */
  datatype Distance = Fin(n: nat) | Inf

  predicate AtMost(a: Distance, b: Distance)
  {
    match (a, b)
    case (_, Inf) => true
    case (Inf, Fin(_)) => false
    case (Fin(x), Fin(y)) => x <= y
  }

  lemma AtMostTransitive(a: Distance, b: Distance, c: Distance)
    requires AtMost(a, b) && AtMost(b, c)
    ensures AtMost(a, c)
  {
  }

  predicate Below(a: Distance, b: Distance)
  {
    !AtMost(b, a)
  }

  datatype Node = Node(
    row: nat,
    column: nat,
    visited: bool,
    neighbors: seq<nat>,
    distance: Distance,
    previous: Option<nat>)

  /** A node as first built: no neighbours yet, unreached, no predecessor. */
  function NewNode(row: nat, column: nat): (n: Node)
    ensures n.row == row && n.column == column
    ensures !n.visited && n.neighbors == [] && n.distance == Inf && n.previous == None
  {
    Node(row, column, false, [], Inf, None)
  }

  /** Cell i holds its own coordinates and neighbour list. */
  ghost predicate CellShaped(rows: nat, columns: nat, g: seq<Node>, i: nat)
    requires columns > 0 && i < |g|
  {
    && g[i].row == RowOf(columns, i)
    && g[i].column == ColOf(columns, i)
    && g[i].neighbors == NeighborList(rows, columns, i)
  }

  /** The cells of a rows x columns grid, row-major, each with its own coordinates and neighbour list. */
  ghost predicate Shaped(rows: nat, columns: nat, g: seq<Node>)
  {
    && columns > 0
    && |g| == rows * columns
    && forall i :: 0 <= i < |g| ==> CellShaped(rows, columns, g, i)
  }

  /** No search has touched the cells yet. */
  ghost predicate Unsearched(g: seq<Node>)
  {
    forall i :: 0 <= i < |g| ==> g[i].distance == Inf && g[i].previous == None && !g[i].visited
  }

  /** Cell i holds a fresh node with its own coordinates. */
  ghost predicate FreshAt(columns: nat, s: seq<Node>, i: nat)
    requires columns > 0 && i < |s|
  {
    s[i] == NewNode(RowOf(columns, i), ColOf(columns, i))
  }

  /** Cell i holds a fresh node with its own coordinates and its neighbour list. */
  ghost predicate WiredAt(rows: nat, columns: nat, s: seq<Node>, i: nat)
    requires columns > 0 && i < |s|
  {
    s[i] == NewNode(RowOf(columns, i), ColOf(columns, i)).(neighbors := NeighborList(rows, columns, i))
  }

  /** The first k cells hold fresh nodes, each with its own coordinates. */
  ghost predicate Built(columns: nat, s: seq<Node>, k: nat)
    requires columns > 0
  {
    forall i :: 0 <= i < k && i < |s| ==> FreshAt(columns, s, i)
  }

  lemma BuiltStep(columns: nat, s: seq<Node>, row: nat, col: nat)
    requires col < columns && Index(columns, row, col) < |s|
    requires Built(columns, s, Index(columns, row, col))
    ensures Built(columns, s[Index(columns, row, col) := NewNode(row, col)], Index(columns, row, col) + 1)
  {
    var k := Index(columns, row, col);
    var s' := s[k := NewNode(row, col)];
    Coordinates(columns, row, col);
    forall i | 0 <= i < k + 1 && i < |s|
      ensures FreshAt(columns, s', i)
    {
      if i < k {
        assert FreshAt(columns, s, i);
      }
    }
  }

  /** Fresh nodes throughout, and the first k of them already hold their neighbour lists. */
  ghost predicate Wired(rows: nat, columns: nat, s: seq<Node>, k: nat)
    requires columns > 0
  {
    && |s| == rows * columns
    && (forall i :: 0 <= i < k && i < |s| ==> WiredAt(rows, columns, s, i))
    && (forall i :: k <= i < |s| ==> FreshAt(columns, s, i))
  }

  lemma WiredStep(rows: nat, columns: nat, s: seq<Node>, row: nat, col: nat, neighbors: seq<nat>)
    requires col < columns && Index(columns, row, col) < |s|
    requires Wired(rows, columns, s, Index(columns, row, col))
    requires neighbors == NeighborList(rows, columns, Index(columns, row, col))
    ensures Wired(rows, columns, s[Index(columns, row, col) := s[Index(columns, row, col)].(neighbors := neighbors)], Index(columns, row, col) + 1)
  {
    var k := Index(columns, row, col);
    var s' := s[k := s[k].(neighbors := neighbors)];
    Coordinates(columns, row, col);
    assert FreshAt(columns, s, k);
    forall i | 0 <= i < k + 1 && i < |s|
      ensures WiredAt(rows, columns, s', i)
    {
      if i < k {
        assert WiredAt(rows, columns, s, i);
      }
    }
    forall i | k + 1 <= i < |s|
      ensures FreshAt(columns, s', i)
    {
      assert FreshAt(columns, s, i);
    }
  }

  /** Once every cell is wired, the grid is shaped and untouched by any search. */
  lemma WiredIsShaped(rows: nat, columns: nat, s: seq<Node>)
    requires columns > 0 && Wired(rows, columns, s, |s|)
    ensures Shaped(rows, columns, s) && Unsearched(s)
  {
    forall i | 0 <= i < |s|
      ensures CellShaped(rows, columns, s, i) && s[i].distance == Inf && s[i].previous == None && !s[i].visited
    {
      assert WiredAt(rows, columns, s, i);
    }
  }

  /** Overwriting cell i with a node of the same coordinates and neighbours keeps the grid shaped. */
  lemma ShapeKept(rows: nat, columns: nat, g: seq<Node>, i: nat, x: Node)
    requires Shaped(rows, columns, g) && i < |g|
    requires x.row == g[i].row && x.column == g[i].column && x.neighbors == g[i].neighbors
    ensures Shaped(rows, columns, g[i := x])
  {
    var g' := g[i := x];
    forall j | 0 <= j < |g|
      ensures CellShaped(rows, columns, g', j)
    {
      assert CellShaped(rows, columns, g, j);
    }
  }

}
