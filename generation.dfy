/**
 * Facts behind the randomized depth-first traversal that carves the maze:
 * the neighbour filter it uses, and the reason it can never spin in place.
 */
module Generation {
  import opened Grid

  /** The neighbours in ns that are not yet in visited. */
  function UnvisitedNeighbors(ns: seq<nat>, visited: set<nat>): (r: seq<nat>)
    ensures forall x :: x in r <==> x in ns && x !in visited
    ensures |r| <= |ns|
  {
    if ns == [] then []
    else (if ns[0] in visited then [] else [ns[0]]) + UnvisitedNeighbors(ns[1..], visited)
  }

  /** Every visited cell other than the current one and those on the stack has no unvisited neighbour left. */
  ghost predicate Exhausted(rows: nat, columns: nat, visited: set<nat>, current: nat, stack: seq<nat>)
    requires columns > 0
  {
    forall v, n :: v in visited && v < rows * columns && v != current && v !in stack && n in NeighborList(rows, columns, v) ==> n in visited
  }

  /**
   * The traversal's bookkeeping: the visited cells are cells of the grid and
   * include the corner and the current cell, the stack holds visited cells, and
   * the cells that are neither current nor stacked are exhausted.
   */
  ghost predicate Traversal(rows: nat, columns: nat, visited: set<nat>, current: nat, stack: seq<nat>)
    requires columns > 0
  {
    && (forall v :: v in visited ==> v < rows * columns)
    && 0 in visited && current in visited
    && (forall k :: 0 <= k < |stack| ==> stack[k] in visited)
    && Exhausted(rows, columns, visited, current, stack)
  }

  /**
   * While some cell is unvisited, the traversal has a move: the current cell has an
   * unvisited neighbour, or there is a cell to backtrack to.  (Otherwise the visited
   * set would be closed under neighbour lists, hence the whole connected grid.)
   */
  lemma DfsNotStuck(rows: nat, columns: nat, visited: set<nat>, current: nat, stack: seq<nat>)
    requires columns > 0 && Traversal(rows, columns, visited, current, stack)
    requires |visited| < rows * columns
    ensures |stack| > 0 || exists n :: n in NeighborList(rows, columns, current) && n !in visited
  {
    if |stack| == 0 && forall n :: n in NeighborList(rows, columns, current) ==> n in visited {
      ClosedIsAll(rows, columns, visited);
      assert false;
    }
  }

  /** Moving forward to an unvisited neighbour n keeps the bookkeeping: the old current cell goes on the stack. */
  lemma TraversalAfterPush(rows: nat, columns: nat, visited: set<nat>, current: nat, stack: seq<nat>, n: nat)
    requires columns > 0 && Traversal(rows, columns, visited, current, stack)
    requires n in NeighborList(rows, columns, current)
    ensures Traversal(rows, columns, visited + {n}, n, stack + [current])
  {
    NeighborsOneHop(rows, columns, current);
    forall v, x | v in visited + {n} && v < rows * columns && v != n && v !in stack + [current] && x in NeighborList(rows, columns, v)
      ensures x in visited + {n}
    {
      assert v in visited && v != current && v !in stack;
    }
  }

  /** Backtracking from a cell with no unvisited neighbour keeps the bookkeeping. */
  lemma TraversalAfterPop(rows: nat, columns: nat, visited: set<nat>, current: nat, stack: seq<nat>)
    requires columns > 0 && |stack| > 0
    requires Traversal(rows, columns, visited, current, stack)
    requires forall x :: x in NeighborList(rows, columns, current) ==> x in visited
    ensures Traversal(rows, columns, visited, stack[|stack| - 1], stack[..|stack| - 1])
  {
  }

  /** The k-th cell of the visiting order was carved from a neighbour visited before it. */
  ghost predicate CarvedAt(rows: nat, columns: nat, order: seq<nat>, parent: map<nat, nat>, k: nat)
    requires columns > 0 && k < |order|
  {
    && order[k] in parent
    && parent[order[k]] in order[..k]
    && order[k] in NeighborList(rows, columns, parent[order[k]])
  }

  /**
   * The traversal's record of the carving: `order` lists the visited cells once
   * each, start first, and every later cell was carved from an earlier
   * neighbour, its `parent`.
   */
  ghost predicate Carved(rows: nat, columns: nat, start: nat, visited: set<nat>, order: seq<nat>, parent: map<nat, nat>)
    requires columns > 0
  {
    && |order| == |visited| && |order| > 0 && order[0] == start
    && (forall v :: v in visited <==> v in order)
    && (forall a, b :: 0 <= a < b < |order| ==> order[a] != order[b])
    && parent.Keys == visited - {start}
    && (forall k :: 1 <= k < |order| ==> CarvedAt(rows, columns, order, parent, k))
  }

  /** Carving a passage from the current cell to a fresh neighbour n extends the record by n. */
  lemma CarvedAfterPush(rows: nat, columns: nat, start: nat, visited: set<nat>, order: seq<nat>, parent: map<nat, nat>, current: nat, n: nat)
    requires columns > 0 && Carved(rows, columns, start, visited, order, parent)
    requires current in visited && n !in visited && n in NeighborList(rows, columns, current)
    ensures Carved(rows, columns, start, visited + {n}, order + [n], parent[n := current])
  {
    var order', parent' := order + [n], parent[n := current];
    forall k | 1 <= k < |order'|
      ensures CarvedAt(rows, columns, order', parent', k)
    {
      if k < |order| {
        assert CarvedAt(rows, columns, order, parent, k);
        assert order'[..k] == order[..k];
        assert order[k] != n;
      } else {
        assert order'[..k] == order;
      }
    }
  }
}
