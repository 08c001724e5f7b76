/**
 * The maze object: a rows x columns grid of nodes, a start node (the top-left
 * corner) and an end node (the bottom-right corner), with the three steps run
 * on it in sequence: build the grid, carve the maze by a randomized
 * depth-first traversal, and find the shortest start-to-end path.
 */
module Mazes {
  import opened Grid
  import opened Nodes
  import opened Generation
  import opened PathFinder

  class Maze {
    const rows: nat
    const columns: nat
    /** The nodes, row-major: the node at (row, col) is grid[row * columns + col]. */
    var grid: array<Node>
    var startNode: nat
    var endNode: nat

    /**
     * The maze's invariant: a non-empty grid stored row-major, the start node at
     * the top-left and the end node at the bottom-right cell, and every node
     * holding its own coordinates and neighbour list.
     */
    ghost predicate Valid()
      reads this, grid
    {
      && rows > 0 && columns > 0
      && grid.Length == rows * columns
      && startNode == 0
      && endNode == rows * columns - 1
      && Shaped(rows, columns, grid[..])
    }

    /** A fresh maze: every node built and linked to its neighbours, none reached yet. */
    constructor (rows: nat, columns: nat)
      requires rows > 0 && columns > 0
      ensures this.rows == rows && this.columns == columns
      ensures Valid() && fresh(grid)
      ensures Unsearched(grid[..])
      ensures startNode == Index(columns, 0, 0) && endNode == Index(columns, rows - 1, columns - 1)
    {
      this.rows := rows;
      this.columns := columns;
      grid := new Node[0];
      startNode, endNode := 0, 0;
      new;
      Initialize();
    }

    /**
     * Builds the nodes, gives each its neighbour list, and fixes the two corners
     * as start and end.  It is called once, from the constructor, on the empty
     * grid the constructor has just set up.
     */
    method Initialize()
      requires rows > 0 && columns > 0
      requires grid.Length == 0
      modifies this
      ensures Valid() && fresh(grid)
      ensures Unsearched(grid[..])
      ensures startNode == Index(columns, 0, 0) && endNode == Index(columns, rows - 1, columns - 1)
    {
      var nodes := new Node[rows * columns];
      // One fresh node per cell, row by row
      for row := 0 to rows
        invariant Built(columns, nodes[..], row * columns)
      {
        for col := 0 to columns
          invariant Built(columns, nodes[..], row * columns + col)
        {
          IndexInRange(rows, columns, row, col);
          BuiltStep(columns, nodes[..], row, col);
          nodes[Index(columns, row, col)] := NewNode(row, col);
        }
        assert row * columns + columns == (row + 1) * columns;
      }

      // Connect nodes with their neighbours
      for row := 0 to rows
        invariant Wired(rows, columns, nodes[..], row * columns)
      {
        for col := 0 to columns
          invariant Wired(rows, columns, nodes[..], row * columns + col)
        {
          IndexInRange(rows, columns, row, col);
          var currentNode := nodes[Index(columns, row, col)];
          var neighbors := NeighborsOf(row, col);
          WiredStep(rows, columns, nodes[..], row, col, neighbors);
          nodes[Index(columns, row, col)] := currentNode.(neighbors := neighbors);
        }
        assert row * columns + columns == (row + 1) * columns;
      }
      WiredIsShaped(rows, columns, nodes[..]);

      grid := nodes;
      startNode := Index(columns, 0, 0);
      FarCorner(rows, columns);
      endNode := Index(columns, rows - 1, columns - 1);
    }

    /**
     * The neighbour list of the node at (row, col), pushed in the order up,
     * down, left, right, each only when it lies inside the grid.
     */
    method NeighborsOf(row: nat, col: nat) returns (neighbors: seq<nat>)
      requires row < rows && col < columns
      ensures neighbors == NeighborList(rows, columns, Index(columns, row, col))
    {
      Coordinates(columns, row, col);
      neighbors := [];
      if row > 0 {
        neighbors := neighbors + [Index(columns, row - 1, col)];
      }
      if row < rows - 1 {
        neighbors := neighbors + [Index(columns, row + 1, col)];
      }
      if col > 0 {
        neighbors := neighbors + [Index(columns, row, col - 1)];
      }
      if col < columns - 1 {
        neighbors := neighbors + [Index(columns, row, col + 1)];
      }
    }

    /**
     * The randomized depth-first traversal that carves the maze.  It changes no
     * field of the maze or of any node (it has no modifies clause); the visited
     * set it ends with is returned, together with the order in which cells were
     * first visited and, for each cell but the start, the cell it was carved from.
     */
    method GenerateMaze() returns (visitedNodes: set<nat>, ghost order: seq<nat>, ghost parent: map<nat, nat>)
      requires Valid()
      ensures forall v :: v in visitedNodes <==> 0 <= v < rows * columns
      ensures Carved(rows, columns, startNode, visitedNodes, order, parent)
    {
      var stack: seq<nat> := [];
      visitedNodes := {};
      var currentNode := startNode;
      visitedNodes := visitedNodes + {currentNode};
      order, parent := [currentNode], map[];

      while |visitedNodes| < rows * columns
        invariant Traversal(rows, columns, visitedNodes, currentNode, stack)
        invariant Carved(rows, columns, startNode, visitedNodes, order, parent)
        decreases 2 * (rows * columns - |visitedNodes|) + |stack|
      {
        DfsNotStuck(rows, columns, visitedNodes, currentNode, stack);
        assert CellShaped(rows, columns, grid[..], currentNode);
        var unvisitedNeighbors := UnvisitedNeighbors(grid[currentNode].neighbors, visitedNodes);
        if |unvisitedNeighbors| > 0 {
          // Math.random: any index into the unvisited neighbours
          var pick :| 0 <= pick < |unvisitedNeighbors|;
          var randomNeighbor := unvisitedNeighbors[pick];
          TraversalAfterPush(rows, columns, visitedNodes, currentNode, stack, randomNeighbor);
          CarvedAfterPush(rows, columns, startNode, visitedNodes, order, parent, currentNode, randomNeighbor);
          visitedNodes := visitedNodes + {randomNeighbor};
          stack := stack + [currentNode];
          order, parent := order + [randomNeighbor], parent[randomNeighbor := currentNode];
          currentNode := randomNeighbor;
        } else if |stack| > 0 {
          TraversalAfterPop(rows, columns, visitedNodes, currentNode, stack);
          currentNode := stack[|stack| - 1];
          stack := stack[..|stack| - 1];
        }
      }
      SubsetOfCells(visitedNodes, rows * columns);
    }

    /**
     * Dijkstra's search with unit edge weights from the start node, followed by
     * the walk back along the predecessor links from the end node.  Run on a
     * freshly built maze, every node ends at its hop count row + column and the
     * path returned runs from start to end through neighbours in
     * rows + columns - 1 steps (the fewest possible, by NoShorterWalk).
     */
    method FindShortestPath() returns (shortestPath: seq<nat>)
      requires Valid() && Unsearched(grid[..])
      modifies grid
      ensures Valid()
      ensures forall i :: 0 <= i < grid.Length ==> grid[i].distance == Fin(grid[i].row + grid[i].column)
      ensures |shortestPath| == rows + columns - 1
      ensures shortestPath[0] == startNode && shortestPath[|shortestPath| - 1] == endNode
      ensures IsWalk(rows, columns, shortestPath)
      ensures forall k :: 0 <= k < |shortestPath| - 1 ==> shortestPath[k + 1] in grid[shortestPath[k]].neighbors
      ensures forall w :: IsWalk(rows, columns, w) && |w| > 0 && w[0] == startNode && w[|w| - 1] == endNode ==> |shortestPath| <= |w|
      ensures grid[startNode].previous == None
      ensures forall i :: 0 <= i < grid.Length && i != startNode ==>
        && grid[i].previous.Some? && grid[i].previous.value < grid.Length
        && i in grid[grid[i].previous.value].neighbors
        && grid[grid[i].previous.value].row + grid[grid[i].previous.value].column + 1 == grid[i].row + grid[i].column
      ensures forall i :: 0 <= i < grid.Length ==> grid[i].visited == old(grid[i].visited)
    {
      var unvisitedNodes := StartSearch();
      Search(unvisitedNodes);
      shortestPath := Backtrack();
      forall i | 0 <= i < grid.Length && i != startNode
        ensures grid[i].previous.Some? && grid[i].previous.value < grid.Length
        ensures i in grid[grid[i].previous.value].neighbors
        ensures grid[grid[i].previous.value].row + grid[grid[i].previous.value].column + 1 == grid[i].row + grid[i].column
      {
        BackLink(rows, columns, grid[..], i);
        assert CellShaped(rows, columns, grid[..], i);
        assert CellShaped(rows, columns, grid[..], grid[i].previous.value);
      }
      BackLink(rows, columns, grid[..], startNode);
      forall w | IsWalk(rows, columns, w) && |w| > 0 && w[0] == startNode && w[|w| - 1] == endNode
        ensures |shortestPath| <= |w|
      {
        NoShorterWalk(rows, columns, w);
      }
    }

    /**
     * The set-up of the search: every node is unvisited, and the start node is at
     * distance 0.
     */
    method StartSearch() returns (unvisitedNodes: set<nat>)
      requires Valid() && Unsearched(grid[..])
      modifies grid
      ensures forall i :: i in unvisitedNodes <==> 0 <= i < grid.Length
      ensures grid[..] == old(grid[..])[startNode := old(grid[startNode]).(distance := Fin(0))]
      ensures Valid() && SearchInv(rows, columns, grid[..], unvisitedNodes)
    {
      unvisitedNodes := {};
      for i := 0 to grid.Length
        invariant forall j :: j in unvisitedNodes <==> 0 <= j < i
      {
        unvisitedNodes := unvisitedNodes + {i};
      }

      SearchStarts(rows, columns, grid[..], unvisitedNodes);
      grid[startNode] := grid[startNode].(distance := Fin(0));
    }

    /**
     * The main loop of the search: settle an unvisited node of least distance,
     * stop if even that one is unreachable, and otherwise relax its neighbours,
     * until no node is left unvisited.
     */
    method Search(unvisitedNodes: set<nat>)
      requires Valid() && SearchInv(rows, columns, grid[..], unvisitedNodes)
      modifies grid
      ensures Valid() && SearchInv(rows, columns, grid[..], {})
      ensures forall i :: 0 <= i < grid.Length ==> grid[i].distance == Fin(grid[i].row + grid[i].column)
      ensures forall i :: 0 <= i < grid.Length ==> grid[i].visited == old(grid[i].visited)
    {
      var unvisited := unvisitedNodes;
      while unvisited != {}
        invariant Valid()
        invariant SearchInv(rows, columns, grid[..], unvisited)
        invariant forall i :: 0 <= i < grid.Length ==> grid[i].visited == old(grid[i].visited)
        decreases unvisited
      {
        var closestNode := ClosestNode(unvisited);
        SettleExact(rows, columns, grid[..], unvisited, closestNode);
        unvisited := unvisited - {closestNode};

        if grid[closestNode].distance == Inf {
          break;
        }

        ghost var settled := grid[..];
        RoundComplete(rows, columns, settled, unvisited, closestNode);
        assert CellShaped(rows, columns, settled, closestNode);
        RelaxNeighbors(closestNode);
      }
      SearchDone(rows, columns, grid[..]);
    }

    /**
     * Sorting the unvisited nodes by distance and shifting off the first: some
     * unvisited node whose distance is least (which one, among equals, is left open).
     */
    method ClosestNode(unvisitedNodes: set<nat>) returns (closestNode: nat)
      requires unvisitedNodes != {}
      requires forall u :: u in unvisitedNodes ==> u < grid.Length
      ensures closestNode in unvisitedNodes
      ensures forall u :: u in unvisitedNodes ==> AtMost(grid[closestNode].distance, grid[u].distance)
    {
      ghost var least := MinExists(grid[..], unvisitedNodes);
      assert forall u :: u in unvisitedNodes ==> AtMost(grid[least].distance, grid[u].distance);
      closestNode :| closestNode in unvisitedNodes
        && forall u :: u in unvisitedNodes ==> AtMost(grid[closestNode].distance, grid[u].distance);
    }

    /**
     * One round of relaxation out of the node just settled, which is reached:
     * each neighbour whose distance is above closestNode's plus one gets that
     * distance and closestNode as its predecessor, neighbour by neighbour in list
     * order.
     */
    method RelaxNeighbors(closestNode: nat)
      requires closestNode < grid.Length && grid[closestNode].distance.Fin?
      requires forall k :: 0 <= k < |grid[closestNode].neighbors| ==> grid[closestNode].neighbors[k] < grid.Length
      modifies grid
      ensures grid[..] == RelaxAll(old(grid[..]), closestNode, old(grid[closestNode].neighbors))
    {
      var neighbors := grid[closestNode].neighbors;
      ghost var initial := grid[..];
      for i := 0 to |neighbors|
        invariant grid[..] == RelaxAll(initial, closestNode, neighbors[..i])
      {
        ghost var before := grid[..];
        var neighbor := neighbors[i];
        var tentativeDistance := grid[closestNode].distance.n + 1;
        if Below(Fin(tentativeDistance), grid[neighbor].distance) {
          grid[neighbor] := grid[neighbor].(distance := Fin(tentativeDistance), previous := Some(closestNode));
        }
        assert grid[..] == RelaxEdge(before, closestNode, neighbor);
        assert neighbors[..i + 1][..i] == neighbors[..i];
      }
      assert neighbors[..|neighbors|] == neighbors;
    }

    /**
     * The walk back from the end node along predecessor links, after a complete
     * search: the path from start to end, each step to a neighbour, one node per
     * hop plus the start.
     */
    method Backtrack() returns (shortestPath: seq<nat>)
      requires Valid() && SearchInv(rows, columns, grid[..], {})
      ensures |shortestPath| == rows + columns - 1
      ensures shortestPath[0] == startNode && shortestPath[|shortestPath| - 1] == endNode
      ensures IsWalk(rows, columns, shortestPath)
      ensures forall k :: 0 <= k < |shortestPath| - 1 ==> shortestPath[k + 1] in grid[shortestPath[k]].neighbors
    {
      FarCorner(rows, columns);
      shortestPath := [];
      var current: nat := endNode;
      while grid[current].previous.Some?
        invariant current < grid.Length
        invariant |shortestPath| + Manhattan(columns, current) == Manhattan(columns, endNode)
        invariant IsWalk(rows, columns, shortestPath)
        invariant shortestPath == [] ==> current == endNode
        invariant shortestPath != [] ==> shortestPath[|shortestPath| - 1] == endNode && shortestPath[0] in NeighborList(rows, columns, current)
        decreases Manhattan(columns, current)
      {
        BackLink(rows, columns, grid[..], current);
        WalkPrepend(rows, columns, current, shortestPath);
        shortestPath := [current] + shortestPath;
        current := grid[current].previous.value;
      }
      BackLink(rows, columns, grid[..], current);
      WalkPrepend(rows, columns, current, shortestPath);
      shortestPath := [startNode] + shortestPath;
      WalkThroughGrid(rows, columns, grid[..], shortestPath);
    }
  }
}
