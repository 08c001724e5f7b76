# Maze generation and shortest path (ComplexCode.js), modelled in Dafny

`ComplexCode.js` builds a rectangular maze of `rows x columns` cells and works on it in two steps.

- **Construction.** A `Maze` fills its grid with `Node`s. Each node starts unvisited, with no neighbours, at distance `Infinity` and with no predecessor. Each node then gets its neighbour list: the in-bounds cells above, below, left and right of it, in that order. The start node is the top-left cell and the end node is the bottom-right cell.
- **`generateMaze`.** This is a randomized depth-first traversal that carves passages from the start node, although a comment calls it Prim's algorithm. It keeps a stack and a visited set, and stops once every cell has been visited. It does not change any node's neighbour list; the carving exists only in the order of the traversal.
- **`findShortestPath`.** This is Dijkstra's algorithm with unit edge weights from the start node. On each round it sorts the unvisited nodes by distance and takes the first one. It stops if that node is at `Infinity`, and otherwise relaxes each neighbour to the node's distance plus one. Afterwards it walks back from the end node along the `previous` links and puts the start node in front.

## How the model is laid out

- `grid.dfy` (module `Grid`) holds the lattice behind the maze:
  - cells are numbered row-major, `row * columns + column`;
  - `NeighborList` is the neighbour list the maze gives a cell;
  - the lemmas cover coordinates, the neighbour lists and the grid's connectivity.
- `nodes.dfy` (module `Nodes`) holds the `Node` record and the `Distance` type.
  - `Fin(n)` is a hop count and `Inf` stands for JavaScript's `Infinity`.
  - The predicates here say that a grid of nodes is *shaped*: each node holds its own coordinates and neighbour list.
- `generation.dfy` (module `Generation`) holds the facts behind the depth-first traversal:
  - the neighbour filter;
  - the traversal's bookkeeping, and why it always has a move;
  - the record of which cell was carved from which.
- `pathfinder.dfy` (module `PathFinder`) holds the search:
  - the invariant of the search loop;
  - the edge relaxation as a function on a snapshot of the grid;
  - the lemmas that the chosen node is always exact, that a round restores the invariant, and that no walk is shorter than the path returned.
- `maze.dfy` (module `Mazes`) holds the class `Maze`, with the source's fields. The `grid` field is an `array<Node>` that the methods update in place. Node references are flat indices into it, and `startNode` and `endNode` are indices too. `findShortestPath` is split into the steps it performs, each a method with its own contract: `StartSearch`, `Search`, `ClosestNode`, `RelaxNeighbors` and `Backtrack`.

The main results are these:

- After construction, every node holds its own coordinates and its exact neighbour list. That list is symmetric, in up/down/left/right order, and has at most four entries.
- `GenerateMaze` always terminates and visits every cell. It carves a spanning tree: every cell but the start was entered from an earlier neighbour.
- On a freshly built maze, `FindShortestPath` leaves every node at distance `row + column`. The path it returns:
  - runs from start to end through neighbours;
  - has `rows + columns - 1` entries;
  - is at least as short as every other walk from start to end.
- For a 1 x 1 maze the path is `[startNode]`.

## Model

| member | source | states |
|---|---|---|
| Mazes.Maze.constructor | ComplexCode.js:7-36 | A new maze holds rows x columns fresh nodes: each has its own coordinates, is unvisited, at Infinity and has no predecessor, and its neighbour list is exactly the in-bounds cells next to it. The start is the top-left cell and the end is the bottom-right cell. |
| Mazes.Maze.Initialize | ComplexCode.js:28-56 | Called on the empty grid the constructor sets up, both nested loops together leave the grid shaped and unsearched, with start and end at the two corners. The loop invariants carry "cells before this one are built" and "cells before this one are wired". |
| Nodes.NewNode | ComplexCode.js:8-15 | A new node has the given row and column, is unvisited, has no neighbours, is at Infinity and has no predecessor. |
| Grid.NeighborList | ComplexCode.js:42-47 | The neighbour list of a cell has at most four entries. Its meaning is proved by NeighborsExact, NeighborsInOrder and NeighborsSymmetric. |
| Mazes.Maze.NeighborsOf | ComplexCode.js:42-47 | The four conditional pushes produce the cell's neighbour list: up, down, left, right, each only when inside the grid. |
| Grid.NeighborsExact | ComplexCode.js:39-50 | A cell's neighbour list holds exactly the in-bounds cells that differ from it by one step in one coordinate. This covers both directions. |
| Grid.NeighborsInOrder | ComplexCode.js:44-47 | A neighbour list has at most four entries, and its entries run up, down, left, right in strictly increasing direction. |
| Grid.NeighborsSymmetric | ComplexCode.js:44-47 | If j is on i's list then i is on j's list. |
| Grid.NeighborsInGrid | ComplexCode.js:44-47 | Every listed neighbour is a cell of the grid, and no cell lists itself. |
| Grid.FarCorner | ComplexCode.js:54-55 | The end node is the last cell, rows * columns - 1, and lies rows - 1 + columns - 1 hops from the start. |
| Mazes.Maze.GenerateMaze | ComplexCode.js:58-82 | The traversal terminates for every choice of random neighbour. It leaves the maze unchanged and ends with exactly the cells of the grid visited. It returns the visiting order and parent map of a spanning tree: distinct cells, start first, each later cell entered from an earlier neighbour. |
| Generation.UnvisitedNeighbors | ComplexCode.js:66-68 | The filter keeps exactly the neighbours that are not visited, and no more entries than the list has. |
| Generation.DfsNotStuck | ComplexCode.js:65-81 | While some cell is unvisited, the current cell has an unvisited neighbour or the stack is non-empty. Every loop iteration therefore makes progress. |
| Generation.TraversalAfterPush | ComplexCode.js:70-77 | Stepping to an unvisited neighbour keeps the bookkeeping: visited cells are in the grid, the stack holds visited cells, and any cell neither current nor stacked has no unvisited neighbour. |
| Generation.TraversalAfterPop | ComplexCode.js:78-80 | Backtracking from a cell with no unvisited neighbour keeps the same bookkeeping. |
| Generation.CarvedAfterPush | ComplexCode.js:70-77 | Visiting a fresh neighbour extends the spanning-tree record by that cell, with the current cell as its parent. |
| Grid.ClosedIsAll | ComplexCode.js:65 | The grid is connected: a set of cells that holds the start and is closed under neighbour lists is every cell. |
| Grid.SubsetOfCells | ComplexCode.js:65 | A set of cells has at most rows * columns members. It is the whole grid once it reaches that size, which is the exit test of the traversal. |
| Grid.Predecessor | ComplexCode.js:44-47 | Every cell but the start has a neighbour one hop closer to the start. |
| Mazes.Maze.FindShortestPath | ComplexCode.js:84-120 | On a freshly built maze, every node ends at distance row + column. The path starts at the start node and ends at the end node, each step goes to a node on the previous one's neighbour list, and it has rows + columns - 1 entries. No walk from start to end is shorter. The start node has no predecessor, and every other node's predecessor is a node whose neighbour list holds it, one hop (row + column) closer to the start. No node's `visited` flag changes. |
| Mazes.Maze.StartSearch | ComplexCode.js:86-93 | Every node is put in the unvisited collection, and only the start node changes, to distance 0. The search invariant then holds. |
| Mazes.Maze.Search | ComplexCode.js:95-108 | Each round settles a node of least distance, removes it, and relaxes its neighbours; each node is removed at most once. The loop keeps the search invariant and ends with every node at its hop count from the start. No node's `visited` flag changes. |
| Mazes.Maze.ClosestNode | ComplexCode.js:96-97 | The node taken is an unvisited node whose distance is at most that of every unvisited node. |
| PathFinder.MinExists | ComplexCode.js:96-97 | Every non-empty set of unvisited nodes has a node of least distance. |
| PathFinder.Frontier | ComplexCode.js:95-99 | Between rounds, every unvisited node has an unvisited node at most as many hops from the start whose distance is already exact. |
| PathFinder.SettleExact | ComplexCode.js:96-99 | The node of least distance already holds its exact hop count. The check for Infinity therefore never stops a search on a freshly built maze, and settling the node starts a round. |
| PathFinder.RelaxEdge | ComplexCode.js:102-106 | Relaxing the edge from the settled node c to n changes only n. Its distance becomes the smaller of its old distance and c's distance plus one. It changes exactly when that is a strict improvement, and then c becomes its predecessor. |
| PathFinder.RelaxAll | ComplexCode.js:101-107 | Relaxing the edges to a list of neighbours, one after the other, changes no node off the list and no node's row, column, `visited` flag or neighbour list. The settled node itself is unchanged. |
| Mazes.Maze.RelaxNeighbors | ComplexCode.js:101-107 | The loop leaves the grid as the in-order relaxation of every edge from the settled node to its neighbours. |
| PathFinder.RelaxChanges | ComplexCode.js:102-106 | Relaxing one edge changes only a neighbour that is not the start and not yet settled, and only when it strictly improves. |
| PathFinder.RelaxKeepsProgress | ComplexCode.js:102-106 | One relaxation keeps the invariant: distances never drop below hop counts, settled nodes stay exact, predecessor links are neighbour steps one hop back, and reached nodes have predecessors. |
| PathFinder.RelaxKeepsRelaxed | ComplexCode.js:102-106 | One relaxation keeps every node that was already relaxed relaxed. |
| PathFinder.RelaxStep | ComplexCode.js:102-106 | One relaxation keeps the grid shaped and the round's invariant, never raises a distance, and leaves the neighbour at most one hop beyond the settled node. |
| PathFinder.RelaxRound | ComplexCode.js:101-107 | Relaxing any sequence of the settled node's neighbours keeps the round's invariant. Distances only decrease, each relaxed neighbour ends within one hop of the settled node, and every other node is unchanged. |
| PathFinder.RoundComplete | ComplexCode.js:101-107 | A full round over the neighbour list restores the search invariant. It raises no distance and changes no node off the list. |
| PathFinder.RoundEnds | ComplexCode.js:101-107 | Once the settled node's neighbours are all within one hop of it, the round's invariant becomes the search invariant. |
| PathFinder.SearchStarts | ComplexCode.js:86-93 | Setting the start node's distance to 0 on an unsearched grid gives the search invariant, with every node unvisited. |
| PathFinder.SearchDone | ComplexCode.js:95-108 | When no node is left unvisited, every node holds distance row + column. |
| Mazes.Maze.Backtrack | ComplexCode.js:110-119 | The walk back from the end node along predecessor links terminates. Putting the start node in front gives a walk from start to end through the nodes' own neighbour lists, with rows + columns - 1 entries. |
| PathFinder.BackLink | ComplexCode.js:113-116 | After the search, a node has a predecessor exactly when it is not the start. That predecessor is a neighbour one hop closer to the start. |
| PathFinder.WalkPrepend | ComplexCode.js:114 | Putting a cell in front of a walk that starts at one of its neighbours gives a walk. |
| PathFinder.WalkThroughGrid | ComplexCode.js:113-117 | On a shaped grid, a walk steps through the nodes' own neighbour lists. |
| PathFinder.WalkFromCorner | ComplexCode.js:110-119 | Any walk from the start to a cell has at least that cell's hop count plus one entries. |
| PathFinder.NoShorterWalk | ComplexCode.js:110-119 | No walk from the start node to the end node has fewer than rows + columns - 1 entries, so the path returned is shortest. |
| Nodes.BuiltStep | ComplexCode.js:30-36 | Placing a fresh node at the next cell extends the prefix of built cells by one. |
| Nodes.WiredStep | ComplexCode.js:39-50 | Giving the next cell its neighbour list extends the prefix of wired cells by one and leaves the rest fresh. |
| Nodes.WiredIsShaped | ComplexCode.js:39-50 | Once every cell is wired, the grid is shaped and no search has touched it. |
| Nodes.ShapeKept | ComplexCode.js:104-105 | Changing only a node's distance or predecessor keeps the grid shaped. |

## Left out

- Console output and the usage example (ComplexCode.js:123-131) are not modelled.
- `Math.random` (line 73) is modelled as a free choice of an index into the unvisited neighbours. Every result holds for every sequence of choices.
- `Mazes.Maze.ClosestNode` does not model the sort comparator. The model takes some unvisited node of least distance, and does not fix which one among equals. With JavaScript's `sort`, `Infinity - Infinity` is `NaN`, so nodes at Infinity compare as equal, and a node of least distance still comes first. Which equal node comes first is left open.
- The grid is a flat row-major array, not an array of row arrays. Node references are indices: `neighbors`, `previous`, `startNode` and `endNode`.
- The unvisited collection of the search is a set rather than an array that is sorted and shifted. Removing the node taken is removing it from the set, so each node is removed at most once.
- `Infinity` is the `Inf` case of `Distance`. Distances are unbounded naturals. Floating point is not modelled, and no distance in a grid comes near 2^53.
- `Mazes.Maze.Initialize` requires the empty grid the constructor sets up, because the constructor is its only caller. A second call in the source would push a second set of rows onto the existing grid, and that is not modelled.
- `Mazes.Maze.constructor` requires `rows >= 1` and `columns >= 1`. With `rows = 0` the source fails on `this.grid[0][0]` (line 54). With `columns = 0` it leaves the start and end undefined, and a later search fails.
- `Mazes.Maze.FindShortestPath` requires a maze that no search has touched (every node at Infinity, no predecessor), as after construction. The code does not reset distances or predecessors before a search. The model follows the code. A second search on the same maze is therefore not modelled. In the code it would find every node already at its final distance and return the same path.
- The `visited` field of a node is never read or written after construction, and the model carries it unchanged.
- `Mazes.Maze.GenerateMaze` returns its visited set, together with a ghost visiting order and parent map, so that its contract can say what the traversal did. The source returns nothing, and the set is local to it. Because the carving changes no neighbour list, the later search runs on the full grid.
- The check for Infinity in the search (line 99) is modelled, but it never fires on a built maze: the grid is connected, so the node taken is always reached. A grid with unreachable cells cannot be built by this code and is not modelled.
