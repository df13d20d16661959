# 8-puzzle solver, modelled in Dafny

This project models the solver in `puzzle.ts` and its compiled twin `puzzle.js`. The solver works on the 3x3 sliding puzzle: the blank (0) slides up, down, left or right. Two searches look for a sequence of moves from a start board to a goal board:

- `bfs` searches breadth-first.
- `greedy` searches best-first, ordered by the Manhattan-distance heuristic.

A replay routine, `applyMoves`, follows a list of moves from a board.

The model has six modules:

- `Board` (board.dfy) holds the boards and the moves.
  - A board is a sequence of 9 cells in row-major order. That sequence is also the board's identity. The source keys its visited set with `JSON.stringify` of the board; the model uses the board itself.
  - `FindEmpty` and `MoveTile` are methods that mirror the source's scanning loops and its in-place swap on a cloned grid.
  - `FindEmpty` is proved to return the first blank cell in row-major order. `MoveTile` is proved equal to the specification function `Step`, and a lemma states which cell `Step` swaps the blank with for each direction.
  - `Next` is the board one legal move away, and `Run` is the board reached by a path whose every move is legal.
- `Replay` (replay.dfy) models `applyMoves` as a left fold `Apply` that skips blocked moves. The method `ApplyMoves` is proved equal to it.
- `Heuristic` (heuristic.dfy) models `manhattanDistance`.
  - The method `ManhattanDistance` has the source's four nested loops.
  - Its value `Manhattan` is the sum, over the non-blank cells, of the distances to the goal cells holding the same tile.
  - For valid boards (one blank and each of the tiles 1-8 once) it is proved equal to the per-tile sum of taxicab distances and to be at most 24. For valid boards it is also proved to change by at most one per move, so it never exceeds the length of any solution. A board with a repeated tile is outside these lemmas, because there the source counts a tile once for each goal cell that holds it.
- `Search` (search.dfy) holds what both searches share:
  - the node;
  - the move order;
  - the parent chain and `reconstructPath`;
  - the children one expansion creates, as a fold `Children` over the moves;
  - the search tree;
  - the visited index;
  - the finite set of boards that bounds both searches.
  Source nodes point to their parents by reference. Here, nodes live in an arena (`seq<Node>`) and a parent is an arena index.
- `Bfs` (bfs.dfy) models `bfs`. The queue is the suffix of the arena starting at `head`, because every node is appended to the arena and to the queue at the same moment.
- `Greedy` (greedy.dfy) models `greedy`.
  - The open list is a sequence of arena indices.
  - Every round sorts it in place by cost with a stable sort and shifts off its first element.

In the source, a board without a blank makes `findEmpty` throw. The model turns that into the error value `Err(MissingBlank)`, and every operation and both searches are total: they have no preconditions on their inputs. Both searches are proved to terminate. The measure is the number of boards over the start's cell values that are not yet visited, then the length of the queue or open list.

Both searches return a ghost `tree`: the arena of all nodes created. Their contracts state what the source promises:

- **Errors.** The result is an error exactly when the start is not the goal and has no blank.
- **Start equals goal.** The result is the empty path.
- **Returned paths.** Every move of a returned path is legal, and replaying it reaches the goal.
- **BFS paths are shortest.** No path to the goal is shorter than the one BFS returns.
- **No solution.** The search returns `null` (`None`) exactly when no path reaches the goal.
- **The tree.** The tree is a search tree rooted at the start, with no board held twice. In greedy, every node's cost is the Manhattan distance of its board.

Two points about the searches as the code has them:

- **Greedy is complete.** The visited set acts as a closed set on a finite board graph, so `greedy` returns `null` only when the goal is unreachable. `Greedy.Greedy` proves this. No bound on the length of a greedy path is stated.
- **Sort tie-breaking.** `Array.prototype.sort` is stable. The sort is therefore modelled exactly, as a stable insertion sort. Its sorted output is kept as the open list, because the source sorts the array in place.

## Model

| member | source | states |
|---|---|---|
| Board.StatesEqual | puzzle.ts:19-21 | two boards compare equal exactly when they are the same board |
| Board.CloneState | puzzle.ts:15-17 | returns a fresh grid holding the cells of the board |
| Board.FindEmpty | puzzle.ts:23-30 | returns the first (row, column), in row-major order, whose cell is 0, and fails exactly when the board has no 0 |
| Board.Step | puzzle.ts:32-56 | a slide fails exactly when the board has no blank, and a slide that happens keeps the multiset of tiles |
| Board.MoveTile | puzzle.ts:32-56 | the clone-and-swap method computes `Step` of the board and the move, and fails exactly when the board has no blank |
| Board.StepSlides | puzzle.ts:36-53 | a slide is blocked exactly when the blank is on the edge in the move's direction (row 0 for Up, row 2 for Down, column 0 for Left, column 2 for Right); otherwise the blank trades places with the cell next to it in that direction (the row above for Up, the row below for Down, the column to the left for Left, the column to the right for Right), and every other cell keeps its value |
| Board.StepInverse | puzzle.ts:39-51 | a slide keeps a valid board valid (one blank, tiles 1-8 once each), and sliding the opposite way restores the original board |
| Board.RunKeepsTiles | puzzle.ts:39-51 | a path of legal moves keeps the tiles of the board it starts from |
| Replay.ApplyMoves | puzzle.js:76-86 | the replay loop computes the fold `Apply`, and replaying no moves gives back the initial board |
| Replay.ApplySnoc | puzzle.js:78-84 | replaying `ms + [m]` is replaying `ms` and then one step, where a blocked move changes nothing |
| Replay.ApplyFailsIff | puzzle.js:80-83 | a replay fails exactly when there is a move to make and the board has no blank; blocked moves are skipped, not failures |
| Replay.RunApply | puzzle.js:78-84 | a path whose every move is legal replays without skipping and ends on the board the path leads to |
| Heuristic.ManhattanDistance | puzzle.ts:71-88 | the four nested loops compute `Manhattan(state, goal)`, the sum over non-blank cells of the distances to the goal cells holding the same tile |
| Heuristic.ManhattanTiles | puzzle.ts:71-88 | for valid boards the heuristic equals the sum over tiles 1-8 of the row plus column difference to the tile's goal cell, so the blank is never counted, and each tile adds at most 4 |
| Heuristic.ManhattanSelf | puzzle.ts:71-88 | the heuristic of a valid board against itself is 0 |
| Heuristic.ManhattanStep | puzzle.ts:71-88 | one slide changes the heuristic of a valid board by at most one |
| Heuristic.ManhattanBound | puzzle.ts:71-88 | for valid boards the heuristic is at most 24 (it is a natural number, so at least 0) |
| Heuristic.Admissible | puzzle.ts:71-88 | the heuristic never exceeds the number of moves of any path from the board to the goal |
| Search.ReconstructPath | puzzle.ts:58-66 | walking the parent chain and prepending each move returns the moves of the chain, root first, without the root's missing move |
| Search.PathReaches | puzzle.ts:58-66 | the path of a tree node leads from the start to the node's board by legal moves and is exactly as long as the node's depth |
| Search.TreePush | puzzle.ts:107-109 | appending a child one legal move from its parent, one level deeper, keeps the arena a search tree |
| Search.IndexedDistinct | puzzle.ts:107-108 | because every board is marked visited when its node is created, no board is held by two nodes |
| Search.ReachAll | puzzle.ts:141-153 | once every node is expanded, every board reachable from the start has been visited |
| Search.ChildrenSpec | puzzle.ts:105-110 | the children an expansion creates are the boards one legal move away that were not visited, each once: each child is reached by its move and was not visited, no board is a child twice, and every board a move reaches is visited or a child |
| Search.ChildrenOrder | puzzle.ts:105 | the children come in the order of their moves, so Up, Down, Left, Right for the moves the searches try |
| Search.FoundPath | puzzle.ts:101-102 | the path returned for a node holding the goal leads from the start to the goal, replays to the goal, and is empty when the start is the goal |
| Bfs.FoundShortest | puzzle.ts:99-103 | the board of the node at the front of the queue is reached by no path shorter than the node's depth |
| Bfs.NotFound | puzzle.ts:99-113 | when the queue runs empty, no path from the start reaches the goal |
| Bfs.ExpandNode | puzzle.ts:105-111 | trying the four moves on the front node leaves the arena (and so the queue) as it was, followed by one node for each child of `Children` in Up, Down, Left, Right order, each one level deeper with the front node as parent and cost 0; the visited set grows by exactly the children's boards; the search invariant holds (indexed tree, queue ordered by depth, every dequeued node expanded); fails exactly when the boards have no blank |
| Bfs.Bfs | puzzle.ts:93-114 | returns an error exactly when start differs from goal and has no blank, the empty path when start equals goal, otherwise a shortest legal path to the goal that replays to it, or null exactly when the goal is unreachable; no board enters the queue twice |
| Greedy.SortByCost | puzzle.ts:134 | sorting the open list permutes it |
| Greedy.SortSorted | puzzle.ts:134 | the sorted open list is ordered by cost, cheapest first |
| Greedy.FirstMin | puzzle.ts:134-135 | names the first open node of least cost |
| Greedy.SortHead | puzzle.ts:134-135 | the node `shift` takes after the sort costs no more than any open node, and is the first open node of least cost in the list's order |
| Greedy.Exhausted | puzzle.ts:132-155 | when the open list runs empty, no path from the start reaches the goal |
| Greedy.ExpandNode | puzzle.ts:141-153 | trying the four moves on the chosen node leaves the arena as it was, followed by one node for each child of `Children` in Up, Down, Left, Right order, each one level deeper with the chosen node as parent and the heuristic as cost; the open list becomes the old open list followed by the new nodes' indices in that order; the visited set grows by exactly the children's boards; the search invariant holds; fails exactly when the boards have no blank |
| Greedy.Greedy | puzzle.ts:119-156 | returns an error exactly when start differs from goal and has no blank, the empty path when start equals goal, otherwise a legal path that replays to the goal, or null exactly when the goal is unreachable; every node's cost is the Manhattan distance of its board and no board is pushed twice |

## Left out

- `printState`, `console.log`, `console.time`/`timeEnd` and the demo blocks (puzzle.ts:161-185, puzzle.js:173-209) are output only and are not modelled.
- The `__spreadArray` helper and the `exports` wiring of puzzle.js are compiler output. `cloneState` is modelled once, from puzzle.ts.
- The compiled `findEmpty`, `moveTile`, `reconstructPath`, `manhattanDistance`, `bfs` and `greedy` of puzzle.js do what the TypeScript does. The puzzle.ts model stands for both.
- `JSON.stringify` is not modelled. Boards are compared and used as visited keys directly, which is what the string encoding of a 3x3 grid of numbers amounts to.
- Only 3x3 boards are modelled (`State` has exactly 9 cells). Ragged or differently sized arrays, and non-integer cell values, are outside the model.
- Node references are arena indices. Sharing and aliasing of node objects is not modelled. No node is ever updated after creation, so nothing observable depends on aliasing.
- Numbers are unbounded integers. The source's depths, costs and distances are small integers, far below the range where double-precision arithmetic would round.
- Greedy.Greedy: states no optimality bound for greedy paths, because the source promises none.
- Run time and memory use of the searches are not modelled.
