# Maze generation and stepping solvers, in Dafny

This project models the core of a browser maze visualiser (`app.js`):

- the cell/grid model;
- the randomized depth-first backtracking generator;
- the wall test behind manual player movement;
- one resumable search that runs as breadth-first search (a queue), depth-first search (a stack), Dijkstra or A* (a priority queue re-sorted on every push).

Four modules:

- `Grid` (`grid.dfy`) covers cells, walls, `index`, `neighbors`, `canMove`, the player step and `neighborsOpen`.
- `Generator` (`generator.dfy`) covers `Maze.generate`. It is a method with a loop whose invariant proves the maze perfect: every cell is reached, walls are symmetric, the boundary stays closed, and exactly `rows*cols - 1` passages are opened.
- `PriorityQueue` (`priority_queue.dfy`) covers the stable sort-on-push queue.
- `Solver` (`solver.dfy`) covers `manhattan`, `reconstruct`, `makeSolver` and its `step` closure.
  - The closure's variables become the `Search` datatype.
  - `step` becomes a pure function. Its result also carries the visited and frontier snapshots the source assigns to the display state.
  - `Valid` is the invariant of every state reachable from `makeSolver`.

Conventions:

- A position is `Pos(i, j)`, with `i` the column and `j` the row. The grid is a sequence of rows, `grid[j][i]`, as in the source.
- The source's string keys `"i,j"` are replaced by positions. Since `keyOf` is injective on integer pairs, this does not change any comparison.
- `Math.random` is replaced by an oracle `rand: nat -> nat`. The k-th draw selects entry `rand(k) % n` of the `n` candidates. Every index below `n` can be selected, so every run of the source is a run of the model and no other runs are added.

## Model

| member | source | states |
|---|---|---|
| Grid.NewMaze | app.js:10-24 | The constructor builds `rows` rows of `cols` cells. Each cell stores its own coordinates, has all four walls standing and is unvisited. |
| Grid.Reset | app.js:36-41 | The first loop of `generate` leaves every cell with four walls, unvisited, and with its coordinates kept. |
| Grid.ResetIsFresh | app.js:36-41 | Resetting any maze, whatever its walls, gives exactly the maze the constructor builds for that size. |
| Grid.Index | app.js:25 | `index(i, j)` is None exactly when (i, j) lies outside the grid. Otherwise it is the cell at that position, and that cell carries the coordinates (i, j). |
| Grid.Neighbors | app.js:26-33 | `neighbors` has four entries in the order top, right, bottom, left. Entry k is present exactly when the step in direction k stays inside, and then it is the cell there. |
| Grid.CanMoveStaysInside | app.js:188-195 | In a maze whose boundary walls stand, every move `canMove` permits lands inside the grid. |
| Grid.CanMoveReversible | app.js:188-195 | With symmetric walls, a move is permitted exactly when the move back is permitted. |
| Grid.StepPlayer | app.js:197-203 | The player either stays put or moves one cell in the chosen direction. A move happens only when no solver animation runs and the wall is down, and in that case always happens. With an intact boundary the player stays inside the grid. |
| Grid.StepPlayerUndo | app.js:197-203 | In a maze with symmetric walls, any step the player takes is undone by the opposite step. |
| Grid.OpenNeighbors | app.js:253-261 | `neighborsOpen(p)` holds the step in direction d exactly when the wall of p facing d is down, and holds nothing else. It has no repeated entries and at most four. |
| Grid.OpenFromOrdered | app.js:256-259 | The open steps among directions k..3, taken in the order up, right, down, left, lie in those directions only and come in strictly increasing direction order. |
| Grid.OpenNeighborsInOrder | app.js:256-259 | The entries of `neighborsOpen(p)` come in the order up, right, down, left: an earlier entry always lies in an earlier direction. |
| Grid.WalkReverses | app.js:253-261 | With symmetric walls, a walk through open walls read backwards is again a walk. |
| Generator.Candidates | app.js:47-52 | The `neigh` list holds direction d exactly when the neighbour in direction d is inside the grid and not yet visited. |
| Generator.Carve | app.js:54-60 | A carve knocks down the wall of the current cell facing d and the opposite wall of its neighbour, and marks the neighbour visited. Every other cell is unchanged. |
| Generator.CarveSymmetric | app.js:54-60 | A carve keeps the walls of every adjacent pair in agreement. |
| Generator.CarveBoundary | app.js:54-60 | A carve towards an in-grid neighbour never opens a boundary wall. |
| Generator.CarveCounts | app.js:54-60 | Carving into an untouched cell raises the visited count by one and the number of passages (open right and bottom walls) by one. |
| Generator.StartInv | app.js:36-43 | After the reset and the marking of (0, 0), the loop invariant holds with the stack `[(0, 0)]`. |
| Generator.CarveInv | app.js:53-60 | A carve round keeps the loop invariant. |
| Generator.PopInv | app.js:61-63 | A pop round keeps the loop invariant. |
| Generator.PopFinished | app.js:61-63 | Popping a cell that has no unvisited in-grid neighbour leaves every visited cell off the stack without an unvisited neighbour. |
| Generator.Reached | app.js:44-64 | Once (0, 0) is visited and no visited cell has an unvisited neighbour, every cell is visited. This is what the empty stack guarantees at the end. |
| Generator.Generate | app.js:35-65 | The loop terminates for every random oracle. Afterwards every cell is visited and walls are symmetric. No boundary wall is open. Every cell is reachable from (0, 0) through open walls. There are exactly `rows*cols - 1` passages (open right and bottom walls, so each passage counts once). The cells are visited in an order that lists each cell exactly once, starting with (0, 0). |
| PriorityQueue.SortSpec | app.js:267 | The re-sort after a push orders entries by ascending score and permutes them. It is stable: the entries of each score keep their relative order. |
| PriorityQueue.SortSorted | app.js:267 | Re-sorting a list that is already in order leaves it unchanged. |
| PriorityQueue.InsertSorted | app.js:267 | One ordered insertion into a sorted list keeps it sorted and adds exactly the new entry. |
| PriorityQueue.InsertStable | app.js:267 | The inserted entry goes behind every entry of equal score, and all other same-score runs are kept. |
| PriorityQueue.Push | app.js:267 | `push` grows the queue by one and leaves it sorted. Its contents are the old contents plus the new entry. It is stable, and on a sorted queue the new entry is last among those of its score. |
| PriorityQueue.PushIsInsert | app.js:267 | On a sorted queue, appending and re-sorting is one ordered insertion. |
| PriorityQueue.Shift | app.js:268 | `shift` yields nothing exactly on an empty queue. Otherwise it removes the front entry, which among equal scores is the one inserted first, and keeps the rest in order. On a sorted queue the removed entry has the least score and the rest stay sorted. |
| PriorityQueue.LengthSteps | app.js:267-269 | `length` goes up by one with each push and down by one with each shift of a non-empty queue. |
| Solver.Manhattan | app.js:272 | The Manhattan distance is zero exactly when the two positions coincide. |
| Solver.Score | app.js:333-344 | A pushed score is never negative. It equals the new distance for Dijkstra, and the new distance plus the Manhattan distance to the goal for A*. |
| Solver.Enqueue | app.js:298-299 | A push adds exactly one copy of the new node and keeps every old one: the new contents are the old multiset plus the node. BFS and DFS append it at the end. The priority queue stays sorted, and among nodes of any one score the order is that of the old frontier followed by the new node. |
| Solver.MakeSolver | app.js:285-303 | A fresh solver has nothing visited and no predecessors. The start has distance 0, and the frontier holds only the start, with score 0. |
| Solver.Pop | app.js:310-312 | DFS takes the last node and the other algorithms take the first. Either way exactly that node leaves the frontier. For the priority queue it has the least score. |
| Solver.Positions | app.js:349-354 | The frontier snapshot holds exactly the positions of the frontier's nodes. |
| Solver.RelaxOne | app.js:327-345 | One loop round changes `came` and `dist` only for that neighbour. It does so only when the neighbour is unvisited and has no distance or a longer one, and then sets its predecessor to the current node and its distance to one more than the current node's. A relaxed neighbour is pushed once, through the frontier's own push, with its score. A neighbour not relaxed leaves the whole state unchanged. |
| Solver.Pushed | app.js:326-345 | The nodes one loop over the neighbours pushes: no more nodes than neighbours, and no node twice when the neighbours are distinct, as `neighborsOpen` guarantees. Each is a relaxed neighbour carrying its score, and every relaxed neighbour is among them. |
| Solver.RelaxOneFrontier | app.js:327-345 | After one round the array frontiers are the old frontier followed by the pushed node, if any. For every frontier the contents are the old multiset plus that node, each score's run is the old run followed by it, and a sorted priority queue stays sorted. |
| Solver.Relax | app.js:325-346 | The neighbour loop changes `came` and `dist` only for listed neighbours, and every change is such a relaxation. Every listed neighbour that is unvisited and has no distance, or a longer one, is relaxed. |
| Solver.RelaxFrontier | app.js:325-346 | For BFS and DFS the frontier after the loop is exactly the old one followed by one node per relaxed neighbour, in `neighborsOpen` order, each with its score. For the priority queue the contents are the old ones plus those nodes, each score's run keeps the old entries ahead of the new ones in that order, and a sorted queue stays sorted. |
| Solver.RelaxReaches | app.js:325-346 | Every listed neighbour the loop can improve ends up relaxed and present in the frontier with its new score. |
| Solver.Trace | app.js:276-281 | The loop of `reconstruct` ends for predecessor maps that decrease the distance. It collects the key, then each predecessor in turn, up to a key without one, and spans the key's distance. |
| Solver.Reconstruct | app.js:274-283 | After the reversal the path ends at the requested key and starts at a key without predecessor. Each entry's predecessor is the entry before it. The path is one cell longer than the key's distance above its first entry. |
| Solver.MakeSolverValid | app.js:285-303 | A fresh solver over a maze with intact boundary and with start and goal inside satisfies the invariant `Valid` (see Solver.StepValid for what it covers). |
| Solver.Step | app.js:305-358 | An empty frontier reports exhaustion and changes nothing. A popped node already visited is dropped, with a running status and nothing else changed. Otherwise exactly that node joins the visited set, and the visited snapshot is the new set. The step reports the goal found exactly when the node is the goal. Otherwise it keeps running and takes a frontier snapshot, which is the new frontier. |
| Solver.StepRelaxes | app.js:326-335 | A step never changes the predecessor or distance of a visited position. Any entry it changes belongs to an open neighbour of the popped node, which had no distance or a longer one, and now has the popped node as predecessor and one more than its distance. |
| Solver.StepPushes | app.js:305-346 | A step that stops at the goal or drops a visited node leaves the frontier with just the popped node removed. A step that expands the node leaves, for BFS and DFS, exactly the remaining frontier followed by one node per relaxed open neighbour in `neighborsOpen` order. For the priority queue it leaves the remaining nodes plus those nodes, with each score's run keeping the remaining nodes ahead of the new ones. |
| Solver.StepRelaxesAll | app.js:325-346 | When a step expands the popped node, every open neighbour that is unvisited and has no distance, or a longer one than through the popped node, is relaxed and queued with its new score. |
| Solver.FirstStep | app.js:303-322 | The first step of a fresh solver settles the start. If the start is the goal it reports the one-cell path; otherwise the search continues. |
| Solver.SettleValid | app.js:309-316 | Popping a node and marking it visited keeps the invariant. |
| Solver.RelaxValid | app.js:325-346 | Relaxing the open neighbours of a visited node keeps the invariant. |
| Solver.StepValid | app.js:305-358 | Every step keeps the invariant. The invariant covers: dist(start) = 0; each predecessor link joins two cells through an open wall, with the parent visited and one distance unit lower; frontier nodes are inside the grid with non-negative scores; the priority frontier stays sorted. |
| Solver.ReconstructWalk | app.js:274-283 | From any position the search has reached, the reconstructed path starts at the start. It walks through open walls, has one cell more than the position's distance, and passes only through visited cells before its end. |
| Solver.FoundPath | app.js:321-323 | A path reported as found runs from the start to the goal through open walls, over visited cells. It has the goal's distance plus one cells. |
| Solver.ExhaustedIsFinal | app.js:306-307 | Once the frontier is exhausted, stepping again gives the same answer and the same state. |
| Solver.PopIsMinimal | app.js:268 | Dijkstra and A* always take a node whose score is no larger than any other in the frontier. |
| Solver.ManhattanAdmissible | app.js:272 | The Manhattan distance between the ends of any walk through open walls is at most the walk's length. So the A* heuristic never overestimates. |
| Solver.ManhattanConsistent | app.js:272 | The heuristic drops by at most one across an open wall. |
| Grid.InBoundsCard | app.js:10-24 | A grid of `rows` by `cols` cells has at most `rows*cols` distinct positions inside it. |
| Solver.VisitedBound | app.js:309-316 | The search never visits more than `rows*cols` cells, since every visited cell lies in the grid. |
| Solver.StepProgress | app.js:305-358 | A step that reports neither done state either drops a node from the frontier and leaves the visited set alone, or adds exactly the popped cell to the visited set. |
| Solver.Run | app.js:373-388 | Calling `step()` until it reports `done` always ends, for every algorithm and every maze with intact boundary: the measure (unvisited cells, frontier length) drops on every running step. The final answer is a found path or an empty frontier. A found path runs from the start to the goal through open walls, and the invariant still holds. |
| Solver.MakeSolverComplete | app.js:285-303 | A fresh solver starts out complete: the goal is not yet visited, its only position with a distance (the start) waits in the frontier, and no cell is visited. |
| Solver.StepComplete | app.js:305-358 | A step that keeps running keeps three facts. The goal is still unvisited. Every position with a distance is visited or has a node in the frontier. Every open neighbour of a visited cell has a distance. |
| Solver.ExhaustedUnreachable | app.js:306-307 | When the frontier runs empty in such a state, the visited cells contain the start and are closed under open steps, so no walk from the start through open walls ends at the goal. |
| Solver.RunFinds | app.js:373-388 | From any complete state, running to the end reports a found path whenever a walk from the start through open walls reaches the goal. |
| Solver.RunComplete | app.js:383-386 | Running a fresh solver of any algorithm reports a found path whenever the goal can be reached from the start through open walls. So the "No path" report only happens when no such walk exists. |

## Left out

- Rendering, the canvas, DOM handlers, keyboard bindings, `flash` messages (including the "reached the goal" one) and the frame timing of `animateSolver` (its `requestAnimationFrame` scheduling and step budget per frame) are left out. They are I/O around the core. The repetition of `step()` until `done` is modelled by `Solver.Run`.
- `clamp` and the click-to-pick of start and goal are left out. They only choose the start and goal, which the model takes as parameters.
- The distribution of `Math.random` is left out. Generation takes an arbitrary oracle, so the properties hold for every sequence of draws.
- `keyOf` string keys are left out. Positions are used as keys directly.
- Algorithm names other than the four recognised ones are left out. With such a name the source builds a priority-queue frontier but never pushes neighbours; `Algo` has only the four.
- The `dir` field that `neighborsOpen` attaches to each entry is left out. The search never reads it.
- The global `state` object and the mutation of shared cells are left out. Each operation returns a new maze or search state, and the two display snapshots are returned in `StepResult`.
- The `score` field for BFS and DFS nodes is left out. The source pushes those nodes without a score, so the model gives them score 0, which nothing reads.
- `PriorityQueue`'s optional scoring function is left out. The queue always orders by the node's `score` field, the only way the search constructs it.
- Solver.Valid, and with it every Solver member that requires it (Step, MakeSolverValid, FirstStep, StepValid, FoundPath, Run, RunComplete and the rest): these assume a maze whose boundary walls all stand, which every generated maze satisfies. On other mazes the source's `neighborsOpen` can yield positions outside the grid.
- Generator.Generate: requires at least one row and one column. On an empty grid the source fails when it marks the missing cell (0, 0).
- Solver.Step: does not state that BFS returns shortest paths, or that Dijkstra and A* do. Only path validity and the distance bookkeeping are proved; optimality is not part of this model.
