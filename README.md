# Maze: carving, end selection and A* path finding, verified

This project models, in Dafny, the algorithmic core of a small Unity maze demo. The demo has two scripts.

**GridManager** holds a `width x height` grid of cell codes (0 passage, 1 wall, 2 start, 3 end).
- `GenerateGrid` fills the grid with walls, then carves a maze with a randomized recursive backtracker (`GenerateMaze`). The backtracker starts at (1, 1) and steps two cells at a time over a shuffled list of directions.
- It then marks (1, 1) as the start. It picks the end with `FindEndOfPath`: a breadth-first scan from (1, 1) collects every cell that enqueues nothing new, and the one closest to `(width - 2, height - 2)` is chosen.

**NPCController** finds the cells marked 2 and 3 by scanning the grid. It then runs A* between them (`FindPath`) over 4-neighbour unit moves, using the Manhattan distance as heuristic.

Module layout:
- `Geometry.dfy`: `Vector2Int`, adjacency, and the shared `dx`/`dy` direction tables. It also defines walks (`IsPathIn`, `Route`, `Shortest`) and `TreeOver`, a parent/rank witness that every cell of a set is connected to a root.
- `Lists.dfy`: the `List<T>` operations the path finder relies on. These are removing an element and reversing in place.
- `Randomness.dfy`: Unity's `Random`, replaced by an injected stream of draws. Every result holds for every stream.
- `GridManager.dfy`: module `Maze`, with the `GridManager` class. The grid is an `array2<int>` updated in place. Ghost fields record the carved cells, a spanning tree of them, and the cells still to carve.
- `NPCController.dfy`: the path finder. The grid manager is passed in explicitly.
- `Demo.dfy`: the two steps of the demo in sequence, generating a maze and then starting the NPC.

What is proved, in brief:
- **Carving** writes only passages, and only strictly inside the outer ring, so the ring stays wall. No carved cell ever reverts.
- **Parity**: no cell with two even coordinates is ever carved.
- **Connectivity**: every carved cell is connected to (1, 1) through carved cells.
- **Termination**: carving ends because the set of interior cells still uncarved shrinks with every recursive call.
- **The second pass is dead**: when `GenerateMaze(x, y)` returns, every valid cell two steps away is carved. So the pass taken with probability 0.3 carves nothing.
- **End selection**: the breadth-first scan enqueues each cell at most once, and only passages. It always finds at least one path end, so the regenerate-and-retry branch of `FindEndOfPath` is unreachable and is modelled by `assert false`. The collected list is exactly `DeadEnds`, a ghost function that runs the same breadth-first scan: every dequeued cell that enqueues nothing, in dequeue order. The scan is complete: every passage next to a visited cell is visited. The chosen end is the first of the dead ends at minimal distance to `(width - 2, height - 2)`. It is reachable from (1, 1), and it differs from (1, 1) exactly when the grid is at least 5 wide or 5 high.
- **A\*** keeps the open list free of duplicates. It keeps `cameFrom` a tree rooted at the start, with scores strictly decreasing towards the root, so path reconstruction terminates. A returned path is a walk over non-wall cells from start to end, and no such walk is shorter. `null` (here `None`) is returned only when no such walk exists.
- **Scans**: `FindStartPosition` and `FindEndPosition` return the first marked cell in column-major order, or `(0, 0)` when there is none.
- **Generate then start**: on a generated maze at least 5 wide or high, the NPC gets a shortest walk through the carved cells from (1, 1) to the chosen end. On a 3x3, 3x4, 4x3 or 4x4 grid, the only carved cell is (1, 1), and the end mark overwrites the start mark. The start scan then returns `(0, 0)` and the NPC does not move.

## Model

| member | source | states |
|---|---|---|
| Geometry.DirectionTo | Assets/Script/NPCController.cs:118-122 | every 4-neighbour of a cell is reached through an index of the `dx`/`dy` tables, and through no other index |
| Geometry.NeighbourIsAdjacent | Assets/Script/GridManager.cs:102-103 | each table direction leads to an adjacent cell different from the current one |
| Geometry.TreeGrow | Assets/Script/GridManager.cs:66-70 | attaching a new cell to an adjacent cell of the tree, with a higher rank, keeps every cell connected to the root |
| Geometry.TreeRelink | Assets/Script/NPCController.cs:126-129 | re-pointing a cell at an adjacent predecessor of lower score, and lowering its score, keeps the predecessor links a tree rooted at the start |
| Geometry.ChainToRoot | Assets/Script/GridManager.cs:66-70 | following parents from any cell of the tree yields a 4-connected walk inside the set, from the root to that cell |
| Geometry.TreeLeavesRoot | Assets/Script/GridManager.cs:62-70 | a tree holding any cell besides its root holds a 4-neighbour of the root |
| Lists.FirstIndex | Assets/Script/NPCController.cs:116 | the returned index holds the element, and no earlier index does |
| Lists.RemoveFirst | Assets/Script/NPCController.cs:116 | `List.Remove` shortens the list by one when the element is present and leaves it unchanged when it is absent; which elements remain is stated by RemoveDistinct |
| Lists.RemoveDistinct | Assets/Script/NPCController.cs:116 | removing an element from a duplicate-free list leaves it duplicate-free, holding exactly the other elements |
| Lists.ReverseInPlace | Assets/Script/NPCController.cs:170 | after the in-place reversal, position k holds the element previously at position Length - 1 - k |
| Randomness.Random.Range | Assets/Script/GridManager.cs:210 | a draw lies in [min, max) and advances the stream by one |
| Randomness.Random.Value | Assets/Script/GridManager.cs:74 | a draw lies in [0, 1000] thousandths and advances the stream by one |
| Maze.Shuffle | Assets/Script/GridManager.cs:206-215 | Fisher-Yates leaves the list a permutation of its input (same multiset) |
| Maze.ShuffledDirections | Assets/Script/GridManager.cs:59-60 | the shuffled copy holds the four carving steps, each once |
| Maze.CarveStartShape | Assets/Script/GridManager.cs:58 | carving (1, 1) first keeps the carved cells inside the ring, off the even-even cells and connected to (1, 1) |
| Maze.StepGeometry | Assets/Script/GridManager.cs:64-68 | from an odd-odd cell, a step passes through an adjacent corridor cell to an adjacent odd-odd target, and neither is an even-even cell |
| Maze.CarveStepShape | Assets/Script/GridManager.cs:66-70 | carving the corridor cell and the target together keeps the shape: inside the ring, no even-even cell, all connected to (1, 1) |
| Maze.ClosestTo | Assets/Script/GridManager.cs:136-148 | the result is in the list, at minimal distance to the target, and strictly closer than every earlier element (the first minimum) |
| Maze.NewNeighboursEmpty | Assets/Script/GridManager.cs:113-125 | a cell enqueues nothing exactly when each of its four neighbours is not a passage or already visited |
| Maze.ScanOrderDistinct | Assets/Script/GridManager.cs:117-121 | no cell is enqueued twice |
| Maze.ScanEnqueuesPassages | Assets/Script/GridManager.cs:117 | every cell enqueued after (1, 1) is a valid passage |
| Maze.ScanStep | Assets/Script/GridManager.cs:117-121 | enqueuing an unvisited passage next to a visited cell keeps the scan invariant and leaves fewer interior cells unvisited |
| Maze.VisitSkip | Assets/Script/GridManager.cs:117 | a direction leading to no passage, or to a visited cell, enqueues nothing and keeps the direction loop's invariant |
| Maze.VisitTake | Assets/Script/GridManager.cs:117-121 | a direction leading to an unvisited passage enqueues exactly that cell and keeps the invariant |
| Maze.FirstVisit | Assets/Script/GridManager.cs:105-125 | the first round, from (1, 1), enqueues nothing exactly when (1, 1) has no passage neighbour |
| Maze.ScanAdvance | Assets/Script/GridManager.cs:110-126 | a round (dequeue, enqueue the new neighbours, record a path end when there are none) keeps `ScanRest`, the part of the scan invariant beyond `ScanShape`; `ScanShape` of the new record comes from VisitNeighbours |
| Maze.NewNeighboursFresh | Assets/Script/GridManager.cs:113-121 | every cell a round enqueues is an unvisited passage and a 4-neighbour of the dequeued cell |
| Maze.NewNeighboursCover | Assets/Script/GridManager.cs:113-121 | after a round, every passage neighbour of the dequeued cell is visited |
| Maze.SweepRound | Assets/Script/GridManager.cs:110-126 | one round of the loop leaves the same scan to run, so the loop computes `DeadEnds` |
| Maze.ExploreRound | Assets/Script/GridManager.cs:110-126 | after a round, the visited cells are still exactly the enqueued ones, and every cell dequeued so far has its passage neighbours visited |
| Maze.TraceRound | Assets/Script/GridManager.cs:110-126 | a round keeps the scan's trace: visited cells are the enqueued ones, `DeadEnds` is what the rest of the scan collects, and dequeued cells have their passage neighbours visited |
| Maze.FoundRound | Assets/Script/GridManager.cs:110-126 | a round keeps the path ends visited and never empty together with the queue, and (1, 1) among them exactly when it has no passage neighbour |
| Maze.GridManager.ScanAll | Assets/Script/GridManager.cs:108-127 | the loop runs until the queue is empty and keeps the scan invariant throughout |
| Maze.ScanBegins | Assets/Script/GridManager.cs:99-106 | the scan starts with (1, 1) alone enqueued and visited, no path end, and `DeadEnds` still to run |
| Maze.ScanEnds | Assets/Script/GridManager.cs:110-127 | with the queue empty, the collected list is exactly `DeadEnds` and non-empty, and every passage next to a visited cell is visited |
| Maze.GridManager.IsValidPosition | Assets/Script/GridManager.cs:92-95 | a carving target is valid exactly when it is in the grid and not on the outer ring |
| Maze.GridManager.GetGridValue | Assets/Script/GridManager.cs:217-222 | the stored code in bounds; a wall at any coordinate outside the grid |
| Maze.GridManager.GenerateMaze | Assets/Script/GridManager.cs:56-90 | keeps the grid equal to the carved set, inside the ring, off even-even cells and connected to (1, 1); carved cells never revert; afterwards (x, y) and every valid cell two steps away are carved; a call on a cell whose step-neighbours are all carved carves only that cell |
| Maze.GridManager.CarvePass | Assets/Script/GridManager.cs:59-72 | one pass over a shuffle leaves every valid step-neighbour carved, and carves nothing when they all were already; so the second pass at lines 74-89 changes nothing |
| Maze.GridManager.CarveToward | Assets/Script/GridManager.cs:63-71 | afterwards the target along the direction is carved if valid; nothing changes when it was invalid or already carved |
| Maze.GridManager.CarveEntry | Assets/Script/GridManager.cs:58 | carving the still-walled (1, 1) adds exactly it and keeps the invariant |
| Maze.GridManager.CarveStep | Assets/Script/GridManager.cs:68-69 | adds exactly the corridor cell and the target, which was still uncarved, and keeps the invariant |
| Maze.GridManager.CarveCell | Assets/Script/GridManager.cs:68-69 | one passage write, adding the cell to the carved set and removing it from the cells still to carve |
| Maze.GridManager.AllStepsTried | Assets/Script/GridManager.cs:62-72 | having tried every direction of a shuffle of the four steps, every valid step-neighbour is carved |
| Maze.GridManager.PassageTest | Assets/Script/GridManager.cs:117 | a cell is among the passages exactly when it is valid and holds 0 |
| Maze.GridManager.MarkVisited | Assets/Script/GridManager.cs:120 | the visited array marks exactly the visited cells plus the new one |
| Maze.GridManager.VisitNeighbours | Assets/Script/GridManager.cs:113-123 | enqueues, in table order, exactly the unvisited passage neighbours, counts them, and keeps the visited array in step |
| Maze.GridManager.TryVisit | Assets/Script/GridManager.cs:114-122 | one direction of the neighbour loop keeps the queue, the count and the record in step |
| Maze.GridManager.PathEnds | Assets/Script/GridManager.cs:99-126 | the collected list is `DeadEnds` of the passages: exactly the dequeued cells that enqueue nothing, in dequeue order; it is non-empty, every passage next to a visited cell is visited, and (1, 1) is in it exactly when no neighbour of it is a passage |
| Maze.GridManager.ScanRound | Assets/Script/GridManager.cs:110-126 | one round: the new queue is the old tail plus the new neighbours, and the dequeued cell becomes a path end exactly when there are none |
| Maze.GridManager.FindEndOfPath | Assets/Script/GridManager.cs:97-149 | the result is (1, 1) or a passage; it is the first of `DeadEnds` (the scan's dead ends in dequeue order) at minimal squared distance to (width - 2, height - 2); the retry branch is unreachable |
| Maze.GridManager.MarkStart | Assets/Script/GridManager.cs:48 | the grid holds 2 at (1, 1), passages on the other carved cells and walls elsewhere |
| Maze.GridManager.MarkEnd | Assets/Script/GridManager.cs:50 | the grid holds 3 at the end and is otherwise unchanged |
| Maze.GridManager.MarkedPassages | Assets/Script/GridManager.cs:117 | once (1, 1) is marked, the scan may enter exactly the carved cells other than (1, 1) |
| Maze.GridManager.StartHasExit | Assets/Script/GridManager.cs:62-70 | in a grid at least 5 wide or high, (1, 1) has a carved neighbour |
| Maze.GridManager.AllWalls | Assets/Script/GridManager.cs:41-44 | a fresh width x height array holding 1 everywhere |
| Maze.GridManager.GenerateGrid | Assets/Script/GridManager.cs:41-50 | afterwards the grid is the carved maze, with 2 at (1, 1) and 3 at the end; the end is the first of `DeadEnds` of the carved cells other than (1, 1) at minimal distance to (width - 2, height - 2), and reachable from (1, 1); it differs from (1, 1) exactly when width or height is at least 5, and otherwise the maze is (1, 1) alone |
| Maze.GridManager.MarkEnds | Assets/Script/GridManager.cs:48-50 | marks the start, then the end chosen by the scan: the first of `DeadEnds` of the carved cells other than (1, 1) at minimal distance, reachable from (1, 1), and distinct from (1, 1) exactly when width or height is at least 5 |
| NPCController.Heuristic | Assets/Script/NPCController.cs:145-148 | the Manhattan distance is a natural number, zero exactly when the two cells coincide |
| NPCController.HeuristicConsistent | Assets/Script/NPCController.cs:145-148 | one move changes the heuristic by at most one |
| NPCController.HeuristicAdmissible | Assets/Script/NPCController.cs:145-148 | from any cell of a walk, the heuristic to the walk's last cell is at most the number of remaining moves |
| NPCController.IsValidPosition | Assets/Script/NPCController.cs:140-143 | a position is valid exactly when it lies in the grid, ring included |
| NPCController.WalkableTest | Assets/Script/NPCController.cs:123 | a cell may be stepped onto exactly when it is in the grid and its code is not 1 |
| NPCController.MarksWalkable | Assets/Script/NPCController.cs:123 | the cells marked 2 and 3 may be stepped onto |
| NPCController.TotalLower | Assets/Script/NPCController.cs:126-129 | lowering one score lowers the sum of scores |
| NPCController.ImproveShape | Assets/Script/NPCController.cs:125-132 | improving a walkable neighbour keeps the bookkeeping: the start scores 0 and has no predecessor, the predecessor links form a tree of decreasing scores, fScore is gScore plus the heuristic, and the open list holds scored cells, each once |
| NPCController.ImproveClosed | Assets/Script/NPCController.cs:125-132 | improving a neighbour keeps every expanded cell relaxed and the end open once scored |
| NPCController.Relax | Assets/Script/NPCController.cs:125-132 | the improvement keeps the neighbour loop's invariant and lowers its measure |
| NPCController.Skip | Assets/Script/NPCController.cs:123-126 | a wall, an out-of-grid cell or a neighbour already scoring no worse changes nothing and keeps the invariant |
| NPCController.TryNeighbour | Assets/Script/NPCController.cs:121-134 | one direction of the neighbour loop keeps its invariant |
| NPCController.ExpandNeighbours | Assets/Script/NPCController.cs:118-135 | after the four directions the main loop's invariant holds again, and the search has made progress: a new cell scored, a score lowered, or nothing changed |
| NPCController.EndExpand | Assets/Script/NPCController.cs:120-135 | after all four directions, the expanded cell is relaxed along each |
| NPCController.GetLowestFScore | Assets/Script/NPCController.cs:150-159 | the result is in the open list with minimal fScore, and strictly lower than every earlier entry (the first minimum) |
| NPCController.ReconstructPath | Assets/Script/NPCController.cs:161-172 | the path ends at `current` and starts at a cell without predecessor; each cell is the recorded predecessor of the next; it is no longer than the score difference between its ends |
| NPCController.ShapeDescends | Assets/Script/NPCController.cs:107-130 | predecessors always score strictly lower, and the start is the only scored cell without a predecessor |
| NPCController.Frontier | Assets/Script/NPCController.cs:110-135 | every walk from the start has an open cell, or its last cell, scored no higher than its position on the walk |
| NPCController.FoundIsShortest | Assets/Script/NPCController.cs:113-114 | when the end has the lowest fScore, the reconstructed path is a route from start to end and no route is shorter |
| NPCController.NoRouteLeft | Assets/Script/NPCController.cs:110-137 | once the open list is empty, no walk from the start reaches the end |
| NPCController.BeginExpand | Assets/Script/NPCController.cs:116 | taking the selected cell off the open list starts the neighbour loop's invariant |
| NPCController.LoopMeasure | Assets/Script/NPCController.cs:110-136 | each round reduces the unscored cells, or else the total score, or else the open list's length |
| NPCController.FindPath | Assets/Script/NPCController.cs:99-138 | a returned path is a shortest walk over non-wall cells from start to end; none is returned only when no such walk exists |
| NPCController.FindMark | Assets/Script/NPCController.cs:81-97 | returns the first cell in column-major order holding the code, or (0, 0) when no cell does |
| NPCController.FindStartPosition | Assets/Script/NPCController.cs:81-88 | the first cell holding 2, or (0, 0) when none does |
| NPCController.FindEndPosition | Assets/Script/NPCController.cs:90-97 | the first cell holding 3, or (0, 0) when none does |
| NPCController.StartMove | Assets/Script/NPCController.cs:25-37 | without a grid manager, nothing happens. Otherwise both marks are scanned for. A path is handed on only when neither mark is (0, 0), and it is then a shortest route between them. When no path is handed on and both marks were found, none exists |
| Demo.PaintedWalkable | Assets/Script/NPCController.cs:123 | on a generated maze, the cells the search may step onto are exactly the carved cells |
| Demo.StartFound | Assets/Script/NPCController.cs:81-88 | with the end elsewhere, the start scan finds (1, 1) |
| Demo.EndFound | Assets/Script/NPCController.cs:90-97 | the end scan finds the marked end |
| Demo.StartLost | Assets/Script/GridManager.cs:48-50 | when the end is marked over (1, 1), no 2 remains and the start scan returns (0, 0) |
| Demo.SpawnThenStart | Assets/Script/NPCController.cs:25-37 | generating a maze and then starting the NPC: in a maze at least 5 wide or high, the NPC gets a shortest walk through the carved cells from (1, 1) to the end; in a smaller one it gets none |

## Left out

- Rendering and Unity objects: `SpawnGrid`, `SpawnNPC`, `HighlightPath`, `ClearHighlight`, and the loop that destroys old tiles in `GenerateGrid` (GridManager.cs:33-39, 151-204, 224-279). They instantiate objects and set colours. `SpawnNPC` (GridManager.cs:197-204) also calls `StartMove` on the freshly instantiated NPC, whose `Start()` has not yet run. Its `gridManager` is therefore still null, and `StartMove` returns at once (NPCController.cs:25). That is the model's `StartMove` with a null manager, which does nothing.
- NPC movement: `Update`, `ShowPathThenMove` and `BeginMovement`, plus the transform update and coroutine start in `StartMove`. These are frame-driven float interpolation and timing. `StartMove` returns instead the path it would hand on.
- Unity's singleton plumbing (`GridManager.instance`, `MakeSingleton`) and the NPC's `Start`: the grid manager is passed explicitly, as a possibly-null reference to `StartMove`. UI_Manager.cs appears only as the button order that `Demo.SpawnThenStart` follows.
- Randomness: `Random.Range` and `Random.value` draw from an arbitrary injected stream. `Random.value < 0.3f` is a draw in thousandths in [0, 1000] compared with 300. No claim about distributions is made; the pass that test guards is proved to carve nothing.
- Floating point:
  - `Vector2Int.Distance` is compared through the squared integer distance, which orders cells the same way over the reals. The source compares float square roots, so this holds up to float rounding, which cannot matter at realistic grid sizes.
  - `gScore` and `fScore` are natural numbers; the source's floats only ever hold small integers here.
- `Debug.LogWarning` in the unreachable retry branch of `FindEndOfPath`.
- Maze.GridManager.GenerateGrid: requires width and height of at least 3. With a width or height of 2, (1, 1) lies on the outer ring, which the ring invariant excludes. Below 2, the source indexes outside the array.
- The carved maze being a tree (free of cycles) is not proved. Connectivity to (1, 1) is, through the spanning `parent` witness.
- Maze.GridManager.GenerateGrid: `pathEnds` and `route` are ghost outputs. `pathEnds` equals `DeadEnds` of the carved cells; `route` witnesses reachability. The source has no such values.
