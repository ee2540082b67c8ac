# A* grid pathfinding demo: a Dafny model

This project models the core of a small interactive A* demonstrator, `code/main.py`:

- `a_star(maze, start, goal)` searches a 20×20 grid of open cells and walls. It moves between 4-adjacent cells with unit cost and uses the Manhattan heuristic. The open set is a `heapq` list of `(f, (row, col))` tuples plus a membership set `open_set_hash`. The search also keeps a `closed_set` and the `g_score`, `f_score` and `came_from` maps. It returns `(path, closed_set)`, where `path` is `None` when no path is found.
- The event handling of `main` covers:
  - a left click, which moves the start to the clicked cell;
  - a right click, which moves the goal;
  - a middle click, which flips the clicked cell between wall and open;
  - Enter, which runs the search;
  - closing the window, which stops the loop.
- `generate_maze` forces the two corner cells open.

The search is modelled functionally:

- `Search.State` is an immutable record of the search's local variables.
- `Search.Step` is one iteration of the `while open_set` loop.
- `Pathfinding.Run` and `Pathfinding.AStar` repeat `Step` until the loop returns.
- `Driver.RunSearch` is the same loop written as a `while` loop. It records the `(open_set_hash, closed_set)` pair passed to the renderer after each expansion as a `Frame`, and it counts the pops.

The loop invariant (`Search.Inv`) says:

- the open and closed sets are disjoint;
- together they are exactly the cells that have a g score;
- the queue holds each open cell exactly once;
- `g[start] = 0`, and the start is the only discovered cell without a parent;
- every parent link goes to a closed, 4-adjacent cell whose g is one lower, and `f = g + h`;
- every closed cell has all its open neighbours discovered.

From this invariant the model proves what the two outcomes mean:

- A returned path is a 4-connected walk through open cells from `start` to `goal`, `g[goal] + 1` cells long.
- `None` is returned exactly when no such walk exists. In that case the closed set is exactly the set of cells reachable from `start`.

The model follows the code as written, not an idealised A*:

- Ties between equal `f` keys are broken by the smaller `(row, col)`, because that is how Python compares the tuples. Insertion order plays no part.
- The start is pushed with key 0, not with its heuristic value.
- A queued cell that is reached more cheaply gets a new g, f and parent, but its queue entry keeps its old key.
- A middle click may turn the start or the goal into a wall. The start is never checked for being a wall.
- The shown path is not cleared by later clicks.

Modules:

- `Wrappers`: `Option`.
- `Grid`: cells, the maze, the heuristic, neighbours, the pixel-to-cell map and the two grid edits.
- `Heap`: `heappop` and `heappush`.
- `Search`: state, step, path reconstruction and invariant.
- `SearchInvariant`: preservation of the invariant.
- `Pathfinding`: the run to completion and its correctness.
- `Driver`: the loop as a method.
- `Controller`: the event handling.

## Model

| member | source | states |
|---|---|---|
| Grid.ManhattanLaws | code/main.py:64-65 | The heuristic is symmetric, is 0 exactly when the two cells are equal, satisfies the triangle inequality, and changes by at most 1 between 4-adjacent cells. It is a `nat`, so it is never negative. |
| Grid.NeighborsAreAdjacent | code/main.py:105-106 | The candidate list has four distinct cells, and a cell is on it exactly when it is 4-adjacent to the popped cell. |
| Grid.InBoundsInAllCells | code/main.py:107 | A cell passes the bounds check `0 <= row, col < GRID_SIZE` exactly when it is one of the GRID_SIZE² grid cells. |
| Grid.CellsCard | code/main.py:107 | There are exactly GRID_SIZE² in-bounds cells. |
| Grid.ForceCorners | code/main.py:28 | After generation the top-left and bottom-right cells are open, every other sampled cell keeps its value, and the grid stays square. |
| Grid.ForceCornersIdempotent | code/main.py:28 | Forcing the corners a second time changes nothing. |
| Grid.Toggle | code/main.py:154 | The middle-click edit flips the clicked cell and leaves every other cell and the grid's shape as they were. |
| Grid.ToggleInvolution | code/main.py:154 | Toggling the same cell twice restores the maze. |
| Grid.CellAt | code/main.py:145 | `(row, col) = (y // CELL_SIZE, x // CELL_SIZE)` is the cell whose 30-pixel square contains the pixel. The pixel lies in the 600×600 window exactly when the cell is in bounds. |
| Heap.MinIndex | code/main.py:77 | The chosen position holds an entry that is at most every entry in Python's `(key, row, col)` order. |
| Heap.Pop | code/main.py:77 | `heappop` returns an entry of the queue that is least in tuple order, and the remaining queue is the old one minus exactly that entry (as multisets). |
| Heap.Push | code/main.py:118 | `heappush` adds exactly the one entry, and its cell joins the queued cells. |
| Heap.PopCells | code/main.py:77-78 | In a queue without repeated cells, popping removes exactly the popped cell from the queued cells, and the rest stays free of repeats. |
| Heap.PushDistinct | code/main.py:117-119 | Pushing a cell not yet queued keeps the queue free of repeats. |
| Heap.MinUnique | code/main.py:77 | With no cell queued twice, the least entry is unique: equal keys are settled by `(row, col)`, not by insertion order. |
| Search.Relax | code/main.py:107-119 | The body for one neighbour never changes the closed set and never forgets a discovered cell. `Search.RelaxSkips` and `SearchInvariant.RelaxPreserves` state the rest. |
| Search.Expand | code/main.py:105-119 | The four-neighbour loop never changes the closed set and never forgets a discovered cell. `SearchInvariant.ExpandPreserves` states the rest. |
| Search.RelaxSkips | code/main.py:105-119 | An out-of-bounds, walled or closed candidate is skipped and nothing changes. Any other candidate ends up discovered, and no cell other than the candidate is discovered. |
| Search.Reverse | code/main.py:89 | `list.reverse()` keeps the length, and puts element `i` at position `len - 1 - i`. |
| Search.Step | code/main.py:76-103 | An iteration returns `None` exactly when the queue is empty. It returns a path only when the popped cell is the goal. Otherwise it closes exactly the popped cell, which is not the goal, and the closed set grows by one. |
| SearchInvariant.InitInv | code/main.py:67-74 | The initial variables (start pushed with key 0, `g[start] = 0`, `f[start] = h(start)`, no parents, `open_set_hash = {start}`, nothing closed) satisfy the loop invariant. |
| SearchInvariant.RelaxImprove | code/main.py:113-116 | Suppose a queued, unclosed neighbour `n` is reached with `g[current] + 1 < g[n]`. Then the update of its parent, g and f keeps the invariant and leaves the queue and the discovered cells unchanged. |
| SearchInvariant.RelaxImproveKeepsStaleKey | code/main.py:113-119 | After a queued neighbour is reached more cheaply, the queue still holds an entry for it whose key is strictly greater than its new f: the old key goes stale and is not lowered. |
| SearchInvariant.RelaxFrame | code/main.py:108-119 | Relaxing one neighbour changes the records of no other cell and of no closed cell. It pushes an entry only for a cell never discovered, and leaves the queue alone when nothing new is discovered. |
| SearchInvariant.RelaxPreserves | code/main.py:105-119 | Relaxing one neighbour keeps the invariant and discovers the neighbour if it is open. Only that neighbour's records can change, and closed cells are never touched. Every queued entry was queued before or belongs to a cell never discovered. |
| SearchInvariant.ExpandPreserves | code/main.py:105-119 | The four-neighbour loop keeps the invariant, discovers every open neighbour, changes only the neighbours' records and never a closed cell's. |
| SearchInvariant.PopPreserves | code/main.py:76-103 | The popped cell was in `open_set_hash`, is removed from it and is closed, and the invariant holds apart from that one cell's neighbours. |
| SearchInvariant.StepPreservesInv | code/main.py:76-119 | A non-final iteration keeps the invariant: disjoint sets, a queue of distinct open cells, `g[start] = 0` with no parent for the start, parents closed, adjacent and one g lower, `f = g + h`, and every closed cell's open neighbours discovered. It also shrinks the set of undiscovered in-bounds cells, or else the queue. |
| SearchInvariant.StepFreezesClosed | code/main.py:76-109 | The popped cell leaves the open set and joins the closed set. A closed cell is never re-queued and keeps its g and parent. |
| SearchInvariant.StepIsLocal | code/main.py:105-119 | An iteration changes the records of no cell other than the popped cell and its four neighbours. |
| SearchInvariant.StepPushesFresh | code/main.py:113-119 | Every queued entry after an iteration was queued before, or belongs to a cell that was neither queued nor closed, so each cell is pushed at most once. |
| Pathfinding.WalkFacts | code/main.py:83-87 | The walk back along `came_from` from a discovered cell lowers g by one per link and ends at `start` after g + 1 cells. |
| Pathfinding.PathToFacts | code/main.py:83-89 | The reconstructed path starts at `start` and ends at the goal, and consecutive cells are 4-adjacent. Every cell after the start is in bounds and open, the path has g(goal) + 1 cells, and its i-th cell has g equal to i. |
| Pathfinding.WalkStaysClosed | code/main.py:105-124 | Once every closed cell has all its open neighbours discovered and nothing is open, a walk that starts in the closed set stays in it. |
| Pathfinding.ExhaustedMeansUnreachable | code/main.py:76-124 | When the queue runs empty, the closed set is exactly the set of cells reachable from the start, and the goal is unreachable. |
| Pathfinding.StepOutcome | code/main.py:80-124 | A finishing iteration returns a goal-free closed set of reachable cells. A path it returns is a walk from start to goal of g(goal) + 1 cells. `None` means the goal is unreachable. |
| Pathfinding.AStarCorrect | code/main.py:63-124 | `a_star` returns a path exactly when the goal is reachable from the start through open 4-adjacent cells, and that path is such a walk. The goal is never in the returned closed set, every closed cell is reachable, and on `None` the closed set is the whole reachable region. |
| Pathfinding.AStarStartIsGoal | code/main.py:68-101 | With `start == goal` the result is the path `[start]` and an empty closed set, whether or not the start is a wall. |
| Driver.DoneFacts | code/main.py:76-124 | A finishing iteration returns the result of the whole run, with the goal not closed and at most GRID_SIZE² + 1 pops made, counting the final one. |
| Driver.ContinueFacts | code/main.py:76-122 | A continuing iteration keeps the invariant and the sets disjoint, closes exactly one more cell, and leaves the run's result unchanged. |
| Driver.RunSearch | code/main.py:76-124 | The loop returns what `a_star` returns. Every rendered frame shows disjoint open and closed sets, and the i-th frame has i + 1 closed cells, all of them in the returned closed set. The goal is never closed, and at most GRID_SIZE² + 1 cells are popped. |
| Controller.InitialSession | code/main.py:128-131 | The session starts running with no path, start (0, 0) and goal (19, 19), both open, and every other cell as sampled. |
| Controller.HandleEvent | code/main.py:138-160 | `QUIT` clears `running`. Only a left click moves the start and only a right click moves the goal, each to the clicked cell. Only a middle click changes the maze, and only at the clicked cell. Only Enter changes the path, to the path `a_star` returns. |
| Controller.HandleBatch | code/main.py:138-160 | Handling one batch of events in order keeps the maze GRID_SIZE × GRID_SIZE. `Controller.BatchStopsOnQuit` states its effect on `running`. |
| Controller.MainLoop | code/main.py:133-140 | The loop keeps the maze GRID_SIZE × GRID_SIZE and runs at most one frame per batch. `Controller.LoopStopsAtFirstQuit` states exactly which batches it handles. |
| Controller.ClickMovesEndpoint | code/main.py:143-153 | A left or right click replaces exactly the start or the goal with an in-bounds clicked cell, and other buttons except the middle one change nothing. |
| Controller.ClickOutsideWindow | code/main.py:143-152 | A left or right click outside the window raises nothing. It sets the start or the goal to the out-of-bounds cell `(y // 30, x // 30)` and changes nothing else. |
| Controller.MiddleClickFlips | code/main.py:153-154 | A middle click flips the clicked cell, even on the start or goal, and leaves start, goal and path alone. |
| Controller.MiddleClickTwice | code/main.py:153-154 | Two middle clicks on the same pixel restore the session. |
| Controller.EnterFindsPath | code/main.py:159-160 | After Enter the shown path exists exactly when the goal is reachable from the start, and it is such a walk. |
| Controller.EnterIdempotent | code/main.py:159-160 | Pressing Enter twice shows the same path as pressing it once. |
| Controller.EditKeepsStalePath | code/main.py:150-160 | After Enter, walling a cell of the found path leaves that path shown, although it now crosses a wall. |
| Controller.BatchStopsOnQuit | code/main.py:138-140 | After one batch of events the loop is still running exactly when it was running and the batch held no `QUIT`. |
| Controller.FirstQuit | code/main.py:134-140 | This is the index of the first batch holding a `QUIT`: no earlier batch holds one. |
| Controller.LoopStopsAtFirstQuit | code/main.py:133-140 | `while running` handles, in order, every batch up to and including the first one holding a `QUIT` and no batch after it: the final session is that of those batches handled one after another. The loop ends running exactly when there was such a batch. |

## Left out

- Rendering and timing are not modelled: pygame initialisation, the window, `screen.fill`, `draw_maze`, `display.flip` and `clock.tick`. They are input and output with no effect on the computed values. Inside the search loop the `draw_maze` call is modelled only as the recorded `Driver.Frame`.
- The random sampling in `generate_maze` is not modelled. It is nondeterministic, so the sampled matrix is an input of `Controller.InitialSession`.
- The `print` diagnostics and the `node_info` trace are console output only.
- The internal array layout of `heapq` is not modelled. Only the order of `heappop` is observable, and it is fixed by the tuple order because no cell is queued twice.
- The `float('inf')` default of `g_score.get` is modelled as a missing map entry (`Option.None`), which every finite tentative score improves.
- The maze holds 0/1 integers; the model uses `bool` (`true` for a wall). `1 - v` on {0, 1} is negation.
- Controller.HandleEvent: requires a middle click's mouse position to lie inside the 600×600 window (`Controller.EventOk`). There the source indexes the maze, and a position outside the window raises `IndexError` or, for a negative coordinate, wraps around to a cell on the far side. Neither is modelled. The position comes from `pygame.mouse.get_pos()` when the event is handled, which can be well after the click, and it can lie outside the window. Left and right clicks accept any position, as in the source.
- The `closed_set` returned to `main` is only drawn once and is not kept in `Controller.Session`.
- Pathfinding.AStarCorrect: does not say that the path is a shortest walk. The stale queue keys make that promise unclear for this code, so the model proves only that the path is a walk of g(goal) + 1 cells.
- Search.Step: requires the loop invariant, and so does `Pathfinding.Run`. The code would raise `KeyError` in states that break it, but no run reaches such a state (`SearchInvariant.InitInv`, `SearchInvariant.StepPreservesInv`).
