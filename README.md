# A* grid path planner, modelled and verified in Dafny

This project models the A* path planner of a small robot path-planning
repository and proves properties of the model:
- `AStar::findPath`;
- the Manhattan `heuristic`;
- the `Node` record;
- the `Grid` and `Position` types;
- `isWalkable` and the four-way `directions` table.

In the model, `FindPath` is given an occupancy grid, a start cell and a goal
cell. It searches best-first on `f = g + h`, where `g` counts the steps from
the start and `h` is the Manhattan distance to the goal. A cell is closed
when a node for it is popped, not when one is pushed. When the goal is
popped, the parent links are walked back to the start to build the route.

The modules are:

- `GridModel` (`grid.dfy`). It defines:
  - the `Position` and `Grid` values;
  - the constructor, `IsWalkable` and the movement table `Directions`;
  - what a route is. A route starts at the start cell and moves by table
    steps. Every cell after the first is walkable. The first cell is never
    tested by the source, so a blocked start is searched from normally.
- `Manhattan` (`manhattan.dfy`). The heuristic and its properties:
  - it is zero exactly at the goal;
  - it is symmetric and obeys the triangle inequality;
  - it is consistent: one step changes it by at most one;
  - it is admissible.
- `SearchState` (`search.dfy`). The state of one search:
  - Nodes live in an arena, a `seq<Node>`. The source's `Node*` parent
    pointers become arena indices, with -1 for none.
  - The open set is a sequence of arena indices.
  - The closed cells are recorded in a map from each closed cell to the cost
    it was closed with. It sits beside the `closed` matrix and is used only
    in proofs.
  - This module also holds the loop invariant `SearchInv` and the lemmas
    that carry it from one iteration to the next, including the optimality
    argument of A* (`PoppedIsShortest`).
- `AStar` (`astar.dfy`). The planner itself, written imperatively:
  - the `while` loop over the open set;
  - the `closed` matrix as an `array2<bool>` that the loop updates in place;
  - the `for` loop over the movement table that pushes neighbours;
  - the `while` loop that rebuilds the path by putting each cell in front of
    the path built so far.

  The source's `std::priority_queue` has no defined order among nodes of
  equal `f`. So the model pops *any* open node of least `f`
  (`var k :| IsMinimal(...)`), and every property below holds whichever one
  is chosen.
- `Scenarios` (`scenarios.dfy`). What the contract of `FindPath` pins down
  on concrete grids:
  - on a grid without obstacles, the route has exactly the Manhattan
    distance in steps;
  - on a 5×5 grid with a 2×2 block of obstacles, the corner-to-corner route
    has 9 cells and avoids the block;
  - a one-cell grid gives that cell.
  - a start outside the grid that equals the goal is returned as it is.

`findPath` never checks its endpoints and has no error value. A goal other
than the start that is blocked or out of range gives the empty vector
(src/a_star.cpp:23, 59), the same as "no route", and so does `FindPath`.
When the goal equals the start, the result is `[start]` whatever that cell
holds and wherever it lies, because the first pop returns before any cell is
looked up (src/a_star.cpp:25-37). The repository's other planner, in
"src/A* Path Planning for Grid World.cpp", does reject invalid endpoints
(lines 57-60); the planner modelled here does not.

## Model

| member | source | states |
|---|---|---|
| GridModel.NewGrid | include/a_star.h:16 | The constructed grid has `rows == r`, `cols == c`, `r` rows of `c` cells each, and every cell is 0. |
| GridModel.IsWalkable | include/a_star.h:18-20 | A walkable cell is in bounds. For an in-bounds cell, it is walkable exactly when its map entry is 0. So indexing the map or the `closed` matrix at a walkable cell is always in range. |
| GridModel.NewGridAllWalkable | include/a_star.h:16-20 | On a fresh grid, a cell is walkable exactly when it is in bounds. |
| GridModel.DirectionsAreUnitMoves | include/a_star.h:29-31 | The table has four distinct entries. Each changes exactly one coordinate by exactly one. Every such unit move is in the table. |
| GridModel.StepIsOrthogonalNeighbour | include/a_star.h:29-31 | `q` is one table step from `p` if and only if both coordinates together differ by exactly one (both directions of the equivalence). |
| GridModel.PrefixIsPath | src/a_star.cpp:43-54 | Every prefix of a route is a route to its last cell. |
| GridModel.ExtendIsPath | src/a_star.cpp:43-54 | A route extended by one table step into a walkable cell is a route to that cell. This is what pushing a neighbour does to its parent's chain. |
| GridModel.CellsCount | src/a_star.cpp:22 | The `rows` × `cols` closed matrix covers exactly `rows * cols` distinct cells. This bounds the number of expansions. |
| Manhattan.Heuristic | src/a_star.cpp:62-64 | The estimate is a natural number, and it is zero if and only if the two cells are equal. |
| Manhattan.HeuristicSymmetric | src/a_star.cpp:62-64 | `Heuristic(a, b) == Heuristic(b, a)`. |
| Manhattan.HeuristicTriangle | src/a_star.cpp:62-64 | The Manhattan distance satisfies the triangle inequality. |
| Manhattan.HeuristicConsistent | src/a_star.cpp:62-64 | One table step changes the estimate by at most one, in either direction (consistency). |
| Manhattan.HeuristicAlongRoute | src/a_star.cpp:62-64 | Along any connected sequence of cells, the estimate drops by at most the number of steps taken. |
| Manhattan.HeuristicAdmissible | src/a_star.cpp:62-64 | The estimate never exceeds the number of steps of any route between the two cells (admissibility). |
| SearchState.ChainPath | src/a_star.cpp:33-36 | The cells on the parent links from a node back to the root, listed root first: nonempty, starting at the root's cell and ending at the node's cell. |
| SearchState.ChainIsWalk | src/a_star.cpp:48-53 | Every node's parent chain is a route from the start to the node's cell, with exactly `g + 1` cells. So `g` is the number of parent links. |
| SearchState.ArenaInBounds | src/a_star.cpp:40-41 | Every node created lies on an in-bounds cell, given an in-bounds start. So `closed[current->x][current->y]` is in range. |
| SearchState.PushKeepsArena | src/a_star.cpp:47-54 | Appending a node built from an existing node by a walkable table step, with `g + 1` and the Manhattan estimate, keeps every arena invariant. |
| SearchState.FBoundsRoutesThrough | src/a_star.cpp:10 | A node's priority `f = g + h` never exceeds the step count of the route that follows its parent chain from the start and then any route on to the goal. So `f` is a lower bound on the length of every route through the node. |
| SearchState.LeastF | src/a_star.cpp:12-20 | A linear scan giving the least `f` over a nonempty open set. It is no greater than any open node's `f`, and some open node has exactly that `f`. |
| SearchState.MinimalIsLeastF | src/a_star.cpp:12-20 | `IsMinimal`, the model of what the min-first queue hands out, holds at position `k` if and only if the node there has the least `f` of the open set, in both directions. Under the comparator `a > b` on `f`, `top()` is exactly such a node. |
| SearchState.MinimalExists | src/a_star.cpp:29-30 | A nonempty open set always holds a node of least `f`, so the pop is always possible. |
| SearchState.Remove | src/a_star.cpp:29-30 | Popping position `k` removes exactly that entry: the rest plus `open[k]` is the old open set as a multiset. Every other index stays in the open set, and no index is added. |
| SearchState.InitialInv | src/a_star.cpp:22-26 | The start node alone in the open set, with nothing closed, satisfies the loop invariant. |
| SearchState.PoppedIsShortest | src/a_star.cpp:28-41 | A node of least `f` popped at a cell that is not closed has `g` no greater than the step count of any route from the start to that cell. This is the optimality of A* with a consistent heuristic and closing on pop. |
| SearchState.SkipKeepsInv | src/a_star.cpp:40 | Dropping a popped node whose cell is already closed keeps the loop invariant. |
| SearchState.ExpandKeepsFrontier | src/a_star.cpp:41-56 | After closing a cell and pushing its neighbours, every walkable, not-closed neighbour of every closed cell still has an open node at most one step costlier than that cell. |
| SearchState.ExpandKeepsInv | src/a_star.cpp:41-56 | Closing the popped cell at its `g` and pushing its open walkable neighbours keeps the whole loop invariant. This includes that every closed cell was closed at its least step count. |
| SearchState.GoalChainIsShortest | src/a_star.cpp:32-37 | When the goal is popped, its parent chain is a route from start to goal that is no longer than any other such route. It is exactly `[start]` when start and goal coincide. |
| SearchState.StartIsGoalPopsGoal | src/a_star.cpp:25-32 | When start and goal coincide, the first pop is the start node, which is at the goal, and the open set held only that node. |
| SearchState.ReachableKeepsOpen | src/a_star.cpp:28-57 | While the goal is reachable, the open set is never empty. So a loop that runs out of nodes means no route exists. |
| AStar.Reconstruct | src/a_star.cpp:33-36 | Inserting each cell at the front while following parent links yields exactly the parent chain of the node, root first. |
| AStar.PushedAreOpenMoves | src/a_star.cpp:43-55 | A node is among those the moves push if and only if it is the node built for some table move into a walkable cell that is not closed. |
| AStar.PushNeighbours | src/a_star.cpp:43-56 | The new arena is exactly the old arena followed by one node per table move into a walkable, not-closed cell, in table order: cell `current ± dir`, cost `g + 1`, the Manhattan estimate and the expanded node as parent. The new open set is exactly the old one followed by the new nodes' indices. The arena stays valid, and every such neighbour now has an open node with cost at most `g + 1`. |
| AStar.TryMove | src/a_star.cpp:44-55 | If move `d` leads into a walkable cell that is not closed, exactly that move's node is appended to the arena and its index to the open set. Otherwise neither changes. |
| AStar.ExpandCell | src/a_star.cpp:41-56 | The expanded cell is marked in the matrix and recorded with its `g`. The arena and open set are extended exactly by the pushed nodes, and the matrix still matches the recorded closed cells. |
| AStar.CloseAndExpand | src/a_star.cpp:40-56 | If the popped cell is already closed, nothing changes. Otherwise the cell is closed at its `g`, the arena gains exactly the pushed nodes and the open set exactly their indices, at most four. Either way the loop invariant is kept, and the matrix matches the set of closed cells. |
| AStar.GoalReached | src/a_star.cpp:32-37 | The route rebuilt from the popped goal node runs from start to goal, is no longer than any other route, and is `[start]` when start and goal coincide. |
| AStar.FindPath | src/a_star.cpp:17-60 | It returns `[start]` when `start == goal`, even for a start outside the grid. A nonempty result is a route from start to goal over table steps through walkable cells, and is no longer than any other route. The result is empty if and only if no route exists, and is empty when the goal differs from the start and is not walkable. Expansions are at most `rows * cols`, and pushes at most `4 * expansions + 1`. |
| Scenarios.FreeGridRoute | include/a_star.h:16-20 | On a fresh grid without obstacles, the staircase route between two in-bounds cells is a route. |
| Scenarios.PlanOnFreeGrid | src/a_star.cpp:17-60 | On a grid without obstacles, the planner's route between two in-bounds cells has exactly Manhattan distance + 1 cells, and runs from start to goal. |
| Scenarios.PlanAroundBlock | src/a_star.cpp:17-60 | On the 5×5 grid blocked at rows and columns 1–2, the route from (0,0) to (4,4) has 9 cells and none of them is blocked. |
| Scenarios.AroundBlock | src/a_star.cpp:17-60 | Any shortest route between those two corners of that grid has 9 cells, none of them in the block. |
| Scenarios.PlanOneCell | src/a_star.cpp:25-37 | On a 1×1 grid with start and goal equal at (0,0), the result is `[(0,0)]`. |
| Scenarios.PlanOutsideStartAtGoal | src/a_star.cpp:25-37 | A start outside the grid that equals the goal is returned as the one-cell route. |

## Left out

- The PID controller (src/pid_controller.cpp, include/pid_controller.h) is
  not part of this model. It is floating-point arithmetic only.
- `g`, `h` and `heuristic` are `float` in the source and natural numbers
  here. The values are small step counts and Manhattan distances, which a
  `float` holds exactly up to 2^24.
- AStar.FindPath: does not model `int` overflow in `current->x + dir[0]`,
  `a.x - b.x` or `std::abs(dx) + std::abs(dy)`. Coordinates are unbounded
  integers. On a grid that fits in memory, the neighbour sums cannot
  overflow. The heuristic can overflow for a goal far enough out of range
  that |dx| + |dy| exceeds `INT_MAX`.
- The heap allocation of nodes and their leak (`new Node`, never deleted) are
  not modelled. Nodes are entries of an arena sequence, and parent pointers
  are indices.
- The `std::function` comparator and the `std::priority_queue` internals are
  not modelled. Only "pop some open node of least `f`" is kept. Ties are left
  nondeterministic, so the model does not fix which of several shortest
  routes is returned.
- AStar.FindPath: requires the start to lie inside the grid unless it equals
  the goal. For an out-of-range start that differs from the goal, the source
  indexes `closed` out of range. A blocked but in-bounds start is allowed and
  searched from, and a start equal to the goal is allowed anywhere.
- GridModel.NewGrid: requires `r >= 0` and `c >= 0`. The source's
  `std::vector` constructor would fail on a negative size.
- The grid's `map` field is called `cells` here, because `map` is a keyword
  of the modelling language. The grid is a value: `findPath` takes it by
  `const` reference and never changes it.
- The expansion and push counts of `FindPath` are ghost results, added to
  state the termination bound. The source counts nothing.
