/** What the planner's contract pins down on concrete grids: on a grid with
    no obstacles the route has exactly the Manhattan distance in steps, and
    on small worked grids the exact result length follows. */
module Scenarios {
  import opened GridModel
  import opened Manhattan
  import opened SearchState
  import opened AStar

  function Min(a: int, b: int): int { if a <= b then a else b }
  function Max(a: int, b: int): int { if a <= b then b else a }

  /** `c` lies in the rectangle spanned by `a` and `b`. */
  predicate InBox(c: Position, a: Position, b: Position) {
    && Min(a.x, b.x) <= c.x <= Max(a.x, b.x)
    && Min(a.y, b.y) <= c.y <= Max(a.y, b.y)
  }

  /** The cell after `p` on the way to `goal` that first fixes the row,
      then the column. */
  function StairStep(p: Position, goal: Position): (q: Position)
    requires p != goal
    ensures Abs(q.x - p.x) + Abs(q.y - p.y) == 1
    ensures Heuristic(q, goal) < Heuristic(p, goal)
    ensures InBox(q, p, goal)
  {
    if p.x < goal.x then Position(p.x + 1, p.y)
    else if p.x > goal.x then Position(p.x - 1, p.y)
    else if p.y < goal.y then Position(p.x, p.y + 1)
    else Position(p.x, p.y - 1)
  }

  /** The route from `p` to `goal` made of staircase steps. */
  function Staircase(p: Position, goal: Position): (w: seq<Position>)
    ensures |w| == Heuristic(p, goal) + 1
    ensures w[0] == p && w[|w| - 1] == goal
    decreases Heuristic(p, goal)
  {
    if p == goal then [p] else [p] + Staircase(StairStep(p, goal), goal)
  }

  /** Putting a neighbour of its first cell in front keeps a route connected. */
  lemma ConsConnected(p: Position, w: seq<Position>)
    requires |w| >= 1 && Connected(w) && Abs(w[0].x - p.x) + Abs(w[0].y - p.y) == 1
    ensures Connected([p] + w)
  {
    var u := [p] + w;
    StepIsOrthogonalNeighbour(p, w[0]);
    forall j | 1 <= j < |u| ensures StepAt(u, j) {
      if j > 1 {
        assert StepAt(w, j - 1);
      }
    }
  }

  /** The staircase moves by table steps. */
  lemma {:induction false} StaircaseConnected(p: Position, goal: Position)
    ensures Connected(Staircase(p, goal))
    decreases Heuristic(p, goal)
  {
    if p != goal {
      var next := StairStep(p, goal);
      StaircaseConnected(next, goal);
      ConsConnected(p, Staircase(next, goal));
    }
  }

  /** The staircase never leaves the rectangle spanned by its ends. */
  lemma {:induction false} StaircaseInBox(p: Position, goal: Position)
    ensures forall i :: 0 <= i < |Staircase(p, goal)| ==> InBox(Staircase(p, goal)[i], p, goal)
    decreases Heuristic(p, goal)
  {
    if p != goal {
      var next := StairStep(p, goal);
      var rest := Staircase(next, goal);
      StaircaseInBox(next, goal);
      forall i | 0 <= i < |[p] + rest| ensures InBox(([p] + rest)[i], p, goal) {
        if i > 0 {
          assert InBox(rest[i - 1], next, goal);
        }
      }
    }
  }

  /** On a grid without obstacles some route joins any two in-bounds cells,
      and the shortest has the Manhattan distance in steps. */
  lemma FreeGridRoute(rows: nat, cols: nat, start: Position, goal: Position)
    requires InBounds(NewGrid(rows, cols), start.x, start.y)
    requires InBounds(NewGrid(rows, cols), goal.x, goal.y)
    ensures PathTo(NewGrid(rows, cols), start, goal, Staircase(start, goal))
  {
    var g, w := NewGrid(rows, cols), Staircase(start, goal);
    StaircaseConnected(start, goal);
    StaircaseInBox(start, goal);
    forall i | 1 <= i < |w| ensures IsWalkable(g, w[i].x, w[i].y) {
      assert InBox(w[i], start, goal);
      NewGridAllWalkable(rows, cols, w[i].x, w[i].y);
    }
  }

  /** On a grid without obstacles the planner's route between two in-bounds
      cells has exactly the Manhattan distance in steps. */
  method PlanOnFreeGrid(rows: nat, cols: nat, start: Position, goal: Position)
    returns (path: seq<Position>)
    requires InBounds(NewGrid(rows, cols), start.x, start.y)
    requires InBounds(NewGrid(rows, cols), goal.x, goal.y)
    ensures |path| == Heuristic(start, goal) + 1
    ensures path[0] == start && path[|path| - 1] == goal
  {
    var g := NewGrid(rows, cols);
    ghost var expansions, pushes;
    path, expansions, pushes := FindPath(g, start, goal);
    FreeGridRoute(rows, cols, start, goal);
    HeuristicAdmissible(g, start, goal, path);
  }

  /** The five by five grid with the two by two block of obstacles at rows
      and columns 1 and 2. */
  function BlockedGrid(): (g: Grid)
    ensures Valid(g) && g.rows == 5 && g.cols == 5
    ensures forall x, y :: 0 <= x < 5 && 0 <= y < 5 ==>
              (g.cells[x][y] != 0 <==> 1 <= x <= 2 && 1 <= y <= 2)
  {
    Grid(5, 5, seq(5, x => seq(5, y => if 1 <= x <= 2 && 1 <= y <= 2 then 1 else 0)))
  }

  /** From one corner of the blocked grid to the opposite corner the planner
      returns nine cells that avoid the block. */
  method PlanAroundBlock() returns (path: seq<Position>)
    ensures |path| == 9
    ensures path[0] == Position(0, 0) && path[8] == Position(4, 4)
    ensures forall i :: 0 <= i < |path| ==> !(1 <= path[i].x <= 2 && 1 <= path[i].y <= 2)
  {
    ghost var expansions, pushes;
    path, expansions, pushes := FindPath(BlockedGrid(), Position(0, 0), Position(4, 4));
    ghost var route := TopThenDown();
    AroundBlock(path);
  }

  /** Any shortest route between the corners of the blocked grid has nine
      cells, none of them in the block. */
  lemma AroundBlock(path: seq<Position>)
    requires PathTo(BlockedGrid(), Position(0, 0), Position(4, 4), path)
    requires forall w :: PathTo(BlockedGrid(), Position(0, 0), Position(4, 4), w) ==> |path| <= |w|
    ensures |path| == 9
    ensures forall i :: 0 <= i < |path| ==> !(1 <= path[i].x <= 2 && 1 <= path[i].y <= 2)
  {
    var g := BlockedGrid();
    var route := TopThenDown();
    HeuristicAdmissible(g, Position(0, 0), Position(4, 4), path);
    forall i | 1 <= i < |path| ensures !(1 <= path[i].x <= 2 && 1 <= path[i].y <= 2) {
      assert IsWalkable(g, path[i].x, path[i].y);
    }
  }

  /** The nine-cell route along the top row and down the last column of
      the blocked grid. */
  lemma TopThenDown() returns (u: seq<Position>)
    ensures |u| == 9 && PathTo(BlockedGrid(), Position(0, 0), Position(4, 4), u)
  {
    var g := BlockedGrid();
    u := [Position(0, 0), Position(0, 1), Position(0, 2), Position(0, 3), Position(0, 4),
          Position(1, 4), Position(2, 4), Position(3, 4), Position(4, 4)];
    forall j | 1 <= j < |u| ensures StepAt(u, j) {
      StepIsOrthogonalNeighbour(u[j - 1], u[j]);
    }
    forall i | 1 <= i < |u| ensures IsWalkable(g, u[i].x, u[i].y) {
      assert u[i].x == 0 || u[i].y == 4;
    }
  }

  /** On a one-cell grid the planner returns that cell. */
  method PlanOneCell() returns (path: seq<Position>)
    ensures path == [Position(0, 0)]
  {
    ghost var expansions, pushes;
    path, expansions, pushes := FindPath(NewGrid(1, 1), Position(0, 0), Position(0, 0));
  }

  /** A start outside the grid that equals the goal is returned as it is:
      the first pop is at the goal, before any cell is looked up. */
  method PlanOutsideStartAtGoal() returns (path: seq<Position>)
    ensures path == [Position(7, -3)]
  {
    ghost var expansions, pushes;
    path, expansions, pushes := FindPath(NewGrid(1, 1), Position(7, -3), Position(7, -3));
  }
}
