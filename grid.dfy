/** The grid world of the A* planner: cell coordinates, the occupancy grid,
    the four-way movement table, and the routes a search may follow. */
module GridModel {

  /** A cell coordinate: `x` selects the row, `y` the column. Two positions
      are equal exactly when both coordinates are. */
  datatype Position = Position(x: int, y: int)

  /** An occupancy grid. `cells[x][y] == 0` marks a free cell; any other
      value marks an obstacle. */
  datatype Grid = Grid(rows: int, cols: int, cells: seq<seq<int>>)

  /** The shape a grid has after construction: `rows` rows of `cols` cells. */
  ghost predicate Valid(g: Grid) {
    && g.rows == |g.cells|
    && g.cols >= 0
    && forall i :: 0 <= i < |g.cells| ==> |g.cells[i]| == g.cols
  }

  /** A fresh `rows` by `cols` grid in which every cell is free. */
  function NewGrid(r: int, c: int): (g: Grid)
    requires r >= 0 && c >= 0
    ensures Valid(g) && g.rows == r && g.cols == c
    ensures forall x, y :: 0 <= x < r && 0 <= y < c ==> g.cells[x][y] == 0
  {
    Grid(r, c, seq(r, _ => seq(c, _ => 0)))
  }

  predicate InBounds(g: Grid, x: int, y: int) {
    0 <= x < g.rows && 0 <= y < g.cols
  }

  /** A cell may be entered when it lies inside the grid and is free. */
  function IsWalkable(g: Grid, x: int, y: int): (walkable: bool)
    requires Valid(g)
    ensures walkable ==> InBounds(g, x, y)
    ensures InBounds(g, x, y) ==> (walkable <==> g.cells[x][y] == 0)
  {
    x >= 0 && y >= 0 && x < g.rows && y < g.cols && g.cells[x][y] == 0
  }

  lemma NewGridAllWalkable(r: int, c: int, x: int, y: int)
    requires r >= 0 && c >= 0
    ensures IsWalkable(NewGrid(r, c), x, y) <==> InBounds(NewGrid(r, c), x, y)
  {
  }

  /** The movement table, in the order the search tries it: next column,
      next row, previous column, previous row. */
  const Directions: seq<(int, int)> := [(0, 1), (1, 0), (0, -1), (-1, 0)]

  function Abs(n: int): nat {
    if n < 0 then -n else n
  }

  function Move(p: Position, d: (int, int)): Position {
    Position(p.x + d.0, p.y + d.1)
  }

  /** `q` is reached from `p` by one entry of the movement table. */
  ghost predicate IsStep(p: Position, q: Position) {
    exists k :: 0 <= k < |Directions| && q == Move(p, Directions[k])
  }

  /** The table holds four distinct moves, each changing exactly one
      coordinate by exactly one, and every such move is in the table. */
  lemma DirectionsAreUnitMoves()
    ensures |Directions| == 4
    ensures forall i, j :: 0 <= i < j < |Directions| ==> Directions[i] != Directions[j]
    ensures forall i :: 0 <= i < |Directions| ==>
      (Directions[i].0 == 0 && Abs(Directions[i].1) == 1) || (Directions[i].1 == 0 && Abs(Directions[i].0) == 1)
    ensures forall dx, dy :: (dx == 0 && Abs(dy) == 1) || (dy == 0 && Abs(dx) == 1) ==> (dx, dy) in Directions
  {
  }

  /** One step of the table is exactly a move to an orthogonal neighbour. */
  lemma StepIsOrthogonalNeighbour(p: Position, q: Position)
    ensures IsStep(p, q) <==> Abs(q.x - p.x) + Abs(q.y - p.y) == 1
  {
    if Abs(q.x - p.x) + Abs(q.y - p.y) == 1 {
      var d := (q.x - p.x, q.y - p.y);
      DirectionsAreUnitMoves();
      assert d in Directions;
      var k :| 0 <= k < |Directions| && Directions[k] == d;
      assert q == Move(p, Directions[k]);
    }
  }

  /** Step `i` of `w` (from `w[i - 1]` to `w[i]`) is a table move. */
  ghost predicate StepAt(w: seq<Position>, i: int)
    requires 1 <= i < |w|
  {
    IsStep(w[i - 1], w[i])
  }

  /** Consecutive cells of `w` are neighbours in the movement table. */
  ghost predicate Connected(w: seq<Position>) {
    forall i :: 1 <= i < |w| ==> StepAt(w, i)
  }

  /** `w` is a route the search may produce from `start`: it begins at
      `start`, moves by table steps, and every cell after the first is
      walkable (the first cell itself is never tested). */
  ghost predicate IsWalk(g: Grid, start: Position, w: seq<Position>)
    requires Valid(g)
  {
    && |w| >= 1
    && w[0] == start
    && Connected(w)
    && forall i :: 1 <= i < |w| ==> IsWalkable(g, w[i].x, w[i].y)
  }

  /** `w` is a route from `start` that ends at `goal`. */
  ghost predicate PathTo(g: Grid, start: Position, goal: Position, w: seq<Position>)
    requires Valid(g)
  {
    IsWalk(g, start, w) && w[|w| - 1] == goal
  }

  ghost predicate Reachable(g: Grid, start: Position, goal: Position)
    requires Valid(g)
  {
    exists w :: PathTo(g, start, goal, w)
  }

  /** Cutting a route after its `i`-th cell leaves a route to that cell. */
  lemma PrefixIsPath(g: Grid, start: Position, w: seq<Position>, i: int)
    requires Valid(g) && IsWalk(g, start, w) && 1 <= i <= |w|
    ensures PathTo(g, start, w[i - 1], w[..i])
  {
    var u := w[..i];
    forall j | 1 <= j < |u| ensures StepAt(u, j) {
      assert StepAt(w, j);
    }
  }

  /** Extending a route by a step into a walkable cell gives a route. */
  lemma ExtendIsPath(g: Grid, start: Position, w: seq<Position>, q: Position)
    requires Valid(g) && IsWalk(g, start, w)
    requires IsStep(w[|w| - 1], q) && IsWalkable(g, q.x, q.y)
    ensures PathTo(g, start, q, w + [q])
  {
    var u := w + [q];
    forall j | 1 <= j < |u| ensures StepAt(u, j) {
      if j < |w| {
        assert StepAt(w, j);
      }
    }
  }

  /** The in-bounds cells of a `rows` by `cols` grid. */
  ghost function Cells(rows: int, cols: int): set<Position> {
    set x, y | 0 <= x < rows && 0 <= y < cols :: Position(x, y)
  }

  ghost function RowCells(x: int, cols: int): set<Position> {
    set y | 0 <= y < cols :: Position(x, y)
  }

  lemma {:induction false} RowCellsCount(x: int, cols: nat)
    ensures |RowCells(x, cols)| == cols
  {
    if cols > 0 {
      var shorter := RowCells(x, cols - 1);
      RowCellsCount(x, cols - 1);
      forall p | p in RowCells(x, cols) ensures p in shorter + {Position(x, cols - 1)} {
        if p.y < cols - 1 {
          assert p == Position(x, p.y);
        }
      }
      assert RowCells(x, cols) == shorter + {Position(x, cols - 1)};
      assert Position(x, cols - 1) !in shorter;
    } else {
      assert RowCells(x, cols) == {};
    }
  }

  /** A `rows` by `cols` grid has exactly `rows * cols` cells. */
  lemma {:induction false} CellsCount(rows: nat, cols: nat)
    ensures |Cells(rows, cols)| == rows * cols
  {
    if rows > 0 {
      var upper, last := Cells(rows - 1, cols), RowCells(rows - 1, cols);
      CellsCount(rows - 1, cols);
      RowCellsCount(rows - 1, cols);
      forall p | p in Cells(rows, cols) ensures p in upper + last {
        if p.x < rows - 1 {
          assert p == Position(p.x, p.y);
        }
      }
      forall p | p in upper + last ensures p in Cells(rows, cols) {
      }
      assert Cells(rows, cols) == upper + last;
      assert upper !! last;
      calc {
        |Cells(rows, cols)|;
        |upper| + |last|;
        (rows - 1) * cols + cols;
        { MulSucc(rows - 1, cols); }
        rows * cols;
      }
    } else {
      assert Cells(rows, cols) == {};
    }
  }

  lemma MulSucc(a: nat, b: nat)
    ensures a * b + b == (a + 1) * b
  {
  }
}
