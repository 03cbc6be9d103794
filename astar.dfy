/** The A* planner: a best-first search over the grid from `start` to
    `goal`, closing cells when they are popped, followed by the walk back
    along parent links that builds the path. */
module AStar {
  import opened GridModel
  import opened Manhattan
  import opened SearchState

  /** Walk parent links from node `idx` to the root, putting each cell in
      front of the path built so far. */
  method Reconstruct(arena: seq<Node>, idx: int) returns (path: seq<Position>)
    requires Linked(arena) && 0 <= idx < |arena|
    ensures path == ChainPath(arena, idx)
  {
    path := [];
    var current := idx;
    while current != -1
      invariant -1 <= current < |arena|
      invariant ChainPath(arena, current) + path == ChainPath(arena, idx)
      decreases current + 1
    {
      path := [arena[current].Pos()] + path;
      current := arena[current].parent;
    }
  }

  /** Push a node for every neighbour of node `idx` that is walkable and not
      closed, trying the moves in table order. `closed` is only read. */
  method PushNeighbours(grid: Grid, ghost start: Position, goal: Position,
                        closed: array2<bool>, ghost closedCells: set<Position>,
                        arena: seq<Node>, open: seq<nat>, idx: nat)
    returns (arena': seq<Node>, open': seq<nat>)
    requires Valid(grid) && ArenaValid(grid, start, goal, arena) && OpenInArena(arena, open)
    requires idx < |arena|
    requires closed.Length0 == grid.rows && closed.Length1 == grid.cols
    requires forall x, y :: 0 <= x < grid.rows && 0 <= y < grid.cols ==>
               (closed[x, y] <==> Position(x, y) in closedCells)
    ensures arena' == arena + Pushed(grid, closedCells, arena[idx], idx, goal, |Directions|)
    ensures open' == open + Span(|arena|, |arena'|)
    ensures ArenaValid(grid, start, goal, arena') && OpenInArena(arena', open')
    ensures |arena| <= |arena'| <= |arena| + |Directions| && arena'[..|arena|] == arena
    ensures forall i :: i in open ==> i in open'
    ensures forall j :: |arena| <= j < |arena'| ==> PushedFrom(grid, closedCells, arena', idx, j)
    ensures forall e :: 0 <= e < |Directions| ==>
              NeighbourPushed(grid, closedCells, arena', open', arena[idx], Move(arena[idx].Pos(), Directions[e]))
  {
    arena', open' := arena, open;
    for d := 0 to |Directions|
      invariant PushInv(grid, start, goal, closedCells, arena, open, idx, arena', open', d)
    {
      arena', open' := TryMove(grid, start, goal, closed, closedCells, arena, open, idx, arena', open', d);
    }
    PushedFacts(grid, closedCells, arena, open, idx, goal, arena', open');
  }

  /** One turn of the loop over the movement table: push a node for move
      `d` when its cell is walkable and not closed. */
  method TryMove(grid: Grid, ghost start: Position, goal: Position,
                 closed: array2<bool>, ghost closedCells: set<Position>,
                 arena: seq<Node>, open: seq<nat>, idx: nat,
                 arena0: seq<Node>, open0: seq<nat>, d: nat)
    returns (arena1: seq<Node>, open1: seq<nat>)
    requires Valid(grid) && idx < |arena| && d < |Directions|
    requires closed.Length0 == grid.rows && closed.Length1 == grid.cols
    requires forall x, y :: 0 <= x < grid.rows && 0 <= y < grid.cols ==>
               (closed[x, y] <==> Position(x, y) in closedCells)
    requires PushInv(grid, start, goal, closedCells, arena, open, idx, arena0, open0, d)
    ensures OpenMove(grid, closedCells, arena[idx], d) ==>
              arena1 == arena0 + [MoveNode(arena[idx], idx, goal, d)] && open1 == open0 + [|arena0|]
    ensures !OpenMove(grid, closedCells, arena[idx], d) ==> arena1 == arena0 && open1 == open0
    ensures PushInv(grid, start, goal, closedCells, arena, open, idx, arena1, open1, d + 1)
  {
    var current := arena[idx];
    var nx := current.x + Directions[d].0;
    var ny := current.y + Directions[d].1;
    ghost var q := Move(current.Pos(), Directions[d]);
    assert q == Position(nx, ny);
    if IsWalkable(grid, nx, ny) && !closed[nx, ny] {
      var neighbour := Node(nx, ny, current.g + 1, Heuristic(Position(nx, ny), goal), idx);
      assert neighbour == MoveNode(current, idx, goal, d);
      PushStep(grid, start, goal, closedCells, arena, open, idx, arena0, open0, d);
      arena1 := arena0 + [neighbour];
      open1 := open0 + [|arena1| - 1];
    } else {
      assert IsWalkable(grid, nx, ny) ==> q in closedCells;
      SkipStep(grid, start, goal, closedCells, arena, open, idx, arena0, open0, d);
      arena1, open1 := arena0, open0;
    }
  }

  /** Move `d` of the table leads from `current` to a walkable cell that is
      not closed, so the search pushes a node for it. */
  ghost predicate OpenMove(grid: Grid, closedCells: set<Position>, current: Node, d: int)
    requires Valid(grid) && 0 <= d < |Directions|
  {
    var q := Move(current.Pos(), Directions[d]);
    IsWalkable(grid, q.x, q.y) && q !in closedCells
  }

  /** The node the search builds for move `d` from node `idx`: one step
      costlier, with the Manhattan estimate, and `idx` as parent. */
  function MoveNode(current: Node, idx: nat, goal: Position, d: int): (n: Node)
    requires 0 <= d < |Directions|
    ensures n.Pos() == Move(current.Pos(), Directions[d])
    ensures n.g == current.g + 1 && n.h == Heuristic(n.Pos(), goal) && n.parent == idx
  {
    var q := Move(current.Pos(), Directions[d]);
    Node(q.x, q.y, current.g + 1, Heuristic(q, goal), idx)
  }

  /** The nodes the first `d` moves of the table push from `current`, in
      table order: one for each move into a walkable cell that is not closed. */
  ghost function Pushed(grid: Grid, closedCells: set<Position>, current: Node, idx: nat,
                        goal: Position, d: int): (nodes: seq<Node>)
    requires Valid(grid) && 0 <= d <= |Directions|
    ensures |nodes| <= d
    decreases d
  {
    if d == 0 then []
    else
      Pushed(grid, closedCells, current, idx, goal, d - 1)
        + (if OpenMove(grid, closedCells, current, d - 1) then [MoveNode(current, idx, goal, d - 1)] else [])
  }

  /** The pushed nodes are exactly the nodes of the open moves: every pushed
      node belongs to an open move, and every open move's node is pushed. */
  lemma {:induction false} PushedAreOpenMoves(grid: Grid, closedCells: set<Position>, current: Node,
                                              idx: nat, goal: Position, d: int)
    requires Valid(grid) && 0 <= d <= |Directions|
    ensures forall n :: n in Pushed(grid, closedCells, current, idx, goal, d) <==>
              exists e :: 0 <= e < d && OpenMove(grid, closedCells, current, e) && n == MoveNode(current, idx, goal, e)
    decreases d
  {
    if d > 0 {
      PushedAreOpenMoves(grid, closedCells, current, idx, goal, d - 1);
      var before := Pushed(grid, closedCells, current, idx, goal, d - 1);
      forall n ensures n in Pushed(grid, closedCells, current, idx, goal, d) <==>
                       exists e :: 0 <= e < d && OpenMove(grid, closedCells, current, e) && n == MoveNode(current, idx, goal, e)
      {
        if n in before {
          var e :| 0 <= e < d - 1 && OpenMove(grid, closedCells, current, e) && n == MoveNode(current, idx, goal, e);
          assert 0 <= e < d;
        }
      }
    }
  }

  /** Node `j` was pushed while expanding node `idx`: its parent is `idx`
      and its cell is walkable and was not closed. */
  ghost predicate PushedFrom(grid: Grid, closedCells: set<Position>, arena: seq<Node>, idx: nat, j: int)
    requires Valid(grid) && 0 <= j < |arena|
  {
    && arena[j].parent == idx
    && IsWalkable(grid, arena[j].x, arena[j].y)
    && arena[j].Pos() !in closedCells
  }

  /** The invariant of the loop over the movement table after `d` moves. */
  ghost predicate PushInv(grid: Grid, start: Position, goal: Position, closedCells: set<Position>,
                          arena: seq<Node>, open: seq<nat>, idx: nat,
                          arena': seq<Node>, open': seq<nat>, d: int)
    requires Valid(grid) && idx < |arena|
  {
    && 0 <= d <= |Directions|
    && arena' == arena + Pushed(grid, closedCells, arena[idx], idx, goal, d)
    && open' == open + Span(|arena|, |arena'|)
    && ArenaValid(grid, start, goal, arena')
    && (forall e :: 0 <= e < d ==>
          NeighbourPushed(grid, closedCells, arena', open', arena[idx], Move(arena[idx].Pos(), Directions[e])))
  }

  /** Pushing the node for move `d`. */
  lemma PushStep(grid: Grid, start: Position, goal: Position, closedCells: set<Position>,
                 arena: seq<Node>, open: seq<nat>, idx: nat,
                 arena': seq<Node>, open': seq<nat>, d: int)
    requires Valid(grid) && idx < |arena|
    requires PushInv(grid, start, goal, closedCells, arena, open, idx, arena', open', d) && d < |Directions|
    requires OpenMove(grid, closedCells, arena[idx], d)
    ensures var n := MoveNode(arena[idx], idx, goal, d);
            PushInv(grid, start, goal, closedCells, arena, open, idx, arena' + [n], open' + [|arena'|], d + 1)
  {
    var n := MoveNode(arena[idx], idx, goal, d);
    var before := Pushed(grid, closedCells, arena[idx], idx, goal, d);
    assert Pushed(grid, closedCells, arena[idx], idx, goal, d + 1) == before + [n];
    assert arena' + [n] == arena + (before + [n]);
    assert arena'[idx] == arena[idx];
    PushKeepsArena(grid, start, goal, arena', n);
    PushRecordsNeighbour(grid, closedCells, arena', open', arena[idx], n, d);
    assert Span(|arena|, |arena'| + 1) == Span(|arena|, |arena'|) + [|arena'|];
  }

  /** Passing over move `d` when its cell is blocked, outside or closed. */
  lemma SkipStep(grid: Grid, start: Position, goal: Position, closedCells: set<Position>,
                 arena: seq<Node>, open: seq<nat>, idx: nat,
                 arena': seq<Node>, open': seq<nat>, d: int)
    requires Valid(grid) && idx < |arena|
    requires PushInv(grid, start, goal, closedCells, arena, open, idx, arena', open', d) && d < |Directions|
    requires !OpenMove(grid, closedCells, arena[idx], d)
    ensures PushInv(grid, start, goal, closedCells, arena, open, idx, arena', open', d + 1)
  {
    var before := Pushed(grid, closedCells, arena[idx], idx, goal, d);
    assert Pushed(grid, closedCells, arena[idx], idx, goal, d + 1) == before;
  }

  /** What the finished loop leaves: the arena grows by at most one node per
      move and keeps its old nodes, the open set keeps its old entries and
      indexes the arena, and every new node was pushed from node `idx`. */
  lemma PushedFacts(grid: Grid, closedCells: set<Position>, arena: seq<Node>, open: seq<nat>, idx: nat,
                    goal: Position, arena': seq<Node>, open': seq<nat>)
    requires Valid(grid) && idx < |arena| && OpenInArena(arena, open)
    requires arena' == arena + Pushed(grid, closedCells, arena[idx], idx, goal, |Directions|)
    requires open' == open + Span(|arena|, |arena'|)
    ensures |arena| <= |arena'| <= |arena| + |Directions| && arena'[..|arena|] == arena
    ensures OpenInArena(arena', open') && forall i :: i in open ==> i in open'
    ensures forall j :: |arena| <= j < |arena'| ==> PushedFrom(grid, closedCells, arena', idx, j)
  {
    var nodes := Pushed(grid, closedCells, arena[idx], idx, goal, |Directions|);
    PushedAreOpenMoves(grid, closedCells, arena[idx], idx, goal, |Directions|);
    assert arena'[..|arena|] == arena;
    forall j | |arena| <= j < |arena'| ensures PushedFrom(grid, closedCells, arena', idx, j) {
      assert arena'[j] == nodes[j - |arena|] && nodes[j - |arena|] in nodes;
    }
    forall i | i in open ensures i in open' {
      var m :| 0 <= m < |open| && open[m] == i;
      assert open'[m] == i;
    }
  }

  /** The indices `lo`, ..., `hi - 1` in increasing order. */
  function Span(lo: nat, hi: nat): (s: seq<nat>)
    ensures |s| == if lo <= hi then hi - lo else 0
    ensures forall j :: 0 <= j < |s| ==> s[j] == lo + j
    decreases hi
  {
    if hi <= lo then [] else Span(lo, hi - 1) + [hi - 1]
  }

  /** Pushing the node for direction `d` keeps the record of the earlier
      directions and adds the one for `d`. */
  lemma PushRecordsNeighbour(grid: Grid, closedCells: set<Position>, arena: seq<Node>, open: seq<nat>,
                             current: Node, n: Node, d: int)
    requires Valid(grid) && 0 <= d < |Directions|
    requires forall e :: 0 <= e < d ==>
               NeighbourPushed(grid, closedCells, arena, open, current, Move(current.Pos(), Directions[e]))
    requires n.Pos() == Move(current.Pos(), Directions[d]) && n.g == current.g + 1
    ensures forall e :: 0 <= e <= d ==>
              NeighbourPushed(grid, closedCells, arena + [n], open + [|arena|], current, Move(current.Pos(), Directions[e]))
  {
    var arena', open' := arena + [n], open + [|arena|];
    assert arena'[..|arena|] == arena;
    assert open'[|open'| - 1] == |arena| && arena'[|arena|] == n;
    assert OpenReaches(arena', open', n.Pos(), current.g + 1);
    forall e | 0 <= e < d
      ensures NeighbourPushed(grid, closedCells, arena', open', current, Move(current.Pos(), Directions[e]))
    {
      var q := Move(current.Pos(), Directions[e]);
      assert NeighbourPushed(grid, closedCells, arena, open, current, q);
      if IsWalkable(grid, q.x, q.y) && q !in closedCells {
        OpenReachesGrows(arena, open, arena', open', q, current.g + 1);
      }
    }
  }

  /** If `q` is walkable and not closed, a node for `q` one step costlier
      than `current` is open. */
  ghost predicate NeighbourPushed(grid: Grid, closed: set<Position>, arena: seq<Node>, open: seq<nat>,
                                  current: Node, q: Position)
    requires Valid(grid)
  {
    IsWalkable(grid, q.x, q.y) && q !in closed ==> OpenReaches(arena, open, q, current.g + 1)
  }

  /** Handle a popped node that is not at the goal: when its cell is
      already closed the node is dropped, otherwise the cell is closed and
      its open walkable neighbours are pushed. `open` is the open set after
      the pop of position `k` of `openBefore`. */
  method CloseAndExpand(grid: Grid, ghost start: Position, goal: Position,
                        closed: array2<bool>, ghost closedCost: map<Position, nat>,
                        arena: seq<Node>, open: seq<nat>, ghost openBefore: seq<nat>, ghost k: nat, idx: nat)
    returns (arena': seq<Node>, open': seq<nat>, ghost closedCost': map<Position, nat>)
    modifies closed
    requires Valid(grid) && InBounds(grid, start.x, start.y)
    requires SearchInv(grid, start, goal, arena, openBefore, closedCost)
    requires IsMinimal(arena, openBefore, k) && idx == openBefore[k] && open == Remove(openBefore, k)
    requires arena[openBefore[k]].Pos() != goal
    requires closed.Length0 == grid.rows && closed.Length1 == grid.cols
    requires forall x, y :: 0 <= x < grid.rows && 0 <= y < grid.cols ==>
               (closed[x, y] <==> Position(x, y) in closedCost)
    ensures SearchInv(grid, start, goal, arena', open', closedCost')
    ensures forall x, y :: 0 <= x < grid.rows && 0 <= y < grid.cols ==>
              (closed[x, y] <==> Position(x, y) in closedCost')
    ensures arena[openBefore[k]].Pos() in closedCost ==>
              closedCost' == closedCost && arena' == arena && open' == open
    ensures arena[openBefore[k]].Pos() !in closedCost ==>
              && closedCost' == closedCost[arena[idx].Pos() := arena[idx].g]
              && arena' == arena + Pushed(grid, closedCost'.Keys, arena[idx], idx, goal, |Directions|)
              && open' == open + Span(|arena|, |arena'|)
              && |arena'| <= |arena| + |Directions|
  {
    var current := arena[idx];
    ArenaInBounds(grid, start, goal, arena, idx);
    if closed[current.x, current.y] {
      SkipKeepsInv(grid, start, goal, arena, openBefore, closedCost, k);
      return arena, open, closedCost;
    }
    arena', open', closedCost' := ExpandCell(grid, start, goal, closed, closedCost, arena, open, idx);
    ExpandKeepsInv(grid, start, goal, arena, openBefore, closedCost, k, arena', open');
  }

  /** Close the cell of node `idx` at the node's cost and push its open
      walkable neighbours. */
  method ExpandCell(grid: Grid, ghost start: Position, goal: Position,
                    closed: array2<bool>, ghost closedCost: map<Position, nat>,
                    arena: seq<Node>, open: seq<nat>, idx: nat)
    returns (arena': seq<Node>, open': seq<nat>, ghost closedCost': map<Position, nat>)
    modifies closed
    requires Valid(grid) && InBounds(grid, start.x, start.y)
    requires ArenaValid(grid, start, goal, arena) && OpenInArena(arena, open) && idx < |arena|
    requires closed.Length0 == grid.rows && closed.Length1 == grid.cols
    requires forall x, y :: 0 <= x < grid.rows && 0 <= y < grid.cols ==>
               (closed[x, y] <==> Position(x, y) in closedCost)
    ensures closedCost' == closedCost[arena[idx].Pos() := arena[idx].g]
    ensures forall x, y :: 0 <= x < grid.rows && 0 <= y < grid.cols ==>
              (closed[x, y] <==> Position(x, y) in closedCost')
    ensures arena' == arena + Pushed(grid, closedCost'.Keys, arena[idx], idx, goal, |Directions|)
    ensures open' == open + Span(|arena|, |arena'|)
    ensures ArenaValid(grid, start, goal, arena') && OpenInArena(arena', open')
    ensures |arena| <= |arena'| <= |arena| + |Directions| && arena'[..|arena|] == arena
    ensures forall i :: i in open ==> i in open'
    ensures forall q :: IsStep(arena[idx].Pos(), q) && IsWalkable(grid, q.x, q.y) && q !in closedCost ==>
              OpenReaches(arena', open', q, arena[idx].g + 1)
  {
    var current := arena[idx];
    ArenaInBounds(grid, start, goal, arena, idx);
    closed[current.x, current.y] := true;
    closedCost' := closedCost[current.Pos() := current.g];
    arena', open' := PushNeighbours(grid, start, goal, closed, closedCost'.Keys, arena, open, idx);
    ExpandedFrontier(grid, closedCost'.Keys, closedCost, arena', open', current);
  }

  /** The goal has been popped: rebuild the route from its parent chain. */
  method GoalReached(grid: Grid, ghost start: Position, goal: Position,
                     arena: seq<Node>, ghost open: seq<nat>, ghost closed: map<Position, nat>,
                     ghost k: int, idx: nat)
    returns (path: seq<Position>)
    requires Valid(grid) && SearchInv(grid, start, goal, arena, open, closed)
    requires IsMinimal(arena, open, k) && idx == open[k] && arena[idx].Pos() == goal
    ensures PathTo(grid, start, goal, path)
    ensures forall w :: PathTo(grid, start, goal, w) ==> |path| <= |w|
    ensures start == goal ==> path == [start]
  {
    path := Reconstruct(arena, idx);
    GoalChainIsShortest(grid, start, goal, arena, open, closed, k);
  }

  /** Find a shortest route of free cells from `start` to `goal`, or the
      empty sequence when none exists. Whenever several open nodes share the
      least `f`, any of them may be popped. The ghost results count the
      cells expanded and the nodes pushed. */
  method FindPath(grid: Grid, start: Position, goal: Position)
    returns (path: seq<Position>, ghost expansions: nat, ghost pushes: nat)
    requires Valid(grid)
    requires start == goal || InBounds(grid, start.x, start.y)
    ensures start == goal ==> path == [start]
    ensures path != [] ==> PathTo(grid, start, goal, path)
    ensures path != [] ==> forall w :: PathTo(grid, start, goal, w) ==> |path| <= |w|
    ensures path == [] <==> !Reachable(grid, start, goal)
    ensures goal != start && !IsWalkable(grid, goal.x, goal.y) ==> path == []
    ensures expansions <= grid.rows * grid.cols
    ensures pushes <= 4 * expansions + 1
  {
    var arena := [Node(start.x, start.y, 0, Heuristic(start, goal), -1)];
    var open: seq<nat> := [0];
    var closed := new bool[grid.rows, grid.cols]((_, _) => false);
    ghost var closedCost: map<Position, nat> := map[];
    path := [];
    ghost var cells := Cells(grid.rows, grid.cols);
    InitialInv(grid, start, goal);
    CellsCount(grid.rows, grid.cols);

    while open != []
      invariant SearchInv(grid, start, goal, arena, open, closedCost)
      invariant closed.Length0 == grid.rows && closed.Length1 == grid.cols
      invariant forall x, y :: 0 <= x < grid.rows && 0 <= y < grid.cols ==>
                  (closed[x, y] <==> Position(x, y) in closedCost)
      invariant |arena| <= 4 * |closedCost| + 1
      decreases |cells - closedCost.Keys|, |open|
    {
      MinimalExists(arena, open);
      var k :| IsMinimal(arena, open, k);
      StartIsGoalPopsGoal(grid, start, goal, arena, open, closedCost, k);
      var idx := open[k];
      var current := arena[idx];
      ghost var open0 := open;
      open := Remove(open, k);

      if current.x == goal.x && current.y == goal.y {
        path := GoalReached(grid, start, goal, arena, open0, closedCost, k, idx);
        expansions, pushes := |closedCost|, |arena|;
        ClosedBound(closedCost.Keys, cells);
        return;
      }

      assert InBounds(grid, start.x, start.y);
      ghost var closed0 := closedCost;
      arena, open, closedCost := CloseAndExpand(grid, start, goal, closed, closedCost, arena, open, open0, k, idx);
      if current.Pos() !in closed0 {
        ClosingShrinksRest(cells, closed0.Keys, current.Pos());
      }
    }

    ReachableKeepsOpen(grid, start, goal, arena, open, closedCost);
    expansions, pushes := |closedCost|, |arena|;
    ClosedBound(closedCost.Keys, cells);
  }

  /** After the pushes, every walkable neighbour of `current` that was not
      closed before waits in the open set one step costlier than `current`. */
  lemma ExpandedFrontier(grid: Grid, closed: set<Position>, closedBefore: map<Position, nat>,
                         arena: seq<Node>, open: seq<nat>, current: Node)
    requires Valid(grid) && closed == closedBefore.Keys + {current.Pos()}
    requires forall e :: 0 <= e < |Directions| ==>
               NeighbourPushed(grid, closed, arena, open, current, Move(current.Pos(), Directions[e]))
    ensures forall q :: IsStep(current.Pos(), q) && IsWalkable(grid, q.x, q.y) && q !in closedBefore ==>
              OpenReaches(arena, open, q, current.g + 1)
  {
    forall q | IsStep(current.Pos(), q) && IsWalkable(grid, q.x, q.y) && q !in closedBefore
      ensures OpenReaches(arena, open, q, current.g + 1)
    {
      var e :| 0 <= e < |Directions| && q == Move(current.Pos(), Directions[e]);
      assert NeighbourPushed(grid, closed, arena, open, current, q);
    }
  }

  lemma ClosingShrinksRest(cells: set<Position>, closed: set<Position>, p: Position)
    requires p in cells && p !in closed
    ensures |cells - (closed + {p})| < |cells - closed|
  {
    assert cells - (closed + {p}) == (cells - closed) - {p};
  }

  lemma ClosedBound(closed: set<Position>, cells: set<Position>)
    requires closed <= cells
    ensures |closed| <= |cells|
  {
    if closed != {} {
      var c :| c in closed;
      ClosedBound(closed - {c}, cells - {c});
    }
  }
}
