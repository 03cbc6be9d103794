/** The state of one A* search: the arena of search nodes linked by parent
    indices, the open set of arena indices and the closed cells, together
    with the invariant the expansion loop keeps and the lemmas that carry it
    from one iteration to the next. */
module SearchState {
  import opened GridModel
  import opened Manhattan

  /** A search node: its cell, cost from the start `g`, estimate to the goal
      `h`, and the arena index of the node it was reached from (-1 for none). */
  datatype Node = Node(x: int, y: int, g: nat, h: nat, parent: int) {
    /** The priority of the node: cost so far plus estimated cost to go. */
    function F(): nat {
      g + h
    }

    function Pos(): Position {
      Position(x, y)
    }
  }

  /** Node 0 is the root and every other node's parent comes before it. */
  predicate Linked(arena: seq<Node>) {
    && |arena| >= 1
    && arena[0].parent == -1
    && forall i :: 0 < i < |arena| ==> 0 <= arena[i].parent < i
  }

  /** The cells met walking parent links from node `i` back to the root,
      listed root first. */
  function ChainPath(arena: seq<Node>, i: int): (path: seq<Position>)
    requires Linked(arena) && -1 <= i < |arena|
    ensures i == -1 ==> path == []
    ensures i >= 0 ==> |path| >= 1 && path[0] == arena[0].Pos() && path[|path| - 1] == arena[i].Pos()
    decreases i + 1
  {
    if i == -1 then [] else ChainPath(arena, arena[i].parent) + [arena[i].Pos()]
  }

  /** Node `i` lies one table step from its parent, on a walkable cell, one
      unit of cost further from the start. */
  ghost predicate StepFromParent(grid: Grid, arena: seq<Node>, i: int)
    requires Valid(grid) && Linked(arena) && 0 < i < |arena|
  {
    var parent := arena[arena[i].parent];
    && IsStep(parent.Pos(), arena[i].Pos())
    && IsWalkable(grid, arena[i].x, arena[i].y)
    && arena[i].g == parent.g + 1
  }

  /** Every node the search has created: the root is the start node and
      every node was built from its parent by one walkable step. */
  ghost predicate ArenaValid(grid: Grid, start: Position, goal: Position, arena: seq<Node>)
    requires Valid(grid)
  {
    && Linked(arena)
    && arena[0] == Node(start.x, start.y, 0, Heuristic(start, goal), -1)
    && (forall i :: 0 < i < |arena| ==> StepFromParent(grid, arena, i))
    && EstimatesExact(arena, goal)
  }

  /** Every node carries the Manhattan estimate of its cell. */
  ghost predicate EstimatesExact(arena: seq<Node>, goal: Position) {
    forall i :: 0 <= i < |arena| ==> arena[i].h == Heuristic(arena[i].Pos(), goal)
  }

  /** The parent chain of any node is a route from the start to that node's
      cell with `g` steps. */
  lemma {:induction false} ChainIsWalk(grid: Grid, start: Position, goal: Position, arena: seq<Node>, i: int)
    requires Valid(grid) && ArenaValid(grid, start, goal, arena) && 0 <= i < |arena|
    ensures PathTo(grid, start, arena[i].Pos(), ChainPath(arena, i))
    ensures |ChainPath(arena, i)| == arena[i].g + 1
  {
    if i > 0 {
      var parent := arena[i].parent;
      ChainIsWalk(grid, start, goal, arena, parent);
      assert StepFromParent(grid, arena, i);
      ExtendIsPath(grid, start, ChainPath(arena, parent), arena[i].Pos());
    } else {
      assert ChainPath(arena, 0) == [start];
    }
  }

  /** Every node of the arena sits on an in-bounds cell. */
  lemma ArenaInBounds(grid: Grid, start: Position, goal: Position, arena: seq<Node>, i: int)
    requires Valid(grid) && InBounds(grid, start.x, start.y)
    requires ArenaValid(grid, start, goal, arena) && 0 <= i < |arena|
    ensures InBounds(grid, arena[i].x, arena[i].y)
  {
    if i > 0 {
      assert StepFromParent(grid, arena, i);
    }
  }

  /** Appending a node built from an existing one by a walkable step keeps
      the arena valid. */
  lemma PushKeepsArena(grid: Grid, start: Position, goal: Position, arena: seq<Node>, n: Node)
    requires Valid(grid) && ArenaValid(grid, start, goal, arena)
    requires 0 <= n.parent < |arena|
    requires IsStep(arena[n.parent].Pos(), n.Pos()) && IsWalkable(grid, n.x, n.y)
    requires n.g == arena[n.parent].g + 1 && n.h == Heuristic(n.Pos(), goal)
    ensures ArenaValid(grid, start, goal, arena + [n])
  {
    var a := arena + [n];
    forall i | 0 < i < |a| ensures StepFromParent(grid, a, i) {
      if i < |arena| {
        assert StepFromParent(grid, arena, i);
      }
    }
  }

  predicate OpenInArena(arena: seq<Node>, open: seq<nat>) {
    forall j :: 0 <= j < |open| ==> open[j] < |arena|
  }

  /** Position `k` of the open set holds a node that no other open node
      beats on `f`, which is what the min-first queue hands out. */
  predicate IsMinimal(arena: seq<Node>, open: seq<nat>, k: int)
    requires OpenInArena(arena, open)
  {
    0 <= k < |open| && forall j :: 0 <= j < |open| ==> arena[open[k]].F() <= arena[open[j]].F()
  }

  /** The least `f` over a nonempty open set, computed by a linear scan. */
  ghost function LeastF(arena: seq<Node>, open: seq<nat>): (m: nat)
    requires OpenInArena(arena, open) && |open| > 0
    ensures forall j :: 0 <= j < |open| ==> m <= arena[open[j]].F()
    ensures exists j :: 0 <= j < |open| && m == arena[open[j]].F()
    decreases |open|
  {
    if |open| == 1 then arena[open[0]].F()
    else
      var rest := LeastF(arena, open[1..]);
      assert forall j :: 1 <= j < |open| ==> open[j] == open[1..][j - 1];
      if arena[open[0]].F() <= rest then arena[open[0]].F() else rest
  }

  /** A position is minimal exactly when its node's `f` is the least `f` of
      the open set. */
  lemma MinimalIsLeastF(arena: seq<Node>, open: seq<nat>, k: int)
    requires OpenInArena(arena, open)
    ensures IsMinimal(arena, open, k) <==> 0 <= k < |open| && arena[open[k]].F() == LeastF(arena, open)
  {
    if 0 <= k < |open| {
      var m := LeastF(arena, open);
      var j :| 0 <= j < |open| && m == arena[open[j]].F();
      if IsMinimal(arena, open, k) {
        assert arena[open[k]].F() <= arena[open[j]].F();
      }
    }
  }

  /** A nonempty open set always has an element of least `f`. */
  lemma {:induction false} MinimalExists(arena: seq<Node>, open: seq<nat>)
    requires OpenInArena(arena, open) && |open| > 0
    ensures exists k :: IsMinimal(arena, open, k)
  {
    if |open| > 1 {
      var rest := open[1..];
      MinimalExists(arena, rest);
      var k :| IsMinimal(arena, rest, k);
      if arena[open[0]].F() <= arena[rest[k]].F() {
        assert IsMinimal(arena, open, 0);
      } else {
        assert IsMinimal(arena, open, k + 1);
      }
    } else {
      assert IsMinimal(arena, open, 0);
    }
  }

  /** A node's `f` never exceeds the length, in steps, of the route that
      follows its parent chain from the start and then any route on to the
      goal: `f` is a lower bound that A* orders the open set by. */
  lemma FBoundsRoutesThrough(grid: Grid, start: Position, goal: Position, arena: seq<Node>,
                             i: int, w: seq<Position>)
    requires Valid(grid) && ArenaValid(grid, start, goal, arena) && 0 <= i < |arena|
    requires PathTo(grid, arena[i].Pos(), goal, w)
    ensures arena[i].F() <= (|ChainPath(arena, i)| - 1) + (|w| - 1)
  {
    ChainIsWalk(grid, start, goal, arena, i);
    HeuristicAdmissible(grid, arena[i].Pos(), goal, w);
  }

  /** No route from the start to `c` has fewer than `b` steps. */
  ghost predicate NoShorterRoute(grid: Grid, start: Position, c: Position, b: nat)
    requires Valid(grid)
  {
    forall w :: PathTo(grid, start, c, w) ==> b <= |w| - 1
  }

  /** Some open node sits at `q` with cost at most `b`. */
  ghost predicate OpenReaches(arena: seq<Node>, open: seq<nat>, q: Position, b: nat) {
    exists i :: i in open && i < |arena| && arena[i].Pos() == q && arena[i].g <= b
  }

  /** Growing the arena and the open set keeps every open node open. */
  lemma OpenReachesGrows(arena: seq<Node>, open: seq<nat>, arena': seq<Node>, open': seq<nat>,
                         q: Position, b: nat)
    requires OpenReaches(arena, open, q, b)
    requires |arena| <= |arena'| && arena'[..|arena|] == arena
    requires forall i :: i in open && i < |arena| ==> i in open'
    ensures OpenReaches(arena', open', q, b)
  {
    var m :| m in open && m < |arena| && arena[m].Pos() == q && arena[m].g <= b;
    assert arena'[m] == arena[m];
  }

  /** The invariant of the expansion loop. `closed` maps every closed cell to
      the cost of the node that closed it. */
  ghost predicate SearchInv(grid: Grid, start: Position, goal: Position,
                            arena: seq<Node>, open: seq<nat>, closed: map<Position, nat>)
    requires Valid(grid)
  {
    && ArenaValid(grid, start, goal, arena)
    && OpenInArena(arena, open)
    && closed.Keys <= Cells(grid.rows, grid.cols)
    // the goal is never closed: popping it ends the search
    && goal !in closed
    // until the start is closed, the open set holds exactly the start node
    && (start !in closed ==> open == [0])
    && ClosedShortest(grid, start, closed)
    && Frontier(grid, arena, open, closed)
  }

  /** A cell is closed with its least number of steps from the start. */
  ghost predicate ClosedShortest(grid: Grid, start: Position, closed: map<Position, nat>)
    requires Valid(grid)
  {
    forall c :: c in closed ==> NoShorterRoute(grid, start, c, closed[c])
  }

  /** Every walkable neighbour of a closed cell that is not closed itself
      waits in the open set, at most one step costlier than that cell. */
  ghost predicate Frontier(grid: Grid, arena: seq<Node>, open: seq<nat>, closed: map<Position, nat>)
    requires Valid(grid)
  {
    forall c, q :: c in closed && IsStep(c, q) && IsWalkable(grid, q.x, q.y) && q !in closed ==>
      OpenReaches(arena, open, q, closed[c] + 1)
  }

  lemma InitialInv(grid: Grid, start: Position, goal: Position)
    requires Valid(grid)
    ensures SearchInv(grid, start, goal, [Node(start.x, start.y, 0, Heuristic(start, goal), -1)], [0], map[])
  {
  }

  /** The first cell of `w` that is not closed, where the last one is not. */
  lemma FirstNotClosed(w: seq<Position>, closed: set<Position>) returns (i: nat)
    requires |w| >= 1 && w[|w| - 1] !in closed
    ensures i < |w| && w[i] !in closed
    ensures i > 0 ==> w[i - 1] in closed
  {
    i := 0;
    while w[i] in closed
      invariant i < |w|
      invariant i > 0 ==> w[i - 1] in closed
      decreases |w| - i
    {
      i := i + 1;
    }
  }

  /** The heart of A*'s optimality: a node of least `f` popped at a cell
      that is not closed has no more steps than any route to its cell. */
  lemma PoppedIsShortest(grid: Grid, start: Position, goal: Position,
                         arena: seq<Node>, open: seq<nat>, closed: map<Position, nat>,
                         k: int, w: seq<Position>)
    requires Valid(grid) && |arena| >= 1 && arena[0].Pos() == start && arena[0].g == 0
    requires EstimatesExact(arena, goal) && OpenInArena(arena, open)
    requires start !in closed ==> open == [0]
    requires ClosedShortest(grid, start, closed) && Frontier(grid, arena, open, closed)
    requires IsMinimal(arena, open, k)
    requires arena[open[k]].Pos() !in closed
    requires PathTo(grid, start, arena[open[k]].Pos(), w)
    ensures arena[open[k]].g <= |w| - 1
  {
    var n := arena[open[k]];
    var i := FirstNotClosed(w, closed.Keys);
    if i == 0 {
      assert open == [0];
    } else {
      var m := WaitingNeighbour(grid, start, arena, open, closed, w, i);
      TailEstimate(w, i, goal);
      var jm :| 0 <= jm < |open| && open[jm] == m;
      assert n.F() <= arena[m].F();
    }
  }

  /** From its `i`-th cell on, a route lowers the estimate by at most the
      number of steps left. */
  lemma TailEstimate(w: seq<Position>, i: int, goal: Position)
    requires Connected(w) && 0 <= i < |w|
    ensures Heuristic(w[i], goal) <= Heuristic(w[|w| - 1], goal) + |w| - 1 - i
  {
    SuffixConnected(w, i);
    HeuristicAlongRoute(w[i..], goal);
  }

  /** A route's tail from its `i`-th cell on is still connected. */
  lemma SuffixConnected(w: seq<Position>, i: int)
    requires Connected(w) && 0 <= i < |w|
    ensures Connected(w[i..]) && w[i..][0] == w[i] && w[i..][|w| - 1 - i] == w[|w| - 1]
  {
    var u := w[i..];
    forall j | 1 <= j < |u| ensures StepAt(u, j) {
      assert StepAt(w, i + j);
    }
  }

  /** Where a route first leaves the closed cells, at its `i`-th cell, an
      open node waits there with at most `i` steps. */
  lemma WaitingNeighbour(grid: Grid, start: Position, arena: seq<Node>, open: seq<nat>,
                         closed: map<Position, nat>, w: seq<Position>, i: int) returns (m: nat)
    requires Valid(grid) && ClosedShortest(grid, start, closed) && Frontier(grid, arena, open, closed)
    requires IsWalk(grid, start, w) && 0 < i < |w| && w[i - 1] in closed && w[i] !in closed
    ensures m in open && m < |arena| && arena[m].Pos() == w[i] && arena[m].g <= i
  {
    var c, q := w[i - 1], w[i];
    assert StepAt(w, i);
    PrefixIsPath(grid, start, w, i);
    assert NoShorterRoute(grid, start, c, closed[c]);
    assert OpenReaches(arena, open, q, closed[c] + 1);
    m :| m in open && m < |arena| && arena[m].Pos() == q && arena[m].g <= closed[c] + 1;
  }

  /** While some route from the start reaches the goal, the open set is not
      empty; so when it runs out, the goal is unreachable. */
  lemma ReachableKeepsOpen(grid: Grid, start: Position, goal: Position,
                           arena: seq<Node>, open: seq<nat>, closed: map<Position, nat>)
    requires Valid(grid) && SearchInv(grid, start, goal, arena, open, closed)
    ensures Reachable(grid, start, goal) ==> open != []
  {
    if w :| PathTo(grid, start, goal, w) {
      var i := FirstNotClosed(w, closed.Keys);
      if i > 0 {
        var c, q := w[i - 1], w[i];
        assert StepAt(w, i);
        assert OpenReaches(arena, open, q, closed[c] + 1);
      }
    }
  }

  function Remove(open: seq<nat>, k: int): (rest: seq<nat>)
    requires 0 <= k < |open|
    ensures |rest| == |open| - 1
    ensures forall i :: i in open && i != open[k] ==> i in rest
    ensures forall i :: i in rest ==> i in open
    ensures multiset(rest) + multiset{open[k]} == multiset(open)
  {
    assert open == open[..k] + [open[k]] + open[k + 1..];
    open[..k] + open[k + 1..]
  }

  /** Dropping a popped node whose cell is already closed keeps the invariant. */
  lemma SkipKeepsInv(grid: Grid, start: Position, goal: Position,
                     arena: seq<Node>, open: seq<nat>, closed: map<Position, nat>, k: int)
    requires Valid(grid) && SearchInv(grid, start, goal, arena, open, closed)
    requires 0 <= k < |open| && arena[open[k]].Pos() in closed
    ensures SearchInv(grid, start, goal, arena, Remove(open, k), closed)
  {
    var rest := Remove(open, k);
    forall c, q | c in closed && IsStep(c, q) && IsWalkable(grid, q.x, q.y) && q !in closed
      ensures OpenReaches(arena, rest, q, closed[c] + 1)
    {
      assert OpenReaches(arena, open, q, closed[c] + 1);
      var m :| m in open && m < |arena| && arena[m].Pos() == q && arena[m].g <= closed[c] + 1;
      assert m in rest;
    }
  }

  /** Closing cell `p` at cost `gp` keeps the frontier when every open node
      elsewhere stays open and every open walkable neighbour of `p` is pushed. */
  lemma ExpandKeepsFrontier(grid: Grid, arena: seq<Node>, open: seq<nat>, closed: map<Position, nat>,
                            p: Position, gp: nat, arena': seq<Node>, open': seq<nat>)
    requires Valid(grid) && Frontier(grid, arena, open, closed)
    requires |arena| <= |arena'| && arena'[..|arena|] == arena
    requires forall i :: i in open && i < |arena| && arena[i].Pos() != p ==> i in open'
    requires forall q :: IsStep(p, q) && IsWalkable(grid, q.x, q.y) && q !in closed ==>
               OpenReaches(arena', open', q, gp + 1)
    ensures Frontier(grid, arena', open', closed[p := gp])
  {
    var closed' := closed[p := gp];
    forall c, q | c in closed' && IsStep(c, q) && IsWalkable(grid, q.x, q.y) && q !in closed'
      ensures OpenReaches(arena', open', q, closed'[c] + 1)
    {
      if c != p {
        assert OpenReaches(arena, open, q, closed[c] + 1);
        var m :| m in open && m < |arena| && arena[m].Pos() == q && arena[m].g <= closed[c] + 1;
        assert arena'[m] == arena[m];
      }
    }
  }

  /** Closing the popped node's cell and pushing its open walkable neighbours
      keeps the invariant. `arena'` and `open'` are the arena and open set
      after the pushes. */
  lemma ExpandKeepsInv(grid: Grid, start: Position, goal: Position,
                       arena: seq<Node>, open: seq<nat>, closed: map<Position, nat>, k: int,
                       arena': seq<Node>, open': seq<nat>)
    requires Valid(grid) && InBounds(grid, start.x, start.y)
    requires SearchInv(grid, start, goal, arena, open, closed)
    requires IsMinimal(arena, open, k)
    requires arena[open[k]].Pos() !in closed && arena[open[k]].Pos() != goal
    requires ArenaValid(grid, start, goal, arena') && OpenInArena(arena', open')
    requires |arena| <= |arena'| && arena'[..|arena|] == arena
    requires forall i :: i in Remove(open, k) ==> i in open'
    requires forall q :: IsStep(arena[open[k]].Pos(), q) && IsWalkable(grid, q.x, q.y) && q !in closed ==>
               OpenReaches(arena', open', q, arena[open[k]].g + 1)
    ensures SearchInv(grid, start, goal, arena', open', closed[arena[open[k]].Pos() := arena[open[k]].g])
  {
    var n := arena[open[k]];
    var p := n.Pos();
    ArenaInBounds(grid, start, goal, arena, open[k]);
    forall w | PathTo(grid, start, p, w) ensures n.g <= |w| - 1 {
      PoppedIsShortest(grid, start, goal, arena, open, closed, k, w);
    }
    assert NoShorterRoute(grid, start, p, n.g);
    forall i | i in open && i < |arena| && arena[i].Pos() != p ensures i in open' {
      assert i in Remove(open, k);
    }
    ExpandKeepsFrontier(grid, arena, open, closed, p, n.g, arena', open');
    if start !in closed {
      assert open == [0];
    }
  }

  /** When start and goal coincide, the first pop is at the goal, so the
      search never expands a cell and never indexes the closed matrix. */
  lemma StartIsGoalPopsGoal(grid: Grid, start: Position, goal: Position,
                            arena: seq<Node>, open: seq<nat>, closed: map<Position, nat>, k: int)
    requires Valid(grid) && SearchInv(grid, start, goal, arena, open, closed)
    requires IsMinimal(arena, open, k)
    ensures start == goal ==> arena[open[k]].Pos() == goal && open == [0]
  {
    if start == goal {
      assert start !in closed;
    }
  }

  /** Popping the goal: its parent chain is a shortest route from the start,
      and it is the bare start cell when start and goal coincide. */
  lemma GoalChainIsShortest(grid: Grid, start: Position, goal: Position,
                            arena: seq<Node>, open: seq<nat>, closed: map<Position, nat>, k: int)
    requires Valid(grid) && SearchInv(grid, start, goal, arena, open, closed)
    requires IsMinimal(arena, open, k) && arena[open[k]].Pos() == goal
    ensures PathTo(grid, start, goal, ChainPath(arena, open[k]))
    ensures forall w :: PathTo(grid, start, goal, w) ==> |ChainPath(arena, open[k])| <= |w|
    ensures start == goal ==> ChainPath(arena, open[k]) == [start]
  {
    ChainIsWalk(grid, start, goal, arena, open[k]);
    forall w | PathTo(grid, start, goal, w) ensures |ChainPath(arena, open[k])| <= |w| {
      PoppedIsShortest(grid, start, goal, arena, open, closed, k, w);
    }
    if start == goal {
      assert open == [0];
    }
  }
}
