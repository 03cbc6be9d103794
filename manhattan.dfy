/** The search's estimate of the remaining distance: the Manhattan distance
    between two cells. */
module Manhattan {
  import opened GridModel

  /** Manhattan distance. It is never negative and is zero exactly at the goal. */
  function Heuristic(a: Position, b: Position): (h: nat)
    ensures h == 0 <==> a == b
  {
    Abs(a.x - b.x) + Abs(a.y - b.y)
  }

  lemma HeuristicSymmetric(a: Position, b: Position)
    ensures Heuristic(a, b) == Heuristic(b, a)
  {
  }

  lemma HeuristicTriangle(a: Position, b: Position, c: Position)
    ensures Heuristic(a, c) <= Heuristic(a, b) + Heuristic(b, c)
  {
  }

  /** Consistency: one table step changes the estimate by at most one. */
  lemma HeuristicConsistent(p: Position, q: Position, goal: Position)
    requires IsStep(p, q)
    ensures Heuristic(p, goal) <= Heuristic(q, goal) + 1
    ensures Heuristic(q, goal) <= Heuristic(p, goal) + 1
  {
    StepIsOrthogonalNeighbour(p, q);
  }

  /** Along any connected sequence of cells the estimate falls by at most the
      number of steps taken; in particular the estimate never exceeds the
      number of steps of a route to the goal (admissibility). */
  lemma {:induction false} HeuristicAlongRoute(w: seq<Position>, goal: Position)
    requires |w| >= 1 && Connected(w)
    ensures Heuristic(w[0], goal) <= Heuristic(w[|w| - 1], goal) + |w| - 1
  {
    if |w| > 1 {
      var u := w[1..];
      forall j | 1 <= j < |u| ensures StepAt(u, j) {
        assert StepAt(w, j + 1);
      }
      HeuristicAlongRoute(u, goal);
      assert StepAt(w, 1);
      HeuristicConsistent(w[0], w[1], goal);
    }
  }

  /** A route of `n` cells from `a` to `b` is at least `Heuristic(a, b) + 1` long. */
  lemma HeuristicAdmissible(g: Grid, a: Position, b: Position, w: seq<Position>)
    requires Valid(g) && PathTo(g, a, b, w)
    ensures Heuristic(a, b) <= |w| - 1
  {
    HeuristicAlongRoute(w, b);
  }
}
