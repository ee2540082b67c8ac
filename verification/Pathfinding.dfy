/** `a_star(maze, start, goal)`: the `while open_set` loop run to its end,
    and what its two outcomes mean. A returned path is a 4-connected walk
    through open cells from `start` to `goal`, `g` steps long; `None` is
    returned exactly when no such walk exists, and then the closed set is
    exactly the set of cells reachable from `start`. */
module Pathfinding {
  import opened Wrappers
  import opened Grid
  import opened Heap
  import opened Search
  import opened SearchInvariant

  /** Iterate `Step` until it returns. Terminates because each iteration
      discovers a new in-bounds cell or shortens the queue. */
  function Run(maze: Maze, start: Cell, goal: Cell, s: State): SearchResult
    requires Inv(maze, start, goal, s)
    decreases Undiscovered(s), |s.heap|
  {
    StepPreservesInv(maze, start, goal, s);
    match Step(maze, start, goal, s)
    case Done(r) => r
    case Continue(next) => Run(maze, start, goal, next)
  }

  /** `a_star`. Any start is accepted: it is neither bounds- nor wall-checked. */
  function AStar(maze: Maze, start: Cell, goal: Cell): SearchResult
    requires WellFormed(maze)
  {
    InitInv(maze, start, goal);
    Run(maze, start, goal, Init(start, goal))
  }

  /** Consecutive cells are 4-adjacent and every cell after the first is in
      bounds and open; the first cell is not checked, like the start. */
  predicate IsWalk(maze: Maze, p: seq<Cell>)
    requires WellFormed(maze)
  {
    |p| >= 1 && forall i {:trigger p[i]} :: 0 <= i < |p| - 1 ==> Move(maze, p[i], p[i + 1])
  }

  /** One step of a walk: to a 4-adjacent, in-bounds, open cell. */
  predicate Move(maze: Maze, a: Cell, b: Cell)
    requires WellFormed(maze)
  {
    Adjacent(a, b) && Passable(maze, b)
  }

  predicate PathOk(maze: Maze, start: Cell, goal: Cell, p: seq<Cell>)
    requires WellFormed(maze)
  {
    IsWalk(maze, p) && p[0] == start && p[|p| - 1] == goal
  }

  ghost predicate Reachable(maze: Maze, start: Cell, c: Cell)
    requires WellFormed(maze)
  {
    exists p :: PathOk(maze, start, c, p)
  }

  /** The walk back along `came_from` from a discovered cell `c`: it visits
      cells whose g counts down by one per link and stops at the start. */
  lemma {:induction false} WalkFacts(maze: Maze, start: Cell, goal: Cell, s: State, c: Cell)
    requires Inv(maze, start, goal, s) && c in s.g
    ensures ChainOk(s.cameFrom, s.g)
    ensures var w := Walk(s.cameFrom, s.g, c) + [start];
      && |w| == s.g[c] + 1
      && w[0] == c
      && w[|w| - 1] == start
      && (forall i :: 0 <= i < |w| - 1 ==> w[i] in s.cameFrom && s.cameFrom[w[i]] == w[i + 1])
      && (forall i :: 0 <= i < |w| ==> w[i] in s.g && s.g[w[i]] == s.g[c] - i)
    decreases s.g[c]
  {
    var w := Walk(s.cameFrom, s.g, c) + [start];
    if c in s.cameFrom {
      var p := s.cameFrom[c];
      assert ParentOk(maze, s, c);
      WalkFacts(maze, start, goal, s, p);
      var w' := Walk(s.cameFrom, s.g, p) + [start];
      assert w == [c] + w';
      forall i | 0 < i < |w|
        ensures w[i] == w'[i - 1]
      {
      }
    } else {
      assert c == start;
      assert w == [start];
    }
  }

  /** `ReconstructPath` towards any discovered cell is a walk from the start
      along which the i-th cell has g equal to i; in particular its length is
      g(c) + 1 and no cell repeats. */
  lemma PathToFacts(maze: Maze, start: Cell, goal: Cell, s: State, c: Cell)
    requires Inv(maze, start, goal, s) && c in s.g
    ensures var p := ReconstructPath(s.cameFrom, s.g, start, c);
      && PathOk(maze, start, c, p)
      && |p| == s.g[c] + 1
      && (forall i :: 0 <= i < |p| ==> p[i] in s.g && s.g[p[i]] == i)
  {
    WalkFacts(maze, start, goal, s, c);
    var w := Walk(s.cameFrom, s.g, c) + [start];
    var p := ReconstructPath(s.cameFrom, s.g, start, c);
    var L := |w|;
    assert p == Reverse(w);
    forall i | 0 <= i < L - 1
      ensures Move(maze, p[i], p[i + 1])
    {
      var k := L - 2 - i;
      assert p[i + 1] == w[k] && p[i] == w[k + 1];
      assert ParentOk(maze, s, w[k]);
    }
  }

  /** Every discovered cell is reachable from the start. */
  lemma DiscoveredReachable(maze: Maze, start: Cell, goal: Cell, s: State, c: Cell)
    requires Inv(maze, start, goal, s) && c in s.g
    ensures Reachable(maze, start, c)
  {
    PathToFacts(maze, start, goal, s, c);
  }

  /** When every closed cell has all its open neighbours closed, a walk that
      starts in the closed set never leaves it. */
  lemma {:induction false} WalkStaysClosed(maze: Maze, s: State, p: seq<Cell>, k: nat)
    requires WellFormed(maze) && Closure(maze, s, {}) && s.g.Keys == s.closed
    requires IsWalk(maze, p) && p[0] in s.closed && k < |p|
    ensures p[k] in s.closed
    decreases k
  {
    if k > 0 {
      WalkStaysClosed(maze, s, p, k - 1);
      NeighborsAreAdjacent(p[k - 1]);
      assert NeighborsKnown(maze, s, p[k - 1]);
    }
  }

  /** The queue ran empty: the closed set is exactly the set of cells
      reachable from the start, so the goal, never closed, is unreachable. */
  lemma ExhaustedMeansUnreachable(maze: Maze, start: Cell, goal: Cell, s: State)
    requires Inv(maze, start, goal, s) && |s.heap| == 0
    ensures forall c :: c in s.closed <==> Reachable(maze, start, c)
    ensures !Reachable(maze, start, goal)
  {
    assert s.openHash == {} by {
      assert CellsOf(s.heap) == {};
    }
    forall c
      ensures c in s.closed <==> Reachable(maze, start, c)
    {
      if c in s.closed {
        DiscoveredReachable(maze, start, goal, s, c);
      }
      if Reachable(maze, start, c) {
        var p :| PathOk(maze, start, c, p);
        WalkStaysClosed(maze, s, p, |p| - 1);
      }
    }
  }

  /** The promises of `a_star`'s result: the goal is never closed; every
      closed cell is reachable; a path is a walk from start to goal; `None`
      means the goal is unreachable and the closed set is the whole region
      reachable from the start. */
  ghost predicate OutcomeOk(maze: Maze, start: Cell, goal: Cell, r: SearchResult)
    requires WellFormed(maze)
  {
    && goal !in r.closed
    && (forall c :: c in r.closed ==> Reachable(maze, start, c))
    && (r.path.Some? ==> PathOk(maze, start, goal, r.path.value))
    && (r.path.None? ==> !Reachable(maze, start, goal) && forall c :: c in r.closed <==> Reachable(maze, start, c))
  }

  /** What a finishing iteration returns meets `OutcomeOk`, and a path is
      g(goal) + 1 cells long. */
  lemma StepOutcome(maze: Maze, start: Cell, goal: Cell, s: State)
    requires Inv(maze, start, goal, s)
    ensures var r := Step(maze, start, goal, s);
      r.Done? ==>
        && OutcomeOk(maze, start, goal, r.result)
        && (r.result.path.Some? ==> goal in s.g && |r.result.path.value| == s.g[goal] + 1)
  {
    var r := Step(maze, start, goal, s);
    if r.Done? {
      forall c | c in r.result.closed
        ensures Reachable(maze, start, c)
      {
        DiscoveredReachable(maze, start, goal, s, c);
      }
      if r.result.path.Some? {
        assert goal in s.g;
        PathToFacts(maze, start, goal, s, goal);
      } else {
        ExhaustedMeansUnreachable(maze, start, goal, s);
      }
    }
  }

  lemma {:induction false} RunOutcome(maze: Maze, start: Cell, goal: Cell, s: State)
    requires Inv(maze, start, goal, s)
    ensures OutcomeOk(maze, start, goal, Run(maze, start, goal, s))
    decreases Undiscovered(s), |s.heap|
  {
    StepPreservesInv(maze, start, goal, s);
    StepOutcome(maze, start, goal, s);
    match Step(maze, start, goal, s)
    case Done(r) =>
      assert Run(maze, start, goal, s) == r;
    case Continue(next) =>
      assert Run(maze, start, goal, s) == Run(maze, start, goal, next);
      RunOutcome(maze, start, goal, next);
  }

  /** `a_star` returns a path exactly when the goal is reachable from the
      start through open cells, and that path is such a walk; on either
      outcome the goal is not in the returned closed set and every returned
      closed cell is reachable; on `None` the closed set is the whole
      reachable region. */
  lemma AStarCorrect(maze: Maze, start: Cell, goal: Cell)
    requires WellFormed(maze)
    ensures var r := AStar(maze, start, goal);
      && goal !in r.closed
      && (forall c :: c in r.closed ==> Reachable(maze, start, c))
      && (r.path.Some? <==> Reachable(maze, start, goal))
      && (r.path.Some? ==> PathOk(maze, start, goal, r.path.value))
      && (r.path.None? ==> forall c :: c in r.closed <==> Reachable(maze, start, c))
  {
    InitInv(maze, start, goal);
    RunOutcome(maze, start, goal, Init(start, goal));
    assert OutcomeOk(maze, start, goal, AStar(maze, start, goal));
  }

  /** With `start == goal` the first pop is the goal: the path is `[start]`
      and nothing has been closed, whether or not the start is a wall. */
  lemma AStarStartIsGoal(maze: Maze, start: Cell)
    requires WellFormed(maze)
    ensures AStar(maze, start, start) == SearchResult(Some([start]), {})
  {
    var s := Init(start, start);
    InitInv(maze, start, start);
    assert Pop(s.heap).0 == Entry(0, start);
    assert Walk(s.cameFrom, s.g, start) == [];
    assert Reverse([start]) == [start];
    assert Step(maze, start, start, s) == Done(SearchResult(Some([start]), {}));
  }
}
