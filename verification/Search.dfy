/** One call of `a_star(maze, start, goal)` as an immutable state and a pure
    step function: each `Step` is one iteration of the `while open_set` loop
    (pop, goal test, close, relax the four neighbours). The loop that repeats
    `Step` until it finishes is `Pathfinding.Run`. */
module Search {
  import opened Wrappers
  import opened Grid
  import opened Heap

  /** The search's local variables between two iterations of its loop. */
  datatype State = State(
    heap: seq<Entry>,            // open_set
    g: map<Cell, nat>,           // g_score
    f: map<Cell, int>,           // f_score
    cameFrom: map<Cell, Cell>,   // came_from
    openHash: set<Cell>,         // open_set_hash
    closed: set<Cell>)           // closed_set

  /** What `a_star` returns: `(path, closed_set)`, with `None` for no path. */
  datatype SearchResult = SearchResult(path: Option<seq<Cell>>, closed: set<Cell>)

  /** The loop either goes round again or returns. */
  datatype StepResult = Continue(next: State) | Done(result: SearchResult)

  /** The variables before the loop. The start is pushed with key 0, not with
      its heuristic value, while `f_score[start]` does hold the heuristic. */
  function Init(start: Cell, goal: Cell): State {
    State([Entry(0, start)], map[start := 0], map[start := Manhattan(start, goal)], map[], {start}, {})
  }

  /** `tentative < g_score.get(n, float('inf'))`, with `None` for the missing
      entry that compares as infinity. */
  predicate Improves(tentative: int, known: Option<nat>) {
    known.None? || tentative < known.value
  }

  /** The body of the neighbour loop for one candidate `n` of `current`. */
  function Relax(maze: Maze, goal: Cell, current: Cell, s: State, n: Cell): (r: State)
    requires WellFormed(maze) && current in s.g
    ensures r.closed == s.closed
    ensures s.g.Keys <= r.g.Keys
  {
    if !Passable(maze, n) || n in s.closed then s
    else
      var tentative := s.g[current] + 1;
      if n !in s.openHash || Improves(tentative, Lookup(s.g, n)) then
        var updated := s.(cameFrom := s.cameFrom[n := current],
                          g := s.g[n := tentative],
                          f := s.f[n := tentative + Manhattan(n, goal)]);
        if n !in s.openHash then
          updated.(heap := Push(s.heap, Entry(updated.f[n], n)), openHash := s.openHash + {n})
        else
          updated
      else
        s
  }

  /** An out-of-bounds, walled or closed candidate is skipped outright; any
      other candidate is discovered, and no cell but the candidate is. */
  lemma RelaxSkips(maze: Maze, goal: Cell, current: Cell, s: State, n: Cell)
    requires WellFormed(maze) && current in s.g
    ensures var r := Relax(maze, goal, current, s, n);
      && (!Passable(maze, n) || n in s.closed ==> r == s)
      && (Passable(maze, n) && n !in s.closed ==> n in r.g)
      && r.g.Keys <= s.g.Keys + {n}
  {
  }

  /** The neighbour loop: `Relax` each candidate in order. */
  function Expand(maze: Maze, goal: Cell, current: Cell, s: State, ns: seq<Cell>): (r: State)
    requires WellFormed(maze) && current in s.g
    ensures r.closed == s.closed
    ensures s.g.Keys <= r.g.Keys
    decreases |ns|
  {
    if ns == [] then s
    else Expand(maze, goal, current, Relax(maze, goal, current, s, ns[0]), ns[1..])
  }

  /** Every parent link lowers g by exactly one, which is what makes the walk
      back along `came_from` terminate. */
  ghost predicate ChainOk(cameFrom: map<Cell, Cell>, g: map<Cell, nat>) {
    forall n :: n in cameFrom ==> n in g && cameFrom[n] in g && g[n] == g[cameFrom[n]] + 1
  }

  /** The cells visited by `while current in came_from`, goal first; the
      cell where the walk stops (the start) is not included. */
  function Walk(cameFrom: map<Cell, Cell>, g: map<Cell, nat>, c: Cell): seq<Cell>
    requires ChainOk(cameFrom, g) && c in g
    decreases g[c]
  {
    if c in cameFrom then [c] + Walk(cameFrom, g, cameFrom[c]) else []
  }

  /** `list.reverse()`. */
  function Reverse<T>(s: seq<T>): (r: seq<T>)
    ensures |r| == |s|
    ensures forall i :: 0 <= i < |s| ==> r[i] == s[|s| - 1 - i]
  {
    if s == [] then [] else Reverse(s[1..]) + [s[0]]
  }

  /** The path built when the goal is popped: the walk, then `start`, reversed. */
  function ReconstructPath(cameFrom: map<Cell, Cell>, g: map<Cell, nat>, start: Cell, goal: Cell): seq<Cell>
    requires ChainOk(cameFrom, g) && goal in g
  {
    Reverse(Walk(cameFrom, g, goal) + [start])
  }

  /** The parent of a queued or closed cell is a closed, adjacent cell one step
      nearer the start, and the cell itself is open. */
  ghost predicate ParentOk(maze: Maze, s: State, n: Cell)
    requires WellFormed(maze)
  {
    && n in s.cameFrom && n in s.g
    && s.cameFrom[n] in s.g && s.cameFrom[n] in s.closed
    && Adjacent(s.cameFrom[n], n) && Passable(maze, n)
    && s.g[n] == s.g[s.cameFrom[n]] + 1
  }

  /** A queued key: the start keeps the key 0 it was pushed with; any other
      key is the f the cell was pushed with, which a later improvement of the
      cell's g lowers in `f_score` but not in the queue. */
  ghost predicate KeyOk(start: Cell, s: State, e: Entry) {
    e.cell in s.f && (if e.cell == start then e.key == 0 else e.key >= s.f[e.cell])
  }

  /** How the bookkeeping sets relate: open and closed are disjoint and
      together are exactly the cells with a g (and an f); the start has g 0
      and is the only such cell without a parent; the goal is never closed. */
  ghost predicate SetsOk(start: Cell, goal: Cell, s: State) {
    && s.openHash !! s.closed
    && s.g.Keys == s.openHash + s.closed
    && s.f.Keys == s.g.Keys
    && start in s.g && s.g[start] == 0
    && s.cameFrom.Keys == s.g.Keys - {start}
    && goal !in s.closed
  }

  ghost predicate ParentsOk(maze: Maze, s: State)
    requires WellFormed(maze)
  {
    forall n :: n in s.cameFrom ==> ParentOk(maze, s, n)
  }

  /** `f_score[n] == g_score[n] + h(n, goal)` for every scored cell. */
  ghost predicate ScoresOk(goal: Cell, s: State) {
    forall n :: n in s.g ==> n in s.f && s.f[n] == s.g[n] + Manhattan(n, goal)
  }

  ghost predicate KeysOk(start: Cell, s: State) {
    forall i :: 0 <= i < |s.heap| ==> KeyOk(start, s, s.heap[i])
  }

  /** The queue holds each open cell exactly once. */
  ghost predicate QueueOk(s: State) {
    Distinct(s.heap) && CellsOf(s.heap) == s.openHash
  }

  /** The cost bookkeeping kept by the loop. */
  ghost predicate Bookkeeping(maze: Maze, start: Cell, goal: Cell, s: State)
    requires WellFormed(maze)
  {
    && QueueOk(s)
    && SetsOk(start, goal, s)
    && ParentsOk(maze, s)
    && ScoresOk(goal, s)
    && KeysOk(start, s)
  }

  /** Every open neighbour of `c` has been discovered. */
  ghost predicate NeighborsKnown(maze: Maze, s: State, c: Cell)
    requires WellFormed(maze)
  {
    forall n :: n in Neighbors(c) && Passable(maze, n) ==> n in s.g
  }

  /** Closed cells other than those in `exempt` have had all their open
      neighbours discovered. */
  ghost predicate Closure(maze: Maze, s: State, exempt: set<Cell>)
    requires WellFormed(maze)
  {
    forall c {:trigger NeighborsKnown(maze, s, c)} :: c in s.closed && c !in exempt ==> NeighborsKnown(maze, s, c)
  }

  /** What holds at the top of the `while open_set` loop. */
  ghost predicate Inv(maze: Maze, start: Cell, goal: Cell, s: State) {
    && WellFormed(maze)
    && Bookkeeping(maze, start, goal, s)
    && Closure(maze, s, {})
  }

  /** One iteration of the loop. */
  function Step(maze: Maze, start: Cell, goal: Cell, s: State): (r: StepResult)
    requires Inv(maze, start, goal, s)
    ensures (r.Done? && r.result.path.None?) <==> |s.heap| == 0
    ensures r.Done? ==> r.result.closed == s.closed
    ensures r.Done? && r.result.path.Some? ==> |s.heap| > 0 && Pop(s.heap).0.cell == goal && goal in s.openHash
    ensures r.Continue? ==> |s.heap| > 0 && Pop(s.heap).0.cell != goal
    ensures r.Continue? ==> r.next.closed == s.closed + {Pop(s.heap).0.cell}
    ensures r.Continue? ==> |r.next.closed| == |s.closed| + 1
  {
    if |s.heap| == 0 then Done(SearchResult(None, s.closed))
    else
      PopCells(s.heap);
      var top := Pop(s.heap).0;
      var current := top.cell;
      if current == goal then
        Done(SearchResult(Some(ReconstructPath(s.cameFrom, s.g, start, goal)), s.closed))
      else
        var popped := s.(heap := Pop(s.heap).1, openHash := s.openHash - {current}, closed := s.closed + {current});
        Continue(Expand(maze, goal, current, popped, Neighbors(current)))
  }
}
