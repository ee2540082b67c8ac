/** The `while open_set` loop of `a_star` as a loop, with the per-iteration
    rendering call kept as an observation: after every expansion the program
    calls `draw_maze(..., open_set_hash, closed_set)`, recorded here as one
    frame. The frames and the number of `heappop` calls are returned. */
module Driver {
  import opened Grid
  import opened Search
  import opened SearchInvariant
  import opened Pathfinding

  /** The two sets handed to the renderer after one expansion. */
  datatype Frame = Frame(open: set<Cell>, closed: set<Cell>)

  /** Only in-bounds cells are ever discovered, apart from the start. */
  lemma DiscoveredBound(maze: Maze, start: Cell, goal: Cell, s: State)
    requires Inv(maze, start, goal, s)
    ensures s.g.Keys <= AllCells() + {start}
    ensures |AllCells() + {start}| <= Size * Size + 1
  {
    forall c | c in s.g.Keys && c != start
      ensures c in AllCells()
    {
      assert ParentOk(maze, s, c);
      InBoundsInAllCells(c);
    }
    CellsCard(Size, Size);
  }

  /** A finishing iteration returns the whole run's result after at most
      GRID_SIZE^2 + 1 pops. */
  lemma DoneFacts(maze: Maze, start: Cell, goal: Cell, s: State)
    requires Inv(maze, start, goal, s)
    ensures var r := Step(maze, start, goal, s);
      r.Done? ==>
        && Run(maze, start, goal, s) == r.result
        && r.result.closed == s.closed
        && goal !in r.result.closed
        && |s.closed| + (if r.result.path.Some? then 1 else 0) <= Size * Size + 1
  {
    var r := Step(maze, start, goal, s);
    if r.Done? {
      DiscoveredBound(maze, start, goal, s);
      assert Run(maze, start, goal, s) == r.result;
      if r.result.path.Some? {
        SubsetCard(s.closed + {goal}, AllCells() + {start});
      } else {
        SubsetCard(s.closed, AllCells() + {start});
      }
    }
  }

  /** A continuing iteration keeps the invariant, shrinks the measure and
      closes one more cell. */
  lemma ContinueFacts(maze: Maze, start: Cell, goal: Cell, s: State)
    requires Inv(maze, start, goal, s)
    ensures var r := Step(maze, start, goal, s);
      r.Continue? ==>
        && Inv(maze, start, goal, r.next)
        && |Undiscovered(r.next)| <= |Undiscovered(s)|
        && (|Undiscovered(r.next)| == |Undiscovered(s)| ==> |r.next.heap| < |s.heap|)
        && Run(maze, start, goal, s) == Run(maze, start, goal, r.next)
        && r.next.openHash !! r.next.closed
        && s.closed <= r.next.closed
        && |r.next.closed| == |s.closed| + 1
  {
    var r := Step(maze, start, goal, s);
    if r.Continue? {
      StepPreservesInv(maze, start, goal, s);
      assert Run(maze, start, goal, s) == Run(maze, start, goal, r.next);
      SubsetCard(Undiscovered(r.next), Undiscovered(s));
    }
  }

  /** The i-th frame shows disjoint sets and exactly i + 1 closed cells, all
      of them within `closed`. */
  predicate FramesOk(frames: seq<Frame>, closed: set<Cell>) {
    forall i :: 0 <= i < |frames| ==>
      && frames[i].open !! frames[i].closed
      && |frames[i].closed| == i + 1
      && frames[i].closed <= closed
  }

  lemma AppendFrame(frames: seq<Frame>, closed: set<Cell>, f: Frame)
    requires FramesOk(frames, closed) && closed <= f.closed
    requires f.open !! f.closed && |f.closed| == |frames| + 1
    ensures FramesOk(frames + [f], f.closed)
  {
    forall i | 0 <= i < |frames| + 1
      ensures (frames + [f])[i] == if i < |frames| then frames[i] else f
    {
    }
  }

  /** `a_star` as the loop it is: pop, test, close, relax, draw. The result
      is the one `AStar` defines; every frame shows disjoint open and closed
      sets, the i-th frame exactly i + 1 closed cells, all of them in the
      returned closed set; and since each cell is queued at most once, the
      loop pops at most GRID_SIZE^2 + 1 times. */
  method RunSearch(maze: Maze, start: Cell, goal: Cell) returns (r: SearchResult, frames: seq<Frame>, pops: nat)
    requires WellFormed(maze)
    ensures r == AStar(maze, start, goal)
    ensures pops == |frames| + (if r.path.Some? then 1 else 0)
    ensures pops <= Size * Size + 1
    ensures FramesOk(frames, r.closed)
    ensures goal !in r.closed
  {
    InitInv(maze, start, goal);
    var s := Init(start, goal);
    frames := [];
    pops := 0;
    while true
      invariant Inv(maze, start, goal, s)
      invariant Run(maze, start, goal, s) == AStar(maze, start, goal)
      invariant pops == |frames| == |s.closed|
      invariant FramesOk(frames, s.closed)
      decreases |Undiscovered(s)|, |s.heap|
    {
      DoneFacts(maze, start, goal, s);
      ContinueFacts(maze, start, goal, s);
      var step := Step(maze, start, goal, s);
      if step.Done? {
        r := step.result;
        if r.path.Some? {
          pops := pops + 1;
        }
        return;
      }
      AppendFrame(frames, s.closed, Frame(step.next.openHash, step.next.closed));
      s := step.next;
      pops := pops + 1;
      frames := frames + [Frame(s.openHash, s.closed)];
    }
  }
}
