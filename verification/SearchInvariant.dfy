/** The loop invariant of `a_star` and its preservation by one iteration:
    the open and closed sets stay disjoint, the queue holds each open cell
    exactly once, the g/f/came_from bookkeeping stays consistent, closed cells
    are frozen, and the number of undiscovered cells or the queue shrinks. */
module SearchInvariant {
  import opened Wrappers
  import opened Grid
  import opened Heap
  import opened Search

  /** In-bounds cells not yet discovered; with the queue length, the measure
      that makes the loop terminate. */
  function Undiscovered(s: State): set<Cell> {
    AllCells() - s.g.Keys
  }

  /** Nothing the search records about `c` differs between `s` and `r`. */
  ghost predicate Frozen(s: State, r: State, c: Cell) {
    && Lookup(r.g, c) == Lookup(s.g, c)
    && Lookup(r.f, c) == Lookup(s.f, c)
    && Lookup(r.cameFrom, c) == Lookup(s.cameFrom, c)
    && (c in r.openHash <==> c in s.openHash)
  }

  /** What holds while the neighbours of the closed cell `current` are being
      relaxed: everything in `Inv` except that `current`'s own neighbours may
      still be undiscovered. */
  ghost predicate ExpandInv(maze: Maze, start: Cell, goal: Cell, s: State, current: Cell) {
    && WellFormed(maze)
    && Bookkeeping(maze, start, goal, s)
    && current in s.closed
    && Closure(maze, s, {current})
  }

  lemma InitInv(maze: Maze, start: Cell, goal: Cell)
    requires WellFormed(maze)
    ensures Inv(maze, start, goal, Init(start, goal))
    ensures Init(start, goal).g[start] == 0 && start !in Init(start, goal).cameFrom
  {
    var s := Init(start, goal);
    assert CellsOf(s.heap) == {start} by {
      assert s.heap[0].cell == start;
    }
  }

  /** Re-parenting the open, unclosed cell `n` under the closed cell
      `current` at cost g(current) + 1 keeps every parent link sound: no cell
      has the unclosed `n` as its parent, so no other link is affected. */
  lemma ParentsAfterUpdate(maze: Maze, s: State, r: State, current: Cell, n: Cell)
    requires WellFormed(maze) && ParentsOk(maze, s)
    requires current in s.closed && current in s.g && Adjacent(current, n)
    requires Passable(maze, n) && n !in s.closed
    requires r.closed == s.closed
    requires r.g == s.g[n := s.g[current] + 1] && r.cameFrom == s.cameFrom[n := current]
    ensures ParentsOk(maze, r)
  {
    forall m | m in r.cameFrom
      ensures ParentOk(maze, r, m)
    {
      if m != n {
        assert ParentOk(maze, s, m);
      }
    }
  }

  lemma ScoresAfterUpdate(goal: Cell, s: State, r: State, n: Cell, t: nat)
    requires ScoresOk(goal, s)
    requires r.g == s.g[n := t] && r.f == s.f[n := t + Manhattan(n, goal)]
    ensures ScoresOk(goal, r)
  {
  }

  lemma ClosureAfterUpdate(maze: Maze, s: State, r: State, current: Cell)
    requires WellFormed(maze) && Closure(maze, s, {current})
    requires r.closed == s.closed && s.g.Keys <= r.g.Keys
    ensures Closure(maze, r, {current})
  {
    forall c | c in r.closed && c !in {current}
      ensures NeighborsKnown(maze, r, c)
    {
      assert NeighborsKnown(maze, s, c);
    }
  }

  lemma QueueAfterPush(s: State, r: State, e: Entry)
    requires QueueOk(s) && e.cell !in s.openHash
    requires r.heap == Push(s.heap, e) && r.openHash == s.openHash + {e.cell}
    ensures QueueOk(r)
  {
    PushDistinct(s.heap, e);
  }

  lemma SetsAfterFresh(start: Cell, goal: Cell, s: State, r: State, n: Cell, current: Cell)
    requires SetsOk(start, goal, s) && n !in s.g && current in s.g
    requires r.g == s.g[n := s.g[current] + 1] && r.f.Keys == s.f.Keys + {n}
    requires r.cameFrom == s.cameFrom[n := current]
    requires r.openHash == s.openHash + {n} && r.closed == s.closed
    ensures SetsOk(start, goal, r)
  {
  }

  /** Pushing the fresh cell `n` with key f(n) keeps every key sound. */
  lemma KeysAfterPush(start: Cell, s: State, r: State, n: Cell, key: int)
    requires KeysOk(start, s) && QueueOk(s) && n !in s.openHash && n != start
    requires r.heap == Push(s.heap, Entry(key, n))
    requires r.f == s.f[n := key]
    ensures KeysOk(start, r)
  {
    forall i | 0 <= i < |r.heap|
      ensures KeyOk(start, r, r.heap[i])
    {
      if i < |s.heap| {
        assert r.heap[i] == s.heap[i];
        assert KeyOk(start, s, s.heap[i]);
        assert s.heap[i].cell in CellsOf(s.heap);
      } else {
        assert r.heap[i] == Entry(key, n);
      }
    }
  }

  /** Lowering f(n) below its queued key leaves that key stale but sound. */
  lemma KeysAfterImprove(start: Cell, s: State, r: State, n: Cell, newF: int)
    requires KeysOk(start, s) && n in s.f && n != start && newF < s.f[n]
    requires r.heap == s.heap && r.f == s.f[n := newF]
    ensures KeysOk(start, r)
  {
    forall i | 0 <= i < |r.heap|
      ensures KeyOk(start, r, r.heap[i])
    {
      assert KeyOk(start, s, s.heap[i]);
    }
  }

  /** The record `Relax` builds for a fresh cell. */
  lemma RelaxFreshShape(maze: Maze, goal: Cell, current: Cell, s: State, n: Cell)
    requires WellFormed(maze) && current in s.g
    requires Passable(maze, n) && n !in s.closed && n !in s.openHash
    ensures FreshRecord(goal, current, s, n, Relax(maze, goal, current, s, n))
  {
  }

  /** The record `Relax` builds for a queued cell reached more cheaply. */
  lemma RelaxImproveShape(maze: Maze, goal: Cell, current: Cell, s: State, n: Cell)
    requires WellFormed(maze) && current in s.g
    requires Passable(maze, n) && n !in s.closed && n in s.openHash && n in s.g
    requires s.g[current] + 1 < s.g[n]
    ensures var t := s.g[current] + 1;
      Relax(maze, goal, current, s, n)
        == s.(g := s.g[n := t], f := s.f[n := t + Manhattan(n, goal)], cameFrom := s.cameFrom[n := current])
  {
    assert Lookup(s.g, n) == Some(s.g[n]);
  }

  /** The record built for a fresh cell, as a predicate. */
  ghost predicate FreshRecord(goal: Cell, current: Cell, s: State, n: Cell, r: State)
    requires current in s.g
  {
    var t := s.g[current] + 1;
    r == State(Push(s.heap, Entry(t + Manhattan(n, goal), n)), s.g[n := t], s.f[n := t + Manhattan(n, goal)],
               s.cameFrom[n := current], s.openHash + {n}, s.closed)
  }

  /** The queue, the sets and the keys stay sound for a fresh cell. */
  lemma FreshQueue(start: Cell, goal: Cell, current: Cell, s: State, n: Cell, r: State)
    requires QueueOk(s) && SetsOk(start, goal, s) && KeysOk(start, s)
    requires current in s.g && n !in s.closed && n !in s.openHash
    requires FreshRecord(goal, current, s, n, r)
    ensures QueueOk(r) && SetsOk(start, goal, r) && KeysOk(start, r)
  {
    var t := s.g[current] + 1;
    var key := t + Manhattan(n, goal);
    assert n !in s.g && n != start;
    QueueAfterPush(s, r, Entry(key, n));
    SetsAfterFresh(start, goal, s, r, n, current);
    KeysAfterPush(start, s, r, n, key);
  }

  /** The parent links, the scores and the closure stay sound for a fresh
      cell. */
  lemma FreshLinks(maze: Maze, start: Cell, goal: Cell, current: Cell, s: State, n: Cell, r: State)
    requires WellFormed(maze) && ParentsOk(maze, s) && ScoresOk(goal, s) && Closure(maze, s, {current})
    requires current in s.closed && current in s.g && Adjacent(current, n)
    requires Passable(maze, n) && n !in s.closed
    requires FreshRecord(goal, current, s, n, r)
    ensures ParentsOk(maze, r) && ScoresOk(goal, r) && Closure(maze, r, {current})
  {
    var t := s.g[current] + 1;
    ParentsAfterUpdate(maze, s, r, current, n);
    ScoresAfterUpdate(goal, s, r, n, t);
    ClosureAfterUpdate(maze, s, r, current);
  }

  /** The invariant holds of the record built for a fresh cell. */
  lemma FreshInv(maze: Maze, start: Cell, goal: Cell, current: Cell, s: State, n: Cell, r: State)
    requires ExpandInv(maze, start, goal, s, current) && Adjacent(current, n)
    requires Passable(maze, n) && n !in s.closed && n !in s.openHash
    requires FreshRecord(goal, current, s, n, r)
    ensures ExpandInv(maze, start, goal, r, current)
  {
    FreshQueue(start, goal, current, s, n, r);
    FreshLinks(maze, start, goal, current, s, n, r);
  }

  /** A fresh cell (neither queued nor closed) is discovered, pushed once with
      key f, and parented to `current`. */
  lemma RelaxFresh(maze: Maze, start: Cell, goal: Cell, current: Cell, s: State, n: Cell)
    requires ExpandInv(maze, start, goal, s, current) && Adjacent(current, n)
    requires Passable(maze, n) && n !in s.closed && n !in s.openHash
    ensures var r := Relax(maze, goal, current, s, n);
      && ExpandInv(maze, start, goal, r, current)
      && n in r.g
  {
    RelaxFreshShape(maze, goal, current, s, n);
    var r := Relax(maze, goal, current, s, n);
    FreshInv(maze, start, goal, current, s, n, r);
    assert n in r.g;
  }

  /** A queued cell reached more cheaply gets the lower g, f and the new
      parent, but its queue entry keeps the old key. */
  lemma RelaxImprove(maze: Maze, start: Cell, goal: Cell, current: Cell, s: State, n: Cell)
    requires ExpandInv(maze, start, goal, s, current) && Adjacent(current, n)
    requires Passable(maze, n) && n !in s.closed && n in s.openHash
    requires s.g[current] + 1 < s.g[n]
    ensures var r := Relax(maze, goal, current, s, n);
      && ExpandInv(maze, start, goal, r, current)
      && r.g.Keys == s.g.Keys
      && r.heap == s.heap
  {
    RelaxImproveShape(maze, goal, current, s, n);
    var t := s.g[current] + 1;
    var newF := t + Manhattan(n, goal);
    var r := s.(g := s.g[n := t], f := s.f[n := newF], cameFrom := s.cameFrom[n := current]);
    assert n != start;
    assert QueueOk(r);
    assert SetsOk(start, goal, r);
    ParentsAfterUpdate(maze, s, r, current, n);
    ScoresAfterUpdate(goal, s, r, n, t);
    KeysAfterImprove(start, s, r, n, newF);
    ClosureAfterUpdate(maze, s, r, current);
    assert ExpandInv(maze, start, goal, r, current);
    assert Relax(maze, goal, current, s, n) == r;
  }

  /** The stale key: after a queued cell is reached more cheaply, its queue
      entry still carries a key strictly above the cell's new f. */
  lemma RelaxImproveKeepsStaleKey(maze: Maze, start: Cell, goal: Cell, current: Cell, s: State, n: Cell)
    requires ExpandInv(maze, start, goal, s, current) && Adjacent(current, n)
    requires Passable(maze, n) && n !in s.closed && n in s.openHash
    requires s.g[current] + 1 < s.g[n]
    ensures var r := Relax(maze, goal, current, s, n);
      exists e :: e in r.heap && e.cell == n && e.key > r.f[n]
  {
    RelaxImprove(maze, start, goal, current, s, n);
    RelaxImproveShape(maze, goal, current, s, n);
    var r := Relax(maze, goal, current, s, n);
    assert n in CellsOf(s.heap);
    var i :| 0 <= i < |s.heap| && s.heap[i].cell == n;
    assert KeyOk(start, s, s.heap[i]);
    assert n != start;
    assert s.heap[i] in r.heap;
  }

  /** One neighbour keeps the invariant and discovers the neighbour if it is
      open, and only in-bounds cells are ever discovered. */
  lemma RelaxKeeps(maze: Maze, start: Cell, goal: Cell, current: Cell, s: State, n: Cell)
    requires ExpandInv(maze, start, goal, s, current) && Adjacent(current, n)
    ensures var r := Relax(maze, goal, current, s, n);
      && ExpandInv(maze, start, goal, r, current)
      && (Passable(maze, n) ==> n in r.g)
      && r.g.Keys - s.g.Keys <= AllCells()
  {
    if !Passable(maze, n) || n in s.closed {
    } else if n !in s.openHash {
      RelaxFresh(maze, start, goal, current, s, n);
      InBoundsInAllCells(n);
    } else if s.g[current] + 1 < s.g[n] {
      RelaxImprove(maze, start, goal, current, s, n);
    } else {
      assert Lookup(s.g, n) == Some(s.g[n]);
    }
  }

  /** Only the neighbour's own records can change, closed cells are never
      touched, and the queue grows only by a cell never seen before. */
  lemma RelaxFrame(maze: Maze, start: Cell, goal: Cell, current: Cell, s: State, n: Cell)
    requires WellFormed(maze) && current in s.g && SetsOk(start, goal, s)
    ensures var r := Relax(maze, goal, current, s, n);
      && (r.g.Keys == s.g.Keys ==> r.heap == s.heap)
      && (forall m :: m != n || m in s.closed ==> Frozen(s, r, m))
      && (forall e :: e in r.heap ==> e in s.heap || e.cell !in s.g)
  {
    var r := Relax(maze, goal, current, s, n);
    if !Passable(maze, n) || n in s.closed {
    } else if n !in s.openHash {
      RelaxFreshShape(maze, goal, current, s, n);
      assert n !in s.g;
    } else if s.g[current] + 1 < s.g[n] {
      RelaxImproveShape(maze, goal, current, s, n);
    } else {
      assert Lookup(s.g, n) == Some(s.g[n]);
      assert r == s;
    }
  }

  /** One neighbour: the invariant survives, the neighbour is discovered if it
      is open, only that neighbour's records can change, closed cells are never
      touched, and the queue grows only by a cell never seen before. */
  lemma RelaxPreserves(maze: Maze, start: Cell, goal: Cell, current: Cell, s: State, n: Cell)
    requires ExpandInv(maze, start, goal, s, current) && Adjacent(current, n)
    ensures var r := Relax(maze, goal, current, s, n);
      && ExpandInv(maze, start, goal, r, current)
      && (Passable(maze, n) ==> n in r.g)
      && r.g.Keys - s.g.Keys <= AllCells()
      && (r.g.Keys == s.g.Keys ==> r.heap == s.heap)
      && (forall m :: m != n || m in s.closed ==> Frozen(s, r, m))
      && (forall e :: e in r.heap ==> e in s.heap || e.cell !in s.g)
  {
    RelaxKeeps(maze, start, goal, current, s, n);
    RelaxFrame(maze, start, goal, current, s, n);
  }

  /** The whole neighbour loop. */
  lemma {:induction false} ExpandPreserves(maze: Maze, start: Cell, goal: Cell, current: Cell, s: State, ns: seq<Cell>)
    requires ExpandInv(maze, start, goal, s, current)
    requires forall n :: n in ns ==> Adjacent(current, n)
    ensures var r := Expand(maze, goal, current, s, ns);
      && ExpandInv(maze, start, goal, r, current)
      && (forall n :: n in ns && Passable(maze, n) ==> n in r.g)
      && r.g.Keys - s.g.Keys <= AllCells()
      && (r.g.Keys == s.g.Keys ==> r.heap == s.heap)
      && (forall m :: m !in ns || m in s.closed ==> Frozen(s, r, m))
      && (forall e :: e in r.heap ==> e in s.heap || e.cell !in s.g)
    decreases |ns|
  {
    if ns != [] {
      var s1 := Relax(maze, goal, current, s, ns[0]);
      RelaxPreserves(maze, start, goal, current, s, ns[0]);
      ExpandPreserves(maze, start, goal, current, s1, ns[1..]);
      var r := Expand(maze, goal, current, s1, ns[1..]);
      assert r == Expand(maze, goal, current, s, ns);
      forall n | n in ns && Passable(maze, n)
        ensures n in r.g
      {
        if n != ns[0] {
          assert n in ns[1..];
        }
      }
      forall m | m !in ns || m in s.closed
        ensures Frozen(s, r, m)
      {
        assert Frozen(s, s1, m);
        assert m !in ns[1..] || m in s1.closed;
      }
    }
  }

  /** Closing a cell keeps every parent link sound. */
  lemma ParentsAfterClose(maze: Maze, s: State, r: State)
    requires WellFormed(maze) && ParentsOk(maze, s)
    requires r.g == s.g && r.cameFrom == s.cameFrom && s.closed <= r.closed
    ensures ParentsOk(maze, r)
  {
    forall m | m in r.cameFrom
      ensures ParentOk(maze, r, m)
    {
      assert ParentOk(maze, s, m);
    }
  }

  /** Removing entries from the queue keeps every remaining key sound. */
  lemma KeysAfterRemove(start: Cell, s: State, r: State)
    requires KeysOk(start, s) && r.f == s.f
    requires forall e :: e in r.heap ==> e in s.heap
    ensures KeysOk(start, r)
  {
    forall i | 0 <= i < |r.heap|
      ensures KeyOk(start, r, r.heap[i])
    {
      assert r.heap[i] in s.heap;
      var j :| 0 <= j < |s.heap| && s.heap[j] == r.heap[i];
      assert KeyOk(start, s, s.heap[j]);
    }
  }

  /** Closing `current` keeps the closure of every other closed cell. */
  lemma ClosureAfterClose(maze: Maze, s: State, r: State, current: Cell)
    requires WellFormed(maze) && Closure(maze, s, {})
    requires r.g == s.g && r.closed == s.closed + {current}
    ensures Closure(maze, r, {current})
  {
    forall c | c in r.closed && c !in {current}
      ensures NeighborsKnown(maze, r, c)
    {
      assert NeighborsKnown(maze, s, c);
    }
  }

  /** Removing the popped cell from the queue and the open set and adding it
      to the closed set keeps everything but the closure of that one cell. */
  lemma PopPreserves(maze: Maze, start: Cell, goal: Cell, s: State)
    requires Inv(maze, start, goal, s) && |s.heap| > 0 && Pop(s.heap).0.cell != goal
    ensures var current := Pop(s.heap).0.cell;
      var popped := s.(heap := Pop(s.heap).1, openHash := s.openHash - {current}, closed := s.closed + {current});
      && current in s.openHash
      && ExpandInv(maze, start, goal, popped, current)
  {
    PopCells(s.heap);
    var current := Pop(s.heap).0.cell;
    var popped := s.(heap := Pop(s.heap).1, openHash := s.openHash - {current}, closed := s.closed + {current});
    assert QueueOk(popped);
    assert SetsOk(start, goal, popped);
    ParentsAfterClose(maze, s, popped);
    KeysAfterRemove(start, s, popped);
    ClosureAfterClose(maze, s, popped, current);
  }

  /** Once all of `current`'s open neighbours are discovered, no closed cell
      needs an exemption any more. */
  lemma CloseCurrent(maze: Maze, s: State, current: Cell)
    requires WellFormed(maze) && Closure(maze, s, {current})
    requires forall n :: n in Neighbors(current) && Passable(maze, n) ==> n in s.g
    ensures Closure(maze, s, {})
  {
    forall c | c in s.closed && c !in {}
      ensures NeighborsKnown(maze, s, c)
    {
      if c != current {
        assert NeighborsKnown(maze, s, c);
      }
    }
  }

  /** One iteration that does not finish keeps the whole invariant. */
  lemma StepKeepsInv(maze: Maze, start: Cell, goal: Cell, s: State)
    requires Inv(maze, start, goal, s)
    ensures var r := Step(maze, start, goal, s);
      r.Continue? ==> Inv(maze, start, goal, r.next)
  {
    var r := Step(maze, start, goal, s);
    if r.Continue? {
      PopPreserves(maze, start, goal, s);
      var current := Pop(s.heap).0.cell;
      var popped := s.(heap := Pop(s.heap).1, openHash := s.openHash - {current}, closed := s.closed + {current});
      NeighborsAreAdjacent(current);
      ExpandPreserves(maze, start, goal, current, popped, Neighbors(current));
      var next := Expand(maze, goal, current, popped, Neighbors(current));
      assert r.next == next;
      CloseCurrent(maze, next, current);
    }
  }

  /** One iteration that does not finish shrinks the termination measure:
      either a new in-bounds cell was discovered, or nothing was pushed and
      the queue lost the popped entry. */
  lemma StepShrinks(maze: Maze, start: Cell, goal: Cell, s: State)
    requires Inv(maze, start, goal, s)
    ensures var r := Step(maze, start, goal, s);
      r.Continue? ==>
        && Undiscovered(r.next) <= Undiscovered(s)
        && (Undiscovered(r.next) == Undiscovered(s) ==> |r.next.heap| < |s.heap|)
  {
    var r := Step(maze, start, goal, s);
    if r.Continue? {
      PopPreserves(maze, start, goal, s);
      var current := Pop(s.heap).0.cell;
      var popped := s.(heap := Pop(s.heap).1, openHash := s.openHash - {current}, closed := s.closed + {current});
      NeighborsAreAdjacent(current);
      ExpandPreserves(maze, start, goal, current, popped, Neighbors(current));
      var next := Expand(maze, goal, current, popped, Neighbors(current));
      assert r.next == next;
      assert popped.g.Keys == s.g.Keys;
      DiscoveryShrinks(AllCells(), s.g.Keys, next.g.Keys);
    }
  }

  /** Discovering only cells of `all` shrinks the undiscovered part of `all`,
      strictly unless nothing was discovered. */
  lemma DiscoveryShrinks<T>(all: set<T>, known: set<T>, known': set<T>)
    requires known <= known' && known' - known <= all
    ensures all - known' <= all - known
    ensures all - known' == all - known ==> known' == known
  {
  }

  /** One iteration keeps the invariant and decreases the termination
      measure. */
  lemma StepPreservesInv(maze: Maze, start: Cell, goal: Cell, s: State)
    requires Inv(maze, start, goal, s)
    ensures var r := Step(maze, start, goal, s);
      r.Continue? ==>
        && Inv(maze, start, goal, r.next)
        && Undiscovered(r.next) <= Undiscovered(s)
        && (Undiscovered(r.next) == Undiscovered(s) ==> |r.next.heap| < |s.heap|)
  {
    StepKeepsInv(maze, start, goal, s);
    StepShrinks(maze, start, goal, s);
  }

  /** The popped cell leaves the open set and enters the closed set; closed
      cells stay closed, are never re-queued, and keep their g and parent. */
  lemma StepFreezesClosed(maze: Maze, start: Cell, goal: Cell, s: State)
    requires Inv(maze, start, goal, s)
    ensures var r := Step(maze, start, goal, s);
      r.Continue? ==>
        && Pop(s.heap).0.cell in s.openHash
        && Pop(s.heap).0.cell !in r.next.openHash
        && r.next.closed == s.closed + {Pop(s.heap).0.cell}
        && (forall c :: c in s.closed ==>
              && c !in r.next.openHash
              && Lookup(r.next.g, c) == Lookup(s.g, c)
              && Lookup(r.next.cameFrom, c) == Lookup(s.cameFrom, c))
  {
    var r := Step(maze, start, goal, s);
    if r.Continue? {
      PopPreserves(maze, start, goal, s);
      var current := Pop(s.heap).0.cell;
      var popped := s.(heap := Pop(s.heap).1, openHash := s.openHash - {current}, closed := s.closed + {current});
      NeighborsAreAdjacent(current);
      ExpandPreserves(maze, start, goal, current, popped, Neighbors(current));
      assert r.next == Expand(maze, goal, current, popped, Neighbors(current));
      forall c | c in s.closed
        ensures Lookup(r.next.g, c) == Lookup(s.g, c) && Lookup(r.next.cameFrom, c) == Lookup(s.cameFrom, c)
      {
        assert Frozen(popped, r.next, c);
      }
    }
  }

  /** One iteration changes the records of the popped cell and its four
      neighbours only: every other cell keeps its g, f, parent and open-set
      membership. */
  lemma StepIsLocal(maze: Maze, start: Cell, goal: Cell, s: State)
    requires Inv(maze, start, goal, s)
    ensures var r := Step(maze, start, goal, s);
      r.Continue? ==>
        forall m :: m !in Neighbors(Pop(s.heap).0.cell) && m != Pop(s.heap).0.cell ==> Frozen(s, r.next, m)
  {
    var r := Step(maze, start, goal, s);
    if r.Continue? {
      PopPreserves(maze, start, goal, s);
      var current := Pop(s.heap).0.cell;
      var popped := s.(heap := Pop(s.heap).1, openHash := s.openHash - {current}, closed := s.closed + {current});
      NeighborsAreAdjacent(current);
      ExpandPreserves(maze, start, goal, current, popped, Neighbors(current));
      assert r.next == Expand(maze, goal, current, popped, Neighbors(current));
      forall m | m !in Neighbors(current) && m != current
        ensures Frozen(s, r.next, m)
      {
        assert Frozen(popped, r.next, m);
      }
    }
  }

  /** Every entry on the queue after an iteration was already queued before,
      or is for a cell that had never been queued or closed: a cell is pushed
      only while outside both sets, hence at most once per search. */
  lemma StepPushesFresh(maze: Maze, start: Cell, goal: Cell, s: State)
    requires Inv(maze, start, goal, s)
    ensures var r := Step(maze, start, goal, s);
      r.Continue? ==>
        forall e :: e in r.next.heap ==> e in s.heap || (e.cell !in s.openHash && e.cell !in s.closed)
  {
    var r := Step(maze, start, goal, s);
    if r.Continue? {
      PopPreserves(maze, start, goal, s);
      PopCells(s.heap);
      var current := Pop(s.heap).0.cell;
      var popped := s.(heap := Pop(s.heap).1, openHash := s.openHash - {current}, closed := s.closed + {current});
      NeighborsAreAdjacent(current);
      ExpandPreserves(maze, start, goal, current, popped, Neighbors(current));
      assert r.next == Expand(maze, goal, current, popped, Neighbors(current));
    }
  }
}
