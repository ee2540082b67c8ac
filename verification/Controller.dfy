/** `main()`: the session state kept across frames and the handling of one
    batch of window events. Left click moves the start, right click moves the
    goal, middle click flips a wall, Enter runs `a_star`, closing the window
    stops the loop. Drawing and the frame clock are not modelled. */
module Controller {
  import opened Wrappers
  import opened Grid
  import opened Pathfinding

  /** `pygame.K_RETURN`. */
  const KeyReturn: int := 13

  /** What `main` keeps between frames. */
  datatype Session = Session(maze: Maze, start: Cell, goal: Cell, path: Option<seq<Cell>>, running: bool)

  /** The events `main` distinguishes. A button press carries the mouse
      position read while the event is handled. */
  datatype Event =
    | Quit
    | MouseButtonDown(x: int, y: int, button: int)
    | KeyDown(key: int)
    | Other

  /** Only the middle click indexes the maze; a mouse position outside the
      window there is a Python `IndexError` or a negative-index wrap-around,
      which the model does not admit. Left and right clicks accept any
      position. */
  predicate EventOk(e: Event) {
    e.MouseButtonDown? && e.button == 2 ==> InWindow(e.x, e.y)
  }

  predicate SessionOk(s: Session) {
    WellFormed(s.maze)
  }

  /** The state before the first frame: the sampled maze with its corners
      forced open, start top-left, goal bottom-right, no path, running. */
  function InitialSession(sampled: Maze): (r: Session)
    requires WellFormed(sampled)
    ensures SessionOk(r) && r.running && r.path.None?
    ensures r.start == Cell(0, 0) && r.goal == Cell(Size - 1, Size - 1)
    ensures InBounds(r.start) && InBounds(r.goal)
    ensures Passable(r.maze, r.start) && Passable(r.maze, r.goal)
    ensures forall c :: InBounds(c) && c != r.start && c != r.goal ==> r.maze[c.row][c.col] == sampled[c.row][c.col]
  {
    Session(ForceCorners(sampled), Cell(0, 0), Cell(Size - 1, Size - 1), None, true)
  }

  /** The body of `for event in pygame.event.get()` for one event. */
  function HandleEvent(s: Session, e: Event): (r: Session)
    requires SessionOk(s) && EventOk(e)
    ensures SessionOk(r)
    ensures r.running == (s.running && !e.Quit?)
    ensures r.start != s.start ==> e.MouseButtonDown? && e.button == 1 && r.start == CellAt(e.x, e.y)
    ensures r.goal != s.goal ==> e.MouseButtonDown? && e.button == 3 && r.goal == CellAt(e.x, e.y)
    ensures r.maze != s.maze ==> e.MouseButtonDown? && e.button == 2
    ensures forall c :: InBounds(c) && !(e.MouseButtonDown? && CellAt(e.x, e.y) == c) ==> r.maze[c.row][c.col] == s.maze[c.row][c.col]
    ensures e == KeyDown(KeyReturn) ==> r.path == AStar(s.maze, s.start, s.goal).path
    ensures e != KeyDown(KeyReturn) ==> r.path == s.path
  {
    match e
    case Quit => s.(running := false)
    case MouseButtonDown(x, y, button) =>
      var c := CellAt(x, y);
      if button == 1 then s.(start := c)
      else if button == 3 then s.(goal := c)
      else if button == 2 then s.(maze := Toggle(s.maze, c))
      else s
    case KeyDown(key) =>
      if key == KeyReturn then s.(path := AStar(s.maze, s.start, s.goal).path) else s
    case Other => s
  }

  /** One batch of `pygame.event.get()`, handled in order. A `QUIT` does not
      cut the batch short: the events after it are still handled. */
  function HandleBatch(s: Session, events: seq<Event>): (r: Session)
    requires SessionOk(s) && forall i :: 0 <= i < |events| ==> EventOk(events[i])
    ensures SessionOk(r)
    decreases |events|
  {
    if events == [] then s else HandleBatch(HandleEvent(s, events[0]), events[1..])
  }

  /** `while running:` one batch per frame until a batch has held a `QUIT`.
      Returns the final session and the number of frames run. */
  function MainLoop(s: Session, batches: seq<seq<Event>>): (r: (Session, nat))
    requires SessionOk(s)
    requires forall b, i :: 0 <= b < |batches| && 0 <= i < |batches[b]| ==> EventOk(batches[b][i])
    ensures SessionOk(r.0)
    ensures r.1 <= |batches|
    decreases |batches|
  {
    if !s.running || batches == [] then (s, 0)
    else
      var next := MainLoop(HandleBatch(s, batches[0]), batches[1..]);
      (next.0, next.1 + 1)
  }

  /** Every batch handled one after another, with no check of `running`. */
  function HandleBatches(s: Session, batches: seq<seq<Event>>): (r: Session)
    requires SessionOk(s)
    requires forall b, i :: 0 <= b < |batches| && 0 <= i < |batches[b]| ==> EventOk(batches[b][i])
    ensures SessionOk(r)
    decreases |batches|
  {
    if batches == [] then s else HandleBatches(HandleBatch(s, batches[0]), batches[1..])
  }

  /** A left click moves only the start, a right click only the goal, each
      to the cell under the mouse; any other button but the middle one
      changes nothing. */
  lemma ClickMovesEndpoint(s: Session, x: int, y: int, button: int)
    requires SessionOk(s) && InWindow(x, y)
    ensures var r := HandleEvent(s, MouseButtonDown(x, y, button));
      && (button == 1 ==> r == s.(start := CellAt(x, y)) && InBounds(r.start))
      && (button == 3 ==> r == s.(goal := CellAt(x, y)) && InBounds(r.goal))
      && (button !in {1, 2, 3} ==> r == s)
  {
  }

  /** A left or right click outside the window is not rejected: the start or
      the goal becomes the out-of-bounds cell under the mouse, and nothing
      else changes. */
  lemma ClickOutsideWindow(s: Session, x: int, y: int, button: int)
    requires SessionOk(s) && !InWindow(x, y) && button in {1, 3}
    ensures var r := HandleEvent(s, MouseButtonDown(x, y, button));
      && (button == 1 ==> r == s.(start := CellAt(x, y)) && !InBounds(r.start))
      && (button == 3 ==> r == s.(goal := CellAt(x, y)) && !InBounds(r.goal))
  {
  }

  /** A middle click flips exactly the clicked cell, even when it is the start
      or the goal, and leaves the start, the goal and the shown path alone. */
  lemma MiddleClickFlips(s: Session, x: int, y: int)
    requires SessionOk(s) && InWindow(x, y)
    ensures var r := HandleEvent(s, MouseButtonDown(x, y, 2));
      var c := CellAt(x, y);
      && r.start == s.start && r.goal == s.goal && r.path == s.path
      && Passable(r.maze, c) == !Passable(s.maze, c)
  {
  }

  /** A second middle click on the same pixel undoes the first. */
  lemma MiddleClickTwice(s: Session, x: int, y: int)
    requires SessionOk(s) && InWindow(x, y)
    ensures HandleEvent(HandleEvent(s, MouseButtonDown(x, y, 2)), MouseButtonDown(x, y, 2)) == s
  {
    ToggleInvolution(s.maze, CellAt(x, y));
  }

  /** After Enter the shown path exists exactly when the goal is reachable
      from the start through open cells, and it is such a walk. */
  lemma EnterFindsPath(s: Session)
    requires SessionOk(s)
    ensures var r := HandleEvent(s, KeyDown(KeyReturn));
      && (r.path.Some? <==> Reachable(s.maze, s.start, s.goal))
      && (r.path.Some? ==> PathOk(s.maze, s.start, s.goal, r.path.value))
  {
    AStarCorrect(s.maze, s.start, s.goal);
  }

  /** Pressing Enter again with nothing changed shows the same path. */
  lemma EnterIdempotent(s: Session)
    requires SessionOk(s)
    ensures var once := HandleEvent(s, KeyDown(KeyReturn));
      HandleEvent(once, KeyDown(KeyReturn)) == once
  {
  }

  /** The shown path is not cleared by an edit: after Enter, a middle click on
      a cell of the path leaves that path shown although it now crosses a
      wall (or, for the first cell, starts on one). */
  lemma EditKeepsStalePath(s: Session, x: int, y: int)
    requires SessionOk(s) && InWindow(x, y)
    requires var r := HandleEvent(s, KeyDown(KeyReturn)); r.path.Some? && CellAt(x, y) in r.path.value
    requires Passable(s.maze, CellAt(x, y))
    ensures var r := HandleEvent(HandleEvent(s, KeyDown(KeyReturn)), MouseButtonDown(x, y, 2));
      && r.path == AStar(s.maze, s.start, s.goal).path
      && CellAt(x, y) in r.path.value
      && !Passable(r.maze, CellAt(x, y))
  {
  }

  /** A batch ends with the loop running exactly when it was running and the
      batch holds no `QUIT`. */
  lemma {:induction false} BatchStopsOnQuit(s: Session, events: seq<Event>)
    requires SessionOk(s) && forall i :: 0 <= i < |events| ==> EventOk(events[i])
    ensures HandleBatch(s, events).running <==> s.running && Quit !in events
    decreases |events|
  {
    if events != [] {
      BatchStopsOnQuit(HandleEvent(s, events[0]), events[1..]);
      assert events == [events[0]] + events[1..];
    }
  }

  /** Index of the first batch holding a `QUIT`, or the number of batches. */
  function FirstQuit(batches: seq<seq<Event>>): (k: nat)
    ensures k <= |batches|
    ensures forall b :: 0 <= b < k ==> Quit !in batches[b]
    ensures k < |batches| ==> Quit in batches[k]
    decreases |batches|
  {
    if batches == [] then 0
    else if Quit in batches[0] then 0
    else FirstQuit(batches[1..]) + 1
  }

  /** From a running session the loop runs every frame up to and including
      the first one whose batch holds a `QUIT`, and stops running exactly
      when there was such a batch. */
  lemma {:induction false} LoopStopsAtFirstQuit(s: Session, batches: seq<seq<Event>>)
    requires SessionOk(s) && s.running
    requires forall b, i :: 0 <= b < |batches| && 0 <= i < |batches[b]| ==> EventOk(batches[b][i])
    ensures var r := MainLoop(s, batches);
      && r.1 == (if FirstQuit(batches) < |batches| then FirstQuit(batches) + 1 else |batches|)
      && (r.0.running <==> FirstQuit(batches) == |batches|)
      && r.0 == HandleBatches(s, batches[..r.1])
    decreases |batches|
  {
    if batches != [] {
      BatchStopsOnQuit(s, batches[0]);
      var next := HandleBatch(s, batches[0]);
      var r := MainLoop(s, batches);
      if Quit !in batches[0] {
        LoopStopsAtFirstQuit(next, batches[1..]);
        assert FirstQuit(batches) == FirstQuit(batches[1..]) + 1;
        var k := MainLoop(next, batches[1..]).1;
        assert r.1 == k + 1;
        assert batches[..r.1][1..] == batches[1..][..k];
      } else {
        assert !next.running;
        assert MainLoop(next, batches[1..]) == (next, 0);
        assert r.1 == 1;
        assert batches[..1][1..] == [];
      }
      assert batches[..r.1][0] == batches[0];
    } else {
      assert batches[..0] == [];
    }
  }
}
