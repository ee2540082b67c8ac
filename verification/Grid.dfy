/** The maze the search runs on: a square matrix of wall flags, the cells
    that index it, Manhattan distance, 4-neighbourhoods, and the three edits
    the program makes to a maze (corner forcing, wall toggling, and mapping a
    pixel to the cell under it). */
module Grid {

  /** GRID_SIZE: rows and columns of the maze. */
  const Size: nat := 20
  /** WIDTH and HEIGHT of the window, in pixels. */
  const Width: nat := 600
  const Height: nat := 600
  /** CELL_SIZE = WIDTH // GRID_SIZE. */
  const CellSize: nat := Width / Size

  /** A (row, col) pair; any integers, bounds are a separate predicate. */
  datatype Cell = Cell(row: int, col: int)

  /** Wall flags: `true` is a wall (1 in the program), `false` is open (0). */
  type Maze = seq<seq<bool>>

  predicate IsSquare(m: Maze, n: nat) {
    |m| == n && forall r :: 0 <= r < n ==> |m[r]| == n
  }

  /** The search only ever reads a GRID_SIZE x GRID_SIZE maze. */
  predicate WellFormed(m: Maze) {
    IsSquare(m, Size)
  }

  predicate InBounds(c: Cell) {
    0 <= c.row < Size && 0 <= c.col < Size
  }

  /** The expansion test of the search: inside the grid and not a wall. */
  predicate Passable(m: Maze, c: Cell)
    requires WellFormed(m)
  {
    InBounds(c) && !m[c.row][c.col]
  }

  function Abs(x: int): nat {
    if x < 0 then -x else x
  }

  /** Manhattan distance, the search heuristic. */
  function Manhattan(a: Cell, b: Cell): nat {
    Abs(a.row - b.row) + Abs(a.col - b.col)
  }

  predicate Adjacent(a: Cell, b: Cell) {
    Manhattan(a, b) == 1
  }

  /** The four candidate neighbours in expansion order: up, down, left, right
      (row offsets -1, +1, then column offsets -1, +1). */
  function Neighbors(c: Cell): seq<Cell> {
    [Cell(c.row - 1, c.col), Cell(c.row + 1, c.col), Cell(c.row, c.col - 1), Cell(c.row, c.col + 1)]
  }

  /** The 4-neighbourhood is exactly the set of cells at Manhattan distance 1,
      and its four members are distinct. */
  lemma NeighborsAreAdjacent(a: Cell)
    ensures forall b :: b in Neighbors(a) <==> Adjacent(a, b)
    ensures |Neighbors(a)| == 4
    ensures forall i, j :: 0 <= i < j < 4 ==> Neighbors(a)[i] != Neighbors(a)[j]
  {
    forall b | Adjacent(a, b)
      ensures b in Neighbors(a)
    {
      if b.row == a.row - 1 {
        assert b == Neighbors(a)[0];
      } else if b.row == a.row + 1 {
        assert b == Neighbors(a)[1];
      } else if b.col == a.col - 1 {
        assert b == Neighbors(a)[2];
      } else {
        assert b == Neighbors(a)[3];
      }
    }
  }

  /** The heuristic is a metric that changes by at most one across an edge of
      the grid, so it never overestimates the number of unit moves left. */
  lemma ManhattanLaws(a: Cell, b: Cell, goal: Cell)
    ensures Manhattan(a, b) == Manhattan(b, a)
    ensures Manhattan(a, b) == 0 <==> a == b
    ensures Manhattan(a, goal) <= Manhattan(a, b) + Manhattan(b, goal)
    ensures Adjacent(a, b) ==> Manhattan(a, goal) <= Manhattan(b, goal) + 1
    ensures Adjacent(a, b) ==> Manhattan(b, goal) <= Manhattan(a, goal) + 1
  {
  }

  /** All cells with 0 <= row < rows and 0 <= col < cols. */
  function Cells(rows: nat, cols: nat): set<Cell> {
    set r, c | 0 <= r < rows && 0 <= c < cols :: Cell(r, c)
  }

  function RowCells(r: int, cols: nat): set<Cell> {
    set c | 0 <= c < cols :: Cell(r, c)
  }

  /** Every in-bounds cell. */
  function AllCells(): set<Cell> {
    Cells(Size, Size)
  }

  lemma InBoundsInAllCells(c: Cell)
    ensures c in AllCells() <==> InBounds(c)
  {
    if InBounds(c) {
      assert c == Cell(c.row, c.col);
    }
  }

  lemma {:induction false} RowCellsCard(r: int, cols: nat)
    ensures |RowCells(r, cols)| == cols
  {
    if cols > 0 {
      RowCellsCard(r, cols - 1);
      assert RowCells(r, cols) == RowCells(r, cols - 1) + {Cell(r, cols - 1)};
      assert Cell(r, cols - 1) !in RowCells(r, cols - 1);
    } else {
      assert RowCells(r, cols) == {};
    }
  }

  /** The last row splits off a grid of cells. */
  lemma CellsSplit(rows: nat, cols: nat)
    requires rows > 0
    ensures Cells(rows, cols) == Cells(rows - 1, cols) + RowCells(rows - 1, cols)
    ensures Cells(rows - 1, cols) !! RowCells(rows - 1, cols)
  {
  }

  lemma {:induction false} CellsCard(rows: nat, cols: nat)
    ensures |Cells(rows, cols)| == rows * cols
  {
    if rows > 0 {
      CellsCard(rows - 1, cols);
      RowCellsCard(rows - 1, cols);
      CellsSplit(rows, cols);
      assert rows * cols == (rows - 1) * cols + cols;
    } else {
      assert Cells(rows, cols) == {};
    }
  }

  /** A subset is smaller unless it is the whole set. */
  lemma SubsetCard<T>(a: set<T>, b: set<T>)
    requires a <= b
    ensures |a| <= |b|
    ensures a != b ==> |a| < |b|
  {
    assert b == a + (b - a);
    if a != b {
      var u :| u in b && u !in a;
      assert {u} <= b - a;
      assert b - a == {u} + (b - a - {u});
    }
  }

  /** generate_maze after sampling: the top-left and bottom-right corners are
      forced open and every other cell keeps its sampled value. */
  function ForceCorners(m: Maze): (m': Maze)
    requires |m| >= 1 && IsSquare(m, |m|)
    ensures IsSquare(m', |m|)
    ensures !m'[0][0] && !m'[|m| - 1][|m| - 1]
    ensures forall r, k :: 0 <= r < |m| && 0 <= k < |m| && !(r == 0 && k == 0) && !(r == |m| - 1 && k == |m| - 1)
                           ==> m'[r][k] == m[r][k]
  {
    var n := |m|;
    var m1 := m[0 := m[0][0 := false]];
    m1[n - 1 := m1[n - 1][n - 1 := false]]
  }

  /** Forcing the corners a second time changes nothing. */
  lemma ForceCornersIdempotent(m: Maze)
    requires |m| >= 1 && IsSquare(m, |m|)
    ensures ForceCorners(ForceCorners(m)) == ForceCorners(m)
  {
    var once := ForceCorners(m);
    var twice := ForceCorners(once);
    assert |twice| == |once|;
    forall r | 0 <= r < |m|
      ensures twice[r] == once[r]
    {
      assert |twice[r]| == |once[r]|;
    }
  }

  /** The middle-click edit, `maze[row][col] = 1 - maze[row][col]`. */
  function Toggle(m: Maze, c: Cell): (m': Maze)
    requires WellFormed(m) && InBounds(c)
    ensures WellFormed(m')
    ensures m'[c.row][c.col] == !m[c.row][c.col]
    ensures forall r, k :: 0 <= r < Size && 0 <= k < Size && !(r == c.row && k == c.col) ==> m'[r][k] == m[r][k]
  {
    m[c.row := m[c.row][c.col := !m[c.row][c.col]]]
  }

  /** Toggling the same cell twice restores the maze. */
  lemma ToggleInvolution(m: Maze, c: Cell)
    requires WellFormed(m) && InBounds(c)
    ensures Toggle(Toggle(m, c), c) == m
  {
    var m2 := Toggle(Toggle(m, c), c);
    forall r | 0 <= r < Size
      ensures m2[r] == m[r]
    {
      assert |m2[r]| == |m[r]|;
    }
  }

  predicate InWindow(x: int, y: int) {
    0 <= x < Width && 0 <= y < Height
  }

  /** The cell under pixel (x, y): `col, row = x // CELL_SIZE, y // CELL_SIZE`.
      Python's floor division agrees with Dafny's for a positive divisor. */
  function CellAt(x: int, y: int): (c: Cell)
    ensures c.row * CellSize <= y < (c.row + 1) * CellSize
    ensures c.col * CellSize <= x < (c.col + 1) * CellSize
    ensures InWindow(x, y) <==> InBounds(c)
  {
    assert CellSize == 30;
    FloorDiv(y, CellSize);
    FloorDiv(x, CellSize);
    Cell(y / CellSize, x / CellSize)
  }

  lemma FloorDiv(a: int, d: int)
    requires d > 0
    ensures (a / d) * d <= a < (a / d + 1) * d
  {
    assert a == d * (a / d) + a % d;
  }
}
