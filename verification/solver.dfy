/** The solver object and its entry point (sudoku.h:47-86, sudoku.cpp:42-55
    and 330-355): a solver for an n x n grid exists only when n is a perfect
    square, and `Solve` checks the puzzle's dimensions, builds the sudoku
    matrix and its link fabric, applies the clues and searches, returning at
    most `limit` grids, each a solved sudoku that keeps every clue it applied
    and drops every clue it skipped.

    Two idioms recur here and in the modules it builds on. A requirement
    written `P(...) == true` keeps a large predicate folded at the call
    sites, where a bare `P(...)` would be unfolded one level each time; it
    means the same as `P(...)`. Row lists written `clues + [] + f` are the
    search's `clues + sol + f` at the top level, where the stack `sol` is
    empty: the search's contracts are stated in that shape, and `SameRows`
    (like `Clues.EmptyStack` for a single clue) drops the empty stack. */
module Solver {
  import opened Arith
  import opened Arena
  import opened Cover
  import opened Partition
  import opened Grid
  import opened Layout
  import opened Build
  import opened Matrix
  import opened Fabric
  import opened Choose
  import opened Search
  import opened Clues
  import opened Valid

  /** The grid size and the search limit callers get when they give none. */
  const DefaultSize: int := 9
  const DefaultLimit: nat := 10

  /** The two ways the solver refuses its input. */
  datatype Error =
    | NotSquare(size: int)
    | BadDimensions(rows: nat, cols: nat)

  datatype Result<T> = Ok(value: T) | Err(error: Error)

  /** A solver for gridSize x gridSize puzzles with blockSize x blockSize
      blocks; its sizes are fixed when it is made. */
  datatype Solver = Solver(gridSize: nat, blockSize: nat)
  {
    /** The cells, the matrix rows (one per placement) and the matrix columns
        (four constraints per cell). */
    function CellCount(): nat { gridSize * gridSize }
    function ExactCoverRows(): nat { gridSize * CellCount() }
    function ExactCoverCols(): nat { 4 * CellCount() }

    /** What making a solver establishes. */
    ghost predicate Valid()
    {
      gridSize >= 1 && blockSize >= 1 && blockSize * blockSize == gridSize
    }
  }

  function Square(b: nat): nat
  {
    b * b
  }

  /** The integer square root. */
  function ISqrt(x: nat): (r: nat)
    ensures r * r <= x < (r + 1) * (r + 1)
  {
    if x == 0 then 0
    else
      var s := ISqrt(x - 1);
      if (s + 1) * (s + 1) <= x then
        assert x <= (s + 1) * (s + 1) < (s + 2) * (s + 2) by { MulMono(s + 1, s + 2, s + 1); MulMono(s + 1, s + 2, s + 2); }
        s + 1
      else s
  }

  /** A value strictly between two consecutive squares is no square. */
  lemma NoSquareRoot(x: nat, r: nat)
    requires r * r < x < (r + 1) * (r + 1)
    ensures forall b: nat :: Square(b) != x
  {
    forall b: nat ensures Square(b) != x {
      if b <= r {
        if 0 < b < r {
          MulMono(b, r, b);
          MulMono(b, r, r);
        }
      } else {
        if r + 1 < b {
          MulMono(r + 1, b, r + 1);
          MulMono(r + 1, b, b);
        }
      }
    }
  }

  /** Making a solver: the block size is the integer square root of the grid
      size, and a size that is not a perfect square is refused. */
  function NewSolver(size: int): (r: Result<Solver>)
    requires size >= 1
    ensures r.Ok? <==> exists b: nat :: Square(b) == size
    ensures r.Ok? ==> r.value.gridSize == size && r.value.Valid()
    ensures r.Err? ==> r.error == NotSquare(size)
  {
    var b := ISqrt(size);
    if b * b != size then
      NoSquareRoot(size, b);
      Err(NotSquare(size))
    else
      assert Square(b) == size;
      Ok(Solver(size, b))
  }

  /** The check `solve` makes before anything else: n rows, and a first row
      of n cells. */
  predicate DimsOK(puzzle: seq<seq<int>>, n: nat)
  {
    !(|puzzle| != n || (|puzzle| > 0 && |puzzle[0]| != n))
  }

  /** What a returned grid is for the puzzle: a solved sudoku that holds the
      given digit at every cell whose clue was applied (listed in `at`), and
      anything else at every given cell whose clue was skipped. */
  ghost predicate SolvesPuzzle(g: Board, n: nat, b: nat, puzzle: seq<seq<int>>, at: seq<(nat, nat)>)
    requires b >= 1 && Readable(puzzle, n)
  {
    && Solved(g, n, b)
    && (forall k :: 0 <= k < |at| ==> at[k].0 < n && at[k].1 < n && g[at[k].0][at[k].1] == puzzle[at[k].0][at[k].1])
    && (forall r, c :: 0 <= r < n && 0 <= c < n && puzzle[r][c] > 0 && (r, c) !in at ==> g[r][c] != puzzle[r][c])
  }

  /** `at` lists given cells of the puzzle, in row-major order. */
  ghost predicate GivenCells(puzzle: seq<seq<int>>, n: nat, at: seq<(nat, nat)>)
    requires Readable(puzzle, n)
  {
    && (forall k :: 0 <= k < |at| ==> at[k].0 < n && at[k].1 < n && puzzle[at[k].0][at[k].1] > 0)
    && (forall k1, k2 :: 0 <= k1 < k2 < |at| ==> Before(at[k1].0, at[k1].1, at[k2].0, at[k2].1))
  }

  /** Given cell (r, c) repeats the digit of an applied clue's cell that comes
      before it in row-major order and lies in its grid row, grid column or
      block. */
  ghost predicate EarlierClash(puzzle: seq<seq<int>>, n: nat, b: nat, at: seq<(nat, nat)>, r: nat, c: nat)
    requires b >= 1 && Readable(puzzle, n) && r < n && c < n
  {
    exists k :: && 0 <= k < |at| && at[k].0 < n && at[k].1 < n
                && Before(at[k].0, at[k].1, r, c) && puzzle[at[k].0][at[k].1] == puzzle[r][c]
                && (at[k].0 == r || at[k].1 == c || Box(b, at[k].0, at[k].1) == Box(b, r, c))
  }

  /** Why each given cell without an applied clue was skipped: its digit is
      above n, or an earlier applied clue already puts that digit in the
      cell's grid row, grid column or block. */
  ghost predicate SkipReasons(puzzle: seq<seq<int>>, n: nat, b: nat, at: seq<(nat, nat)>)
    requires b >= 1 && Readable(puzzle, n)
  {
    forall r, c :: 0 <= r < n && 0 <= c < n && puzzle[r][c] > 0 && (r, c) !in at ==>
      puzzle[r][c] > n || EarlierClash(puzzle, n, b, at, r, c)
  }

  /** Givens that are digits 1..n, none repeated in a grid row, grid column
      or block. */
  ghost predicate ConflictFree(puzzle: seq<seq<int>>, n: nat, b: nat)
    requires b >= 1 && Readable(puzzle, n)
  {
    && (forall r, c :: 0 <= r < n && 0 <= c < n && puzzle[r][c] > 0 ==> puzzle[r][c] <= n)
    && (forall r1, c1, r2, c2 ::
          && 0 <= r1 < n && 0 <= c1 < n && 0 <= r2 < n && 0 <= c2 < n && (r1, c1) != (r2, c2)
          && puzzle[r1][c1] > 0 && puzzle[r1][c1] == puzzle[r2][c2]
          ==> r1 != r2 && c1 != c2 && Box(b, r1, c1) != Box(b, r2, c2))
  }

  /** The grid holds every given digit of the puzzle. */
  ghost predicate KeepsGivens(g: Board, n: nat, puzzle: seq<seq<int>>)
    requires Readable(puzzle, n)
  {
    IsBoard(g, n) && forall r, c :: 0 <= r < n && 0 <= c < n && puzzle[r][c] > 0 ==> g[r][c] == puzzle[r][c]
  }

  /** For a puzzle whose givens are conflict free no clue is skipped: every
      returned grid keeps every given digit. */
  lemma ConflictFreeKept(g: Board, n: nat, b: nat, puzzle: seq<seq<int>>, at: seq<(nat, nat)>)
    requires b >= 1 && Readable(puzzle, n) && ConflictFree(puzzle, n, b)
    requires SkipReasons(puzzle, n, b, at) && SolvesPuzzle(g, n, b, puzzle, at)
    ensures forall r, c :: 0 <= r < n && 0 <= c < n && puzzle[r][c] > 0 ==> (r, c) in at
    ensures KeepsGivens(g, n, puzzle)
  {
    forall r, c | 0 <= r < n && 0 <= c < n && puzzle[r][c] > 0 ensures (r, c) in at && g[r][c] == puzzle[r][c] {
      GivenApplied(n, b, puzzle, at, r, c);
      var k :| 0 <= k < |at| && at[k] == (r, c);
    }
  }

  /** A given cell of a conflict-free puzzle has an applied clue: neither
      reason for skipping it can hold. */
  lemma GivenApplied(n: nat, b: nat, puzzle: seq<seq<int>>, at: seq<(nat, nat)>, r: nat, c: nat)
    requires b >= 1 && Readable(puzzle, n) && ConflictFree(puzzle, n, b) && SkipReasons(puzzle, n, b, at)
    requires r < n && c < n && puzzle[r][c] > 0
    ensures (r, c) in at
  {
  }

  /** The clues applied, with their cells and the cells skipped: what clue
      application leaves, on a sudoku fabric. */
  ghost predicate Clued(n: nat, b: nat, sh: Shape, cs: seq<nat>, data: seq<RowData>, puzzle: seq<seq<int>>,
                        clues: seq<nat>, at: seq<(nat, nat)>)
  {
    && Sudoku(n, b, sh, cs, data) && Readable(puzzle, n) && AllNodes(sh, cs, clues)
    && FromCells(sh, data, puzzle, n, clues, at, n, 0)
    && Skipped(sh, cs, data, puzzle, n, clues, at, n, 0)
  }

  /** The rows of a search result, in the order of the cover and in the
      order the grid is painted, name the same nodes. */
  lemma SameRows(clues: seq<nat>, f: seq<nat>)
    ensures Paints(clues + [] + f, [] + f + clues) && clues + [] + f == clues + f
    ensures forall k :: 0 <= k < |clues| ==> (clues + [] + f)[k] == clues[k]
  {
  }

  /** A grid painted from an exact cover that extends the applied clues
      solves the puzzle. */
  lemma FoundSolves(n: nat, b: nat, sh: Shape, cs: seq<nat>, data: seq<RowData>, puzzle: seq<seq<int>>,
                    clues: seq<nat>, at: seq<(nat, nat)>, f: seq<nat>, g: Board)
    requires Clued(n, b, sh, cs, data, puzzle, clues, at) == true
    requires Found(sh, cs, data, n, [], clues, f, g) == true
    ensures b >= 1 && Readable(puzzle, n) && SolvesPuzzle(g, n, b, puzzle, at)
  {
    var rows, paint := clues + [] + f, [] + f + clues;
    SameRows(clues, f);
    CoverIsSolved(n, b, sh, cs, data, rows, paint);
    forall k | 0 <= k < |at|
      ensures at[k].0 < n && at[k].1 < n && g[at[k].0][at[k].1] == puzzle[at[k].0][at[k].1]
    {
      var r, c := ClueAt(n, b, sh, cs, data, puzzle, clues, at, k);
      ClueKept(n, b, sh, cs, data, clues, f, g, k, puzzle[r][c], r, c);
    }
    forall r, c | 0 <= r < n && 0 <= c < n && puzzle[r][c] > 0 && (r, c) !in at
      ensures g[r][c] != puzzle[r][c]
    {
      SkipAt(n, b, sh, cs, data, puzzle, clues, at, r, c);
      SkipDiffers(n, b, sh, cs, data, clues, f, g, puzzle[r][c], r, c);
    }
  }

  /** An applied clue, its cell and its digit. */
  lemma ClueAt(n: nat, b: nat, sh: Shape, cs: seq<nat>, data: seq<RowData>, puzzle: seq<seq<int>>,
               clues: seq<nat>, at: seq<(nat, nat)>, k: nat) returns (r: nat, c: nat)
    requires Clued(n, b, sh, cs, data, puzzle, clues, at) == true && k < |at|
    ensures Readable(puzzle, n) && (r, c) == at[k] && r < n && c < n && k < |clues|
    ensures Sudoku(n, b, sh, cs, data) == true && clues[k] < |data| && Places(data, clues[k], puzzle[r][c], r, c)
  {
    r, c := at[k].0, at[k].1;
  }

  /** A given cell with no applied clue: no clue targets it, and every node
      placing its digit there clashes with the clues. */
  lemma SkipAt(n: nat, b: nat, sh: Shape, cs: seq<nat>, data: seq<RowData>, puzzle: seq<seq<int>>,
               clues: seq<nat>, at: seq<(nat, nat)>, r: nat, c: nat)
    requires Clued(n, b, sh, cs, data, puzzle, clues, at) == true
    requires Readable(puzzle, n) && r < n && c < n && puzzle[r][c] > 0 && (r, c) !in at
    ensures Sudoku(n, b, sh, cs, data) == true && AllNodes(sh, cs, clues) && |cs| == |data|
    ensures forall j :: 0 <= j < |clues| ==> clues[j] < |data| && !Targets(data, clues[j], r, c)
    ensures forall x :: sh.nc < x < |cs| && Places(data, x, puzzle[r][c], r, c) ==> Clashes(sh, cs, clues, x)
  {
    forall j | 0 <= j < |clues| ensures clues[j] < |data| && !Targets(data, clues[j], r, c) {
      assert at[j] in at;
    }
    forall x | sh.nc < x < |cs| && Places(data, x, puzzle[r][c], r, c) ensures Clashes(sh, cs, clues, x) {
      ClashesPrefix(sh, cs, clues, CluesBefore(at, r, c), x);
    }
  }

  /** A given cell with no applied clue has its reason: on a fabric with a
      row for every placement, a digit 1..n has a node in the cell, which
      clashes with a clue applied before the cell was reached; the two
      placements meet a constraint, and they are not in one cell. */
  lemma SkipReason(n: nat, b: nat, sh: Shape, cs: seq<nat>, data: seq<RowData>, puzzle: seq<seq<int>>,
                   clues: seq<nat>, at: seq<(nat, nat)>, r: nat, c: nat)
    requires Clued(n, b, sh, cs, data, puzzle, clues, at) == true && AllPlacements(sh, n, data)
    requires Readable(puzzle, n) && r < n && c < n && puzzle[r][c] > 0 && (r, c) !in at
    ensures b >= 1 && (puzzle[r][c] > n || EarlierClash(puzzle, n, b, at, r, c))
  {
    if puzzle[r][c] <= n {
      var x := PlacementNode(sh, n, data, r, c, puzzle[r][c] - 1);
      var j := EarlierClue(n, b, sh, cs, data, puzzle, clues, at, r, c, x);
      var r', c' := ClueAt(n, b, sh, cs, data, puzzle, clues, at, j);
      assert at[j] in at;
      MeetInUnit(n, b, sh, cs, data, puzzle, at, r, c, x, clues[j], j);
    }
  }

  /** Every given cell without an applied clue has its reason. */
  lemma AllSkipReasons(n: nat, b: nat, sh: Shape, cs: seq<nat>, data: seq<RowData>, puzzle: seq<seq<int>>,
                       clues: seq<nat>, at: seq<(nat, nat)>)
    requires Clued(n, b, sh, cs, data, puzzle, clues, at) == true && AllPlacements(sh, n, data)
    ensures b >= 1 && Readable(puzzle, n) && SkipReasons(puzzle, n, b, at)
  {
    forall r, c | 0 <= r < n && 0 <= c < n && puzzle[r][c] > 0 && (r, c) !in at
      ensures puzzle[r][c] > n || EarlierClash(puzzle, n, b, at, r, c)
    {
      SkipReason(n, b, sh, cs, data, puzzle, clues, at, r, c);
    }
  }

  /** The node placing digit v + 1 in cell (r, c). */
  lemma PlacementNode(sh: Shape, n: nat, data: seq<RowData>, r: nat, c: nat, v: nat) returns (x: nat)
    requires AllPlacements(sh, n, data) && r < n && c < n && v < n
    ensures sh.nc < x < |data| && data[x] == RowData(v + 1, r + 1, c + 1)
  {
    assert HasPlacement(sh, data, r, c, v);
    x :| sh.nc < x < |data| && data[x] == RowData(v + 1, r + 1, c + 1);
  }

  /** A node placing the digit of a skipped given cell shares a column with
      a clue whose cell comes before it. */
  lemma EarlierClue(n: nat, b: nat, sh: Shape, cs: seq<nat>, data: seq<RowData>, puzzle: seq<seq<int>>,
                    clues: seq<nat>, at: seq<(nat, nat)>, r: nat, c: nat, x: nat) returns (j: nat)
    requires Clued(n, b, sh, cs, data, puzzle, clues, at) == true
    requires Readable(puzzle, n) && r < n && c < n && puzzle[r][c] > 0 && (r, c) !in at
    requires sh.nc < x < |data| && Places(data, x, puzzle[r][c], r, c)
    ensures j < |at| == |clues| && Before(at[j].0, at[j].1, r, c) && sh.nc < x < |cs| && AllNodes(sh, cs, clues)
    ensures !(RowCols(sh, cs, x) !! RowCols(sh, cs, clues[j]))
  {
    var p := CluesBefore(at, r, c);
    assert AllNodes(sh, cs, clues[..p]) && Clashes(sh, cs, clues[..p], x);
    j := ClashingClue(sh, cs, clues[..p], [], x);
    CluesBeforeExact(at, r, c);
  }

  /** That clue puts the same digit in the cell's grid row, grid column or
      block: the two placements meet a constraint and are not in one cell. */
  lemma MeetInUnit(n: nat, b: nat, sh: Shape, cs: seq<nat>, data: seq<RowData>, puzzle: seq<seq<int>>,
                   at: seq<(nat, nat)>, r: nat, c: nat, x: nat, t: nat, k: nat)
    requires Sudoku(n, b, sh, cs, data) == true && RowShape(sh, |cs|, cs) && Readable(puzzle, n) && r < n && c < n
    requires sh.nc < x < |cs| && sh.nc < t < |cs| && x < |data| && t < |data|
    requires Places(data, x, puzzle[r][c], r, c)
    requires k < |at| && at[k].0 < n && at[k].1 < n && at[k] != (r, c) && Before(at[k].0, at[k].1, r, c)
    requires Places(data, t, puzzle[at[k].0][at[k].1], at[k].0, at[k].1)
    requires !(RowCols(sh, cs, x) !! RowCols(sh, cs, t))
    ensures b >= 1 && EarlierClash(puzzle, n, b, at, r, c)
  {
    NodesMeet(n, b, sh, cs, data, x, t);
    assert Conflict(b, data[x], data[t]);
    UnitWitness(puzzle, n, b, at, r, c, k);
  }

  /** A clue cell before (r, c) with its digit in its grid row, grid column
      or block witnesses an earlier clash. */
  lemma UnitWitness(puzzle: seq<seq<int>>, n: nat, b: nat, at: seq<(nat, nat)>, r: nat, c: nat, k: nat)
    requires b >= 1 && Readable(puzzle, n) && r < n && c < n
    requires k < |at| && at[k].0 < n && at[k].1 < n && Before(at[k].0, at[k].1, r, c)
    requires puzzle[at[k].0][at[k].1] == puzzle[r][c]
    requires at[k].0 == r || at[k].1 == c || Box(b, at[k].0, at[k].1) == Box(b, r, c)
    ensures EarlierClash(puzzle, n, b, at, r, c)
  {
  }

  /** An applied clue keeps its digit in the grid: the clue is a row of the
      cover, and each row finds its digit in its cell. */
  lemma ClueKept(n: nat, b: nat, sh: Shape, cs: seq<nat>, data: seq<RowData>, clues: seq<nat>, f: seq<nat>,
                 g: Board, k: nat, value: int, r: nat, c: nat)
    requires Sudoku(n, b, sh, cs, data) == true && ExactCover(sh, cs, clues + [] + f) == true
    requires forall i :: 0 <= i < |[] + f + clues| ==> ([] + f + clues)[i] < |data|
    requires g == Fill(n, data, [] + f + clues)
    requires k < |clues| && clues[k] < |data| && Places(data, clues[k], value, r, c) && r < n && c < n
    ensures g[r][c] == value
  {
    var rows, paint := clues + [] + f, [] + f + clues;
    SameRows(clues, f);
    var r', c' := RowKeeps(n, b, sh, cs, data, rows, paint, k);
    assert r' == r && c' == c;
    FillAt(n, data, paint, r, c);
  }

  /** A given cell no clue targets, whose digit's every placement clashes
      with the clues, does not get that digit. */
  lemma SkipDiffers(n: nat, b: nat, sh: Shape, cs: seq<nat>, data: seq<RowData>, clues: seq<nat>, f: seq<nat>,
                    g: Board, value: int, r: nat, c: nat)
    requires Sudoku(n, b, sh, cs, data) == true && ExactCover(sh, cs, clues + [] + f) == true
    requires forall i :: 0 <= i < |[] + f + clues| ==> ([] + f + clues)[i] < |data|
    requires g == Fill(n, data, [] + f + clues) && r < n && c < n
    requires AllNodes(sh, cs, clues) && |cs| == |data|
    requires forall j :: 0 <= j < |clues| ==> clues[j] < |data| && !Targets(data, clues[j], r, c)
    requires forall x :: sh.nc < x < |cs| && Places(data, x, value, r, c) ==> Clashes(sh, cs, clues, x)
    ensures g[r][c] != value
  {
    var rows, paint := clues + [] + f, [] + f + clues;
    SameRows(clues, f);
    var i := CellWriter(n, b, sh, cs, data, rows, paint, r, c);
    FillAt(n, data, paint, r, c);
    if g[r][c] == value {
      var x := rows[i];
      assert Places(data, x, value, r, c);
      var j := ClashingClue(sh, cs, clues, f, x);
      SharedColumnIn(sh, cs, rows, i, j, x);
    }
  }

  /** A node that clashes with the clues shares a column with one of them. */
  lemma ClashingClue(sh: Shape, cs: seq<nat>, clues: seq<nat>, f: seq<nat>, x: nat) returns (j: nat)
    requires AllNodes(sh, cs, clues) && sh.nc < x < |cs| && Clashes(sh, cs, clues, x)
    ensures j < |clues| && !(RowCols(sh, cs, x) !! RowCols(sh, cs, clues[j]))
  {
    var h :| h in RowCols(sh, cs, x) && h in UnionOf(RowSets(sh, cs, clues));
    UnionOfMembers(RowSets(sh, cs, clues), h);
    j :| 0 <= j < |clues| && h in RowSets(sh, cs, clues)[j];
  }

  /** Two rows of an exact cover whose columns meet are the same row. */
  lemma SharedColumnIn(sh: Shape, cs: seq<nat>, rows: seq<nat>, i: nat, j: nat, x: nat)
    requires ExactCover(sh, cs, rows) && i < |rows| && j < |rows| && rows[i] == x
    requires !(RowCols(sh, cs, x) !! RowCols(sh, cs, rows[j]))
    ensures i == j
  {
    var h :| h in RowCols(sh, cs, x) && h in RowCols(sh, cs, rows[j]);
    SharedColumn(sh, cs, rows, i, j, h);
  }

  /** The header ring of a fresh fabric lists every column: no row is chosen. */
  lemma NothingChosen(sh: Shape, cs: seq<nat>, hs: seq<nat>)
    requires RowShape(sh, |cs|, cs) && hs == HeaderList(sh.nc)
    ensures Covers(sh, cs, hs, [])
  {
    assert RowSets(sh, cs, []) == [];
    forall h | 1 <= h <= sh.nc ensures h in hs {
      assert hs[h - 1] == h;
    }
  }

  /** The sudoku matrix has a row of 4 n^2 entries per placement. */
  lemma MatrixRect(m: CoverMatrix, n: nat, b: nat)
    requires n >= 1 && b >= 1 && IsCoverMatrix(m, n, b)
    ensures Rect(m, 4 * (n * n)) && |m| <= n * n * n
  {
  }

  /** Building the fabric of the sudoku matrix (sudoku.cpp:349-351): a
      consistent fabric, every row a placement and every placement a row,
      nothing chosen yet. */
  method BuildSudoku(n: nat, b: nat) returns (a: Arena, ghost sh: Shape, ghost v: View)
    requires n >= 1 && b >= 1 && n == b * b
    ensures Consistent(sh, a, v) == true && Covers(sh, a.C, v.hs, []) == true
    ensures Sudoku(n, b, sh, a.C, a.Data) == true && DataOnBoard(sh, n, a.Data) == true
    ensures AllPlacements(sh, n, a.Data)
  {
    var m := BuildExactCoverMatrix(n, b);
    MatrixRect(m, n, b);
    ghost var rowOf;
    a, sh, v, rowOf := BuildDLXLinkedList(n, m, 4 * (n * n));
    FabricIsSudoku(n, b, m, a, sh, rowOf);
    FabricPlacements(n, b, m, a, sh, rowOf);
    NothingChosen(sh, a.C, v.hs);
  }

  /** Applying the clues to a fresh sudoku fabric and searching
      (sudoku.cpp:352-353). */
  method SolveOn(n: nat, b: nat, a: Arena, ghost sh: Shape, ghost v: View, puzzle: seq<seq<int>>, limit: nat)
    returns (grids: seq<Board>, ghost at: seq<(nat, nat)>)
    requires Consistent(sh, a, v) == true && Covers(sh, a.C, v.hs, []) == true
    requires Sudoku(n, b, sh, a.C, a.Data) == true && DataOnBoard(sh, n, a.Data) == true
    requires AllPlacements(sh, n, a.Data) && Readable(puzzle, n)
    ensures b >= 1 && |grids| <= limit && GivenCells(puzzle, n, at)
    ensures forall k :: 0 <= k < |grids| ==> SolvesPuzzle(grids[k], n, b, puzzle, at)
    ensures SkipReasons(puzzle, n, b, at)
  {
    var a1, v1, clues, at1 := ApplyInitialConstraints(sh, a, v, n, puzzle);
    at := at1;
    assert clues + [] == clues;
    var a2, count; ghost var found;
    a2, count, grids, found := Search.Search(sh, a1, v1, n, [], clues, limit, 0, []);
    AllSolve(n, b, sh, a.C, a.Data, puzzle, clues, at, limit, count, grids, found);
    assert Clued(n, b, sh, a.C, a.Data, puzzle, clues, at);
    AllSkipReasons(n, b, sh, a.C, a.Data, puzzle, clues, at);
  }

  /** Every grid the search found solves the puzzle. */
  lemma AllSolve(n: nat, b: nat, sh: Shape, cs: seq<nat>, data: seq<RowData>, puzzle: seq<seq<int>>,
                 clues: seq<nat>, at: seq<(nat, nat)>, limit: nat, count: nat, grids: seq<Board>, found: seq<seq<nat>>)
    requires Sudoku(n, b, sh, cs, data) == true && Readable(puzzle, n) && AllNodes(sh, cs, clues)
    requires FromCells(sh, data, puzzle, n, clues, at, n, 0) == true
    requires Skipped(sh, cs, data, puzzle, n, clues, at, n, 0) == true
    requires Results(sh, cs, data, n, [], clues, limit, 0, [], count, grids, found) == true
    ensures b >= 1 && |grids| <= limit && GivenCells(puzzle, n, at)
    ensures forall k :: 0 <= k < |grids| ==> SolvesPuzzle(grids[k], n, b, puzzle, at)
  {
    assert Clued(n, b, sh, cs, data, puzzle, clues, at);
    forall k | 0 <= k < |grids| ensures SolvesPuzzle(grids[k], n, b, puzzle, at) {
      assert Found(sh, cs, data, n, [], clues, found[k], grids[k]);
      FoundSolves(n, b, sh, cs, data, puzzle, clues, at, found[k], grids[k]);
    }
  }

  /** Solving a puzzle (sudoku.cpp:330-355): refuse wrong dimensions, else
      build the matrix and its fabric afresh, apply the clues and search for
      at most `limit` solutions. */
  method Solve(s: Solver, puzzle: seq<seq<int>>, limit: nat)
    returns (r: Result<seq<Board>>, ghost at: seq<(nat, nat)>)
    requires s.Valid()
    requires DimsOK(puzzle, s.gridSize) ==> forall i :: 0 <= i < |puzzle| ==> |puzzle[i]| == s.gridSize
    ensures r.Err? <==> !DimsOK(puzzle, s.gridSize)
    ensures r.Err? ==> r.error == BadDimensions(|puzzle|, if |puzzle| > 0 then |puzzle[0]| else 0)
    ensures r.Ok? ==> |r.value| <= limit && Readable(puzzle, s.gridSize) && GivenCells(puzzle, s.gridSize, at)
    ensures r.Ok? ==> forall k :: 0 <= k < |r.value| ==> SolvesPuzzle(r.value[k], s.gridSize, s.blockSize, puzzle, at)
    ensures r.Ok? ==> SkipReasons(puzzle, s.gridSize, s.blockSize, at)
    ensures r.Ok? && ConflictFree(puzzle, s.gridSize, s.blockSize) ==>
              forall k :: 0 <= k < |r.value| ==> KeepsGivens(r.value[k], s.gridSize, puzzle)
  {
    var n, b := s.gridSize, s.blockSize;
    if !DimsOK(puzzle, n) {
      return Err(BadDimensions(|puzzle|, if |puzzle| > 0 then |puzzle[0]| else 0)), [];
    }
    var a, sh, v := BuildSudoku(n, b);
    var grids;
    grids, at := SolveOn(n, b, a, sh, v, puzzle, limit);
    r := Ok(grids);
    if ConflictFree(puzzle, n, b) {
      forall k | 0 <= k < |grids| ensures KeepsGivens(grids[k], n, puzzle) {
        ConflictFreeKept(grids[k], n, b, puzzle, at);
      }
    }
  }
}
