/** What a solved grid is, and why painting the rows of an exact cover of the
    sudoku fabric gives one (sudoku.cpp:92-98 with 322-328): every cell is
    claimed by exactly one row through its cell constraint, and two rows that
    would repeat a digit in a grid row, grid column or block would share that
    constraint's column. */
module Valid {
  import opened Arith
  import opened Arena
  import opened Cover
  import opened Partition
  import opened Grid
  import opened Layout
  import opened Build

  /** Every cell holds a digit 1..n. */
  ghost predicate Complete(g: Board, n: nat)
  {
    IsBoard(g, n) && forall r, c :: 0 <= r < n && 0 <= c < n ==> 1 <= g[r][c] <= n
  }

  /** No digit twice in a grid row. */
  ghost predicate RowsDistinct(g: Board, n: nat)
    requires IsBoard(g, n)
  {
    forall r, c1, c2 :: 0 <= r < n && 0 <= c1 < c2 < n ==> g[r][c1] != g[r][c2]
  }

  /** No digit twice in a grid column. */
  ghost predicate ColsDistinct(g: Board, n: nat)
    requires IsBoard(g, n)
  {
    forall c, r1, r2 :: 0 <= c < n && 0 <= r1 < r2 < n ==> g[r1][c] != g[r2][c]
  }

  /** No digit twice in a b x b block. */
  ghost predicate BoxesDistinct(g: Board, n: nat, b: nat)
    requires IsBoard(g, n) && b >= 1
  {
    forall r1, c1, r2, c2 ::
      (0 <= r1 < n && 0 <= c1 < n && 0 <= r2 < n && 0 <= c2 < n
       && (r1 != r2 || c1 != c2) && Box(b, r1, c1) == Box(b, r2, c2))
      ==> g[r1][c1] != g[r2][c2]
  }

  /** A solved n x n sudoku with b x b blocks. */
  ghost predicate Solved(g: Board, n: nat, b: nat)
    requires b >= 1
  {
    Complete(g, n) && RowsDistinct(g, n) && ColsDistinct(g, n) && BoxesDistinct(g, n, b)
  }

  /** The header numbers (columns counted from 1) of the four constraints
      of "cell (r, c) holds v + 1". */
  function Heads(n: nat, b: nat, r: nat, c: nat, v: nat): set<nat>
    requires b >= 1
  {
    {CellColumn(n, r, c) + 1, RowColumn(n, r, v) + 1, ColColumn(n, c, v) + 1, BoxColumn(n, b, r, c, v) + 1}
  }

  /** A triple places a digit 1..n in a cell of the n x n grid. */
  predicate InGrid(n: nat, d: RowData)
  {
    1 <= d.value <= n && 1 <= d.row <= n && 1 <= d.col <= n
  }

  /** The four constraints a placement meets. */
  function HeadsOf(n: nat, b: nat, d: RowData): set<nat>
    requires b >= 1 && InGrid(n, d)
  {
    Heads(n, b, d.row - 1, d.col - 1, d.value - 1)
  }

  /** Node x carries a placement, and its row's columns are exactly that
      placement's four constraints. */
  ghost predicate Placed(n: nat, b: nat, sh: Shape, cs: seq<nat>, data: seq<RowData>, x: nat)
    requires b >= 1 && RowShape(sh, |cs|, cs) && sh.nc < x < |cs|
  {
    x < |data| && InGrid(n, data[x]) && RowCols(sh, cs, x) == HeadsOf(n, b, data[x])
  }

  /** A fabric for the n x n sudoku with b x b blocks: every row is a placement. */
  ghost predicate Sudoku(n: nat, b: nat, sh: Shape, cs: seq<nat>, data: seq<RowData>)
  {
    && n >= 1 && b >= 1 && n == b * b && sh.nc == 4 * (n * n)
    && RowShape(sh, |cs|, cs) && |data| == |cs|
    && forall x :: sh.nc < x < |cs| ==> Placed(n, b, sh, cs, data, x)
  }

  /** What the builders promise about the fabric of the sudoku matrix. */
  ghost predicate SudokuFabric(n: nat, b: nat, m: CoverMatrix, a: Arena, sh: Shape, rowOf: seq<nat>)
  {
    && n >= 1 && b >= 1 && n == b * b && IsCoverMatrix(m, n, b)
    && sh.nc == 4 * (n * n) && Rect(m, sh.nc)
    && a.Sized() && RowShape(sh, |a.L|, a.C) && Represents(n, m, a, sh, rowOf)
  }

  /** The columns of matrix row i, counted from 1, are its triple's four
      constraints. */
  lemma EntryHeads(n: nat, b: nat, m: CoverMatrix, i: nat)
    requires n >= 1 && b >= 1 && n == b * b && IsCoverMatrix(m, n, b) && i < |m|
    ensures |m[i]| == 4 * (n * n) && RowPart(n, i) < n && ColPart(n, i) < n && ValPart(n, i) < n
    ensures EntryCols(m, i, 4 * (n * n)) == Heads(n, b, RowPart(n, i), ColPart(n, i), ValPart(n, i))
  {
    var r, c, v := RowPart(n, i), ColPart(n, i), ValPart(n, i);
    RowParts(n, i);
    ColumnRanges(n, b, r, c, v);
    var cols := Columns(n, b, r, c, v);
    forall h | h in Heads(n, b, r, c, v) ensures h in EntryCols(m, i, 4 * (n * n)) {
      assert h - 1 in cols;
    }
  }

  /** A node standing for a matrix row of the sudoku matrix is a placement. */
  lemma NodePlaced(n: nat, b: nat, sh: Shape, cs: seq<nat>, data: seq<RowData>, x: nat, i: nat)
    requires n >= 1 && b >= 1 && RowShape(sh, |cs|, cs) && |data| == |cs| && sh.nc < x < |cs|
    requires RowPart(n, i) < n && ColPart(n, i) < n && ValPart(n, i) < n && data[x] == Triple(n, i)
    requires NodeCols(sh, cs, x) == Heads(n, b, RowPart(n, i), ColPart(n, i), ValPart(n, i))
    ensures Placed(n, b, sh, cs, data, x)
  {
    assert RowCols(sh, cs, x) == NodeCols(sh, cs, x);
  }

  /** The matrix row a node of the fabric stands for. */
  lemma RepresentsAt(n: nat, b: nat, m: CoverMatrix, a: Arena, sh: Shape, rowOf: seq<nat>, x: nat) returns (i: nat)
    requires SudokuFabric(n, b, m, a, sh, rowOf) == true && sh.nc < x < |a.L|
    ensures n >= 1 && b >= 1 && n == b * b && IsCoverMatrix(m, n, b) && sh.nc == 4 * (n * n)
    ensures RowShape(sh, |a.C|, a.C) && |a.Data| == |a.C| && i < |m| && |m[i]| == sh.nc
    ensures a.Data[x] == Triple(n, i) && NodeCols(sh, a.C, x) == EntryCols(m, i, sh.nc)
  {
    i := rowOf[x];
  }

  /** The built fabric of the sudoku matrix is a sudoku fabric. */
  lemma FabricIsSudoku(n: nat, b: nat, m: CoverMatrix, a: Arena, sh: Shape, rowOf: seq<nat>)
    requires SudokuFabric(n, b, m, a, sh, rowOf) == true
    ensures Sudoku(n, b, sh, a.C, a.Data)
  {
    forall x | sh.nc < x < |a.C| ensures RowShape(sh, |a.C|, a.C) && Placed(n, b, sh, a.C, a.Data, x) {
      var i := RepresentsAt(n, b, m, a, sh, rowOf, x);
      EntryHeads(n, b, m, i);
      NodePlaced(n, b, sh, a.C, a.Data, x, i);
    }
  }

  /** Some row of the fabric places digit v + 1 in cell (r, c). */
  ghost predicate HasPlacement(sh: Shape, data: seq<RowData>, r: nat, c: nat, v: nat)
  {
    exists x :: sh.nc < x < |data| && data[x] == RowData(v + 1, r + 1, c + 1)
  }

  /** Every digit can go in every cell: the fabric leaves out no placement. */
  ghost predicate AllPlacements(sh: Shape, n: nat, data: seq<RowData>)
  {
    forall r, c, v :: 0 <= r < n && 0 <= c < n && 0 <= v < n ==> HasPlacement(sh, data, r, c, v)
  }

  /** The built fabric of the sudoku matrix has a row for every placement:
      each matrix row meets its cell constraint, so it has a true entry and
      therefore a fabric row carrying its triple. */
  lemma FabricPlacements(n: nat, b: nat, m: CoverMatrix, a: Arena, sh: Shape, rowOf: seq<nat>)
    requires SudokuFabric(n, b, m, a, sh, rowOf) == true
    ensures AllPlacements(sh, n, a.Data)
  {
    forall r, c, v | 0 <= r < n && 0 <= c < n && 0 <= v < n ensures HasPlacement(sh, a.Data, r, c, v) {
      var i := CellEntry(n, b, m, r, c, v);
      var x :| sh.nc < x < |a.L| && x < |rowOf| && rowOf[x] == i;
      assert a.Data[x] == Triple(n, i);
    }
  }

  /** The matrix row of a placement has a true entry: its cell constraint. */
  lemma CellEntry(n: nat, b: nat, m: CoverMatrix, r: nat, c: nat, v: nat) returns (i: nat)
    requires n >= 1 && b >= 1 && n == b * b && IsCoverMatrix(m, n, b) && r < n && c < n && v < n
    ensures i < |m| && |m[i]| == 4 * (n * n) && EntryCols(m, i, 4 * (n * n)) != {}
    ensures Triple(n, i) == RowData(v + 1, r + 1, c + 1)
  {
    i := RowOf(n, r, c, v);
    RowOfParts(n, r, c, v);
    ColumnRanges(n, b, r, c, v);
    assert m[i][CellColumn(n, r, c)];
    assert CellColumn(n, r, c) + 1 in EntryCols(m, i, 4 * (n * n));
  }

  /** Two rows of an exact cover that share a column are the same row. */
  lemma SharedColumn(sh: Shape, cs: seq<nat>, rows: seq<nat>, i1: nat, i2: nat, h: nat)
    requires ExactCover(sh, cs, rows) && i1 < |rows| && i2 < |rows|
    requires h in RowCols(sh, cs, rows[i1]) && h in RowCols(sh, cs, rows[i2])
    ensures i1 == i2
  {
    DisjointSetsPairs(RowSets(sh, cs, rows));
  }

  /** Every column is covered by some row of an exact cover. */
  lemma ColumnOwner(sh: Shape, cs: seq<nat>, rows: seq<nat>, h: nat) returns (i: nat)
    requires ExactCover(sh, cs, rows) && 1 <= h <= sh.nc
    ensures i < |rows| && AllNodes(sh, cs, rows) && h in RowCols(sh, cs, rows[i])
  {
    UnionOfMembers(RowSets(sh, cs, rows), h);
    i :| 0 <= i < |rows| && h in RowSets(sh, cs, rows)[i];
  }

  /** A row of the cover places a digit in a cell. */
  lemma RowDigit(n: nat, b: nat, sh: Shape, cs: seq<nat>, data: seq<RowData>, rows: seq<nat>, i: nat)
    requires Sudoku(n, b, sh, cs, data) == true && AllNodes(sh, cs, rows) && i < |rows|
    ensures n >= 1 && b >= 1 && n == b * b && sh.nc < rows[i] < |data| && InGrid(n, data[rows[i]])
  {
    assert Placed(n, b, sh, cs, data, rows[i]);
  }

  /** A column is in a row of the cover exactly when it is one of the
      constraints of the row's placement. */
  lemma RowHead(n: nat, b: nat, sh: Shape, cs: seq<nat>, data: seq<RowData>, rows: seq<nat>, i: nat, h: nat)
    requires Sudoku(n, b, sh, cs, data) == true && AllNodes(sh, cs, rows) && i < |rows|
    ensures b >= 1 && rows[i] < |data| && InGrid(n, data[rows[i]])
    ensures h in RowCols(sh, cs, rows[i]) <==> h in HeadsOf(n, b, data[rows[i]])
  {
    assert Placed(n, b, sh, cs, data, rows[i]);
  }

  /** Two rows of an exact cover of a sudoku fabric whose placements share a
      constraint are the same row. */
  lemma SameConstraint(n: nat, b: nat, sh: Shape, cs: seq<nat>, data: seq<RowData>, rows: seq<nat>,
                       i1: nat, i2: nat, h: nat)
    requires Sudoku(n, b, sh, cs, data) == true && ExactCover(sh, cs, rows) == true && i1 < |rows| && i2 < |rows|
    requires b >= 1 && rows[i1] < |data| && rows[i2] < |data| && InGrid(n, data[rows[i1]]) && InGrid(n, data[rows[i2]])
    requires h in HeadsOf(n, b, data[rows[i1]]) && h in HeadsOf(n, b, data[rows[i2]])
    ensures rows[i1] == rows[i2]
  {
    RowHead(n, b, sh, cs, data, rows, i1, h);
    RowHead(n, b, sh, cs, data, rows, i2, h);
    SharedColumn(sh, cs, rows, i1, i2, h);
  }

  /** The last node of a list that targets a cell writes the value the
      painted grid holds there. */
  lemma {:induction false} LastWriter(data: seq<RowData>, nodes: seq<nat>, r: int, c: int, k: nat) returns (x: nat)
    requires forall i :: 0 <= i < |nodes| ==> nodes[i] < |data|
    requires k < |nodes| && Targets(data, nodes[k], r, c)
    ensures x in nodes && x < |data| && Targets(data, x, r, c) && Cell(data, nodes, r, c) == data[x].value
    decreases |nodes|
  {
    var last := |nodes| - 1;
    if Targets(data, nodes[last], r, c) {
      x := nodes[last];
    } else {
      var pre := nodes[..last];
      assert pre[k] == nodes[k];
      x := LastWriter(data, pre, r, c, k);
      assert x in nodes;
    }
  }

  /** The only constraint of a placement that is a cell constraint is its
      own cell's. */
  lemma CellHead(n: nat, b: nat, r: nat, c: nat, r2: nat, c2: nat, v2: nat)
    requires b >= 1 && n == b * b && r < n && c < n && r2 < n && c2 < n && v2 < n
    requires CellColumn(n, r, c) + 1 in Heads(n, b, r2, c2, v2)
    ensures r == r2 && c == c2
  {
    ColumnRanges(n, b, r, c, 0);
    ColumnRanges(n, b, r2, c2, v2);
    assert CellColumn(n, r, c) == CellColumn(n, r2, c2);
    DivModUnique(r * n + c, n, r, c);
    DivModUnique(r * n + c, n, r2, c2);
  }

  /** Every cell is targeted by a row of an exact cover: the one holding that
      cell's cell constraint. */
  lemma CellClaimed(n: nat, b: nat, sh: Shape, cs: seq<nat>, data: seq<RowData>, rows: seq<nat>,
                    r: nat, c: nat) returns (i: nat)
    requires Sudoku(n, b, sh, cs, data) == true && ExactCover(sh, cs, rows) == true && r < n && c < n
    ensures i < |rows| && rows[i] < |data| && Targets(data, rows[i], r, c)
  {
    ColumnRanges(n, b, r, c, 0);
    var h := CellColumn(n, r, c) + 1;
    i := ColumnOwner(sh, cs, rows, h);
    RowHead(n, b, sh, cs, data, rows, i, h);
    var d := data[rows[i]];
    CellHead(n, b, r, c, d.row - 1, d.col - 1, d.value - 1);
  }

  /** The painting lists the rows of the cover, in some order. */
  ghost predicate Paints(rows: seq<nat>, paint: seq<nat>)
  {
    forall y :: y in paint <==> y in rows
  }

  /** The painted rows are nodes. */
  lemma PaintRange(sh: Shape, cs: seq<nat>, rows: seq<nat>, paint: seq<nat>)
    requires AllNodes(sh, cs, rows) && Paints(rows, paint)
    ensures forall i :: 0 <= i < |paint| ==> sh.nc < paint[i] < |cs|
  {
    forall i | 0 <= i < |paint| ensures sh.nc < paint[i] < |cs| {
      assert paint[i] in rows;
    }
  }

  /** The painted value of a cell is the digit of the row of the cover that
      targets it. */
  lemma CellWriter(n: nat, b: nat, sh: Shape, cs: seq<nat>, data: seq<RowData>, rows: seq<nat>,
                   paint: seq<nat>, r: nat, c: nat) returns (i: nat)
    requires Sudoku(n, b, sh, cs, data) == true && ExactCover(sh, cs, rows) == true && Paints(rows, paint) == true
    requires r < n && c < n
    ensures forall k :: 0 <= k < |paint| ==> paint[k] < |data|
    ensures i < |rows| && rows[i] < |data| && Targets(data, rows[i], r, c) && InGrid(n, data[rows[i]])
    ensures Cell(data, paint, r, c) == data[rows[i]].value
  {
    PaintRange(sh, cs, rows, paint);
    var i0 := CellClaimed(n, b, sh, cs, data, rows, r, c);
    assert rows[i0] in paint;
    var k :| 0 <= k < |paint| && paint[k] == rows[i0];
    var x := LastWriter(data, paint, r, c, k);
    assert x in rows;
    i :| 0 <= i < |rows| && rows[i] == x;
    RowDigit(n, b, sh, cs, data, rows, i);
  }

  /** Two placements in one cell meet its cell constraint. */
  lemma CellShared(n: nat, b: nat, data: seq<RowData>, x1: nat, x2: nat, r: nat, c: nat) returns (h: nat)
    requires b >= 1 && x1 < |data| && x2 < |data| && InGrid(n, data[x1]) && InGrid(n, data[x2])
    requires Targets(data, x1, r, c) && Targets(data, x2, r, c)
    ensures h in HeadsOf(n, b, data[x1]) && h in HeadsOf(n, b, data[x2])
  {
    h := CellColumn(n, r, c) + 1;
  }

  /** Two placements of one digit in one grid row, grid column or block meet
      that row's, column's or block's constraint for the digit. */
  lemma DigitShared(n: nat, b: nat, data: seq<RowData>, x1: nat, x2: nat, r1: nat, c1: nat, r2: nat, c2: nat)
    returns (h: nat)
    requires b >= 1 && x1 < |data| && x2 < |data| && InGrid(n, data[x1]) && InGrid(n, data[x2])
    requires Targets(data, x1, r1, c1) && Targets(data, x2, r2, c2) && data[x1].value == data[x2].value
    requires r1 == r2 || c1 == c2 || Box(b, r1, c1) == Box(b, r2, c2)
    ensures h in HeadsOf(n, b, data[x1]) && h in HeadsOf(n, b, data[x2])
  {
    var v := data[x1].value - 1;
    h := if r1 == r2 then RowColumn(n, r1, v) + 1
         else if c1 == c2 then ColColumn(n, c1, v) + 1
         else BoxColumn(n, b, r1, c1, v) + 1;
  }

  /** Two placements in one cell, or of one digit in one grid row, grid
      column or block: they cannot both stand in a solved grid. */
  predicate Conflict(b: nat, d1: RowData, d2: RowData)
    requires b >= 1 && d1.row >= 1 && d1.col >= 1 && d2.row >= 1 && d2.col >= 1
  {
    || (d1.row == d2.row && d1.col == d2.col)
    || (&& d1.value == d2.value
        && (d1.row == d2.row || d1.col == d2.col || Box(b, d1.row - 1, d1.col - 1) == Box(b, d2.row - 1, d2.col - 1)))
  }

  /** The converse of DigitShared: two placements that meet a common
      constraint are in one cell, or put one digit in one grid row, grid
      column or block. */
  lemma HeadsMeet(n: nat, b: nat, d1: RowData, d2: RowData, h: nat)
    requires n >= 1 && b >= 1 && n == b * b && InGrid(n, d1) && InGrid(n, d2)
    requires h in HeadsOf(n, b, d1) && h in HeadsOf(n, b, d2)
    ensures Conflict(b, d1, d2)
  {
    var r1, c1, v1 := d1.row - 1, d1.col - 1, d1.value - 1;
    var r2, c2, v2 := d2.row - 1, d2.col - 1, d2.value - 1;
    SameKind(n, b, r1, c1, v1, r2, c2, v2, h);
    if CellColumn(n, r1, c1) == CellColumn(n, r2, c2) {
      PairInjective(r1, c1, r2, c2, n);
    } else if RowColumn(n, r1, v1) == RowColumn(n, r2, v2) {
      PairInjective(r1, v1, r2, v2, n);
    } else if ColColumn(n, c1, v1) == ColColumn(n, c2, v2) {
      PairInjective(c1, v1, c2, v2, n);
    } else {
      PairInjective(Box(b, r1, c1), v1, Box(b, r2, c2), v2, n);
    }
  }

  /** A column two placements share is the same constraint of both: the
      four constraints own disjoint ranges of columns. */
  lemma SameKind(n: nat, b: nat, r1: nat, c1: nat, v1: nat, r2: nat, c2: nat, v2: nat, h: nat)
    requires n >= 1 && b >= 1 && n == b * b && r1 < n && c1 < n && v1 < n && r2 < n && c2 < n && v2 < n
    requires h in Heads(n, b, r1, c1, v1) && h in Heads(n, b, r2, c2, v2)
    ensures || CellColumn(n, r1, c1) == CellColumn(n, r2, c2)
            || RowColumn(n, r1, v1) == RowColumn(n, r2, v2)
            || ColColumn(n, c1, v1) == ColColumn(n, c2, v2)
            || BoxColumn(n, b, r1, c1, v1) == BoxColumn(n, b, r2, c2, v2)
  {
    ColumnRanges(n, b, r1, c1, v1);
    ColumnRanges(n, b, r2, c2, v2);
  }

  /** Two rows of a sudoku fabric that share a column are in one cell, or put
      one digit in one grid row, grid column or block. */
  lemma NodesMeet(n: nat, b: nat, sh: Shape, cs: seq<nat>, data: seq<RowData>, x1: nat, x2: nat)
    requires Sudoku(n, b, sh, cs, data) == true && sh.nc < x1 < |cs| && sh.nc < x2 < |cs|
    requires RowShape(sh, |cs|, cs) && !(RowCols(sh, cs, x1) !! RowCols(sh, cs, x2))
    ensures x1 < |data| && x2 < |data| && b >= 1 && InGrid(n, data[x1]) && InGrid(n, data[x2])
    ensures Conflict(b, data[x1], data[x2])
  {
    PlacedAt(n, b, sh, cs, data, x1);
    PlacedAt(n, b, sh, cs, data, x2);
    var s1, s2 := HeadsOf(n, b, data[x1]), HeadsOf(n, b, data[x2]);
    assert !(s1 !! s2);
    var h :| h in s1 && h in s2;
    HeadsMeet(n, b, data[x1], data[x2], h);
  }

  /** Each row of a sudoku fabric is a placement. */
  lemma PlacedAt(n: nat, b: nat, sh: Shape, cs: seq<nat>, data: seq<RowData>, x: nat)
    requires Sudoku(n, b, sh, cs, data) == true && sh.nc < x < |cs|
    ensures n >= 1 && b >= 1 && n == b * b && RowShape(sh, |cs|, cs) && x < |data| && InGrid(n, data[x])
    ensures RowCols(sh, cs, x) == HeadsOf(n, b, data[x])
  {
    assert Placed(n, b, sh, cs, data, x);
  }

  /** Two cells painted with the same digit in one grid row, grid column or
      block are the same cell: their writers would meet the same constraint. */
  lemma SameDigitSameCell(n: nat, b: nat, sh: Shape, cs: seq<nat>, data: seq<RowData>, rows: seq<nat>,
                          paint: seq<nat>, r1: nat, c1: nat, r2: nat, c2: nat)
    requires Sudoku(n, b, sh, cs, data) == true && ExactCover(sh, cs, rows) == true && Paints(rows, paint) == true
    requires r1 < n && c1 < n && r2 < n && c2 < n && b >= 1
    requires forall k :: 0 <= k < |paint| ==> paint[k] < |data|
    requires Cell(data, paint, r1, c1) == Cell(data, paint, r2, c2)
    requires r1 == r2 || c1 == c2 || Box(b, r1, c1) == Box(b, r2, c2)
    ensures r1 == r2 && c1 == c2
  {
    var i1 := CellWriter(n, b, sh, cs, data, rows, paint, r1, c1);
    var i2 := CellWriter(n, b, sh, cs, data, rows, paint, r2, c2);
    var h := DigitShared(n, b, data, rows[i1], rows[i2], r1, c1, r2, c2);
    SameConstraint(n, b, sh, cs, data, rows, i1, i2, h);
  }

  /** A row of the cover finds its digit in its cell: the cell's writer meets
      the same cell constraint, so it is that row. */
  lemma RowKeeps(n: nat, b: nat, sh: Shape, cs: seq<nat>, data: seq<RowData>, rows: seq<nat>,
                 paint: seq<nat>, i: nat) returns (r: nat, c: nat)
    requires Sudoku(n, b, sh, cs, data) == true && ExactCover(sh, cs, rows) == true && Paints(rows, paint) == true
    requires i < |rows|
    ensures rows[i] < |data| && OnBoard(n, data[rows[i]]) && forall k :: 0 <= k < |paint| ==> paint[k] < |data|
    ensures r == data[rows[i]].row - 1 && c == data[rows[i]].col - 1 && r < n && c < n
    ensures Cell(data, paint, r, c) == data[rows[i]].value
  {
    RowDigit(n, b, sh, cs, data, rows, i);
    r, c := data[rows[i]].row - 1, data[rows[i]].col - 1;
    var k := CellWriter(n, b, sh, cs, data, rows, paint, r, c);
    var h := CellShared(n, b, data, rows[i], rows[k], r, c);
    SameConstraint(n, b, sh, cs, data, rows, i, k, h);
  }

  /** Painting the rows of an exact cover of a sudoku fabric, in any order,
      gives a solved grid, and every row of the cover finds its digit in its
      cell. */
  lemma CoverIsSolved(n: nat, b: nat, sh: Shape, cs: seq<nat>, data: seq<RowData>, rows: seq<nat>, paint: seq<nat>)
    requires Sudoku(n, b, sh, cs, data) == true && ExactCover(sh, cs, rows) == true && Paints(rows, paint) == true
    ensures forall k :: 0 <= k < |paint| ==> paint[k] < |data|
    ensures b >= 1 && Solved(Fill(n, data, paint), n, b)
    ensures forall i :: 0 <= i < |rows| ==>
              (rows[i] < |data| && OnBoard(n, data[rows[i]]) &&
               Fill(n, data, paint)[data[rows[i]].row - 1][data[rows[i]].col - 1] == data[rows[i]].value)
  {
    PaintRange(sh, cs, rows, paint);
    var g := Fill(n, data, paint);
    forall r, c | 0 <= r < n && 0 <= c < n ensures 1 <= g[r][c] <= n {
      var i := CellWriter(n, b, sh, cs, data, rows, paint, r, c);
    }
    forall r, c1, c2 | 0 <= r < n && 0 <= c1 < c2 < n ensures g[r][c1] != g[r][c2] {
      if g[r][c1] == g[r][c2] {
        SameDigitSameCell(n, b, sh, cs, data, rows, paint, r, c1, r, c2);
      }
    }
    forall c, r1, r2 | 0 <= c < n && 0 <= r1 < r2 < n ensures g[r1][c] != g[r2][c] {
      if g[r1][c] == g[r2][c] {
        SameDigitSameCell(n, b, sh, cs, data, rows, paint, r1, c, r2, c);
      }
    }
    forall r1, c1, r2, c2 | 0 <= r1 < n && 0 <= c1 < n && 0 <= r2 < n && 0 <= c2 < n
      && (r1 != r2 || c1 != c2) && Box(b, r1, c1) == Box(b, r2, c2)
      ensures g[r1][c1] != g[r2][c2]
    {
      if g[r1][c1] == g[r2][c2] {
        SameDigitSameCell(n, b, sh, cs, data, rows, paint, r1, c1, r2, c2);
      }
    }
    forall i | 0 <= i < |rows|
      ensures rows[i] < |data| && OnBoard(n, data[rows[i]])
      ensures g[data[rows[i]].row - 1][data[rows[i]].col - 1] == data[rows[i]].value
    {
      var r, c := RowKeeps(n, b, sh, cs, data, rows, paint, i);
    }
  }
}
