/** The builder of the exact-cover matrix (sudoku.cpp:127-186): four loops,
    one per constraint, each proved to set exactly the entries of the closed
    form in Layout. */
module Matrix {
  import opened Arith
  import opened Layout

  /** The cell constraint: row i gets a true in column i / n, which is the
      cell column of its triple (sudoku.cpp:129-139). */
  method CellConstraint(n: nat, m: CoverMatrix) returns (m': CoverMatrix)
    requires n >= 1 && Dims(m, n)
    ensures Dims(m', n)
    ensures forall i, j :: 0 <= i < n * n * n && 0 <= j < 4 * (n * n) ==>
              (m'[i][j] <==> m[i][j] || j == CellColumn(n, RowPart(n, i), ColPart(n, i)))
  {
    m' := m;
    var j, counter := 0, 0;
    var i := 0;
    while i < n * n * n
      invariant 0 <= i <= n * n * n && 0 <= counter < n && i == j * n + counter
      invariant Dims(m', n)
      invariant forall i', j' :: 0 <= i' < n * n * n && 0 <= j' < 4 * (n * n) ==>
                  (m'[i'][j'] <==> m[i'][j'] || (i' < i && j' == i' / n))
    {
      DivModUnique(i, n, j, counter);
      Digit(i, n, n * n);
      m' := m'[i := m'[i][j := true]];
      counter := counter + 1;
      if counter >= n {
        j := j + 1;
        counter := 0;
      }
      i := i + 1;
    }
    forall i' | 0 <= i' < n * n * n
      ensures i' / n == CellColumn(n, RowPart(n, i'), ColPart(n, i'))
    {
      RowParts(n, i');
      RowOfParts(n, RowPart(n, i'), ColPart(n, i'), ValPart(n, i'));
    }
  }

  /** One column of the row constraint: the rows x, x + n, ... below
      (q + 1) n^2, which are the rows of value v + 1 in grid row q
      (sudoku.cpp:146-147). */
  method RowColumnFill(n: nat, m: CoverMatrix, j: nat, ghost q: nat, ghost v: nat, x: nat, counter: nat) returns (m': CoverMatrix)
    requires n >= 1 && Dims(m, n) && j < 4 * (n * n)
    requires q < n && v < n && x == RowOf(n, q, 0, v) && counter == q + 1
    ensures RowColumnSet(n, m, m', j, q, v)
  {
    m' := m;
    var i := x;
    ghost var t := 0;
    RowFillBounds(n, q, v, t, counter);
    while i < counter * (n * n)
      invariant t <= n && i == RowOf(n, q, t, v) && (i < counter * (n * n) <==> t < n)
      invariant RowFilled(n, m, m', j, q, v, t)
    {
      RowFillStep(n, m, m', j, q, v, t);
      m' := m'[i := m'[i][j := true]];
      RowFillBounds(n, q, v, t, counter);
      i := i + n;
      t := t + 1;
      RowFillBounds(n, q, v, t, counter);
    }
    RowFilledAll(n, m, m', j, q, v);
  }

  /** The start row x and the row bound counter n^2 for the next
      row-constraint column (sudoku.cpp:149-155): the value advances, and
      after value n the grid row does. */
  method RowCursorNext(n: nat, j: nat, x: nat, counter: nat, ghost q: nat, ghost v: nat)
    returns (x': nat, counter': nat, ghost q': nat, ghost v': nat)
    requires n >= 1 && q < n && v < n
    requires j == RowColumn(n, q, v) && x == RowOf(n, q, 0, v) && counter == q + 1
    ensures q' <= n && v' < n && (q' == n ==> v' == 0)
    ensures j + 1 == RowColumn(n, q', v') && x' == RowOf(n, q', 0, v') && counter' == q' + 1
    ensures (q', v') == (if v + 1 < n then (q, v + 1) else (q + 1, 0))
  {
    RowColumnNext(n, q, v);
    if (j + 1) % n == 0 {
      x' := counter * (n * n);
      counter' := counter + 1;
      q', v' := q + 1, 0;
    } else {
      x' := x + 1;
      counter' := counter;
      q', v' := q, v + 1;
    }
  }

  /** One pass of the row-constraint loop: fill column j, then move the
      cursor on. */
  method RowConstraintStep(n: nat, m0: CoverMatrix, m: CoverMatrix, j: nat, x: nat, counter: nat, ghost q: nat, ghost v: nat)
    returns (m': CoverMatrix, x': nat, counter': nat, ghost q': nat, ghost v': nat)
    requires n >= 1 && Dims(m0, n) && q < n && v < n
    requires j == RowColumn(n, q, v) && x == RowOf(n, q, 0, v) && counter == q + 1
    requires RowsBefore(n, m0, m, j)
    ensures q' <= n && v' < n && (q' == n ==> v' == 0)
    ensures j + 1 == RowColumn(n, q', v') && x' == RowOf(n, q', 0, v') && counter' == q' + 1
    ensures RowsBefore(n, m0, m', j + 1)
  {
    RowColumnNext(n, q, v);
    m' := RowColumnFill(n, m, j, q, v, x, counter);
    RowsBeforeStep(n, m0, m, m', j, q, v);
    x', counter', q', v' := RowCursorNext(n, j, x, counter, q, v);
  }

  /** The row constraint: column n^2 + q n + v gets the rows of value v + 1 in
      grid row q (sudoku.cpp:141-157). */
  method RowConstraint(n: nat, m: CoverMatrix) returns (m': CoverMatrix)
    requires n >= 1 && Dims(m, n)
    ensures Dims(m', n)
    ensures forall i, j :: 0 <= i < n * n * n && 0 <= j < 4 * (n * n) ==>
              (m'[i][j] <==> m[i][j] || j == RowColumn(n, RowPart(n, i), ValPart(n, i)))
  {
    m' := m;
    var x, counter := 0, 1;
    var j := n * n;
    ghost var q: nat, v: nat := 0, 0;
    while j < 2 * (n * n)
      invariant q <= n && v < n && (q == n ==> v == 0)
      invariant j == RowColumn(n, q, v) && x == RowOf(n, q, 0, v) && counter == q + 1
      invariant RowsBefore(n, m, m', j)
    {
      RowCursorEnd(n, q, v);
      m', x, counter, q, v := RowConstraintStep(n, m, m', j, x, counter, q, v);
      j := j + 1;
    }
    RowCursorEnd(n, q, v);
    RowsBeforeAll(n, m, m');
  }

  /** One pass of the column-constraint loop: set row i's entry, then move
      the column on, wrapping from 3 n^2 back to 2 n^2. */
  method ColConstraintStep(n: nat, m0: CoverMatrix, m: CoverMatrix, i: nat, j: nat) returns (m': CoverMatrix, j': nat)
    requires n >= 1 && Dims(m0, n) && i < n * n * n && j == 2 * (n * n) + i % (n * n)
    requires ColsBefore(n, m0, m, i)
    ensures j' == 2 * (n * n) + (i + 1) % (n * n)
    ensures ColsBefore(n, m0, m', i + 1)
  {
    ColColumnOf(n, i);
    ColsBeforeStep(n, m0, m, i, j);
    m' := m[i := m[i][j := true]];
    ModNext(i, n * n);
    j' := j + 1;
    if j' >= 3 * (n * n) {
      j' := 2 * (n * n);
    }
  }

  /** The column constraint: row i gets a true in column 2 n^2 + i mod n^2,
      the column of its grid column and value (sudoku.cpp:159-167). */
  method ColConstraint(n: nat, m: CoverMatrix) returns (m': CoverMatrix)
    requires n >= 1 && Dims(m, n)
    ensures Dims(m', n)
    ensures forall i, j :: 0 <= i < n * n * n && 0 <= j < 4 * (n * n) ==>
              (m'[i][j] <==> m[i][j] || j == ColColumn(n, ColPart(n, i), ValPart(n, i)))
  {
    m' := m;
    var j := 2 * (n * n);
    var i := 0;
    while i < n * n * n
      invariant 0 <= i <= n * n * n && j == 2 * (n * n) + i % (n * n)
      invariant ColsBefore(n, m, m', i)
    {
      m', j := ColConstraintStep(n, m, m', i, j);
      i := i + 1;
    }
  }

  /** One column of the block constraint: the b x b rows
      x + l n + k n^2 (sudoku.cpp:173-175), which are the rows of value v + 1
      in block (br, bc). */
  method BlockFill(n: nat, b: nat, m: CoverMatrix, j: nat, ghost br: nat, ghost bc: nat, ghost v: nat, x: nat) returns (m': CoverMatrix)
    requires b >= 1 && n >= 1 && n == b * b && Dims(m, n) && j < 4 * (n * n)
    requires br < b && bc < b && v < n && x == RowOf(n, br * b, bc * b, v)
    ensures BlockSet(n, b, m, m', j, br, bc, v)
  {
    m' := m;
    var l := 0;
    while l < b
      invariant l <= b && BlockFilled(n, b, m, m', j, br, bc, v, l, 0)
    {
      m' := BlockLine(n, b, m, m', j, br, bc, v, x, l);
      BlockFillLine(n, b, m, m', j, br, bc, v, l);
      l := l + 1;
    }
    BlockFillAll(n, b, m, m', j, br, bc, v);
  }

  /** The inner loop of one block column: grid column bc b + l of the block,
      every grid row (sudoku.cpp:174-175). */
  method BlockLine(n: nat, b: nat, m0: CoverMatrix, m: CoverMatrix, j: nat, ghost br: nat, ghost bc: nat, ghost v: nat, x: nat, l: nat)
    returns (m': CoverMatrix)
    requires b >= 1 && n >= 1 && n == b * b && Dims(m0, n) && j < 4 * (n * n)
    requires br < b && bc < b && v < n && l < b && x == RowOf(n, br * b, bc * b, v)
    requires BlockFilled(n, b, m0, m, j, br, bc, v, l, 0)
    ensures BlockFilled(n, b, m0, m', j, br, bc, v, l, b)
  {
    m' := m;
    var k := 0;
    while k < b
      invariant k <= b && BlockFilled(n, b, m0, m', j, br, bc, v, l, k)
    {
      BlockRow(n, b, br, bc, v, l, k);
      BlockFillStep(n, b, m0, m', j, br, bc, v, l, k, br * b + k, bc * b + l);
      m' := m'[x + l * n + k * (n * n) := m'[x + l * n + k * (n * n)][j := true]];
      k := k + 1;
    }
  }

  /** The block loop's cursor: column j and start row x belong to block
      (br, bc) and value v + 1; br == b marks the end. */
  ghost predicate BoxAt(n: nat, b: nat, j: nat, x: nat, br: nat, bc: nat, v: nat)
  {
    && br <= b && bc < b && v < n && (br == b ==> bc == 0 && v == 0)
    && j == 3 * (n * n) + (br * b + bc) * n + v && x == RowOf(n, br * b, bc * b, v)
  }

  /** The start row of the next block-constraint column (sudoku.cpp:177-184):
      the value advances; after value n the block moves right; after the last
      block of a block row, down to the first block of the next. */
  method BoxCursorNext(n: nat, b: nat, j: nat, x: nat, ghost br: nat, ghost bc: nat, ghost v: nat)
    returns (x': nat, ghost br': nat, ghost bc': nat, ghost v': nat)
    requires b >= 1 && n >= 1 && n == b * b && BoxAt(n, b, j, x, br, bc, v) && br < b
    ensures BoxAt(n, b, j + 1, x', br', bc', v')
    ensures (br', bc', v') == (if v + 1 < n then (br, bc, v + 1) else if bc + 1 < b then (br, bc + 1, 0) else (br + 1, 0, 0))
  {
    var temp := j + 1 - 3 * (n * n);
    if v + 1 < n {
      BoxCursorValue(n, b, br, bc, v);
    } else if bc + 1 < b {
      BoxCursorBlock(n, b, br, bc);
    } else {
      BoxCursorLine(n, b, br);
    }
    if temp % (b * n) == 0 {
      x' := x + (b - 1) * (n * n) + (b - 1) * n + 1;
      br', bc', v' := br + 1, 0, 0;
    } else if temp % n == 0 {
      x' := x + n * (b - 1) + 1;
      br', bc', v' := br, bc + 1, 0;
    } else {
      x' := x + 1;
      br', bc', v' := br, bc, v + 1;
    }
  }

  /** One pass of the block-constraint loop. */
  method BoxConstraintStep(n: nat, b: nat, m0: CoverMatrix, m: CoverMatrix, j: nat, x: nat, ghost br: nat, ghost bc: nat, ghost v: nat)
    returns (m': CoverMatrix, x': nat, ghost br': nat, ghost bc': nat, ghost v': nat)
    requires b >= 1 && n >= 1 && n == b * b && Dims(m0, n) && BoxAt(n, b, j, x, br, bc, v) && br < b
    requires BoxesBefore(n, b, m0, m, j)
    ensures BoxAt(n, b, j + 1, x', br', bc', v')
    ensures BoxesBefore(n, b, m0, m', j + 1)
  {
    BoxCursorEnd(n, b, br, bc, v);
    m' := BlockFill(n, b, m, j, br, bc, v, x);
    BoxesBeforeStep(n, b, m0, m, m', j, br, bc, v);
    x', br', bc', v' := BoxCursorNext(n, b, j, x, br, bc, v);
  }

  /** The block constraint: column 3 n^2 + B n + v gets the rows of value
      v + 1 in block B (sudoku.cpp:169-185). */
  method BoxConstraint(n: nat, b: nat, m: CoverMatrix) returns (m': CoverMatrix)
    requires b >= 1 && n >= 1 && n == b * b && Dims(m, n)
    ensures Dims(m', n)
    ensures forall i, j :: 0 <= i < n * n * n && 0 <= j < 4 * (n * n) ==>
              (m'[i][j] <==> m[i][j] || j == BoxColumn(n, b, RowPart(n, i), ColPart(n, i), ValPart(n, i)))
  {
    m' := m;
    var x := 0;
    var j := 3 * (n * n);
    ghost var br: nat, bc: nat, v: nat := 0, 0, 0;
    while j < 4 * (n * n)
      invariant BoxAt(n, b, j, x, br, bc, v)
      invariant BoxesBefore(n, b, m, m', j)
    {
      BoxCursorEnd(n, b, br, bc, v);
      m', x, br, bc, v := BoxConstraintStep(n, b, m, m', j, x, br, bc, v);
      j := j + 1;
    }
    BoxCursorEnd(n, b, br, bc, v);
    BoxesBeforeAll(n, b, m, m');
  }

  /** buildExactCoverMatrix: the four constraint loops on an all-false
      matrix give exactly the closed form. */
  method BuildExactCoverMatrix(n: nat, b: nat) returns (m: CoverMatrix)
    requires b >= 1 && n >= 1 && n == b * b
    ensures n >= 1 && IsCoverMatrix(m, n, b)
  {
    MulMono(0, b, b);
    var m0 := Blank(n);
    var m1 := CellConstraint(n, m0);
    var m2 := RowConstraint(n, m1);
    var m3 := ColConstraint(n, m2);
    m := BoxConstraint(n, b, m3);
  }
}
