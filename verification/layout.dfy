/** The exact-cover matrix of an n x n sudoku with b x b blocks (n == b * b).
    Row RowOf(n, r, c, v) stands for "cell (r, c) holds value v + 1"; its four
    columns are the cell constraint, the row/value constraint, the
    column/value constraint and the block/value constraint, in that order
    (sudoku.cpp:127-186). This module holds the closed form and the facts
    about it that the builder's loops need. */
module Layout {
  import opened Arith

  type CoverMatrix = seq<seq<bool>>

  /** n^3 rows of 4 n^2 columns. */
  ghost predicate Dims(m: CoverMatrix, n: nat)
  {
    |m| == n * n * n && forall i :: 0 <= i < |m| ==> |m[i]| == 4 * (n * n)
  }

  /** The all-false matrix the builder starts from. */
  function Blank(n: nat): (m: CoverMatrix)
    ensures Dims(m, n)
    ensures forall i, j :: 0 <= i < n * n * n && 0 <= j < 4 * (n * n) ==> !m[i][j]
  {
    seq(n * n * n, _ => seq(4 * (n * n), _ => false))
  }

  /** The matrix row for "cell (r, c) holds v + 1". */
  function RowOf(n: nat, r: nat, c: nat, v: nat): nat
  {
    r * (n * n) + c * n + v
  }

  /** The grid row, grid column and value (minus one) a matrix row stands for. */
  function RowPart(n: nat, i: nat): nat
    requires n >= 1
  {
    i / (n * n)
  }

  function ColPart(n: nat, i: nat): nat
    requires n >= 1
  {
    (i / n) % n
  }

  function ValPart(n: nat, i: nat): nat
    requires n >= 1
  {
    i % n
  }

  /** The block, numbered row by row, that holds cell (r, c). */
  function Box(b: nat, r: nat, c: nat): nat
    requires b >= 1
  {
    (r / b) * b + c / b
  }

  function CellColumn(n: nat, r: nat, c: nat): nat
  {
    r * n + c
  }

  function RowColumn(n: nat, r: nat, v: nat): nat
  {
    n * n + r * n + v
  }

  function ColColumn(n: nat, c: nat, v: nat): nat
  {
    2 * (n * n) + c * n + v
  }

  function BoxColumn(n: nat, b: nat, r: nat, c: nat, v: nat): nat
    requires b >= 1
  {
    3 * (n * n) + Box(b, r, c) * n + v
  }

  /** The four columns of the row for "cell (r, c) holds v + 1". */
  function Columns(n: nat, b: nat, r: nat, c: nat, v: nat): seq<nat>
    requires b >= 1
  {
    [CellColumn(n, r, c), RowColumn(n, r, v), ColColumn(n, c, v), BoxColumn(n, b, r, c, v)]
  }

  /** The quotient of x < m * n by n is below m. */
  lemma Digit(x: nat, n: nat, m: nat)
    requires n >= 1 && x < m * n
    ensures x / n < m && x == (x / n) * n + x % n
  {
    BelowInv(x / n, x % n, n, m);
  }

  lemma Expand(r: int, c: int, n: int, v: int)
    ensures (r * n + c) * n + v == r * (n * n) + c * n + v
  {
    calc {
      (r * n + c) * n;
      (r * n) * n + c * n;
      r * (n * n) + c * n;
    }
  }

  /** A (row, column, value) triple in range names a matrix row, and the row
      gives the triple back. */
  lemma RowOfParts(n: nat, r: nat, c: nat, v: nat)
    requires n >= 1 && r < n && c < n && v < n
    ensures RowOf(n, r, c, v) < n * n * n
    ensures RowPart(n, RowOf(n, r, c, v)) == r
    ensures ColPart(n, RowOf(n, r, c, v)) == c
    ensures ValPart(n, RowOf(n, r, c, v)) == v
    ensures RowOf(n, r, c, v) / n == r * n + c
    ensures RowOf(n, r, c, v) % (n * n) == c * n + v
  {
    var i := RowOf(n, r, c, v);
    Expand(r, c, n, v);
    DivModUnique(i, n, r * n + c, v);
    DivModUnique(r * n + c, n, r, c);
    Below(c, v, n, n);
    DivModUnique(i, n * n, r, c * n + v);
    Below(r, c * n + v, n * n, n);
    assert n * (n * n) == n * n * n;
  }

  /** Every matrix row is the row of its own triple. */
  lemma RowParts(n: nat, i: nat)
    requires n >= 1 && i < n * n * n
    ensures RowPart(n, i) < n && ColPart(n, i) < n && ValPart(n, i) < n
    ensures i == RowOf(n, RowPart(n, i), ColPart(n, i), ValPart(n, i))
  {
    var q, v := i / n, i % n;
    Digit(i, n, n * n);
    var r, c := q / n, q % n;
    Digit(q, n, n);
    Expand(r, c, n, v);
    RowOfParts(n, r, c, v);
  }

  /** `m'` is `m` with column j set in the rows of value v + 1 in grid row q. */
  ghost predicate RowColumnSet(n: nat, m: CoverMatrix, m': CoverMatrix, j: nat, q: nat, v: nat)
    requires n >= 1 && Dims(m, n)
  {
    && Dims(m', n)
    && forall i', j' {:trigger m'[i'][j']} :: 0 <= i' < n * n * n && 0 <= j' < 4 * (n * n) ==>
         (m'[i'][j'] <==> m[i'][j'] || (j' == j && RowPart(n, i') == q && ValPart(n, i') == v))
  }

  /** `m` is `m0` with column j set in the rows of value v + 1 in grid row q
      whose grid column is below t. */
  ghost predicate RowFilled(n: nat, m0: CoverMatrix, m: CoverMatrix, j: nat, q: nat, v: nat, t: nat)
    requires n >= 1 && Dims(m0, n)
  {
    && Dims(m, n)
    && forall i', j' {:trigger m[i'][j']} :: 0 <= i' < n * n * n && 0 <= j' < 4 * (n * n) ==>
         (m[i'][j'] <==> m0[i'][j'] || (j' == j && RowPart(n, i') == q && ValPart(n, i') == v && ColPart(n, i') < t))
  }

  lemma RowFillStep(n: nat, m0: CoverMatrix, m: CoverMatrix, j: nat, q: nat, v: nat, t: nat)
    requires n >= 1 && Dims(m0, n) && j < 4 * (n * n) && q < n && v < n && t < n
    requires RowFilled(n, m0, m, j, q, v, t)
    ensures RowOf(n, q, t, v) < n * n * n
    ensures RowFilled(n, m0, m[RowOf(n, q, t, v) := m[RowOf(n, q, t, v)][j := true]], j, q, v, t + 1)
  {
    var i := RowOf(n, q, t, v);
    RowOfParts(n, q, t, v);
    forall i' | 0 <= i' < n * n * n
      ensures RowPart(n, i') == q && ValPart(n, i') == v && ColPart(n, i') == t ==> i' == i
    {
      RowParts(n, i');
    }
  }

  /** Rows x + t n, for t from 0 while below (q + 1) n^2, are the n rows of
      grid row q with value v + 1, one per grid column. */
  lemma RowFillBounds(n: nat, q: nat, v: nat, t: nat, counter: nat)
    requires n >= 1 && q < n && v < n && counter == q + 1
    ensures RowOf(n, q, t, v) + n == RowOf(n, q, t + 1, v)
    ensures RowOf(n, q, t, v) < counter * (n * n) <==> t < n
  {
    assert (t + 1) * n == t * n + n;
    assert counter * (n * n) == q * (n * n) + n * n;
    if t < n {
      Below(t, v, n, n);
    } else {
      assert t * n >= n * n by {
        if t > n {
          MulMono(n, t, n);
        }
      }
    }
  }

  lemma RowFilledAll(n: nat, m0: CoverMatrix, m: CoverMatrix, j: nat, q: nat, v: nat)
    requires n >= 1 && Dims(m0, n) && RowFilled(n, m0, m, j, q, v, n)
    ensures RowColumnSet(n, m0, m, j, q, v)
  {
    forall i' | 0 <= i' < n * n * n ensures ColPart(n, i') < n {
      RowParts(n, i');
    }
  }

  /** Moving to the next row-constraint column: the column index j + 1 is a
      multiple of n exactly when the value wraps around to the next grid row. */
  lemma RowColumnNext(n: nat, q: nat, v: nat)
    requires n >= 1 && q < n && v < n
    ensures (RowColumn(n, q, v) + 1) % n == 0 <==> v == n - 1
    ensures v == n - 1 ==> RowColumn(n, q, v) + 1 == RowColumn(n, q + 1, 0)
    ensures v == n - 1 ==> RowOf(n, q + 1, 0, 0) == (q + 1) * (n * n)
    ensures RowColumn(n, q, v) < 2 * (n * n)
  {
    assert RowColumn(n, q, v) + 1 == (n + q) * n + v + 1;
    if v + 1 < n {
      DivModUnique(RowColumn(n, q, v) + 1, n, n + q, v + 1);
    } else {
      DivModUnique(RowColumn(n, q, v) + 1, n, n + q + 1, 0);
    }
    Below(q, v, n, n);
  }

  /** The row-constraint cursor runs up to 2 n^2, reached once q reaches n. */
  lemma RowCursorEnd(n: nat, q: nat, v: nat)
    requires n >= 1 && q <= n && v < n && (q == n ==> v == 0)
    ensures RowColumn(n, q, v) <= 2 * (n * n)
    ensures RowColumn(n, q, v) == 2 * (n * n) <==> q == n
  {
    if q < n {
      Below(q, v, n, n);
    }
  }

  /** The rows of value v + 1 in grid row q are the rows whose row-constraint
      column is RowColumn(n, q, v). */
  lemma RowColumnRows(n: nat, q: nat, v: nat, i: nat)
    requires n >= 1 && q < n && v < n && i < n * n * n
    ensures RowPart(n, i) == q && ValPart(n, i) == v <==> RowColumn(n, q, v) == RowColumn(n, RowPart(n, i), ValPart(n, i))
  {
    RowParts(n, i);
    var r, w := RowPart(n, i), ValPart(n, i);
    if RowColumn(n, q, v) == RowColumn(n, r, w) {
      DivModUnique(q * n + v, n, q, v);
      DivModUnique(q * n + v, n, r, w);
    }
  }

  /** `m` is `m0` with the row-constraint columns below j filled in. */
  ghost predicate RowsBefore(n: nat, m0: CoverMatrix, m: CoverMatrix, j: nat)
    requires n >= 1 && Dims(m0, n)
  {
    && Dims(m, n)
    && forall i', j' {:trigger m[i'][j']} :: 0 <= i' < n * n * n && 0 <= j' < 4 * (n * n) ==>
         (m[i'][j'] <==> m0[i'][j'] || (j' < j && j' == RowColumn(n, RowPart(n, i'), ValPart(n, i'))))
  }

  lemma RowsBeforeStep(n: nat, m0: CoverMatrix, m: CoverMatrix, m': CoverMatrix, j: nat, q: nat, v: nat)
    requires n >= 1 && Dims(m0, n) && q < n && v < n && j == RowColumn(n, q, v)
    requires RowsBefore(n, m0, m, j) && RowColumnSet(n, m, m', j, q, v)
    ensures RowsBefore(n, m0, m', j + 1)
  {
    forall i' | 0 <= i' < n * n * n
      ensures RowPart(n, i') == q && ValPart(n, i') == v <==> RowColumn(n, q, v) == RowColumn(n, RowPart(n, i'), ValPart(n, i'))
    {
      RowColumnRows(n, q, v, i');
    }
  }

  lemma RowsBeforeAll(n: nat, m0: CoverMatrix, m: CoverMatrix)
    requires n >= 1 && Dims(m0, n) && RowsBefore(n, m0, m, 2 * (n * n))
    ensures forall i, j :: 0 <= i < n * n * n && 0 <= j < 4 * (n * n) ==>
              (m[i][j] <==> m0[i][j] || j == RowColumn(n, RowPart(n, i), ValPart(n, i)))
  {
    forall i' | 0 <= i' < n * n * n
      ensures RowColumn(n, RowPart(n, i'), ValPart(n, i')) < 2 * (n * n)
    {
      RowParts(n, i');
      RowColumnNext(n, RowPart(n, i'), ValPart(n, i'));
    }
  }


  /** Counting modulo N: the successor's remainder is the remainder plus one,
      wrapping to 0 at N. */
  lemma ModNext(i: nat, N: nat)
    requires N >= 1
    ensures (i + 1) % N == if i % N + 1 < N then i % N + 1 else 0
  {
    if i % N + 1 < N {
      DivModUnique(i + 1, N, i / N, i % N + 1);
    } else {
      DivModUnique(i + 1, N, i / N + 1, 0);
    }
  }

  /** The column-constraint column of row i is 2 n^2 plus i mod n^2. */
  lemma ColColumnOf(n: nat, i: nat)
    requires n >= 1 && i < n * n * n
    ensures ColColumn(n, ColPart(n, i), ValPart(n, i)) == 2 * (n * n) + i % (n * n)
    ensures i % (n * n) < n * n
  {
    RowParts(n, i);
    RowOfParts(n, RowPart(n, i), ColPart(n, i), ValPart(n, i));
  }

  /** `m` is `m0` with the column-constraint entries of the rows below i set. */
  ghost predicate ColsBefore(n: nat, m0: CoverMatrix, m: CoverMatrix, i: nat)
    requires n >= 1 && Dims(m0, n)
  {
    && Dims(m, n)
    && forall i', j' {:trigger m[i'][j']} :: 0 <= i' < n * n * n && 0 <= j' < 4 * (n * n) ==>
         (m[i'][j'] <==> m0[i'][j'] || (i' < i && j' == ColColumn(n, ColPart(n, i'), ValPart(n, i'))))
  }

  lemma ColsBeforeStep(n: nat, m0: CoverMatrix, m: CoverMatrix, i: nat, j: nat)
    requires n >= 1 && Dims(m0, n) && i < n * n * n && ColsBefore(n, m0, m, i)
    requires j == ColColumn(n, ColPart(n, i), ValPart(n, i)) && j < 4 * (n * n)
    ensures ColsBefore(n, m0, m[i := m[i][j := true]], i + 1)
  {
  }

  /** x lies in [q b, q b + b) exactly when x / b is q. */
  lemma QuotRange(x: nat, b: nat, q: nat)
    requires b >= 1
    ensures q * b <= x < q * b + b <==> x / b == q
  {
    if q * b <= x < q * b + b {
      DivModUnique(x, b, q, x - q * b);
    }
  }

  /** Row i lies in block (br, bc) with value v + 1, and comes before offset
      (l, k) in the builder's order: grid-column offset l first, then
      grid-row offset k. */
  ghost predicate Placed(n: nat, b: nat, br: nat, bc: nat, v: nat, l: nat, k: nat, i: nat)
    requires n >= 1
  {
    && ValPart(n, i) == v
    && br * b <= RowPart(n, i) < br * b + b
    && bc * b <= ColPart(n, i) < bc * b + b
    && (ColPart(n, i) < bc * b + l || (ColPart(n, i) == bc * b + l && RowPart(n, i) < br * b + k))
  }

  /** `m` is `m0` with column j set in the rows placed before (l, k). */
  ghost predicate BlockFilled(n: nat, b: nat, m0: CoverMatrix, m: CoverMatrix, j: nat, br: nat, bc: nat, v: nat, l: nat, k: nat)
    requires n >= 1 && Dims(m0, n)
  {
    && Dims(m, n)
    && forall i', j' {:trigger m[i'][j']} :: 0 <= i' < n * n * n && 0 <= j' < 4 * (n * n) ==>
         (m[i'][j'] <==> m0[i'][j'] || (j' == j && Placed(n, b, br, bc, v, l, k, i')))
  }

  /** The row the block loop writes at offset (l, k): grid row br b + k,
      grid column bc b + l. */
  lemma BlockRow(n: nat, b: nat, br: nat, bc: nat, v: nat, l: nat, k: nat)
    requires b >= 1 && n >= 1 && n == b * b && br < b && bc < b && v < n && l < b && k < b
    ensures br * b + k < n && bc * b + l < n
    ensures RowOf(n, br * b, bc * b, v) + l * n + k * (n * n) == RowOf(n, br * b + k, bc * b + l, v)
  {
    Below(br, k, b, b);
    Below(bc, l, b, b);
    assert (br * b + k) * (n * n) == (br * b) * (n * n) + k * (n * n);
    assert (bc * b + l) * n == (bc * b) * n + l * n;
  }

  /** Setting entry (l, k) of the block, the row of grid row r = br b + k
      and grid column c = bc b + l, moves the loop one offset on. */
  lemma BlockFillStep(n: nat, b: nat, m0: CoverMatrix, m: CoverMatrix, j: nat, br: nat, bc: nat, v: nat, l: nat, k: nat,
                      r: nat, c: nat)
    requires n >= 1 && Dims(m0, n) && j < 4 * (n * n)
    requires r == br * b + k && c == bc * b + l && r < n && c < n && v < n && l < b && k < b
    requires BlockFilled(n, b, m0, m, j, br, bc, v, l, k)
    ensures RowOf(n, r, c, v) < n * n * n
    ensures BlockFilled(n, b, m0, m[RowOf(n, r, c, v) := m[RowOf(n, r, c, v)][j := true]], j, br, bc, v, l, k + 1)
  {
    RowOfParts(n, r, c, v);
    forall i' | 0 <= i' < n * n * n
      ensures Placed(n, b, br, bc, v, l, k + 1, i') <==> Placed(n, b, br, bc, v, l, k, i') || i' == RowOf(n, r, c, v)
    {
      PlacedStep(n, b, br, bc, v, l, k, r, c, i');
    }
  }

  /** The rows placed before offset (l, k + 1) are those placed before
      (l, k) and the row at (l, k). */
  lemma PlacedStep(n: nat, b: nat, br: nat, bc: nat, v: nat, l: nat, k: nat, r: nat, c: nat, i: nat)
    requires n >= 1 && r == br * b + k && c == bc * b + l && r < n && c < n && v < n && l < b && k < b && i < n * n * n
    ensures Placed(n, b, br, bc, v, l, k + 1, i) <==> Placed(n, b, br, bc, v, l, k, i) || i == RowOf(n, r, c, v)
  {
    RowOfParts(n, r, c, v);
    RowParts(n, i);
  }

  lemma BlockFillLine(n: nat, b: nat, m0: CoverMatrix, m: CoverMatrix, j: nat, br: nat, bc: nat, v: nat, l: nat)
    requires n >= 1 && Dims(m0, n) && BlockFilled(n, b, m0, m, j, br, bc, v, l, b)
    ensures BlockFilled(n, b, m0, m, j, br, bc, v, l + 1, 0)
  {
    forall i' | 0 <= i' < n * n * n
      ensures Placed(n, b, br, bc, v, l, b, i') <==> Placed(n, b, br, bc, v, l + 1, 0, i')
    {
    }
  }

  /** `m'` is `m` with column j set in the rows of value v + 1 in block
      (br, bc). */
  ghost predicate BlockSet(n: nat, b: nat, m: CoverMatrix, m': CoverMatrix, j: nat, br: nat, bc: nat, v: nat)
    requires n >= 1 && b >= 1 && Dims(m, n)
  {
    && Dims(m', n)
    && forall i', j' {:trigger m'[i'][j']} :: 0 <= i' < n * n * n && 0 <= j' < 4 * (n * n) ==>
         (m'[i'][j'] <==> m[i'][j'] || (j' == j && ValPart(n, i') == v && RowPart(n, i') / b == br && ColPart(n, i') / b == bc))
  }

  lemma BlockFillAll(n: nat, b: nat, m0: CoverMatrix, m: CoverMatrix, j: nat, br: nat, bc: nat, v: nat)
    requires b >= 1 && n >= 1 && n == b * b && Dims(m0, n) && BlockFilled(n, b, m0, m, j, br, bc, v, b, 0)
    ensures BlockSet(n, b, m0, m, j, br, bc, v)
  {
    forall i' | 0 <= i' < n * n * n
      ensures Placed(n, b, br, bc, v, b, 0, i') <==> ValPart(n, i') == v && RowPart(n, i') / b == br && ColPart(n, i') / b == bc
    {
      QuotRange(RowPart(n, i'), b, br);
      QuotRange(ColPart(n, i'), b, bc);
    }
  }

  /** The block numbering: a block index is below n. */
  lemma BoxRange(n: nat, b: nat, r: nat, c: nat)
    requires b >= 1 && n >= 1 && n == b * b && r < n && c < n
    ensures r / b < b && c / b < b && Box(b, r, c) < n
  {
    Digit(r, b, b);
    Digit(c, b, b);
    Below(r / b, c / b, b, b);
  }

  /** The rows of value v + 1 in block (br, bc) are the rows whose block
      column is 3 n^2 + (br b + bc) n + v. */
  lemma BoxColumnRows(n: nat, b: nat, br: nat, bc: nat, v: nat, i: nat)
    requires b >= 1 && n >= 1 && n == b * b && br < b && bc < b && v < n && i < n * n * n
    ensures ValPart(n, i) == v && RowPart(n, i) / b == br && ColPart(n, i) / b == bc <==>
            3 * (n * n) + (br * b + bc) * n + v == BoxColumn(n, b, RowPart(n, i), ColPart(n, i), ValPart(n, i))
  {
    RowParts(n, i);
    var r, c, w := RowPart(n, i), ColPart(n, i), ValPart(n, i);
    BoxRange(n, b, r, c);
    Below(br, bc, b, b);
    if 3 * (n * n) + (br * b + bc) * n + v == BoxColumn(n, b, r, c, w) {
      var X := (br * b + bc) * n + v;
      DivModUnique(X, n, br * b + bc, v);
      DivModUnique(X, n, Box(b, r, c), w);
      DivModUnique(br * b + bc, b, br, bc);
      DivModUnique(br * b + bc, b, r / b, c / b);
    }
  }

  /** `m` is `m0` with the block-constraint columns below j filled in. */
  ghost predicate BoxesBefore(n: nat, b: nat, m0: CoverMatrix, m: CoverMatrix, j: nat)
    requires n >= 1 && b >= 1 && Dims(m0, n)
  {
    && Dims(m, n)
    && forall i', j' {:trigger m[i'][j']} :: 0 <= i' < n * n * n && 0 <= j' < 4 * (n * n) ==>
         (m[i'][j'] <==> m0[i'][j'] || (j' < j && j' == BoxColumn(n, b, RowPart(n, i'), ColPart(n, i'), ValPart(n, i'))))
  }

  lemma BoxesBeforeStep(n: nat, b: nat, m0: CoverMatrix, m: CoverMatrix, m': CoverMatrix, j: nat, br: nat, bc: nat, v: nat)
    requires b >= 1 && n >= 1 && n == b * b && Dims(m0, n) && br < b && bc < b && v < n
    requires j == 3 * (n * n) + (br * b + bc) * n + v
    requires BoxesBefore(n, b, m0, m, j) && BlockSet(n, b, m, m', j, br, bc, v)
    ensures BoxesBefore(n, b, m0, m', j + 1)
  {
    forall i' | 0 <= i' < n * n * n
      ensures ValPart(n, i') == v && RowPart(n, i') / b == br && ColPart(n, i') / b == bc <==>
              j == BoxColumn(n, b, RowPart(n, i'), ColPart(n, i'), ValPart(n, i'))
    {
      BoxColumnRows(n, b, br, bc, v, i');
    }
  }

  lemma BoxesBeforeAll(n: nat, b: nat, m0: CoverMatrix, m: CoverMatrix)
    requires b >= 1 && n >= 1 && n == b * b && Dims(m0, n) && BoxesBefore(n, b, m0, m, 4 * (n * n))
    ensures forall i, j :: 0 <= i < n * n * n && 0 <= j < 4 * (n * n) ==>
              (m[i][j] <==> m0[i][j] || j == BoxColumn(n, b, RowPart(n, i), ColPart(n, i), ValPart(n, i)))
  {
    forall i' | 0 <= i' < n * n * n
      ensures BoxColumn(n, b, RowPart(n, i'), ColPart(n, i'), ValPart(n, i')) < 4 * (n * n)
    {
      BoxColumnOf(n, b, i');
    }
  }

  /** Every row's block column is a column of the matrix. */
  lemma BoxColumnOf(n: nat, b: nat, i: nat)
    requires b >= 1 && n >= 1 && n == b * b && i < n * n * n
    ensures BoxColumn(n, b, RowPart(n, i), ColPart(n, i), ValPart(n, i)) < 4 * (n * n)
  {
    RowParts(n, i);
    BoxRange(n, b, RowPart(n, i), ColPart(n, i));
    BoxColumnRange(n, b, RowPart(n, i), ColPart(n, i), ValPart(n, i));
  }

  /** The block-constraint cursor runs up to 4 n^2, reached once br reaches b. */
  lemma BoxCursorEnd(n: nat, b: nat, br: nat, bc: nat, v: nat)
    requires b >= 1 && n >= 1 && n == b * b && br <= b && bc < b && v < n && (br == b ==> bc == 0 && v == 0)
    ensures (br * b + bc) * n + v <= n * n
    ensures (br * b + bc) * n + v == n * n <==> br == b
  {
    if br < b {
      Below(br, bc, b, b);
      Below(br * b + bc, v, n, n);
    }
  }

  /** Within a block line: the next column keeps the block, one value up. */
  lemma BoxCursorValue(n: nat, b: nat, br: nat, bc: nat, v: nat)
    requires b >= 1 && n >= 1 && n == b * b && br < b && bc < b && v + 1 < n
    ensures b * n >= 1 && ((br * b + bc) * n + v + 1) % (b * n) != 0
    ensures ((br * b + bc) * n + v + 1) % n != 0
  {
    var t := (br * b + bc) * n + v + 1;
    DivModUnique(t, n, br * b + bc, v + 1);
    Below(bc, v + 1, n, b);
    assert t == br * (b * n) + (bc * n + v + 1);
    DivModUnique(t, b * n, br, bc * n + v + 1);
  }

  /** After value n, the next block of the same block row. */
  lemma BoxCursorBlock(n: nat, b: nat, br: nat, bc: nat)
    requires b >= 1 && n >= 1 && n == b * b && br < b && bc + 1 < b
    ensures b * n >= 1 && ((br * b + bc) * n + n) % (b * n) != 0
    ensures ((br * b + bc) * n + n) % n == 0
    ensures (br * b + bc) * n + n == (br * b + (bc + 1)) * n
    ensures RowOf(n, br * b, bc * b, n - 1) + n * (b - 1) + 1 == RowOf(n, br * b, (bc + 1) * b, 0)
  {
    var t := (br * b + bc) * n + n;
    assert t == (br * b + bc + 1) * n;
    DivModUnique(t, n, br * b + bc + 1, 0);
    Below(bc + 1, 0, n, b);
    assert t == br * (b * n) + (bc + 1) * n;
    DivModUnique(t, b * n, br, (bc + 1) * n);
    assert n * (b - 1) + n == n * b;
    assert (bc + 1) * b * n == bc * b * n + b * n;
  }

  /** After the last block of a block row, the first block of the next. */
  lemma BoxCursorLine(n: nat, b: nat, br: nat)
    requires b >= 1 && n >= 1 && n == b * b && br < b
    ensures b * n >= 1 && ((br * b + (b - 1)) * n + n) % (b * n) == 0
    ensures (br * b + (b - 1)) * n + n == ((br + 1) * b + 0) * n
    ensures RowOf(n, br * b, (b - 1) * b, n - 1) + (b - 1) * (n * n) + (b - 1) * n + 1 == RowOf(n, (br + 1) * b, 0, 0)
  {
    var t := (br * b + (b - 1)) * n + n;
    assert t == (br * b + (b - 1) + 1) * n;
    assert t == ((br + 1) * b) * n;
    assert ((br + 1) * b) * n == (br + 1) * (b * n);
    DivModUnique(t, b * n, br + 1, 0);
    LineRow(n, b, br);
  }

  lemma LineRow(n: nat, b: nat, br: nat)
    requires b >= 1 && n >= 1 && n == b * b
    ensures RowOf(n, br * b, (b - 1) * b, n - 1) + (b - 1) * (n * n) + (b - 1) * n + 1 == RowOf(n, (br + 1) * b, 0, 0)
  {
    var d := b - 1;
    Distrib(d, 1, b);
    Distrib(d * b, d, n);
    Distrib(d * b + d, 1, n);
    Distrib(br * b, d, n * n);
    Distrib(br * b + d, 1, n * n);
    Distrib(br, 1, b);
  }

  /** Each constraint owns a quarter of the columns: cell columns lie below
      n^2, row columns in [n^2, 2 n^2), column columns in [2 n^2, 3 n^2),
      block columns in [3 n^2, 4 n^2). */
  lemma ColumnRanges(n: nat, b: nat, r: nat, c: nat, v: nat)
    requires b >= 1 && n >= 1 && n == b * b && r < n && c < n && v < n
    ensures CellColumn(n, r, c) < n * n
    ensures n * n <= RowColumn(n, r, v) < 2 * (n * n)
    ensures 2 * (n * n) <= ColColumn(n, c, v) < 3 * (n * n)
    ensures 3 * (n * n) <= BoxColumn(n, b, r, c, v) < 4 * (n * n)
  {
    Below(r, c, n, n);
    Below(r, v, n, n);
    Below(c, v, n, n);
    MulNonNeg(r, n);
    MulNonNeg(c, n);
    BoxRange(n, b, r, c);
    BoxColumnRange(n, b, r, c, v);
  }

  lemma BoxColumnRange(n: nat, b: nat, r: nat, c: nat, v: nat)
    requires b >= 1 && v < n && Box(b, r, c) < n
    ensures 3 * (n * n) <= BoxColumn(n, b, r, c, v) < 4 * (n * n)
  {
    Below(Box(b, r, c), v, n, n);
    MulNonNeg(Box(b, r, c), n);
  }

  /** The cell at offset t of block B: t / b rows down and t % b columns
      right of the block's top-left cell. */
  function BlockCell(b: nat, B: nat, t: nat): (nat, nat)
    requires b >= 1
  {
    ((B / b) * b + t / b, (B % b) * b + t % b)
  }

  /** Every offset below b^2 names a cell of the block. */
  lemma BlockCellBox(b: nat, B: nat, t: nat)
    requires b >= 1 && B < b * b && t < b * b
    ensures BlockCell(b, B, t).0 < b * b && BlockCell(b, B, t).1 < b * b
    ensures Box(b, BlockCell(b, B, t).0, BlockCell(b, B, t).1) == B
  {
    Digit(B, b, b);
    BlockOffset(b, B / b, t);
    BlockOffset(b, B % b, t);
  }

  /** Every cell is at some offset of its own block. */
  lemma BlockCellOf(b: nat, r: nat, c: nat)
    requires b >= 1 && r < b * b && c < b * b
    ensures (r % b) * b + c % b < b * b
    ensures BlockCell(b, Box(b, r, c), (r % b) * b + c % b) == (r, c)
  {
    Digit(r, b, b);
    Digit(c, b, b);
    Below(r / b, c / b, b, b);
    DivModUnique(Box(b, r, c), b, r / b, c / b);
    var t := (r % b) * b + c % b;
    Below(r % b, c % b, b, b);
    DivModUnique(t, b, r % b, c % b);
  }

  /** Different offsets name different cells. */
  lemma BlockCellInjective(b: nat, B: nat, t1: nat, t2: nat)
    requires b >= 1 && B < b * b && t1 < b * b && t2 < b * b
    requires BlockCell(b, B, t1) == BlockCell(b, B, t2)
    ensures t1 == t2
  {
    assert t1 / b == t2 / b && t1 % b == t2 % b;
    assert t1 == (t1 / b) * b + t1 % b && t2 == (t2 / b) * b + t2 % b;
  }

  /** The n rows of cell column j = r n + c: cell (r, c) with each value. */
  function CellRows(n: nat, j: nat): (rows: seq<nat>)
    requires n >= 1 && j < n * n
    ensures |rows| == n
  {
    seq(n, t requires 0 <= t < n => RowOf(n, j / n, j % n, t))
  }

  /** The n rows of row column n^2 + r n + v: value v + 1 in each cell of
      grid row r. */
  function RowRows(n: nat, j: nat): (rows: seq<nat>)
    requires n >= 1 && n * n <= j < 2 * (n * n)
    ensures |rows| == n
  {
    seq(n, t requires 0 <= t < n => RowOf(n, (j - n * n) / n, t, (j - n * n) % n))
  }

  /** The n rows of column column 2 n^2 + c n + v: value v + 1 in each cell
      of grid column c. */
  function ColRows(n: nat, j: nat): (rows: seq<nat>)
    requires n >= 1 && 2 * (n * n) <= j < 3 * (n * n)
    ensures |rows| == n
  {
    seq(n, t requires 0 <= t < n => RowOf(n, t, (j - 2 * (n * n)) / n, (j - 2 * (n * n)) % n))
  }

  /** The n rows of block column 3 n^2 + B n + v: value v + 1 in each cell
      of block B. */
  function BoxRows(n: nat, b: nat, j: nat): (rows: seq<nat>)
    requires b >= 1 && n >= 1 && 3 * (n * n) <= j < 4 * (n * n)
    ensures |rows| == n
  {
    var B, v := (j - 3 * (n * n)) / n, (j - 3 * (n * n)) % n;
    seq(n, t requires 0 <= t < n => RowOf(n, BlockCell(b, B, t).0, BlockCell(b, B, t).1, v))
  }

  /** The n rows with a true in column j, listed in the order of the
      constraint's free coordinate. */
  function ColumnRows(n: nat, b: nat, j: nat): (rows: seq<nat>)
    requires b >= 1 && n >= 1 && n == b * b && j < 4 * (n * n)
    ensures |rows| == n
  {
    if j < n * n then CellRows(n, j)
    else if j < 2 * (n * n) then RowRows(n, j)
    else if j < 3 * (n * n) then ColRows(n, j)
    else BoxRows(n, b, j)
  }

  /** Row i has a true in cell column j exactly when it is listed for j. */
  lemma CellColumnRows(n: nat, b: nat, j: nat, i: nat)
    requires b >= 1 && n >= 1 && n == b * b && j < n * n && i < n * n * n
    ensures j == CellColumn(n, RowPart(n, i), ColPart(n, i)) <==> i in CellRows(n, j)
  {
    RowParts(n, i);
    var r, c, w := RowPart(n, i), ColPart(n, i), ValPart(n, i);
    var rows := CellRows(n, j);
    Digit(j, n, n);
    if j == CellColumn(n, r, c) {
      DivModUnique(j, n, r, c);
      assert rows[w] == i;
    }
    if i in rows {
      var t :| 0 <= t < n && rows[t] == i;
      RowOfParts(n, j / n, j % n, t);
    }
  }

  lemma RowColumnRowsListed(n: nat, b: nat, j: nat, i: nat)
    requires b >= 1 && n >= 1 && n == b * b && n * n <= j < 2 * (n * n) && i < n * n * n
    ensures j == RowColumn(n, RowPart(n, i), ValPart(n, i)) <==> i in RowRows(n, j)
  {
    RowParts(n, i);
    var r, c, w := RowPart(n, i), ColPart(n, i), ValPart(n, i);
    var rows := RowRows(n, j);
    var j' := j - n * n;
    Digit(j', n, n);
    if j == RowColumn(n, r, w) {
      DivModUnique(j', n, r, w);
      assert rows[c] == i;
    }
    if i in rows {
      var t :| 0 <= t < n && rows[t] == i;
      RowOfParts(n, j' / n, t, j' % n);
    }
  }

  lemma ColColumnRowsListed(n: nat, b: nat, j: nat, i: nat)
    requires b >= 1 && n >= 1 && n == b * b && 2 * (n * n) <= j < 3 * (n * n) && i < n * n * n
    ensures j == ColColumn(n, ColPart(n, i), ValPart(n, i)) <==> i in ColRows(n, j)
  {
    RowParts(n, i);
    var r, c, w := RowPart(n, i), ColPart(n, i), ValPart(n, i);
    var rows := ColRows(n, j);
    var j' := j - 2 * (n * n);
    Digit(j', n, n);
    if j == ColColumn(n, c, w) {
      DivModUnique(j', n, c, w);
      assert rows[r] == i;
    }
    if i in rows {
      var t :| 0 <= t < n && rows[t] == i;
      RowOfParts(n, t, j' / n, j' % n);
    }
  }

  /** Offset t of a block, t / b rows down and t % b columns right, stays in
      the block. */
  lemma BlockOffset(b: nat, B: nat, t: nat)
    requires b >= 1 && B < b && t < b * b
    ensures (B * b + t / b) / b == B && (B * b + t % b) / b == B
    ensures t / b < b && B * b + t / b < b * b && B * b + t % b < b * b
  {
    Digit(t, b, b);
    DivModUnique(B * b + t / b, b, B, t / b);
    DivModUnique(B * b + t % b, b, B, t % b);
    Below(B, t / b, b, b);
    Below(B, t % b, b, b);
  }

  lemma BoxColumnRowsListed(n: nat, b: nat, j: nat, i: nat)
    requires b >= 1 && n >= 1 && n == b * b && 3 * (n * n) <= j < 4 * (n * n) && i < n * n * n
    ensures j == BoxColumn(n, b, RowPart(n, i), ColPart(n, i), ValPart(n, i)) <==> i in BoxRows(n, b, j)
  {
    if j == BoxColumn(n, b, RowPart(n, i), ColPart(n, i), ValPart(n, i)) {
      BoxColumnListed(n, b, j, i);
    }
    if i in BoxRows(n, b, j) {
      BoxListedColumn(n, b, j, i);
    }
  }

  /** Entry t of a block column's list, spelled out. */
  lemma BoxRowsAt(n: nat, b: nat, j: nat, t: nat)
    requires b >= 1 && n >= 1 && n == b * b && 3 * (n * n) <= j < 4 * (n * n) && t < n
    ensures var B, v := (j - 3 * (n * n)) / n, (j - 3 * (n * n)) % n;
      BoxRows(n, b, j)[t] == RowOf(n, BlockCell(b, B, t).0, BlockCell(b, B, t).1, v)
  {
  }

  lemma BoxColumnListed(n: nat, b: nat, j: nat, i: nat)
    requires b >= 1 && n >= 1 && n == b * b && 3 * (n * n) <= j < 4 * (n * n) && i < n * n * n
    requires j == BoxColumn(n, b, RowPart(n, i), ColPart(n, i), ValPart(n, i))
    ensures i in BoxRows(n, b, j)
  {
    RowParts(n, i);
    var r, c, w := RowPart(n, i), ColPart(n, i), ValPart(n, i);
    var j' := j - 3 * (n * n);
    BoxRange(n, b, r, c);
    DivModUnique(j', n, Box(b, r, c), w);
    BlockCellOf(b, r, c);
    var t := (r % b) * b + c % b;
    BoxRowsAt(n, b, j, t);
    assert BoxRows(n, b, j)[t] == i;
  }

  lemma BoxListedColumn(n: nat, b: nat, j: nat, i: nat)
    requires b >= 1 && n >= 1 && n == b * b && 3 * (n * n) <= j < 4 * (n * n) && i < n * n * n
    requires i in BoxRows(n, b, j)
    ensures j == BoxColumn(n, b, RowPart(n, i), ColPart(n, i), ValPart(n, i))
  {
    var j' := j - 3 * (n * n);
    Digit(j', n, n);
    var B: nat, v: nat := j' / n, j' % n;
    var t :| 0 <= t < n && BoxRows(n, b, j)[t] == i;
    BoxRowsAt(n, b, j, t);
    BoxListedAt(n, b, B, v, t);
  }

  /** Entry t of the list of block B and value v + 1 lies in block B. */
  lemma BoxListedAt(n: nat, b: nat, B: nat, v: nat, t: nat)
    requires b >= 1 && n >= 1 && n == b * b && B < n && v < n && t < n
    ensures var p := BlockCell(b, B, t); var i := RowOf(n, p.0, p.1, v);
      BoxColumn(n, b, RowPart(n, i), ColPart(n, i), ValPart(n, i)) == 3 * (n * n) + B * n + v
  {
    BlockCellBox(b, B, t);
    RowOfParts(n, BlockCell(b, B, t).0, BlockCell(b, B, t).1, v);
  }

  /** The rows listed for a column are pairwise distinct. */
  lemma ColumnRowsDistinct(n: nat, b: nat, j: nat, t1: nat, t2: nat)
    requires b >= 1 && n >= 1 && n == b * b && j < 4 * (n * n) && t1 < t2 < n
    ensures ColumnRows(n, b, j)[t1] != ColumnRows(n, b, j)[t2]
  {
    if j < n * n {
      CellRowsDistinct(n, b, j, t1, t2);
    } else if j < 2 * (n * n) {
      RowRowsDistinct(n, b, j, t1, t2);
    } else if j < 3 * (n * n) {
      ColRowsDistinct(n, b, j, t1, t2);
    } else {
      BoxRowsDistinct(n, b, j, t1, t2);
    }
  }

  lemma CellRowsDistinct(n: nat, b: nat, j: nat, t1: nat, t2: nat)
    requires b >= 1 && n >= 1 && n == b * b && j < n * n && t1 < t2 < n
    ensures CellRows(n, j)[t1] != CellRows(n, j)[t2]
  {
    Digit(j, n, n);
    RowOfParts(n, j / n, j % n, t1);
    RowOfParts(n, j / n, j % n, t2);
  }

  lemma RowRowsDistinct(n: nat, b: nat, j: nat, t1: nat, t2: nat)
    requires b >= 1 && n >= 1 && n == b * b && n * n <= j < 2 * (n * n) && t1 < t2 < n
    ensures RowRows(n, j)[t1] != RowRows(n, j)[t2]
  {
    var j' := j - n * n;
    Digit(j', n, n);
    RowOfParts(n, j' / n, t1, j' % n);
    RowOfParts(n, j' / n, t2, j' % n);
  }

  lemma ColRowsDistinct(n: nat, b: nat, j: nat, t1: nat, t2: nat)
    requires b >= 1 && n >= 1 && n == b * b && 2 * (n * n) <= j < 3 * (n * n) && t1 < t2 < n
    ensures ColRows(n, j)[t1] != ColRows(n, j)[t2]
  {
    var j' := j - 2 * (n * n);
    Digit(j', n, n);
    RowOfParts(n, t1, j' / n, j' % n);
    RowOfParts(n, t2, j' / n, j' % n);
  }
  lemma BoxRowsDistinct(n: nat, b: nat, j: nat, t1: nat, t2: nat)
    requires b >= 1 && n >= 1 && n == b * b && 3 * (n * n) <= j < 4 * (n * n) && t1 < t2 < n
    ensures BoxRows(n, b, j)[t1] != BoxRows(n, b, j)[t2]
  {
    var j' := j - 3 * (n * n);
    Digit(j', n, n);
    var B, v := j' / n, j' % n;
    var p1, p2 := BlockCell(b, B, t1), BlockCell(b, B, t2);
    BlockCellBox(b, B, t1);
    BlockCellBox(b, B, t2);
    RowOfParts(n, p1.0, p1.1, v);
    RowOfParts(n, p2.0, p2.1, v);
    if p1 == p2 {
      BlockCellInjective(b, B, t1, t2);
    }
  }

  /** The matrix of an n x n sudoku with b x b blocks: row i has a true in
      exactly the four columns of its triple. */
  ghost predicate IsCoverMatrix(m: CoverMatrix, n: nat, b: nat)
    requires n >= 1 && b >= 1
  {
    && Dims(m, n)
    && forall i, j :: 0 <= i < n * n * n && 0 <= j < 4 * (n * n) ==>
         (m[i][j] <==> j in Columns(n, b, RowPart(n, i), ColPart(n, i), ValPart(n, i)))
  }

  /** A column lists row i exactly when i's triple has that column. */
  lemma ColumnsListed(n: nat, b: nat, i: nat, j: nat)
    requires b >= 1 && n >= 1 && n == b * b && i < n * n * n && j < 4 * (n * n)
    ensures j in Columns(n, b, RowPart(n, i), ColPart(n, i), ValPart(n, i)) <==> i in ColumnRows(n, b, j)
  {
    RowParts(n, i);
    ColumnRanges(n, b, RowPart(n, i), ColPart(n, i), ValPart(n, i));
    if j < n * n {
      CellColumnRows(n, b, j, i);
    } else if j < 2 * (n * n) {
      RowColumnRowsListed(n, b, j, i);
    } else if j < 3 * (n * n) {
      ColColumnRowsListed(n, b, j, i);
    } else {
      BoxColumnRowsListed(n, b, j, i);
    }
  }

  /** Every column of the matrix has exactly n trues: the rows ColumnRows
      lists, n of them, no two alike. */
  lemma ColumnCount(m: CoverMatrix, n: nat, b: nat, j: nat)
    requires b >= 1 && n >= 1 && n == b * b && n >= 1 && IsCoverMatrix(m, n, b) && j < 4 * (n * n)
    ensures |ColumnRows(n, b, j)| == n
    ensures forall t1, t2 :: 0 <= t1 < t2 < n ==> ColumnRows(n, b, j)[t1] != ColumnRows(n, b, j)[t2]
    ensures forall i :: 0 <= i < n * n * n ==> (m[i][j] <==> i in ColumnRows(n, b, j))
  {
    forall t1, t2 | 0 <= t1 < t2 < n ensures ColumnRows(n, b, j)[t1] != ColumnRows(n, b, j)[t2] {
      ColumnRowsDistinct(n, b, j, t1, t2);
    }
    forall i | 0 <= i < n * n * n ensures m[i][j] <==> i in ColumnRows(n, b, j) {
      ColumnsListed(n, b, i, j);
    }
  }

  /** Every row of the matrix has exactly four trues, one per constraint, in
      increasing column order. */
  lemma RowCount(m: CoverMatrix, n: nat, b: nat, i: nat)
    requires b >= 1 && n >= 1 && n == b * b && n >= 1 && IsCoverMatrix(m, n, b) && i < n * n * n
    ensures var cols := Columns(n, b, RowPart(n, i), ColPart(n, i), ValPart(n, i));
            && cols[0] < cols[1] < cols[2] < cols[3] < 4 * (n * n)
            && forall j :: 0 <= j < 4 * (n * n) ==> (m[i][j] <==> j in cols)
  {
    RowParts(n, i);
    ColumnRanges(n, b, RowPart(n, i), ColPart(n, i), ValPart(n, i));
  }
}
