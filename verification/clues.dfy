/** The given digits of the puzzle (findNodeForClue and
    applyInitialConstraints, sudoku.cpp:279-320): each given digit is looked
    up among the nodes still linked into an active column, and when it is
    found its row is chosen for good, exactly the way the search chooses a
    row; a digit that cannot be found is dropped without complaint. */
module Clues {
  import opened Rings
  import opened Arena
  import opened Cover
  import opened Choose
  import opened Partition
  import opened Grid
  import opened Build
  import opened Fabric
  import opened Search

  /** Node x stands for digit `value` in cell (r, c), counted from 0: the
      test findNodeForClue applies to every node it meets. */
  predicate Places(data: seq<RowData>, x: nat, value: int, r: int, c: int)
    requires x < |data|
  {
    data[x].value == value && Targets(data, x, r, c)
  }

  /** No node met before the i-th member of the k-th active column's ring
      places the digit, walking the header ring from the root and each
      column ring down from its header. */
  ghost predicate NoneBefore(a: Arena, v: View, value: int, r: int, c: int, k: nat, i: nat)
  {
    forall k', i' ::
      (&& 0 <= k' < |v.hs| && v.hs[k'] < |v.col| && 0 <= i' < |v.col[v.hs[k']]| && Before(k', i', k, i)
       && v.col[v.hs[k']][i'] < |a.Data|)
      ==> !Places(a.Data, v.col[v.hs[k']][i'], value, r, c)
  }

  /** Some column of x's row is one a chosen row already accounts for, so x's
      row can no longer be chosen. */
  ghost predicate Clashes(sh: Shape, cs: seq<nat>, rows: seq<nat>, x: nat)
    requires AllNodes(sh, cs, rows) && sh.nc < x < |cs|
  {
    !(RowCols(sh, cs, x) !! UnionOf(RowSets(sh, cs, rows)))
  }

  /** Under the search invariant, a row is alive exactly when it clashes
      with none of the chosen rows. */
  lemma AliveClashes(sh: Shape, cs: seq<nat>, hs: seq<nat>, rows: seq<nat>, x: nat)
    requires Covers(sh, cs, hs, rows) && sh.nc < x < |cs|
    ensures Alive(sh, cs, hs, x) <==> !Clashes(sh, cs, rows, x)
  {
    var u := UnionOf(RowSets(sh, cs, rows));
    if Alive(sh, cs, hs, x) {
      forall h | h in RowCols(sh, cs, x) ensures h !in u {
        RowColsRange(sh, cs, x, h);
      }
    } else {
      var y :| sh.first[x] <= y < sh.end[x] && cs[y] !in hs;
      assert cs[y] in RowCols(sh, cs, x);
      RowColsRange(sh, cs, x, cs[y]);
    }
  }

  /** A row that clashes with the chosen rows still clashes once one more row
      is chosen. */
  lemma ClashesGrow(sh: Shape, cs: seq<nat>, rows: seq<nat>, t: nat, x: nat)
    requires AllNodes(sh, cs, rows) && sh.nc < t < |cs| && sh.nc < x < |cs|
    requires Clashes(sh, cs, rows, x)
    ensures AllNodes(sh, cs, rows + [t]) && Clashes(sh, cs, rows + [t], x)
  {
    RowSetsSnoc(sh, cs, rows, t);
    var ss := RowSets(sh, cs, rows + [t]);
    assert ss[..|ss| - 1] == RowSets(sh, cs, rows);
  }

  /** The links findNodeForClue follows along the header ring. */
  lemma HeaderWalk(sh: Shape, a: Arena, v: View)
    requires Consistent(sh, a, v)
    ensures a.R[Root] == (if |v.hs| > 0 then v.hs[0] else Root)
    ensures forall k :: 0 <= k < |v.hs| ==>
              v.hs[k] != Root && v.hs[k] < |a.R| && a.R[v.hs[k]] == (if k + 1 < |v.hs| then v.hs[k + 1] else Root)
  {
    assert Linked(sh, a, v);
    forall k | 0 <= k < |v.hs|
      ensures v.hs[k] != Root && v.hs[k] < |a.R| && a.R[v.hs[k]] == (if k + 1 < |v.hs| then v.hs[k + 1] else Root)
    {
      assert v.hs[k] in v.hs;
      RingNeighbours(a.R, a.L, Root, v.hs, k);
    }
  }

  /** The links findNodeForClue follows down the k-th active column. */
  lemma ColumnWalk(sh: Shape, a: Arena, v: View, k: nat)
    requires Consistent(sh, a, v) && k < |v.hs|
    ensures var h := v.hs[k];
            && h < |v.col| && h < |a.D|
            && a.D[h] == (if |v.col[h]| > 0 then v.col[h][0] else h)
            && forall i :: 0 <= i < |v.col[h]| ==>
                 && sh.nc < v.col[h][i] < |a.Data| && v.col[h][i] < |a.D|
                 && a.D[v.col[h][i]] == (if i + 1 < |v.col[h]| then v.col[h][i + 1] else h)
  {
    assert Linked(sh, a, v);
    var h := v.hs[k];
    assert h in v.hs;
    var l := v.col[h];
    assert ColumnOK(sh, |a.L|, a.D, a.U, a.C, a.S, h, l);
    forall i | 0 <= i < |l|
      ensures sh.nc < l[i] < |a.Data| && l[i] < |a.D| && a.D[l[i]] == (if i + 1 < |l| then l[i + 1] else h)
    {
      assert l[i] in l;
      RingNeighbours(a.D, a.U, h, l, i);
    }
  }

  /** A node met in an active column's ring belongs to an alive row. */
  lemma FoundAlive(sh: Shape, a: Arena, v: View, k: nat, i: nat)
    requires Consistent(sh, a, v) && k < |v.hs| && v.hs[k] < |v.col| && i < |v.col[v.hs[k]]|
    ensures var x := v.col[v.hs[k]][i];
            && sh.nc < x < |a.Data| && |a.C| == |a.Data| && a.C[x] == v.hs[k]
            && RowShape(sh, |a.C|, a.C) && Alive(sh, a.C, v.hs, x)
  {
    assert Linked(sh, a, v) && Exact(sh, a.C, v);
    var h := v.hs[k];
    assert h in v.hs;
    var x := v.col[h][i];
    assert x in v.col[h];
    assert ColumnOK(sh, |a.L|, a.D, a.U, a.C, a.S, h, v.col[h]);
  }

  /** When no active column's ring holds a node placing the digit, no alive
      row places it. */
  lemma NoneAlive(sh: Shape, a: Arena, v: View, value: int, r: int, c: int)
    requires Consistent(sh, a, v) && NoneBefore(a, v, value, r, c, |v.hs|, 0)
    ensures |a.C| == |a.Data| && RowShape(sh, |a.C|, a.C)
    ensures NoAlivePlacement(sh, a, v, value, r, c)
  {
    assert Linked(sh, a, v) && Exact(sh, a.C, v);
    forall x | sh.nc < x < |a.Data| && Alive(sh, a.C, v.hs, x) ensures !Places(a.Data, x, value, r, c) {
      assert a.C[x] in v.hs;
      assert x in v.col[a.C[x]];
      var k :| 0 <= k < |v.hs| && v.hs[k] == a.C[x];
      var i :| 0 <= i < |v.col[v.hs[k]]| && v.col[v.hs[k]][i] == x;
    }
  }

  /** No alive row places the digit in the cell. */
  ghost predicate NoAlivePlacement(sh: Shape, a: Arena, v: View, value: int, r: int, c: int)
    requires |a.C| == |a.Data| && RowShape(sh, |a.C|, a.C)
  {
    forall x :: sh.nc < x < |a.Data| && Alive(sh, a.C, v.hs, x) ==> !Places(a.Data, x, value, r, c)
  }

  /** A digit no alive row places clashes, wherever it could go, with the
      chosen rows. */
  lemma SkippedClue(sh: Shape, a: Arena, v: View, clues: seq<nat>, value: int, r: int, c: int)
    requires Consistent(sh, a, v) && Covers(sh, a.C, v.hs, clues)
    requires |a.C| == |a.Data| && RowShape(sh, |a.C|, a.C) && NoAlivePlacement(sh, a, v, value, r, c)
    ensures forall x :: sh.nc < x < |a.Data| && Places(a.Data, x, value, r, c) ==> Clashes(sh, a.C, clues, x)
  {
    forall x | sh.nc < x < |a.Data| && Places(a.Data, x, value, r, c) ensures Clashes(sh, a.C, clues, x) {
      AliveClashes(sh, a.C, v.hs, clues, x);
    }
  }

  /** The column of a node met in an active column's ring may be covered. */
  lemma ClueColumnReady(sh: Shape, a: Arena, v: View, k: nat, i: nat)
    requires Consistent(sh, a, v) && k < |v.hs| && v.hs[k] < |v.col| && i < |v.col[v.hs[k]]|
    ensures v.col[v.hs[k]][i] < |a.C| && a.C[v.col[v.hs[k]][i]] == v.hs[k]
    ensures CoverReady(sh, a, v, v.hs[k]) == true
  {
    FoundAlive(sh, a, v, k, i);
    assert v.hs[k] in v.hs;
  }

  /** findNodeForClue (sudoku.cpp:279-294): walk the active columns in
      header-ring order, each one's ring from the top, and return the first
      node that places the digit. Some node is returned exactly when some
      alive row places the digit; the one returned is the first such node the
      walk meets. */
  method FindNodeForClue(ghost sh: Shape, a: Arena, ghost v: View, value: int, row: int, col: int)
    returns (p: Ptr, ghost k: nat, ghost i: nat)
    requires Consistent(sh, a, v) == true
    ensures |a.C| == |a.Data| && RowShape(sh, |a.C|, a.C)
    ensures p.Null? <==> NoAlivePlacement(sh, a, v, value, row, col)
    ensures p.Node? ==> && k < |v.hs| && v.hs[k] < |v.col| && i < |v.col[v.hs[k]]| && p.x == v.col[v.hs[k]][i]
                        && sh.nc < p.x < |a.Data| && Alive(sh, a.C, v.hs, p.x) && Places(a.Data, p.x, value, row, col)
                        && NoneBefore(a, v, value, row, col, k, i)
  {
    assert Linked(sh, a, v);
    HeaderWalk(sh, a, v);
    var h := a.R[Root];
    k, i := 0, 0;
    while h != Root
      invariant k <= |v.hs| && h == (if k < |v.hs| then v.hs[k] else Root)
      invariant NoneBefore(a, v, value, row, col, k, 0)
      decreases |v.hs| - k
    {
      ColumnWalk(sh, a, v, k);
      ghost var l := v.col[h];
      var x := a.D[h];
      i := 0;
      while x != h
        invariant i <= |l| && x == (if i < |l| then l[i] else h)
        invariant NoneBefore(a, v, value, row, col, k, i)
        decreases |l| - i
      {
        if Places(a.Data, x, value, row, col) {
          FoundAlive(sh, a, v, k, i);
          return Node(x), k, i;
        }
        NoneBeforeStep(a, v, value, row, col, k, i);
        x := a.D[x];
        i := i + 1;
      }
      NoneBeforeNext(a, v, value, row, col, k);
      h := a.R[h];
      k := k + 1;
    }
    NoneAlive(sh, a, v, value, row, col);
    return Null, k, 0;
  }

  /** Passing a node that does not place the digit. */
  lemma NoneBeforeStep(a: Arena, v: View, value: int, r: int, c: int, k: nat, i: nat)
    requires NoneBefore(a, v, value, r, c, k, i) && k < |v.hs| && v.hs[k] < |v.col| && i < |v.col[v.hs[k]]|
    requires v.col[v.hs[k]][i] < |a.Data| && !Places(a.Data, v.col[v.hs[k]][i], value, r, c)
    ensures NoneBefore(a, v, value, r, c, k, i + 1)
  {
  }

  /** Passing the end of the k-th column's ring. */
  lemma NoneBeforeNext(a: Arena, v: View, value: int, r: int, c: int, k: nat)
    requires k < |v.hs| && v.hs[k] < |v.col| && NoneBefore(a, v, value, r, c, k, |v.col[v.hs[k]]|)
    ensures NoneBefore(a, v, value, r, c, k + 1, 0)
  {
  }

  /** One given digit (sudoku.cpp:305-316): when findNodeForClue finds a
      node, cover its column, record it as a clue, and cover the other
      columns of its row walking right; otherwise nothing happens. A clue is
      recorded exactly when some node placing the digit clashes with none of
      the clues so far, and the fabric stays consistent with the clues. */
  method ApplyClue(ghost sh: Shape, a: Arena, ghost v: View, clues: seq<nat>, value: int, r: int, c: int)
    returns (a': Arena, ghost v': View, clues': seq<nat>)
    requires Consistent(sh, a, v) == true && Covers(sh, a.C, v.hs, clues) == true
    ensures Consistent(sh, a', v') == true && a'.C == a.C && a'.Data == a.Data && Covers(sh, a.C, v'.hs, clues') == true
    ensures |a.C| == |a.Data| && AllNodes(sh, a.C, clues)
    ensures |clues'| <= |clues| ==>
              && clues' == clues
              && forall x :: sh.nc < x < |a.Data| && Places(a.Data, x, value, r, c) ==> Clashes(sh, a.C, clues, x)
    ensures |clues'| > |clues| ==>
              && clues' == clues + [clues'[|clues|]] && sh.nc < clues'[|clues|] < |a.Data|
              && Places(a.Data, clues'[|clues|], value, r, c) && !Clashes(sh, a.C, clues, clues'[|clues|])
  {
    var p;
    ghost var k, i;
    p, k, i := FindNodeForClue(sh, a, v, value, r, c);
    if p.Null? {
      SkippedClue(sh, a, v, clues, value, r, c);
      return a, v, clues;
    }
    var t := p.x;
    AliveClashes(sh, a.C, v.hs, clues, t);
    var col := a.C[t];
    ClueColumnReady(sh, a, v, k, i);
    var a1 := CoverColumn(sh, a, v, col);
    a', v' := CoverClueRow(sh, a1, a, v, col, i, t, clues);
    clues' := clues + [t];
  }

  /** A clue is chosen the way a row of the search is, with an empty stack. */
  lemma EmptyStack(clues: seq<nat>, t: nat)
    ensures clues + [] == clues && clues + ([] + [t]) == clues + [t]
  {
  }

  /** The rest of a found clue, once its column is covered: cover the other
      columns of its row walking right (sudoku.cpp:314-315). The fabric is
      then consistent with the clue added to the chosen rows. */
  method CoverClueRow(ghost sh: Shape, a1: Arena, ghost a: Arena, ghost v: View, c: nat, ghost i: nat, t: nat,
                      ghost clues: seq<nat>)
    returns (a2: Arena, ghost v2: View)
    requires CoverReady(sh, a, v, c) && Covers(sh, a.C, v.hs, clues)
    requires c < |v.col| && AllInRow(sh, v.col[c]) && a1 == ApplyAll(a, CoverOps(sh, v, c))
    requires i < |v.col[c]| && t == v.col[c][i]
    ensures Consistent(sh, a2, v2) == true && a2.C == a.C && a2.Data == a.Data
    ensures Covers(sh, a.C, v2.hs, clues + [t]) == true
  {
    ghost var v1 := CoveredView(sh, a, v, c);
    BranchRow(sh, a, v, c, a1, i);
    ghost var st, vw;
    a2, st, vw := CoverOthers(sh, a1, v1, t);
    EmptyStack(clues, t);
    AfterCover(sh, a, v, c, a1, i, t, clues, [], st, vw);
    v2 := vw[|vw| - 1];
  }

  /** The puzzle can be read at every cell of the n x n grid. */
  ghost predicate Readable(puzzle: seq<seq<int>>, n: nat)
  {
    |puzzle| >= n && forall r :: 0 <= r < n ==> |puzzle[r]| >= n
  }

  /** The clues and the cells they came from, for the cells before (i, j) in
      row-major order: each clue places the digit given in its cell, and the
      cells are given ones, each once, in row-major order. */
  ghost predicate FromCells(sh: Shape, data: seq<RowData>, puzzle: seq<seq<int>>, n: nat, clues: seq<nat>,
                            at: seq<(nat, nat)>, i: nat, j: nat)
    requires Readable(puzzle, n)
  {
    && |at| == |clues|
    && (forall k :: 0 <= k < |at| ==>
          && at[k].0 < n && at[k].1 < n && Before(at[k].0, at[k].1, i, j) && puzzle[at[k].0][at[k].1] > 0
          && sh.nc < clues[k] < |data| && Places(data, clues[k], puzzle[at[k].0][at[k].1], at[k].0, at[k].1))
    && Ascending(at)
  }

  /** How many of the cells `at` come before (r, c) in row-major order; for
      cells listed in that order, the length of the prefix before (r, c). */
  function CluesBefore(at: seq<(nat, nat)>, r: nat, c: nat): (k: nat)
    ensures k <= |at|
  {
    if at == [] then 0
    else CluesBefore(at[..|at| - 1], r, c) + (if Before(at[|at| - 1].0, at[|at| - 1].1, r, c) then 1 else 0)
  }

  /** Cells listed in row-major order. */
  ghost predicate Ascending(at: seq<(nat, nat)>)
  {
    forall k1, k2 :: 0 <= k1 < k2 < |at| ==> Before(at[k1].0, at[k1].1, at[k2].0, at[k2].1)
  }

  /** Of cells listed in row-major order, those counted by CluesBefore are
      exactly the ones before (r, c). */
  lemma {:induction false} CluesBeforeExact(at: seq<(nat, nat)>, r: nat, c: nat)
    requires Ascending(at)
    ensures forall k :: 0 <= k < |at| ==> (k < CluesBefore(at, r, c) <==> Before(at[k].0, at[k].1, r, c))
  {
    if at != [] {
      var init := at[..|at| - 1];
      assert Ascending(init);
      CluesBeforeExact(init, r, c);
    }
  }

  /** A cell listed after (r, c) leaves the count before (r, c) alone. */
  lemma CluesBeforeSnoc(at: seq<(nat, nat)>, i: nat, j: nat, r: nat, c: nat)
    requires !Before(i, j, r, c)
    ensures CluesBefore(at + [(i, j)], r, c) == CluesBefore(at, r, c)
  {
    assert (at + [(i, j)])[..|at|] == at;
  }

  /** Clashing with a prefix of the rows is clashing with the rows. */
  lemma ClashesPrefix(sh: Shape, cs: seq<nat>, rows: seq<nat>, p: nat, x: nat)
    requires AllNodes(sh, cs, rows) && p <= |rows| && sh.nc < x < |cs|
    requires AllNodes(sh, cs, rows[..p]) && Clashes(sh, cs, rows[..p], x)
    ensures Clashes(sh, cs, rows, x)
  {
    var ss, ss' := RowSets(sh, cs, rows[..p]), RowSets(sh, cs, rows);
    var h :| h in RowCols(sh, cs, x) && h in UnionOf(ss);
    UnionOfMembers(ss, h);
    var j :| 0 <= j < |ss| && h in ss[j];
    assert h in ss'[j];
    UnionOfMembers(ss', h);
  }

  /** Every given cell before (i, j) that did not yield a clue was dropped
      because each node placing its digit clashes with the clues applied
      before that cell was reached: those of the cells before it. */
  ghost predicate Skipped(sh: Shape, cs: seq<nat>, data: seq<RowData>, puzzle: seq<seq<int>>, n: nat, clues: seq<nat>,
                          at: seq<(nat, nat)>, i: nat, j: nat)
    requires Readable(puzzle, n) && AllNodes(sh, cs, clues) && |at| == |clues|
  {
    forall r, c :: 0 <= r < n && 0 <= c < n && Before(r, c, i, j) && puzzle[r][c] > 0 && (r, c) !in at ==>
      forall x :: sh.nc < x < |cs| && x < |data| && Places(data, x, puzzle[r][c], r, c) ==>
        Clashes(sh, cs, clues[..CluesBefore(at, r, c)], x)
  }

  /** Moving past a cell that yields no clue: it is empty, or every
      placement of its digit clashes with the clues. */
  lemma CellKept(sh: Shape, cs: seq<nat>, data: seq<RowData>, puzzle: seq<seq<int>>, n: nat, clues: seq<nat>,
                 at: seq<(nat, nat)>, i: nat, j: nat)
    requires Readable(puzzle, n) && i < n && j < n && |cs| == |data| && AllNodes(sh, cs, clues)
    requires FromCells(sh, data, puzzle, n, clues, at, i, j) == true
    requires Skipped(sh, cs, data, puzzle, n, clues, at, i, j) == true
    requires puzzle[i][j] > 0 ==>
               forall x :: sh.nc < x < |data| && Places(data, x, puzzle[i][j], i, j) ==> Clashes(sh, cs, clues, x)
    ensures FromCells(sh, data, puzzle, n, clues, at, i, j + 1) == true
    ensures Skipped(sh, cs, data, puzzle, n, clues, at, i, j + 1) == true
  {
    CluesBeforeExact(at, i, j);
    assert CluesBefore(at, i, j) == |clues|;
    assert clues[..|clues|] == clues;
  }

  /** Moving past a cell whose digit was recorded as clue t. */
  lemma CellRecorded(sh: Shape, cs: seq<nat>, data: seq<RowData>, puzzle: seq<seq<int>>, n: nat, clues: seq<nat>,
                     at: seq<(nat, nat)>, t: nat, i: nat, j: nat)
    requires Readable(puzzle, n) && i < n && j < n && |cs| == |data| && AllNodes(sh, cs, clues)
    requires FromCells(sh, data, puzzle, n, clues, at, i, j) == true
    requires Skipped(sh, cs, data, puzzle, n, clues, at, i, j) == true
    requires puzzle[i][j] > 0 && sh.nc < t < |data| && Places(data, t, puzzle[i][j], i, j)
    ensures AllNodes(sh, cs, clues + [t])
    ensures FromCells(sh, data, puzzle, n, clues + [t], at + [(i, j)], i, j + 1) == true
    ensures Skipped(sh, cs, data, puzzle, n, clues + [t], at + [(i, j)], i, j + 1) == true
  {
    RecordedCells(sh, data, puzzle, n, clues, at, t, i, j);
    RecordedSkips(sh, cs, data, puzzle, n, clues, at, t, i, j);
  }

  lemma RecordedCells(sh: Shape, data: seq<RowData>, puzzle: seq<seq<int>>, n: nat, clues: seq<nat>,
                      at: seq<(nat, nat)>, t: nat, i: nat, j: nat)
    requires Readable(puzzle, n) && i < n && j < n
    requires FromCells(sh, data, puzzle, n, clues, at, i, j) == true
    requires puzzle[i][j] > 0 && sh.nc < t < |data| && Places(data, t, puzzle[i][j], i, j)
    ensures FromCells(sh, data, puzzle, n, clues + [t], at + [(i, j)], i, j + 1) == true
  {
  }

  lemma RecordedSkips(sh: Shape, cs: seq<nat>, data: seq<RowData>, puzzle: seq<seq<int>>, n: nat, clues: seq<nat>,
                      at: seq<(nat, nat)>, t: nat, i: nat, j: nat)
    requires Readable(puzzle, n) && i < n && j < n && |cs| == |data| && AllNodes(sh, cs, clues) && sh.nc < t < |cs|
    requires |at| == |clues| && Skipped(sh, cs, data, puzzle, n, clues, at, i, j) == true
    ensures AllNodes(sh, cs, clues + [t])
    ensures Skipped(sh, cs, data, puzzle, n, clues + [t], at + [(i, j)], i, j + 1) == true
  {
    RowSetsSnoc(sh, cs, clues, t);
    forall r, c, x | 0 <= r < n && 0 <= c < n && Before(r, c, i, j + 1) && puzzle[r][c] > 0 && (r, c) !in at + [(i, j)]
                     && sh.nc < x < |cs| && x < |data| && Places(data, x, puzzle[r][c], r, c)
      ensures Clashes(sh, cs, (clues + [t])[..CluesBefore(at + [(i, j)], r, c)], x)
    {
      SkipStays(sh, cs, clues, at, t, i, j, r, c, x);
    }
  }

  /** A clue recorded at (i, j) leaves the clues before an earlier cell alone. */
  lemma SkipStays(sh: Shape, cs: seq<nat>, clues: seq<nat>, at: seq<(nat, nat)>, t: nat, i: nat, j: nat,
                  r: nat, c: nat, x: nat)
    requires AllNodes(sh, cs, clues) && sh.nc < t < |cs| && sh.nc < x < |cs| && |at| == |clues|
    requires Before(r, c, i, j)
    requires AllNodes(sh, cs, clues[..CluesBefore(at, r, c)]) && Clashes(sh, cs, clues[..CluesBefore(at, r, c)], x)
    ensures AllNodes(sh, cs, clues + [t]) && CluesBefore(at + [(i, j)], r, c) <= |clues + [t]|
    ensures AllNodes(sh, cs, (clues + [t])[..CluesBefore(at + [(i, j)], r, c)])
    ensures Clashes(sh, cs, (clues + [t])[..CluesBefore(at + [(i, j)], r, c)], x)
  {
    CluesBeforeSnoc(at, i, j, r, c);
    var p := CluesBefore(at, r, c);
    assert (clues + [t])[..p] == clues[..p];
  }

  /** The state of applyInitialConstraints before cell (i, j): the fabric
      (whose layout and triples are those of `a0`) is consistent with the
      recorded clues, and both records hold for the cells before (i, j). */
  ghost predicate Applied(sh: Shape, a0: Arena, a: Arena, v: View, n: nat, puzzle: seq<seq<int>>, clues: seq<nat>,
                          at: seq<(nat, nat)>, i: nat, j: nat)
  {
    && Consistent(sh, a, v) && a.C == a0.C && a.Data == a0.Data && Covers(sh, a0.C, v.hs, clues)
    && Readable(puzzle, n)
    && FromCells(sh, a0.Data, puzzle, n, clues, at, i, j)
    && Skipped(sh, a0.C, a0.Data, puzzle, n, clues, at, i, j)
  }

  /** One cell of applyInitialConstraints (sudoku.cpp:302-317): a positive
      entry is looked up and, when found, applied. */
  method ApplyCell(ghost sh: Shape, ghost a0: Arena, a: Arena, ghost v: View, n: nat, puzzle: seq<seq<int>>,
                   clues: seq<nat>, ghost at: seq<(nat, nat)>, i: nat, j: nat)
    returns (a': Arena, ghost v': View, clues': seq<nat>, ghost at': seq<(nat, nat)>)
    requires i < n && j < n && Applied(sh, a0, a, v, n, puzzle, clues, at, i, j) == true
    ensures Applied(sh, a0, a', v', n, puzzle, clues', at', i, j + 1) == true
    ensures GrowsByOne(clues, clues')
  {
    a', v', clues', at' := a, v, clues, at;
    if puzzle[i][j] > 0 {
      a', v', clues' := ApplyClue(sh, a, v, clues, puzzle[i][j], i, j);
      if |clues'| > |clues| {
        CellRecorded(sh, a0.C, a0.Data, puzzle, n, clues, at, clues'[|clues|], i, j);
        at' := at + [(i, j)];
        return;
      }
    }
    CellKept(sh, a0.C, a0.Data, puzzle, n, clues, at, i, j);
  }

  /** One row of the grid (sudoku.cpp:300-318). */
  method ApplyRow(ghost sh: Shape, ghost a0: Arena, a: Arena, ghost v: View, n: nat, puzzle: seq<seq<int>>,
                  clues: seq<nat>, ghost at: seq<(nat, nat)>, i: nat)
    returns (a': Arena, ghost v': View, clues': seq<nat>, ghost at': seq<(nat, nat)>)
    requires i < n && Applied(sh, a0, a, v, n, puzzle, clues, at, i, 0) == true
    ensures Applied(sh, a0, a', v', n, puzzle, clues', at', i + 1, 0) == true
    ensures clues <= clues'
  {
    a', v', clues', at' := a, v, clues, at;
    var j := 0;
    while j < n
      invariant j <= n && Applied(sh, a0, a', v', n, puzzle, clues', at', i, j) == true
      invariant clues <= clues'
    {
      ghost var before := clues';
      a', v', clues', at' := ApplyCell(sh, a0, a', v', n, puzzle, clues', at', i, j);
      PrefixGrows(clues, before, clues');
      j := j + 1;
    }
    RowDone(sh, a0, a', v', n, puzzle, clues', at', i, j);
  }

  /** applyInitialConstraints (sudoku.cpp:296-320): every cell of the grid in
      row-major order, a positive entry being a given digit. Afterwards the
      fabric is consistent with the recorded clues; each clue places the
      digit of a given cell, in row-major order; and every given cell without
      a clue was dropped because each placement of its digit clashes with the
      clues (a digit outside 1..n has no placement at all). */
  method ApplyInitialConstraints(ghost sh: Shape, a: Arena, ghost v: View, n: nat, puzzle: seq<seq<int>>)
    returns (a': Arena, ghost v': View, clues: seq<nat>, ghost at: seq<(nat, nat)>)
    requires Consistent(sh, a, v) && Covers(sh, a.C, v.hs, []) && Readable(puzzle, n)
    ensures Consistent(sh, a', v') && a'.C == a.C && a'.Data == a.Data && Covers(sh, a.C, v'.hs, clues)
    ensures FromCells(sh, a.Data, puzzle, n, clues, at, n, 0)
    ensures Skipped(sh, a.C, a.Data, puzzle, n, clues, at, n, 0)
  {
    a', v', clues, at := a, v, [], [];
    var i := 0;
    while i < n
      invariant i <= n && Applied(sh, a, a', v', n, puzzle, clues, at, i, 0) == true
    {
      a', v', clues, at := ApplyRow(sh, a, a', v', n, puzzle, clues, at, i);
      i := i + 1;
    }
  }

  /** t is s, or s with one more element. */
  predicate GrowsByOne(s: seq<nat>, t: seq<nat>)
  {
    t == s || (|t| == |s| + 1 && t[..|s|] == s)
  }

  /** A prefix of a list is a prefix of the list grown by at most one. */
  lemma PrefixGrows(s0: seq<nat>, s1: seq<nat>, s2: seq<nat>)
    requires s0 <= s1 && GrowsByOne(s1, s2)
    ensures s0 <= s2
  {
    if s2 != s1 {
      assert s2[..|s0|] == s1[..|s0|];
    }
  }

  /** The end of grid row i is the start of grid row i + 1. */
  lemma RowDone(sh: Shape, a0: Arena, a: Arena, v: View, n: nat, puzzle: seq<seq<int>>, clues: seq<nat>,
                at: seq<(nat, nat)>, i: nat, j: nat)
    requires j == n && Applied(sh, a0, a, v, n, puzzle, clues, at, i, j) == true
    ensures Applied(sh, a0, a, v, n, puzzle, clues, at, i + 1, 0) == true
  {
  }
}
