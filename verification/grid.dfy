/** The grids the solver hands back: `n` rows of `n` cells, 0 for an empty
    cell. A grid is painted from the triples of a list of nodes, each node
    writing its value into its cell, later writers overwriting earlier ones
    (sudoku.cpp:322-328). */
module Grid {
  import opened Arena

  type Board = seq<seq<int>>

  /** `g` has n rows of n cells. */
  ghost predicate IsBoard(g: Board, n: nat)
  {
    |g| == n && forall r :: 0 <= r < n ==> |g[r]| == n
  }

  /** A triple addresses a cell of an n x n grid (its row and column are 1-based). */
  predicate OnBoard(n: nat, d: RowData)
  {
    1 <= d.row <= n && 1 <= d.col <= n
  }

  /** Every node of the list has a triple, and the triple addresses a cell. */
  ghost predicate Writable(n: nat, data: seq<RowData>, nodes: seq<nat>)
  {
    forall i :: 0 <= i < |nodes| ==> nodes[i] < |data| && OnBoard(n, data[nodes[i]])
  }

  /** Node `x`'s triple addresses cell (r, c), counted from 0. */
  predicate Targets(data: seq<RowData>, x: nat, r: int, c: int)
    requires x < |data|
  {
    data[x].row - 1 == r && data[x].col - 1 == c
  }

  /** The value the last node of the list that targets (r, c) writes there, or
      0 when none does. */
  ghost function Cell(data: seq<RowData>, nodes: seq<nat>, r: int, c: int): int
    requires forall i :: 0 <= i < |nodes| ==> nodes[i] < |data|
    decreases |nodes|
  {
    if |nodes| == 0 then 0
    else if Targets(data, nodes[|nodes| - 1], r, c) then data[nodes[|nodes| - 1]].value
    else Cell(data, nodes[..|nodes| - 1], r, c)
  }

  /** The grid painted by the nodes, starting from an empty grid. */
  ghost function Fill(n: nat, data: seq<RowData>, nodes: seq<nat>): (g: Board)
    requires forall i :: 0 <= i < |nodes| ==> nodes[i] < |data|
    ensures IsBoard(g, n)
  {
    seq(n, r requires 0 <= r < n => seq(n, c requires 0 <= c < n => Cell(data, nodes, r, c)))
  }

  /** A cell of the painted grid. */
  lemma FillAt(n: nat, data: seq<RowData>, nodes: seq<nat>, r: nat, c: nat)
    requires forall i :: 0 <= i < |nodes| ==> nodes[i] < |data|
    requires r < n && c < n
    ensures Fill(n, data, nodes)[r][c] == Cell(data, nodes, r, c)
  {
  }

  /** The last writer wins: a cell holds the value of the last node targeting
      it, and a cell no node targets stays empty. */
  lemma {:induction false} CellLastWriter(data: seq<RowData>, nodes: seq<nat>, r: int, c: int, i: nat)
    requires forall k :: 0 <= k < |nodes| ==> nodes[k] < |data|
    requires i < |nodes| && Targets(data, nodes[i], r, c)
    requires forall j :: i < j < |nodes| ==> !Targets(data, nodes[j], r, c)
    ensures Cell(data, nodes, r, c) == data[nodes[i]].value
    decreases |nodes|
  {
    if i < |nodes| - 1 {
      var pre := nodes[..|nodes| - 1];
      assert pre[i] == nodes[i];
      forall j | i < j < |pre| ensures !Targets(data, pre[j], r, c) {
        assert pre[j] == nodes[j];
      }
      CellLastWriter(data, pre, r, c, i);
    }
  }

  /** A cell no node targets stays empty. */
  lemma {:induction false} CellUntouched(data: seq<RowData>, nodes: seq<nat>, r: int, c: int)
    requires forall k :: 0 <= k < |nodes| ==> nodes[k] < |data|
    requires forall j :: 0 <= j < |nodes| ==> !Targets(data, nodes[j], r, c)
    ensures Cell(data, nodes, r, c) == 0
    decreases |nodes|
  {
    if |nodes| > 0 {
      var pre := nodes[..|nodes| - 1];
      forall j | 0 <= j < |pre| ensures !Targets(data, pre[j], r, c) {
        assert pre[j] == nodes[j];
      }
      CellUntouched(data, pre, r, c);
    }
  }

  /** A grid agreeing cell by cell with `Fill` is `Fill`. */
  lemma FillCells(g: Board, n: nat, data: seq<RowData>, nodes: seq<nat>)
    requires forall i :: 0 <= i < |nodes| ==> nodes[i] < |data|
    requires IsBoard(g, n) && forall r, c :: 0 <= r < n && 0 <= c < n ==> g[r][c] == Cell(data, nodes, r, c)
    ensures g == Fill(n, data, nodes)
  {
    var f := Fill(n, data, nodes);
    forall r | 0 <= r < n ensures g[r] == f[r] {
      assert forall c :: 0 <= c < n ==> g[r][c] == f[r][c];
    }
  }

  /** An n x n grid of zeros (sudoku.cpp:94). */
  function Empty(n: nat): (g: Board)
    ensures IsBoard(g, n) && forall r, c :: 0 <= r < n && 0 <= c < n ==> g[r][c] == 0
  {
    seq(n, _ => seq(n, _ => 0))
  }

  /** Writing the triples of `nodes` into `g`, one after another. */
  method Paint(n: nat, data: seq<RowData>, nodes: seq<nat>, g: Board, ghost done: seq<nat>) returns (g': Board)
    requires Writable(n, data, done) && Writable(n, data, nodes) && IsBoard(g, n)
    requires forall r, c :: 0 <= r < n && 0 <= c < n ==> g[r][c] == Cell(data, done, r, c)
    ensures IsBoard(g', n)
    ensures forall r, c :: 0 <= r < n && 0 <= c < n ==> g'[r][c] == Cell(data, done + nodes, r, c)
  {
    g' := g;
    var i := 0;
    assert done + nodes[..0] == done;
    while i < |nodes|
      invariant 0 <= i <= |nodes| && IsBoard(g', n)
      invariant forall r, c :: 0 <= r < n && 0 <= c < n ==> g'[r][c] == Cell(data, done + nodes[..i], r, c)
    {
      var d := data[nodes[i]];
      g' := g'[d.row - 1 := g'[d.row - 1][d.col - 1 := d.value]];
      assert (done + nodes[..i + 1])[..|done + nodes[..i + 1]| - 1] == done + nodes[..i];
      i := i + 1;
    }
    assert nodes[..i] == nodes;
  }

  /** mapSolutionToGrid on an empty grid: the solution rows are written first,
      then the clues, so a clue wins over a solution row for the same cell. */
  method MapSolutionToGrid(n: nat, data: seq<RowData>, sol: seq<nat>, clues: seq<nat>) returns (g: Board)
    requires Writable(n, data, sol) && Writable(n, data, clues)
    ensures IsBoard(g, n)
    ensures forall r, c :: 0 <= r < n && 0 <= c < n ==> g[r][c] == Cell(data, sol + clues, r, c)
    ensures g == Fill(n, data, sol + clues)
  {
    g := Empty(n);
    g := Paint(n, data, sol, g, []);
    assert [] + sol == sol;
    g := Paint(n, data, clues, g, sol);
    FillCells(g, n, data, sol + clues);
  }
}
