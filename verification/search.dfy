/** Algorithm X over the dancing-links fabric (searchDLX, sudoku.cpp:87-125):
    stop once the limit is reached, record a grid when no column is left,
    otherwise cover the first smallest column and try each of its rows in
    turn, undoing every cover on the way back. */
module Search {
  import opened Rings
  import opened Arena
  import opened Cover
  import opened Choose
  import opened Partition
  import opened Grid

  /** Every node's triple addresses a cell of the n x n grid. */
  ghost predicate DataOnBoard(sh: Shape, n: nat, data: seq<RowData>)
  {
    forall x :: sh.nc < x < |data| ==> OnBoard(n, data[x])
  }

  /** The active headers, as a set: it shrinks with every level of the search. */
  ghost function Active(hs: seq<nat>): set<nat>
  {
    set h | h in hs
  }

  /** `k` is the position of the first column of least size in the header ring. */
  ghost predicate FirstMin(S: seq<int>, hs: seq<nat>, k: nat)
    requires forall i :: 0 <= i < |hs| ==> hs[i] < |S|
  {
    && k < |hs|
    && (forall i :: 0 <= i < |hs| ==> S[hs[k]] <= S[hs[i]])
    && (forall i :: 0 <= i < k ==> S[hs[k]] < S[hs[i]])
  }

  /** There is only one first minimum. */
  lemma FirstMinUnique(S: seq<int>, hs: seq<nat>, k1: nat, k2: nat)
    requires forall i :: 0 <= i < |hs| ==> hs[i] < |S|
    requires FirstMin(S, hs, k1) && FirstMin(S, hs, k2)
    ensures k1 == k2
  {
    assert S[hs[k1]] <= S[hs[k2]];
    assert S[hs[k2]] <= S[hs[k1]];
  }

  /** The column choice (sudoku.cpp:102-105): walking the header ring, a column
      replaces the current choice only when it is strictly smaller, so ties go
      to the column met first. */
  method MinColumn(a: Arena, ghost hs: seq<nat>) returns (c: nat, ghost k: nat)
    requires IsRing(a.R, a.L, Root, hs) && |hs| > 0
    requires forall i :: 0 <= i < |hs| ==> 1 <= hs[i] < |a.S|
    ensures FirstMin(a.S, hs, k) && c == hs[k]
    ensures c in hs && forall i :: 0 <= i < |hs| ==> a.S[c] <= a.S[hs[i]]
  {
    c := a.R[Root];
    k := 0;
    var temp := a.R[c];
    ghost var i := 1;
    while temp != Root
      invariant 1 <= i <= |hs| && temp == (if i < |hs| then hs[i] else Root)
      invariant k < i && c == hs[k]
      invariant forall j :: 0 <= j < i ==> a.S[hs[k]] <= a.S[hs[j]]
      invariant forall j :: 0 <= j < k ==> a.S[hs[k]] < a.S[hs[j]]
      decreases |hs| - i
    {
      if a.S[temp] < a.S[c] {
        c := temp;
        k := i;
      }
      temp := a.R[temp];
      i := i + 1;
    }
  }

  /** A recorded solution: the clues, the rows on the stack and the rows `f`
      chosen below form an exact cover, and the grid is painted from the stack
      rows first and the clues last. */
  ghost predicate Found(sh: Shape, cs: seq<nat>, data: seq<RowData>, n: nat, sol: seq<nat>, clues: seq<nat>,
                        f: seq<nat>, g: Board)
  {
    && ExactCover(sh, cs, clues + sol + f)
    && (forall i :: 0 <= i < |sol + f + clues| ==> (sol + f + clues)[i] < |data|)
    && g == Fill(n, data, sol + f + clues)
  }

  /** The solution counter and the list of grids move together, never past
      the limit, and not at all once the limit is reached. */
  ghost predicate Counted(limit: nat, count: nat, grids: seq<Board>, count': nat, grids': seq<Board>,
                          found: seq<seq<nat>>)
  {
    && count <= count'
    && (count >= limit ==> count' == count)
    && (count < limit ==> count' <= limit)
    && |grids'| == |grids| + (count' - count) && grids'[..|grids|] == grids
    && |found| == count' - count
  }

  /** The results of a search level: its counters, and a solution for every
      grid it added. */
  ghost predicate Results(sh: Shape, cs: seq<nat>, data: seq<RowData>, n: nat, sol: seq<nat>, clues: seq<nat>,
                          limit: nat, count: nat, grids: seq<Board>, count': nat, grids': seq<Board>,
                          found: seq<seq<nat>>)
  {
    && Counted(limit, count, grids, count', grids', found)
    && (forall i :: 0 <= i < |found| ==> Found(sh, cs, data, n, sol, clues, found[i], grids'[|grids| + i]))
  }

  lemma ResultsNone(sh: Shape, cs: seq<nat>, data: seq<RowData>, n: nat, sol: seq<nat>, clues: seq<nat>,
                    limit: nat, count: nat, grids: seq<Board>)
    ensures Results(sh, cs, data, n, sol, clues, limit, count, grids, count, grids, [])
  {
  }

  /** With an empty header ring, the chosen rows are an exact cover, and
      their triples address cells of the grid. */
  lemma LeafCover(sh: Shape, a: Arena, v: View, n: nat, sol: seq<nat>, clues: seq<nat>)
    requires Consistent(sh, a, v) && Covers(sh, a.C, v.hs, clues + sol) && DataOnBoard(sh, n, a.Data)
    requires a.R[Root] == Root
    ensures ExactCover(sh, a.C, clues + sol)
    ensures Writable(n, a.Data, sol) && Writable(n, a.Data, clues)
  {
    LeafEmpty(sh, a, v);
    CoversDone(sh, a.C, clues + sol);
    var rows := clues + sol;
    forall i | 0 <= i < |sol| ensures sol[i] < |a.Data| && OnBoard(n, a.Data[sol[i]]) {
      assert rows[|clues| + i] == sol[i];
    }
    forall i | 0 <= i < |clues| ensures clues[i] < |a.Data| && OnBoard(n, a.Data[clues[i]]) {
      assert rows[i] == clues[i];
    }
  }

  /** A non-empty header ring leads from the root to its first header. */
  lemma RootLeadsToHeader(sh: Shape, R: seq<nat>, L: seq<nat>, hs: seq<nat>)
    requires HeadersOK(sh, R, L, hs)
    ensures |hs| > 0 ==> R[Root] == hs[0] != Root
  {
    if |hs| > 0 {
      assert hs[0] in hs;
    }
  }

  /** The header ring is empty when the root links to itself. */
  lemma LeafEmpty(sh: Shape, a: Arena, v: View)
    requires Consistent(sh, a, v) && a.R[Root] == Root
    ensures v.hs == [] && RowShape(sh, |a.C|, a.C) && |a.C| == |a.Data|
  {
    assert Linked(sh, a, v);
    RootLeadsToHeader(sh, a.R, a.L, v.hs);
  }

  /** The grid painted from an exact cover is the one result of a level with
      an empty header ring. */
  lemma ResultsLeaf(sh: Shape, cs: seq<nat>, data: seq<RowData>, n: nat, sol: seq<nat>, clues: seq<nat>,
                    limit: nat, count: nat, grids: seq<Board>, g: Board)
    requires ExactCover(sh, cs, clues + sol) && Writable(n, data, sol) && Writable(n, data, clues)
    requires g == Fill(n, data, sol + clues) && count < limit
    ensures Results(sh, cs, data, n, sol, clues, limit, count, grids, count + 1, grids + [g], [[]])
  {
    assert clues + sol + [] == clues + sol;
    assert sol + [] + clues == sol + clues;
  }

  /** Everything one row of the chosen column needs before its other columns
      are covered: the row is alive, its other columns are still active after
      c's cover, and the column ring leads on to the next row. */
  lemma BranchRow(sh: Shape, a: Arena, v: View, c: nat, a1: Arena, i: nat)
    requires CoverReady(sh, a, v, c) && c < |v.col| && AllInRow(sh, v.col[c])
    requires a1 == ApplyAll(a, CoverOps(sh, v, c)) && i < |v.col[c]|
    ensures var t, v1 := v.col[c][i], CoveredView(sh, a, v, c);
            && Consistent(sh, a1, v1) && IsNode(sh, a1, t) && a1.C[t] == c
            && (forall y :: sh.first[t] <= y < sh.end[t] && y != t ==> a1.C[y] in v1.hs)
            && (forall y :: sh.first[t] <= y < sh.end[t] ==> a.C[y] in v.hs)
            && a1.D[t] == (if i + 1 < |v.col[c]| then v.col[c][i + 1] else c)
  {
    var l := v.col[c];
    var t, v1 := l[i], CoveredView(sh, a, v, c);
    CoverStep(sh, a, v, c);
    assert l[i] in l;
    assert Linked(sh, a, v) && Exact(sh, a.C, v);
    assert ColumnOK(sh, |a.L|, a.D, a.U, a.C, a.S, c, l);
    assert Alive(sh, a.C, v.hs, t);
    forall y | sh.first[t] <= y < sh.end[t] && y != t ensures a1.C[y] in v1.hs {
      RowColumnsDiffer(sh, a.C, t, y);
    }
    assert Linked(sh, a1, v1);
    assert ColumnOK(sh, |a1.L|, a1.D, a1.U, a1.C, a1.S, c, l);
    RingNeighbours(a1.D, a1.U, c, l, i);
  }

  /** The column ring of c, entered from its header. */
  lemma BranchStart(sh: Shape, a: Arena, v: View, c: nat, a1: Arena)
    requires CoverReady(sh, a, v, c) && c < |v.col| && AllInRow(sh, v.col[c])
    requires a1 == ApplyAll(a, CoverOps(sh, v, c))
    ensures c < |a1.D| && a1.D[c] == (if |v.col[c]| > 0 then v.col[c][0] else c)
  {
    var l := v.col[c];
    CoverStep(sh, a, v, c);
    var v1 := CoveredView(sh, a, v, c);
    assert Linked(sh, a1, v1);
    assert ColumnOK(sh, |a1.L|, a1.D, a1.U, a1.C, a1.S, c, l);
    if |l| > 0 {
      RingNeighbours(a1.D, a1.U, c, l, 0);
    }
  }

  /** After the row's other columns are covered, the search invariant holds
      for the rows chosen so far plus this one, and fewer columns are active. */
  lemma AfterCover(sh: Shape, a: Arena, v: View, c: nat, a1: Arena, i: nat, t: nat, clues: seq<nat>, sol: seq<nat>,
                   st: seq<Arena>, vw: seq<View>)
    requires CoverReady(sh, a, v, c) && c < |v.col| && AllInRow(sh, v.col[c])
    requires a1 == ApplyAll(a, CoverOps(sh, v, c)) && i < |v.col[c]| && t == v.col[c][i]
    requires Covers(sh, a.C, v.hs, clues + sol)
    requires InRow(sh, t) && forall j :: 0 <= j < |RightWalk(sh, t)| ==> RightWalk(sh, t)[j] < |a1.C|
    requires CoverChain(sh, st, vw, ColsOf(a1.C, RightWalk(sh, t)))
    requires st[0] == a1 && vw[0] == CoveredView(sh, a, v, c)
    requires sh.nc < t < |a1.C|
    requires forall h :: h in vw[|vw| - 1].hs <==> h in vw[0].hs && (h == a1.C[t] || h !in RowCols(sh, a1.C, t))
    ensures Consistent(sh, st[|st| - 1], vw[|vw| - 1])
    ensures st[|st| - 1].C == a.C && st[|st| - 1].Data == a.Data
    ensures Covers(sh, a.C, vw[|vw| - 1].hs, clues + (sol + [t]))
    ensures Active(vw[|vw| - 1].hs) < Active(v.hs)
  {
    ChainEnd(sh, st, vw, ColsOf(a1.C, RightWalk(sh, t)));
    AfterCoverRows(sh, a, v, c, a1, i, t, clues, sol, vw[|vw| - 1]);
  }

  /** The last state of a chain is consistent and has the first one's layout. */
  lemma ChainEnd(sh: Shape, st: seq<Arena>, vw: seq<View>, cols: seq<nat>)
    requires CoverChain(sh, st, vw, cols)
    ensures Consistent(sh, st[|st| - 1], vw[|vw| - 1])
    ensures st[|st| - 1].C == st[0].C && st[|st| - 1].Data == st[0].Data
  {
  }

  /** The row's columns leave the header ring, and it joins the chosen rows. */
  lemma AfterCoverRows(sh: Shape, a: Arena, v: View, c: nat, a1: Arena, i: nat, t: nat, clues: seq<nat>,
                       sol: seq<nat>, v2: View)
    requires CoverReady(sh, a, v, c) && c < |v.col| && AllInRow(sh, v.col[c])
    requires a1 == ApplyAll(a, CoverOps(sh, v, c)) && i < |v.col[c]| && t == v.col[c][i]
    requires Covers(sh, a.C, v.hs, clues + sol)
    requires sh.nc < t < |a1.C|
    requires forall h :: h in v2.hs <==> h in CoveredView(sh, a, v, c).hs && (h == a1.C[t] || h !in RowCols(sh, a1.C, t))
    ensures Covers(sh, a.C, v2.hs, clues + (sol + [t]))
    ensures Active(v2.hs) < Active(v.hs)
  {
    RowFacts(sh, a, v, c, a1, i);
    RowsStep(sh, a.C, v.hs, CoveredView(sh, a, v, c).hs, v2.hs, c, t, clues, sol);
  }

  /** What the header ring and the chosen rows need from one row of the chosen
      column: its node is in column c, and all its columns were active. */
  lemma RowFacts(sh: Shape, a: Arena, v: View, c: nat, a1: Arena, i: nat)
    requires CoverReady(sh, a, v, c) && c < |v.col| && AllInRow(sh, v.col[c])
    requires a1 == ApplyAll(a, CoverOps(sh, v, c)) && i < |v.col[c]|
    ensures var t := v.col[c][i];
            && a1.C == a.C && sh.nc < t < |a.C| && a.C[t] == c && c in v.hs
            && (forall y :: sh.first[t] <= y < sh.end[t] ==> a.C[y] in v.hs)
            && (forall h :: h in CoveredView(sh, a, v, c).hs <==> h in v.hs && h != c)
  {
    BranchRow(sh, a, v, c, a1, i);
    CoverStep(sh, a, v, c);
  }

  /** Choosing row t of column c: c leaves the ring first, then t's other
      columns; the invariant then holds with t chosen, and the ring shrank. */
  lemma RowsStep(sh: Shape, cs: seq<nat>, hs: seq<nat>, hs1: seq<nat>, hs2: seq<nat>, c: nat, t: nat,
                  clues: seq<nat>, sol: seq<nat>)
    requires Covers(sh, cs, hs, clues + sol) && sh.nc < t < |cs| && cs[t] == c && c in hs
    requires forall y :: sh.first[t] <= y < sh.end[t] ==> cs[y] in hs
    requires forall h :: h in hs1 <==> h in hs && h != c
    requires forall h :: h in hs2 <==> h in hs1 && (h == cs[t] || h !in RowCols(sh, cs, t))
    ensures Covers(sh, cs, hs2, clues + (sol + [t]))
    ensures Active(hs2) < Active(hs)
  {
    assert RowShape(sh, |cs|, cs);
    assert c in RowCols(sh, cs, t);
    CoversSnoc(sh, cs, hs, hs2, clues + sol, t);
    assert clues + sol + [t] == clues + (sol + [t]);
    var before, after := Active(hs), Active(hs2);
    assert forall h :: h in after ==> h in before;
    assert c in before && c !in after;
  }

  /** A solution found with row t on top of the stack is one found with t
      moved into the rows chosen below. */
  lemma FoundShift(sh: Shape, cs: seq<nat>, data: seq<RowData>, n: nat, sol: seq<nat>, clues: seq<nat>, t: nat,
                   f: seq<nat>, g: Board)
    requires Found(sh, cs, data, n, sol + [t], clues, f, g)
    ensures Found(sh, cs, data, n, sol, clues, [t] + f, g)
  {
    assert clues + (sol + [t]) + f == clues + sol + ([t] + f);
    assert (sol + [t]) + f + clues == sol + ([t] + f) + clues;
  }

  /** The rows of a subtree's solutions, with the subtree's row put in front. */
  ghost function Moved(t: nat, found: seq<seq<nat>>): (r: seq<seq<nat>>)
    ensures |r| == |found| && forall j :: 0 <= j < |found| ==> r[j] == [t] + found[j]
  {
    seq(|found|, j requires 0 <= j < |found| => [t] + found[j])
  }

  /** The i-th solution of the combined list, when it comes from the subtree. */
  lemma FoundMoved(sh: Shape, cs: seq<nat>, data: seq<RowData>, n: nat, sol: seq<nat>, clues: seq<nat>, t: nat,
                   found1: seq<seq<nat>>, found2: seq<seq<nat>>, g0: nat, g1: nat, grids2: seq<Board>, i: nat)
    requires g1 == g0 + |found1| && |found1| <= i < |found1| + |found2| && g0 + i < |grids2|
    requires Found(sh, cs, data, n, sol + [t], clues, found2[i - |found1|], grids2[g1 + i - |found1|])
    ensures Found(sh, cs, data, n, sol, clues, (found1 + Moved(t, found2))[i], grids2[g0 + i])
  {
    var j := i - |found1|;
    assert (found1 + Moved(t, found2))[i] == [t] + found2[j];
    assert g1 + j == g0 + i;
    FoundShift(sh, cs, data, n, sol, clues, t, found2[j], grids2[g0 + i]);
  }

  /** The counters of two consecutive stretches of the search add up. */
  lemma CountedAppend(limit: nat, count: nat, grids: seq<Board>, count1: nat, grids1: seq<Board>, found1: seq<seq<nat>>,
                      count2: nat, grids2: seq<Board>, found2: seq<seq<nat>>, found: seq<seq<nat>>)
    requires Counted(limit, count, grids, count1, grids1, found1)
    requires Counted(limit, count1, grids1, count2, grids2, found2)
    requires |found| == |found1| + |found2|
    ensures Counted(limit, count, grids, count2, grids2, found)
    ensures forall i :: |grids| <= i < |grids1| ==> grids2[i] == grids1[i]
  {
    assert grids2[..|grids1|][..|grids|] == grids2[..|grids|];
    forall i | |grids| <= i < |grids1| ensures grids2[i] == grids1[i] {
      assert grids2[..|grids1|][i] == grids2[i];
    }
  }

  /** The results of one row's subtree, moved from the stack with the row on
      it to the stack below, appended to those of the rows before it. */
  lemma ResultsAppend(sh: Shape, cs: seq<nat>, data: seq<RowData>, n: nat, sol: seq<nat>, clues: seq<nat>, t: nat,
                      limit: nat, count: nat, grids: seq<Board>, count1: nat, grids1: seq<Board>, found1: seq<seq<nat>>,
                      count2: nat, grids2: seq<Board>, found2: seq<seq<nat>>)
    requires Results(sh, cs, data, n, sol, clues, limit, count, grids, count1, grids1, found1)
    requires Results(sh, cs, data, n, sol + [t], clues, limit, count1, grids1, count2, grids2, found2)
    ensures Results(sh, cs, data, n, sol, clues, limit, count, grids, count2, grids2, found1 + Moved(t, found2))
  {
    var found := found1 + Moved(t, found2);
    CountedAppend(limit, count, grids, count1, grids1, found1, count2, grids2, found2, found);
    forall i | 0 <= i < |found| ensures Found(sh, cs, data, n, sol, clues, found[i], grids2[|grids| + i]) {
      if i < |found1| {
        assert found[i] == found1[i];
      } else {
        var j := i - |found1|;
        assert Found(sh, cs, data, n, sol + [t], clues, found2[j], grids2[|grids1| + j]);
        FoundMoved(sh, cs, data, n, sol, clues, t, found1, found2, |grids|, |grids1|, grids2, i);
      }
    }
  }

  /** searchDLX from an exact, consistent fabric whose header ring holds just
      the columns the chosen rows (clues, then the stack `sol`) leave open.
      It leaves the fabric as it found it, adds at most `limit - count` grids,
      and each one it adds is painted from an exact cover that extends the
      chosen rows. */
  method Search(ghost sh: Shape, a: Arena, ghost v: View, n: nat, sol: seq<nat>, clues: seq<nat>,
                limit: nat, count: nat, grids: seq<Board>)
    returns (a': Arena, count': nat, grids': seq<Board>, ghost found: seq<seq<nat>>)
    requires Consistent(sh, a, v) && Covers(sh, a.C, v.hs, clues + sol) && DataOnBoard(sh, n, a.Data)
    ensures a' == a
    ensures Results(sh, a.C, a.Data, n, sol, clues, limit, count, grids, count', grids', found)
    decreases Active(v.hs), 1
  {
    if count >= limit {
      ResultsNone(sh, a.C, a.Data, n, sol, clues, limit, count, grids);
      return a, count, grids, [];
    }
    if a.R[Root] == Root {
      LeafCover(sh, a, v, n, sol, clues);
      var g := MapSolutionToGrid(n, a.Data, sol, clues);
      ResultsLeaf(sh, a.C, a.Data, n, sol, clues, limit, count, grids, g);
      return a, count + 1, grids + [g], [[]];
    }
    ghost var k;
    var c;
    SearchReady(sh, a, v);
    c, k := MinColumn(a, v.hs);
    assert c in v.hs;
    var a1 := CoverColumn(sh, a, v, c);
    var col;
    a1, col, count', grids', found := Branch(sh, a1, a, v, c, n, sol, clues, limit, count, grids);
    a' := UncoverColumn(sh, a1, a, v, col);
  }

  /** A non-empty header ring, with its columns in range. */
  lemma SearchReady(sh: Shape, a: Arena, v: View)
    requires Consistent(sh, a, v) && a.R[Root] != Root
    ensures IsRing(a.R, a.L, Root, v.hs) && |v.hs| > 0
    ensures forall i :: 0 <= i < |v.hs| ==> 1 <= v.hs[i] < |a.S|
  {
    assert Linked(sh, a, v);
    forall i | 0 <= i < |v.hs| ensures 1 <= v.hs[i] < |a.S| {
      assert v.hs[i] in v.hs;
    }
  }

  /** The loop over the rows of the chosen column (sudoku.cpp:109-122): each
      row goes on the stack, its other columns are covered, the search goes one
      level down, and the covers are undone walking left. `col` is re-read
      from the row's node, as the source does, and is always c again. */
  method Branch(ghost sh: Shape, a1: Arena, ghost a: Arena, ghost v: View, c: nat, n: nat, sol: seq<nat>,
                clues: seq<nat>, limit: nat, count: nat, grids: seq<Board>)
    returns (a1': Arena, col: nat, count': nat, grids': seq<Board>, ghost found: seq<seq<nat>>)
    requires CoverReady(sh, a, v, c) && Covers(sh, a.C, v.hs, clues + sol) && DataOnBoard(sh, n, a.Data)
    requires c < |v.col| && AllInRow(sh, v.col[c]) && a1 == ApplyAll(a, CoverOps(sh, v, c))
    ensures a1' == a1 && col == c
    ensures Results(sh, a.C, a.Data, n, sol, clues, limit, count, grids, count', grids', found)
    decreases Active(v.hs), 0
  {
    ghost var l := v.col[c];
    ghost var v1 := CoveredView(sh, a, v, c);
    BranchStart(sh, a, v, c, a1);
    a1' := a1;
    col := c;
    count' := count;
    grids' := grids;
    found := [];
    ResultsNone(sh, a.C, a.Data, n, sol, clues, limit, count, grids);
    var temp := a1'.D[c];
    ghost var i := 0;
    while temp != c
      invariant 0 <= i <= |l| && temp == (if i < |l| then l[i] else c)
      invariant a1' == a1 && col == c
      invariant Results(sh, a.C, a.Data, n, sol, clues, limit, count, grids, count', grids', found)
      decreases |l| - i
    {
      BranchRow(sh, a, v, c, a1, i);
      var a2;
      ghost var st, vw;
      a2, st, vw := CoverOthers(sh, a1', v1, temp);
      AfterCover(sh, a, v, c, a1, i, temp, clues, sol, st, vw);
      var a3, count2, grids2;
      ghost var found2;
      a3, count2, grids2, found2 := Search(sh, a2, vw[|vw| - 1], n, sol + [temp], clues, limit, count', grids');
      col := a3.C[temp];
      a1' := UncoverOthers(sh, a3, st, vw, temp);
      ResultsAppend(sh, a.C, a.Data, n, sol, clues, temp, limit, count, grids, count', grids', found,
                    count2, grids2, found2);
      found := found + Moved(temp, found2);
      count' := count2;
      grids' := grids2;
      temp := a1'.D[temp];
      i := i + 1;
    }
  }
}
