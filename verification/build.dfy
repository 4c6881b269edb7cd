/** The state of the fabric while buildDLXLinkedList (sudoku.cpp:188-277) runs,
    described in terms of the boolean matrix it reads: which matrix entries
    already have a node, how the nodes are grouped into rows, and what each
    column ring holds. The builder's loops keep `Built`; at the end it yields
    a linked, exact fabric. */
module Build {
  import opened Rings
  import opened Arena
  import opened Layout

  /** Every row of the matrix has `nc` entries. */
  ghost predicate Rect(m: CoverMatrix, nc: nat)
  {
    forall i :: 0 <= i < |m| ==> |m[i]| == nc
  }

  /** Entry (i, j) comes before entry (i2, j2) in row-major order. */
  predicate Before(i: int, j: int, i2: int, j2: int)
  {
    i < i2 || (i == i2 && j < j2)
  }

  /** The (value, row, col) triple of matrix row i, all 1-based. */
  function Triple(n: nat, i: nat): RowData
    requires n >= 1
  {
    RowData(ValPart(n, i) + 1, RowPart(n, i) + 1, ColPart(n, i) + 1)
  }

  /** The number of rows before row i with a true entry in column jc. */
  ghost function ColCount(m: CoverMatrix, jc: nat, i: nat): nat
    requires i <= |m|
  {
    if i == 0 then 0
    else ColCount(m, jc, i - 1) + (if jc < |m[i - 1]| && m[i - 1][jc] then 1 else 0)
  }

  /** The number of true entries of column jc before entry (i, j). */
  ghost function ColCountTo(m: CoverMatrix, jc: nat, i: nat, j: nat): nat
    requires i <= |m|
  {
    ColCount(m, jc, i) + (if i < |m| && jc < j && jc < |m[i]| && m[i][jc] then 1 else 0)
  }

  /** The elements of `s` increase strictly. */
  ghost predicate Increasing(s: seq<nat>)
  {
    forall k1, k2 :: 0 <= k1 < k2 < |s| ==> s[k1] < s[k2]
  }

  /** Ghost bookkeeping of the build, one entry per arena index: the matrix
      row a node stands for, the interval [first, end) of its row's nodes,
      and the list of every column ring. */
  datatype Progress = Progress(rowOf: seq<nat>, first: seq<nat>, end: seq<nat>, col: seq<seq<nat>>)

  /** The root and the header ring: header h links right to h + 1 and the
      last one back to the root; header h links left to h - 1. The root's
      left link is `L0`. */
  ghost predicate HeadersBuilt(a: Arena, nc: nat, L0: nat)
  {
    && a.Sized() && nc < |a.L|
    && a.L[Root] == L0 && a.S[Root] == -1
    && (forall h :: 0 <= h <= nc ==> a.R[h] == (if h == nc then Root else h + 1) && a.C[h] == h)
    && (forall h :: 1 <= h <= nc ==> a.L[h] == h - 1)
  }

  /** Some node below `size` stands for entry (i2, j2). */
  ghost predicate HasNode(nc: nat, size: nat, rowOf: seq<nat>, cs: seq<nat>, i2: nat, j2: nat)
  {
    exists x :: nc < x < size && x < |rowOf| && x < |cs| && rowOf[x] == i2 && cs[x] as int - 1 == j2
  }

  /** Every node stands for a true entry before (i, j), carries that entry's
      column and its row's triple; the nodes follow the entries' row-major
      order; and every true entry before (i, j) has a node. */
  ghost predicate NodesBuilt(n: nat, m: CoverMatrix, a: Arena, p: Progress, nc: nat, i: nat, j: nat)
    requires n >= 1 && a.Sized()
  {
    && |p.rowOf| == |a.L|
    && (forall x :: nc < x < |a.L| ==>
          && 1 <= a.C[x] <= nc && p.rowOf[x] < |m| && a.C[x] - 1 < |m[p.rowOf[x]]|
          && m[p.rowOf[x]][a.C[x] - 1] && a.Data[x] == Triple(n, p.rowOf[x]))
    && (forall x :: nc < x < |a.L| ==> Before(p.rowOf[x], a.C[x] - 1, i, j))
    && (forall x, y :: nc < x < y < |a.L| ==> Before(p.rowOf[x], a.C[x] - 1, p.rowOf[y], a.C[y] - 1))
    && (forall i2, j2 {:trigger HasNode(nc, |a.L|, p.rowOf, a.C, i2, j2)} ::
          0 <= i2 < |m| && 0 <= j2 < |m[i2]| && Before(i2, j2, i, j) && m[i2][j2] ==>
          HasNode(nc, |a.L|, p.rowOf, a.C, i2, j2))
  }

  /** The nodes of row i made so far are [rs, size); the rows before it are
      finished intervals, each holding exactly the nodes of one matrix row;
      and every row is linked left to right into a ring. */
  ghost predicate RowsBuilt(a: Arena, p: Progress, nc: nat, i: nat, rs: nat)
    requires a.Sized() && |p.rowOf| == |a.L|
  {
    && |p.first| == |a.L| && |p.end| == |a.L| && nc < rs <= |a.L|
    && OpenRow(p, i, rs, |a.L|)
    && ClosedRows(p, nc, i, rs, |a.L|)
    && RowRings(a, p, nc)
  }

  /** The nodes [rs, size) belong to row i, the one under way. */
  ghost predicate OpenRow(p: Progress, i: nat, rs: nat, size: nat)
    requires |p.rowOf| == size && |p.first| == size && |p.end| == size
  {
    forall x :: rs <= x < size ==> p.rowOf[x] == i && p.first[x] == rs && p.end[x] == size
  }

  /** The nodes below rs belong to earlier rows, each an interval
      [first, end) holding exactly the nodes of its row. */
  ghost predicate ClosedRows(p: Progress, nc: nat, i: nat, rs: nat, size: nat)
    requires |p.rowOf| == size && |p.first| == size && |p.end| == size && rs <= size
  {
    && (forall x :: nc < x < rs ==> p.rowOf[x] < i && nc < p.first[x] <= x < p.end[x] <= rs)
    && (forall x, y :: nc < x < rs && p.first[x] <= y < p.end[x] ==>
          p.first[y] == p.first[x] && p.end[y] == p.end[x] && p.rowOf[y] == p.rowOf[x])
    && (forall x, y :: nc < x < rs && nc < y < size && p.rowOf[y] == p.rowOf[x] ==> p.first[x] <= y < p.end[x])
  }

  /** Each node links right to the next node of its row and left to the
      previous one, the last and first closing the ring. */
  ghost predicate RowRings(a: Arena, p: Progress, nc: nat)
    requires a.Sized() && |p.first| == |a.L| && |p.end| == |a.L|
  {
    forall x :: nc < x < |a.L| ==>
      && a.R[x] == (if x + 1 == p.end[x] then p.first[x] else x + 1)
      && a.L[x] == (if x == p.first[x] then p.end[x] - 1 else x - 1)
  }

  /** Header h's down-ring lists, in increasing order, exactly the nodes of
      column h, and its size counts the true entries of column h - 1 before
      (i, j). */
  ghost predicate ColumnsBuilt(m: CoverMatrix, a: Arena, p: Progress, nc: nat, i: nat, j: nat)
    requires a.Sized() && i <= |m|
  {
    && |p.col| == nc + 1 && nc < |a.L|
    && (forall h :: 1 <= h <= nc ==>
          && IsRing(a.D, a.U, h, p.col[h]) && Increasing(p.col[h])
          && a.S[h] == |p.col[h]| && a.S[h] == ColCountTo(m, h - 1, i, j)
          && (forall y :: y in p.col[h] ==> nc < y < |a.L| && a.C[y] == h))
    && (forall y :: nc < y < |a.L| ==> a.C[y] < |p.col| && y in p.col[a.C[y]])
  }

  /** The builder's invariant, at matrix entry (i, j) with row i's nodes
      starting at rs. */
  ghost predicate Built(n: nat, m: CoverMatrix, a: Arena, p: Progress, nc: nat, L0: nat, i: nat, j: nat, rs: nat)
  {
    && n >= 1 && Rect(m, nc) && i <= |m| && j <= nc && (i == |m| ==> j == 0)
    && HeadersBuilt(a, nc, L0)
    && NodesBuilt(n, m, a, p, nc, i, j)
    && RowsBuilt(a, p, nc, i, rs)
    && ColumnsBuilt(m, a, p, nc, i, j)
  }

  /** The arena after one node is attached (sudoku.cpp:241-271): node x = |L|
      joins its row's ring between q (the row's last node) and f (its first),
      or forms a ring of its own when q == f == x; it joins column `top`'s
      ring just above the header; it carries column `top` and triple `d`. */
  ghost function Attached(a: Arena, top: nat, q: nat, f: nat, d: RowData): Arena
    requires a.Sized() && top < |a.L| && a.U[top] < |a.L| && q <= |a.L| && f <= |a.L|
  {
    var x := |a.L|;
    Arena((a.L + [q])[f := x], (a.R + [f])[q := x], (a.U + [a.U[top]])[top := x],
          GrownDown(a.D, a.U, top, x),
          a.C + [top], (a.S + [0])[top := a.S[top] + 1], a.Data + [d])
  }

  /** The new node x = |L| becomes the last member of column `top`'s ring. */
  lemma AttachedColumnRing(a: Arena, top: nat, q: nat, f: nat, d: RowData, l: seq<nat>)
    requires a.Sized() && top < |a.L| && a.U[top] < |a.L| && q <= |a.L| && f <= |a.L|
    requires IsRing(a.D, a.U, top, l) && Distinct([top] + l)
    ensures IsRing(Attached(a, top, q, f, d).D, Attached(a, top, q, f, d).U, top, l + [|a.L|])
  {
    var x := |a.L|;
    var next: seq<nat>, prev: seq<nat> := a.D + [top], a.U + [a.U[top]];
    RingFrame(a.D, a.U, next, prev, top, l);
    assert x !in l by {
      forall k | 0 <= k < |l| ensures l[k] != x {
        assert l[k] < |a.D|;
      }
    }
    assert top != x;
    RingAppend(next, prev, top, l, x);
    var D1: seq<nat> := (a.D + [top])[a.U[top] := x];
    assert next[x := top][a.U[top] := x] == D1;
    assert D1[top] != top by {
      if |l| > 0 {
        assert ([top] + l)[0] == top && ([top] + l)[1] == l[0] && ([top] + l)[|l|] == l[|l| - 1];
      }
    }
  }

  /** The new node x = |L| joins the row ring anchored at the row's first node f
      as its last member, q being that ring's last node so far. */
  lemma AttachedRowRing(a: Arena, top: nat, q: nat, f: nat, d: RowData, row: seq<nat>)
    requires a.Sized() && top < |a.L| && a.U[top] < |a.L| && q < |a.L| && f < |a.L|
    requires IsRing(a.R, a.L, f, row) && Distinct([f] + row) && a.L[f] == q
    ensures IsRing(Attached(a, top, q, f, d).R, Attached(a, top, q, f, d).L, f, row + [|a.L|])
  {
    var x := |a.L|;
    var next: seq<nat>, prev: seq<nat> := a.R + [f], a.L + [q];
    RingFrame(a.R, a.L, next, prev, f, row);
    assert x !in row by {
      forall k | 0 <= k < |row| ensures row[k] != x {
        assert row[k] < |a.R|;
      }
    }
    RingAppend(next, prev, f, row, x);
    assert next[x := f][q := x] == (a.R + [f])[q := x];
    assert prev[x := q][f := x] == (a.L + [q])[f := x];
  }

  /** What attaching node x = |L| does, link by link: x carries column `top`
      and triple `d`; it closes column `top`'s ring as its last member and the
      column's size goes up by one; it closes the row ring anchored at f as
      its last member (or, when q == f == x, forms a ring of its own); every
      other link and size is kept. */
  lemma AttachedFacts(a: Arena, top: nat, q: nat, f: nat, d: RowData)
    requires a.Sized() && top < |a.L| && a.U[top] < |a.L| && q <= |a.L| && f <= |a.L|
    requires (q == |a.L|) == (f == |a.L|)
    ensures var a', x := Attached(a, top, q, f, d), |a.L|;
      && a'.Sized() && |a'.L| == x + 1 && a'.C[x] == top && a'.Data[x] == d
      && (forall l: seq<nat> :: IsRing(a.D, a.U, top, l) && Distinct([top] + l) ==> IsRing(a'.D, a'.U, top, l + [x]))
      && a'.S[top] == a.S[top] + 1 && (forall h :: 0 <= h < |a.S| && h != top ==> a'.S[h] == a.S[h])
      && (forall y :: 0 <= y < |a.L| && y != top && y != a.U[top] ==> a'.D[y] == a.D[y] && a'.U[y] == a.U[y])
      && (q == x ==> IsRing(a'.R, a'.L, x, []))
      && (q < x ==> forall row: seq<nat> :: IsRing(a.R, a.L, f, row) && Distinct([f] + row) && a.L[f] == q
                                  ==> IsRing(a'.R, a'.L, f, row + [x]))
      && (forall y :: 0 <= y < |a.L| && y != q && y != f ==> a'.R[y] == a.R[y] && a'.L[y] == a.L[y])
  {
    var a', x := Attached(a, top, q, f, d), |a.L|;
    forall l: seq<nat> | IsRing(a.D, a.U, top, l) && Distinct([top] + l) ensures IsRing(a'.D, a'.U, top, l + [x]) {
      AttachedColumnRing(a, top, q, f, d, l);
    }
    forall row: seq<nat> | q < x && IsRing(a.R, a.L, f, row) && Distinct([f] + row) && a.L[f] == q
      ensures IsRing(a'.R, a'.L, f, row + [x])
    {
      AttachedRowRing(a, top, q, f, d, row);
    }
  }

  /** The bookkeeping after node x of matrix row i, column top - 1, is attached
      to the row whose nodes start at rs. */
  ghost function Grown(p: Progress, x: nat, i: nat, rs: nat, top: nat): Progress
    requires |p.end| == x && rs <= x && top < |p.col|
  {
    var end: seq<nat> := seq(x + 1, y requires 0 <= y <= x => if rs <= y then x + 1 else p.end[y]);
    Progress(p.rowOf + [i], p.first + [rs], end, p.col[top := p.col[top] + [x]])
  }

  /** Attaching a node leaves the root and the header ring alone. */
  lemma AttachHeaders(a: Arena, nc: nat, L0: nat, top: nat, q: nat, f: nat, d: RowData)
    requires HeadersBuilt(a, nc, L0) == true && 1 <= top <= nc && a.U[top] < |a.L|
    requires nc < q <= |a.L| && nc < f <= |a.L|
    ensures HeadersBuilt(Attached(a, top, q, f, d), nc, L0) == true
  {
  }

  /** The node for true entry (i, j) keeps the node invariant, one entry further on. */
  lemma NodesGrow(n: nat, m: CoverMatrix, a: Arena, a': Arena, p: Progress, p': Progress, nc: nat, i: nat, j: nat)
    requires n >= 1 && a.Sized() && a'.Sized() && Rect(m, nc) && i < |m| && j < nc && m[i][j] && nc < |a.L|
    requires NodesBuilt(n, m, a, p, nc, i, j) == true
    requires |a'.L| == |a.L| + 1 && a'.C == a.C + [j + 1] && a'.Data == a.Data + [Triple(n, i)]
    requires p'.rowOf == p.rowOf + [i]
    ensures NodesBuilt(n, m, a', p', nc, i, j + 1) == true
  {
    NodesGrowEach(n, m, a, a', p, p', nc, i, j);
    NodesGrowPairs(n, m, a, a', p, p', nc, i, j);
    NodesGrowComplete(n, m, a, a', p, p', nc, i, j);
  }

  lemma NodesGrowEach(n: nat, m: CoverMatrix, a: Arena, a': Arena, p: Progress, p': Progress, nc: nat, i: nat, j: nat)
    requires n >= 1 && a.Sized() && a'.Sized() && Rect(m, nc) && i < |m| && j < nc && m[i][j] && nc < |a.L|
    requires NodesBuilt(n, m, a, p, nc, i, j)
    requires |a'.L| == |a.L| + 1 && a'.C == a.C + [j + 1] && a'.Data == a.Data + [Triple(n, i)]
    requires p'.rowOf == p.rowOf + [i]
    ensures forall x :: nc < x < |a'.L| ==>
          && 1 <= a'.C[x] <= nc && p'.rowOf[x] < |m| && a'.C[x] - 1 < |m[p'.rowOf[x]]|
          && m[p'.rowOf[x]][a'.C[x] - 1] && a'.Data[x] == Triple(n, p'.rowOf[x])
    ensures forall x :: nc < x < |a'.L| ==> Before(p'.rowOf[x], a'.C[x] - 1, i, j + 1)
  {
    var x := |a.L|;
    forall y | nc < y < |a'.L|
      ensures 1 <= a'.C[y] <= nc && p'.rowOf[y] < |m| && a'.C[y] - 1 < |m[p'.rowOf[y]]|
      ensures m[p'.rowOf[y]][a'.C[y] - 1] && a'.Data[y] == Triple(n, p'.rowOf[y])
      ensures Before(p'.rowOf[y], a'.C[y] - 1, i, j + 1)
    {
      if y < x {
        assert a'.C[y] == a.C[y] && p'.rowOf[y] == p.rowOf[y] && a'.Data[y] == a.Data[y];
      } else {
        assert a'.C[y] == j + 1 && p'.rowOf[y] == i && a'.Data[y] == Triple(n, i);
      }
    }
  }

  lemma NodesGrowPairs(n: nat, m: CoverMatrix, a: Arena, a': Arena, p: Progress, p': Progress, nc: nat, i: nat, j: nat)
    requires n >= 1 && a.Sized() && a'.Sized() && Rect(m, nc) && i < |m| && j < nc && m[i][j] && nc < |a.L|
    requires NodesBuilt(n, m, a, p, nc, i, j)
    requires |a'.L| == |a.L| + 1 && a'.C == a.C + [j + 1]
    requires p'.rowOf == p.rowOf + [i]
    ensures forall x, y :: nc < x < y < |a'.L| ==> Before(p'.rowOf[x], a'.C[x] - 1, p'.rowOf[y], a'.C[y] - 1)
  {
    var x := |a.L|;
    forall y, z | nc < y < z < |a'.L|
      ensures Before(p'.rowOf[y], a'.C[y] - 1, p'.rowOf[z], a'.C[z] - 1)
    {
      assert a'.C[y] == a.C[y] && p'.rowOf[y] == p.rowOf[y];
      if z < x {
        assert a'.C[z] == a.C[z] && p'.rowOf[z] == p.rowOf[z];
      } else {
        assert a'.C[z] == j + 1 && p'.rowOf[z] == i;
      }
    }
  }

  lemma NodesGrowComplete(n: nat, m: CoverMatrix, a: Arena, a': Arena, p: Progress, p': Progress, nc: nat, i: nat, j: nat)
    requires n >= 1 && a.Sized() && a'.Sized() && Rect(m, nc) && i < |m| && j < nc && m[i][j] && nc < |a.L|
    requires NodesBuilt(n, m, a, p, nc, i, j)
    requires |a'.L| == |a.L| + 1 && a'.C == a.C + [j + 1]
    requires p'.rowOf == p.rowOf + [i]
    ensures forall i2, j2 {:trigger HasNode(nc, |a'.L|, p'.rowOf, a'.C, i2, j2)} ::
          0 <= i2 < |m| && 0 <= j2 < |m[i2]| && Before(i2, j2, i, j + 1) && m[i2][j2] ==>
          HasNode(nc, |a'.L|, p'.rowOf, a'.C, i2, j2)
  {
    var x := |a.L|;
    forall i2, j2 | 0 <= i2 < |m| && 0 <= j2 < |m[i2]| && Before(i2, j2, i, j + 1) && m[i2][j2]
      ensures HasNode(nc, |a'.L|, p'.rowOf, a'.C, i2, j2)
    {
      if Before(i2, j2, i, j) {
        assert HasNode(nc, |a.L|, p.rowOf, a.C, i2, j2);
        var y :| nc < y < |a.L| && y < |p.rowOf| && y < |a.C| && p.rowOf[y] == i2 && a.C[y] - 1 == j2;
        assert p'.rowOf[y] == i2 && a'.C[y] - 1 == j2;
      } else {
        assert p'.rowOf[x] == i2 && a'.C[x] - 1 == j2;
      }
    }
  }

  /** A false entry adds no node. */
  lemma NodesSkip(n: nat, m: CoverMatrix, a: Arena, p: Progress, nc: nat, i: nat, j: nat)
    requires n >= 1 && a.Sized() && Rect(m, nc) && i < |m| && j < nc && !m[i][j]
    requires NodesBuilt(n, m, a, p, nc, i, j)
    ensures NodesBuilt(n, m, a, p, nc, i, j + 1)
  {
    forall i2, j2 | 0 <= i2 < |m| && 0 <= j2 < |m[i2]| && Before(i2, j2, i, j + 1) && m[i2][j2]
      ensures HasNode(nc, |a.L|, p.rowOf, a.C, i2, j2)
    {
      assert Before(i2, j2, i, j);
    }
  }

  /** Past the last entry of row i - 1 comes the first entry of row i. */
  lemma NodesNextRow(n: nat, m: CoverMatrix, a: Arena, p: Progress, nc: nat, i: nat)
    requires n >= 1 && a.Sized() && Rect(m, nc) && 0 < i <= |m|
    requires NodesBuilt(n, m, a, p, nc, i - 1, nc) == true
    ensures NodesBuilt(n, m, a, p, nc, i, 0) == true
  {
    forall i2, j2 | 0 <= i2 < |m| && 0 <= j2 < |m[i2]| && Before(i2, j2, i, 0) && m[i2][j2]
      ensures HasNode(nc, |a.L|, p.rowOf, a.C, i2, j2)
    {
      assert Before(i2, j2, i - 1, nc);
    }
  }

  /** Linking node x = |L| into row i's ring (sudoku.cpp:247-255): after the
      row's last node q and before its first node f, or onto itself when it is
      the row's first node. */
  lemma RowsGrow(a: Arena, a': Arena, p: Progress, p': Progress, nc: nat, i: nat, rs: nat, q: nat, f: nat)
    requires a.Sized() && a'.Sized() && |p.rowOf| == |a.L| && RowsBuilt(a, p, nc, i, rs) == true
    requires (rs == |a.L| && q == |a.L| && f == |a.L|) || (rs < |a.L| && q == |a.L| - 1 && f == rs)
    requires |a'.L| == |a.L| + 1 && a'.L == (a.L + [q])[f := |a.L|] && a'.R == (a.R + [f])[q := |a.L|]
    requires GrownRows(p, p', |a.L|, i, rs)
    ensures |p'.rowOf| == |a'.L| && RowsBuilt(a', p', nc, i, rs) == true
  {
    RowsGrowOpen(a, a', p, p', nc, i, rs);
    RowsGrowClosed(a, a', p, p', nc, i, rs);
    RowsGrowLinks(a, a', p, p', nc, i, rs, q, f);
  }

  /** What growing the bookkeeping by node x of row i, whose nodes start at
      rs, does to the row fields: x joins row i, and every node of the row
      under way now ends past x. */
  ghost predicate GrownRows(p: Progress, p': Progress, x: nat, i: nat, rs: nat)
  {
    && |p.rowOf| == x && |p.first| == x && |p.end| == x
    && |p'.rowOf| == x + 1 && |p'.first| == x + 1 && |p'.end| == x + 1
    && p'.rowOf[x] == i && p'.first[x] == rs && p'.end[x] == x + 1
    && forall y :: 0 <= y < x ==>
         p'.rowOf[y] == p.rowOf[y] && p'.first[y] == p.first[y] && p'.end[y] == (if rs <= y then x + 1 else p.end[y])
  }

  lemma GrownRowsHold(p: Progress, x: nat, i: nat, rs: nat, top: nat)
    requires |p.rowOf| == x && |p.first| == x && |p.end| == x && rs <= x && top < |p.col|
    ensures GrownRows(p, Grown(p, x, i, rs, top), x, i, rs)
  {
  }

  lemma RowsGrowOpen(a: Arena, a': Arena, p: Progress, p': Progress, nc: nat, i: nat, rs: nat)
    requires a.Sized() && |p.rowOf| == |a.L| && RowsBuilt(a, p, nc, i, rs) == true
    requires |a'.L| == |a.L| + 1 && GrownRows(p, p', |a.L|, i, rs)
    ensures |p'.rowOf| == |a'.L| && |p'.first| == |a'.L| && |p'.end| == |a'.L| && nc < rs <= |a'.L|
    ensures OpenRow(p', i, rs, |a'.L|)
  {
    var z := |a.L|;
    forall x | rs <= x < |a'.L| ensures p'.rowOf[x] == i && p'.first[x] == rs && p'.end[x] == |a'.L| {
      if x < z {
        assert p'.rowOf[x] == p.rowOf[x] && p'.first[x] == p.first[x];
      }
    }
  }

  lemma RowsGrowClosed(a: Arena, a': Arena, p: Progress, p': Progress, nc: nat, i: nat, rs: nat)
    requires a.Sized() && |p.rowOf| == |a.L| && RowsBuilt(a, p, nc, i, rs) == true
    requires |a'.L| == |a.L| + 1 && GrownRows(p, p', |a.L|, i, rs)
    ensures ClosedRows(p', nc, i, rs, |a'.L|)
  {
    var z := |a.L|;
    forall x | nc < x < rs ensures p'.rowOf[x] == p.rowOf[x] && p'.first[x] == p.first[x] && p'.end[x] == p.end[x] {
    }
    forall x, y | nc < x < rs && p'.first[x] <= y < p'.end[x]
      ensures p'.first[y] == p'.first[x] && p'.end[y] == p'.end[x] && p'.rowOf[y] == p'.rowOf[x]
    {
      assert p'.rowOf[y] == p.rowOf[y] && p'.first[y] == p.first[y] && p'.end[y] == p.end[y];
    }
    forall x, y | nc < x < rs && nc < y < |a'.L| && p'.rowOf[y] == p'.rowOf[x]
      ensures p'.first[x] <= y < p'.end[x]
    {
      if y < z {
        assert p'.rowOf[y] == p.rowOf[y];
      }
    }
  }

  lemma RowsGrowLinks(a: Arena, a': Arena, p: Progress, p': Progress, nc: nat, i: nat, rs: nat, q: nat, f: nat)
    requires a.Sized() && a'.Sized() && |p.rowOf| == |a.L| && RowsBuilt(a, p, nc, i, rs) == true
    requires (rs == |a.L| && q == |a.L| && f == |a.L|) || (rs < |a.L| && q == |a.L| - 1 && f == rs)
    requires |a'.L| == |a.L| + 1 && a'.L == (a.L + [q])[f := |a.L|] && a'.R == (a.R + [f])[q := |a.L|]
    requires GrownRows(p, p', |a.L|, i, rs)
    ensures RowRings(a', p', nc)
  {
    var z := |a.L|;
    forall x | nc < x < |a'.L|
      ensures a'.R[x] == (if x + 1 == p'.end[x] then p'.first[x] else x + 1)
      ensures a'.L[x] == (if x == p'.first[x] then p'.end[x] - 1 else x - 1)
    {
      if x < rs {
        assert p'.end[x] == p.end[x] && p'.first[x] == p.first[x] && x != q && x != f;
      } else if x < z {
        assert p'.end[x] == z + 1 && p.end[x] == z && p'.first[x] == rs == p.first[x];
      }
    }
  }

  /** An increasing list of nodes, anchored at a header, has no repetition. */
  lemma IncreasingDistinct(h: nat, nc: nat, l: seq<nat>)
    requires Increasing(l) && h <= nc && forall y :: y in l ==> nc < y
    ensures Distinct([h] + l) && Distinct(l)
  {
    var s := [h] + l;
    forall k1, k2 | 0 <= k1 < k2 < |s| ensures s[k1] != s[k2] {
      assert s[k2] == l[k2 - 1] && s[k2] in l;
      if k1 > 0 {
        assert s[k1] == l[k1 - 1];
      }
    }
  }

  /** Counting one more entry of the current row. */
  lemma ColCountStep(m: CoverMatrix, jc: nat, i: nat, j: nat)
    requires i < |m| && j < |m[i]|
    ensures ColCountTo(m, jc, i, j + 1) == ColCountTo(m, jc, i, j) + (if jc == j && m[i][j] then 1 else 0)
  {
  }

  /** Past the end of a row, the count moves on to the next row. */
  lemma ColCountNextRow(m: CoverMatrix, jc: nat, i: nat, nc: nat)
    requires 0 < i <= |m| && |m[i - 1]| == nc && jc < nc
    ensures ColCountTo(m, jc, i - 1, nc) == ColCountTo(m, jc, i, 0)
  {
  }

  /** The down links after node x joins the ring of column `top` just above
      the header (sudoku.cpp:259-263), with the builder's check for a header
      whose down link still points at itself (sudoku.cpp:266-268). */
  ghost function GrownDown(D: seq<nat>, U: seq<nat>, top: nat, x: nat): seq<nat>
    requires top < |U| && top <= |D| && U[top] <= |D|
  {
    var D1 := (D + [top])[U[top] := x];
    if D1[top] == top then D1[top := x] else D1
  }

  /** Node x joins the ring of column `top` as its last member; the header's
      down link already points away from the header, so the builder's
      second check never changes anything. */
  lemma ColumnGrowOwn(D: seq<nat>, U: seq<nat>, nc: nat, top: nat, l: seq<nat>, x: nat, D': seq<nat>, U': seq<nat>)
    requires |D| == x && |U| == x && 1 <= top <= nc && IsRing(D, U, top, l) && Increasing(l)
    requires forall y :: y in l ==> nc < y < x
    requires D' == GrownDown(D, U, top, x) && U' == (U + [U[top]])[top := x]
    ensures D'[top] != top && D' == (D + [top])[U[top] := x]
    ensures IsRing(D', U', top, l + [x]) && Increasing(l + [x])
  {
    IncreasingDistinct(top, nc, l);
    var next: seq<nat>, prev: seq<nat> := D + [top], U + [U[top]];
    RingFrame(D, U, next, prev, top, l);
    RingAppend(next, prev, top, l, x);
    var D1: seq<nat> := next[x := top][U[top] := x];
    assert D1 == (D + [top])[U[top] := x];
    assert IsRing(D1, U', top, l + [x]);
    assert D1[top] == (l + [x])[0];
    forall k1, k2 | 0 <= k1 < k2 < |l + [x]| ensures (l + [x])[k1] < (l + [x])[k2] {
      if k2 == |l| {
        assert (l + [x])[k1] == l[k1] && l[k1] in l;
      }
    }
  }

  /** Attaching a node to column `top` leaves the ring of another column h alone. */
  lemma ColumnGrowOther(D: seq<nat>, U: seq<nat>, nc: nat, top: nat, lt: seq<nat>, h: nat, l: seq<nat>, x: nat,
                        D': seq<nat>, U': seq<nat>)
    requires |D| == x && |U| == x && 1 <= top <= nc && 1 <= h <= nc && h != top
    requires IsRing(D, U, top, lt) && IsRing(D, U, h, l)
    requires forall y :: y in lt ==> nc < y < x
    requires forall y :: y in l ==> nc < y < x && y !in lt
    requires D' == GrownDown(D, U, top, x) && U' == (U + [U[top]])[top := x]
    ensures IsRing(D', U', h, l)
  {
    assert U[top] == top || U[top] in lt by {
      if |lt| > 0 {
        assert U[top] == lt[|lt| - 1];
      }
    }
    forall k | 0 <= k < |l| ensures D'[l[k]] == D[l[k]] && U'[l[k]] == U[l[k]] {
      assert l[k] in l;
    }
    RingFrame(D, U, D', U', h, l);
  }

  /** What the column invariant says about one column. */
  lemma ColumnFacts(m: CoverMatrix, a: Arena, p: Progress, nc: nat, i: nat, j: nat, h: nat)
    requires a.Sized() && i <= |m| && ColumnsBuilt(m, a, p, nc, i, j) && 1 <= h <= nc
    ensures IsRing(a.D, a.U, h, p.col[h]) && Increasing(p.col[h])
    ensures a.S[h] == |p.col[h]| && a.S[h] == ColCountTo(m, h - 1, i, j)
    ensures forall y :: y in p.col[h] ==> nc < y < |a.L| && a.C[y] == h
  {
  }

  /** Attaching the node for true entry (i, j) keeps the column invariant,
      one entry further on. */
  lemma ColumnsGrow(m: CoverMatrix, a: Arena, a': Arena, p: Progress, p': Progress, nc: nat, i: nat, j: nat)
    requires a.Sized() && a'.Sized() && i < |m| && Rect(m, nc) && j < nc && m[i][j] && ColumnsBuilt(m, a, p, nc, i, j) == true
    requires a.U[j + 1] < |a.L| && |a'.L| == |a.L| + 1
    requires a'.D == GrownDown(a.D, a.U, j + 1, |a.L|) && a'.U == (a.U + [a.U[j + 1]])[j + 1 := |a.L|]
    requires a'.C == a.C + [j + 1] && a'.S == (a.S + [0])[j + 1 := a.S[j + 1] + 1]
    requires p'.col == p.col[j + 1 := p.col[j + 1] + [|a.L|]]
    ensures ColumnsBuilt(m, a', p', nc, i, j + 1) == true
  {
    forall h | 1 <= h <= nc
      ensures IsRing(a'.D, a'.U, h, p'.col[h]) && Increasing(p'.col[h])
      ensures a'.S[h] == |p'.col[h]| && a'.S[h] == ColCountTo(m, h - 1, i, j + 1)
      ensures forall y :: y in p'.col[h] ==> nc < y < |a'.L| && a'.C[y] == h
    {
      ColumnGrowAt(m, a, a', p, p', nc, i, j, h);
    }
    var x := |a.L|;
    forall y | nc < y < |a'.L| ensures a'.C[y] < |p'.col| && y in p'.col[a'.C[y]] {
      if y < x {
        assert a'.C[y] == a.C[y] && y in p.col[a.C[y]];
      }
    }
  }

  lemma ColumnGrowAt(m: CoverMatrix, a: Arena, a': Arena, p: Progress, p': Progress, nc: nat, i: nat, j: nat, h: nat)
    requires a.Sized() && a'.Sized() && i < |m| && Rect(m, nc) && j < nc && m[i][j] && ColumnsBuilt(m, a, p, nc, i, j) == true
    requires a.U[j + 1] < |a.L| && |a'.L| == |a.L| + 1
    requires a'.D == GrownDown(a.D, a.U, j + 1, |a.L|) && a'.U == (a.U + [a.U[j + 1]])[j + 1 := |a.L|]
    requires a'.C == a.C + [j + 1] && a'.S == (a.S + [0])[j + 1 := a.S[j + 1] + 1]
    requires p'.col == p.col[j + 1 := p.col[j + 1] + [|a.L|]]
    requires 1 <= h <= nc
    ensures IsRing(a'.D, a'.U, h, p'.col[h]) && Increasing(p'.col[h])
    ensures a'.S[h] == |p'.col[h]| && a'.S[h] == ColCountTo(m, h - 1, i, j + 1)
    ensures forall y :: y in p'.col[h] ==> nc < y < |a'.L| && a'.C[y] == h
  {
    var top, x := j + 1, |a.L|;
    var lt := p.col[top];
    ColumnFacts(m, a, p, nc, i, j, top);
    ColCountStep(m, h - 1, i, j);
    if h == top {
      ColumnGrowOwn(a.D, a.U, nc, top, lt, x, a'.D, a'.U);
    } else {
      var l := p.col[h];
      ColumnFacts(m, a, p, nc, i, j, h);
      ColumnGrowOther(a.D, a.U, nc, top, lt, h, l, x, a'.D, a'.U);
    }
  }

  /** A false entry leaves every column count where it was. */
  lemma ColumnsSkip(m: CoverMatrix, a: Arena, p: Progress, nc: nat, i: nat, j: nat)
    requires a.Sized() && i < |m| && Rect(m, nc) && j < nc && !m[i][j] && ColumnsBuilt(m, a, p, nc, i, j)
    ensures ColumnsBuilt(m, a, p, nc, i, j + 1)
  {
    forall jc | 0 <= jc < nc ensures ColCountTo(m, jc, i, j + 1) == ColCountTo(m, jc, i, j) {
      ColCountStep(m, jc, i, j);
    }
  }

  /** At the end of row i - 1 the column counts carry over to row i. */
  lemma ColumnsNextRow(m: CoverMatrix, a: Arena, p: Progress, nc: nat, i: nat)
    requires a.Sized() && 0 < i <= |m| && Rect(m, nc) && ColumnsBuilt(m, a, p, nc, i - 1, nc) == true
    ensures ColumnsBuilt(m, a, p, nc, i, 0) == true
  {
    forall jc | 0 <= jc < nc ensures ColCountTo(m, jc, i - 1, nc) == ColCountTo(m, jc, i, 0) {
      ColCountNextRow(m, jc, i, nc);
    }
  }

  /** At the end of a row its nodes form a finished interval, and the next
      row starts with no nodes. */
  lemma RowsNextRow(a: Arena, p: Progress, nc: nat, i: nat, rs: nat)
    requires a.Sized() && |p.rowOf| == |a.L| && 0 < i && RowsBuilt(a, p, nc, i - 1, rs) == true
    ensures RowsBuilt(a, p, nc, i, |a.L|) == true
  {
  }

  /** The headers 1..nc in ring order. */
  function HeaderList(nc: nat): (hs: seq<nat>)
    ensures |hs| == nc && forall k :: 0 <= k < nc ==> hs[k] == k + 1
  {
    seq(nc, k requires 0 <= k < nc => k + 1)
  }

  /** The bookkeeping before the first node: no column holds anything. */
  function Start(nc: nat): Progress
  {
    Progress(seq(nc + 1, _ => 0), seq(nc + 1, _ => 0), seq(nc + 1, _ => 0), seq(nc + 1, _ => []))
  }

  /** In a built state the header's up link names the column's last node (or
      the header itself), and a row under way ends at the node just made, whose
      right link returns to the row's first node. */
  lemma BuiltLinks(n: nat, m: CoverMatrix, a: Arena, p: Progress, nc: nat, L0: nat, i: nat, j: nat, rs: nat, h: nat)
    requires Built(n, m, a, p, nc, L0, i, j, rs) == true && 1 <= h <= nc
    ensures a.U[h] < |a.L|
    ensures rs < |a.L| ==> a.R[|a.L| - 1] == rs
  {
    ColumnFacts(m, a, p, nc, i, j, h);
    var l := p.col[h];
    if |l| > 0 {
      assert a.U[h] == l[|l| - 1] && l[|l| - 1] in l;
    }
  }

  /** Entry (i, j) is false: nothing is attached. */
  lemma BuiltSkip(n: nat, m: CoverMatrix, a: Arena, p: Progress, nc: nat, L0: nat, i: nat, j: nat, rs: nat)
    requires Built(n, m, a, p, nc, L0, i, j, rs) == true && i < |m| && j < nc && !m[i][j]
    ensures Built(n, m, a, p, nc, L0, i, j + 1, rs) == true
  {
    NodesSkip(n, m, a, p, nc, i, j);
    ColumnsSkip(m, a, p, nc, i, j);
  }

  /** Row i - 1 is done; row i starts with no nodes. */
  lemma BuiltNextRow(n: nat, m: CoverMatrix, a: Arena, p: Progress, nc: nat, L0: nat, i: nat, rs: nat)
    requires 0 < i <= |m| && Built(n, m, a, p, nc, L0, i - 1, nc, rs) == true
    ensures Built(n, m, a, p, nc, L0, i, 0, |a.L|) == true
  {
    NodesNextRow(n, m, a, p, nc, i);
    RowsNextRow(a, p, nc, i, rs);
    ColumnsNextRow(m, a, p, nc, i);
  }

  /** Right after the headers are made, with every column ring empty, the
      invariant holds at the first entry. */
  lemma BuiltStart(n: nat, m: CoverMatrix, a: Arena, nc: nat, L0: nat)
    requires n >= 1 && Rect(m, nc) && Fresh(a, nc, L0) == true
    ensures Built(n, m, a, Start(nc), nc, L0, 0, 0, nc + 1) == true
  {
  }

  /** The finished rows: every node's row is a laid-out interval, the columns
      increase along a row, and the row links close each row into a ring. */
  lemma DoneRows(a: Arena, p: Progress, nc: nat, L0: nat, i: nat, rs: nat)
    requires HeadersBuilt(a, nc, L0) && |p.rowOf| == |a.L| && RowsBuilt(a, p, nc, i, rs)
    requires forall x :: nc < x < |a.L| ==> 1 <= a.C[x] <= nc
    requires forall x, y :: nc < x < y < |a.L| ==> Before(p.rowOf[x], a.C[x] - 1, p.rowOf[y], a.C[y] - 1)
    ensures StaticOK(Shape(nc, p.first, p.end), a.(L := a.L[Root := nc]))
  {
    var sh := Shape(nc, p.first, p.end);
    DoneIntervals(a, p, nc, i, rs);
    DoneIncrease(a, p, nc);
    assert RowShape(sh, |a.L|, a.C);
    assert RowLinks(sh, |a.L|, a.R, a.L[Root := nc]);
  }

  lemma DoneIntervals(a: Arena, p: Progress, nc: nat, i: nat, rs: nat)
    requires a.Sized() && |p.rowOf| == |a.L| && RowsBuilt(a, p, nc, i, rs)
    ensures forall x :: nc < x < |a.L| ==> nc < p.first[x] <= x < p.end[x] <= |a.L|
    ensures forall x, y :: nc < x < |a.L| && p.first[x] <= y < p.end[x] ==>
      p.first[y] == p.first[x] && p.end[y] == p.end[x] && p.rowOf[y] == p.rowOf[x]
  {
    forall x | nc < x < |a.L| ensures nc < p.first[x] <= x < p.end[x] <= |a.L| {
      if x >= rs {
        assert p.first[x] == rs && p.end[x] == |a.L|;
      }
    }
    forall x, y | nc < x < |a.L| && p.first[x] <= y < p.end[x]
      ensures p.first[y] == p.first[x] && p.end[y] == p.end[x] && p.rowOf[y] == p.rowOf[x]
    {
      if x >= rs {
        assert p.first[x] == rs && p.end[x] == |a.L|;
      }
    }
  }

  lemma DoneIncrease(a: Arena, p: Progress, nc: nat)
    requires a.Sized() && |p.rowOf| == |a.L| && |p.end| == |a.L| && |p.first| == |a.L|
    requires forall x :: nc < x < |a.L| ==> 1 <= a.C[x] && p.first[x] <= x < p.end[x] <= |a.L|
    requires forall x, y :: nc < x < y < |a.L| ==> Before(p.rowOf[x], a.C[x] - 1, p.rowOf[y], a.C[y] - 1)
    requires forall x, y :: nc < x < |a.L| && p.first[x] <= y < p.end[x] ==> p.rowOf[y] == p.rowOf[x]
    ensures forall x, y :: nc < x < |a.L| && x < y < p.end[x] ==> a.C[x] < a.C[y]
  {
    forall x, y | nc < x < |a.L| && x < y < p.end[x] ensures a.C[x] < a.C[y] {
      assert p.rowOf[y] == p.rowOf[x];
      assert Before(p.rowOf[x], a.C[x] - 1, p.rowOf[y], a.C[y] - 1);
    }
  }

  /** The finished header ring lists the headers 1..nc in order, once the
      root's left link names the last header. */
  lemma DoneHeaders(a: Arena, nc: nat, L0: nat)
    requires HeadersBuilt(a, nc, L0)
    ensures HeadersOK(Shape(nc, [], []), a.R, a.L[Root := nc], HeaderList(nc))
  {
    var hs := HeaderList(nc);
    var L := a.L[Root := nc];
    forall k | 0 <= k < |hs| - 1 ensures a.R[hs[k]] == hs[k + 1] && L[hs[k + 1]] == hs[k] {
    }
    assert IsRing(a.R, L, Root, hs);
  }

  /** The finished column rings: each lists the nodes of its column, once. */
  lemma DoneColumns(n: nat, m: CoverMatrix, a: Arena, p: Progress, nc: nat, L0: nat, rs: nat)
    requires Built(n, m, a, p, nc, L0, |m|, 0, rs) == true
    ensures ColumnsOK(Shape(nc, p.first, p.end), |a.L|, a.D, a.U, a.C, a.S, p.col)
    ensures forall h :: 1 <= h <= nc ==> a.S[h] == ColCount(m, h - 1, |m|)
  {
    var sh := Shape(nc, p.first, p.end);
    forall h | 1 <= h <= nc
      ensures ColumnOK(sh, |a.L|, a.D, a.U, a.C, a.S, h, p.col[h]) && a.S[h] == ColCount(m, h - 1, |m|)
    {
      ColumnFacts(m, a, p, nc, |m|, 0, h);
      IncreasingDistinct(h, nc, p.col[h]);
    }
  }

  /** With every header in the ring, every row is alive and every node is in
      its column's ring: the finished fabric is exact. */
  lemma DoneExact(n: nat, m: CoverMatrix, a: Arena, p: Progress, nc: nat, L0: nat, rs: nat)
    requires Built(n, m, a, p, nc, L0, |m|, 0, rs) == true
    requires StaticOK(Shape(nc, p.first, p.end), a.(L := a.L[Root := nc]))
    ensures Exact(Shape(nc, p.first, p.end), a.C, View(HeaderList(nc), p.col))
  {
    var sh := Shape(nc, p.first, p.end);
    var hs := HeaderList(nc);
    forall x | nc < x < |a.C| ensures Alive(sh, a.C, hs, x) {
      forall y | sh.first[x] <= y < sh.end[x] ensures a.C[y] in hs {
        assert hs[a.C[y] - 1] == a.C[y];
      }
    }
  }

  /** The fabric the builder leaves behind, with the root's left link set to
      the last header, is linked and exact: the header ring holds every
      column, and each column's ring its nodes. */
  lemma BuiltDone(n: nat, m: CoverMatrix, a: Arena, p: Progress, nc: nat, L0: nat, rs: nat)
    requires Built(n, m, a, p, nc, L0, |m|, 0, rs) == true
    ensures var sh, a1, v := Shape(nc, p.first, p.end), a.(L := a.L[Root := nc]), View(HeaderList(nc), p.col);
      Linked(sh, a1, v) && Exact(sh, a1.C, v)
    ensures forall h :: 1 <= h <= nc ==> a.S[h] == ColCount(m, h - 1, |m|)
  {
    DoneRows(a, p, nc, L0, |m|, rs);
    DoneHeaders(a, nc, L0);
    DoneColumns(n, m, a, p, nc, L0, rs);
    DoneExact(n, m, a, p, nc, L0, rs);
  }

  /** The header numbers of the true entries of matrix row i. */
  ghost function EntryCols(m: CoverMatrix, i: nat, nc: nat): set<nat>
    requires i < |m| && |m[i]| == nc
  {
    set j | 0 <= j < nc && m[i][j] :: j + 1
  }

  /** The headers a fabric row's nodes point to. */
  ghost function NodeCols(sh: Shape, cs: seq<nat>, x: nat): set<nat>
    requires x < |sh.first| && x < |sh.end| && sh.end[x] <= |cs|
  {
    set y | sh.first[x] <= y < sh.end[x] :: cs[y]
  }

  /** Some node stands for matrix row i. */
  ghost predicate RowHasNode(nc: nat, size: nat, rowOf: seq<nat>, i: nat)
  {
    exists x :: nc < x < size && x < |rowOf| && rowOf[x] == i
  }

  /** What a finished fabric stands for: each of its rows is one matrix row
      with at least one true entry, carrying that row's triple and exactly
      its true entries' columns; each such matrix row has exactly one fabric
      row; nodes come in matrix-row order; and each column's size counts the
      column's true entries. */
  ghost predicate Represents(n: nat, m: CoverMatrix, a: Arena, sh: Shape, rowOf: seq<nat>)
    requires n >= 1 && Rect(m, sh.nc) && a.Sized() && RowShape(sh, |a.L|, a.C)
  {
    && |rowOf| == |a.L|
    && (forall x :: sh.nc < x < |a.L| ==>
          && rowOf[x] < |m| && a.Data[x] == Triple(n, rowOf[x])
          && NodeCols(sh, a.C, x) == EntryCols(m, rowOf[x], sh.nc))
    && (forall i :: 0 <= i < |m| && EntryCols(m, i, sh.nc) != {} ==> RowHasNode(sh.nc, |a.L|, rowOf, i))
    && (forall x, y :: sh.nc < x < |a.L| && sh.nc < y < |a.L| && rowOf[x] == rowOf[y] ==> sh.first[x] == sh.first[y])
    && (forall x, y :: sh.nc < x < y < |a.L| ==> rowOf[x] <= rowOf[y])
    && (forall h :: 1 <= h <= sh.nc ==> a.S[h] == ColCount(m, h - 1, |m|))
  }

  /** A node made after row `rs` began stands for the row under way; at the
      end that would be a row past the matrix. */
  lemma OpenRowNode(n: nat, m: CoverMatrix, a: Arena, p: Progress, nc: nat, L0: nat, rs: nat)
    requires Built(n, m, a, p, nc, L0, |m|, 0, rs) == true
    ensures rs <= |a.L|
    ensures rs < |a.L| ==> p.rowOf[rs] == |m| && p.rowOf[rs] < |m|
  {
  }

  /** At the end no row is under way. */
  lemma DoneNoOpenRow(n: nat, m: CoverMatrix, a: Arena, p: Progress, nc: nat, L0: nat, rs: nat)
    requires Built(n, m, a, p, nc, L0, |m|, 0, rs) == true
    ensures rs == |a.L|
  {
    OpenRowNode(n, m, a, p, nc, L0, rs);
  }

  /** A finished row's nodes carry exactly the columns of its matrix row's true entries. */
  lemma DoneRowCols(n: nat, m: CoverMatrix, a: Arena, p: Progress, nc: nat, x: nat)
    requires n >= 1 && a.Sized() && Rect(m, nc) && NodesBuilt(n, m, a, p, nc, |m|, 0)
    requires RowsBuilt(a, p, nc, |m|, |a.L|) && nc < x < |a.L|
    requires forall y :: nc < y < |a.L| ==> p.end[y] <= |a.L|
    ensures p.rowOf[x] < |m| && NodeCols(Shape(nc, p.first, p.end), a.C, x) == EntryCols(m, p.rowOf[x], nc)
  {
    DoneRowColsIn(n, m, a, p, nc, x);
    forall j | 0 <= j < nc && m[p.rowOf[x]][j] ensures HasNode(nc, |a.L|, p.rowOf, a.C, p.rowOf[x], j) {
      assert Before(p.rowOf[x], j, |m|, 0);
    }
    DoneRowColsAll(m, a, p, nc, x);
  }

  lemma DoneRowColsIn(n: nat, m: CoverMatrix, a: Arena, p: Progress, nc: nat, x: nat)
    requires n >= 1 && a.Sized() && Rect(m, nc) && NodesBuilt(n, m, a, p, nc, |m|, 0)
    requires RowsBuilt(a, p, nc, |m|, |a.L|) && nc < x < |a.L|
    requires forall y :: nc < y < |a.L| ==> p.end[y] <= |a.L|
    ensures p.rowOf[x] < |m| && NodeCols(Shape(nc, p.first, p.end), a.C, x) <= EntryCols(m, p.rowOf[x], nc)
  {
    var sh := Shape(nc, p.first, p.end);
    var i := p.rowOf[x];
    forall h | h in NodeCols(sh, a.C, x) ensures h in EntryCols(m, i, nc) {
      var y :| p.first[x] <= y < p.end[x] && a.C[y] == h;
      assert p.rowOf[y] == i;
      assert m[i][h - 1];
    }
  }

  lemma DoneRowColsAll(m: CoverMatrix, a: Arena, p: Progress, nc: nat, x: nat)
    requires a.Sized() && Rect(m, nc) && |p.rowOf| == |a.L| && |p.first| == |a.L| && |p.end| == |a.L|
    requires nc < x < |a.L| && p.rowOf[x] < |m| && p.end[x] <= |a.L|
    requires forall j :: 0 <= j < nc && m[p.rowOf[x]][j] ==> HasNode(nc, |a.L|, p.rowOf, a.C, p.rowOf[x], j)
    requires forall y :: nc < y < |a.L| && p.rowOf[y] == p.rowOf[x] ==> p.first[x] <= y < p.end[x]
    ensures EntryCols(m, p.rowOf[x], nc) <= NodeCols(Shape(nc, p.first, p.end), a.C, x)
  {
    var sh := Shape(nc, p.first, p.end);
    var i := p.rowOf[x];
    forall h | h in EntryCols(m, i, nc) ensures h in NodeCols(sh, a.C, x) {
      var j :| 0 <= j < nc && m[i][j] && h == j + 1;
      assert HasNode(nc, |a.L|, p.rowOf, a.C, i, j);
      var y :| nc < y < |a.L| && y < |p.rowOf| && y < |a.C| && p.rowOf[y] == i && a.C[y] as int - 1 == j;
      assert p.first[x] <= y < p.end[x];
    }
  }

  /** Every finished row carries its matrix row's columns. */
  lemma DoneAllRowCols(n: nat, m: CoverMatrix, a: Arena, p: Progress, nc: nat)
    requires n >= 1 && a.Sized() && Rect(m, nc) && NodesBuilt(n, m, a, p, nc, |m|, 0)
    requires RowsBuilt(a, p, nc, |m|, |a.L|)
    ensures forall x :: nc < x < |a.L| ==>
      p.rowOf[x] < |m| && NodeCols(Shape(nc, p.first, p.end), a.C, x) == EntryCols(m, p.rowOf[x], nc)
  {
    forall x | nc < x < |a.L|
      ensures p.rowOf[x] < |m| && NodeCols(Shape(nc, p.first, p.end), a.C, x) == EntryCols(m, p.rowOf[x], nc)
    {
      DoneRowCols(n, m, a, p, nc, x);
    }
  }

  /** Every matrix row with a true entry has a node. */
  lemma DoneAllPresent(n: nat, m: CoverMatrix, a: Arena, p: Progress, nc: nat)
    requires n >= 1 && a.Sized() && Rect(m, nc) && NodesBuilt(n, m, a, p, nc, |m|, 0)
    ensures forall i :: 0 <= i < |m| && EntryCols(m, i, nc) != {} ==> RowHasNode(nc, |a.L|, p.rowOf, i)
  {
    forall i | 0 <= i < |m| && EntryCols(m, i, nc) != {} ensures RowHasNode(nc, |a.L|, p.rowOf, i) {
      var h :| h in EntryCols(m, i, nc);
      var j :| 0 <= j < nc && m[i][j] && h == j + 1;
      assert Before(i, j, |m|, 0);
      assert HasNode(nc, |a.L|, p.rowOf, a.C, i, j);
    }
  }

  /** The finished fabric stands for the matrix it was built from. */
  lemma BuiltRepresents(n: nat, m: CoverMatrix, a: Arena, p: Progress, nc: nat, L0: nat, rs: nat)
    requires Built(n, m, a, p, nc, L0, |m|, 0, rs) == true
    ensures StaticOK(Shape(nc, p.first, p.end), a.(L := a.L[Root := nc]))
    ensures Represents(n, m, a, Shape(nc, p.first, p.end), p.rowOf)
  {
    DoneNoOpenRow(n, m, a, p, nc, L0, rs);
    DoneRows(a, p, nc, L0, |m|, rs);
    DoneColumns(n, m, a, p, nc, L0, rs);
    DoneAllRowCols(n, m, a, p, nc);
    DoneAllPresent(n, m, a, p, nc);
    DoneRowOrder(n, m, a, p, nc);
  }

  /** Nodes are made in matrix-row order. */
  lemma DoneRowOrder(n: nat, m: CoverMatrix, a: Arena, p: Progress, nc: nat)
    requires n >= 1 && a.Sized() && NodesBuilt(n, m, a, p, nc, |m|, 0)
    ensures forall x, y :: nc < x < y < |a.L| ==> p.rowOf[x] <= p.rowOf[y]
  {
    forall x, y | nc < x < y < |a.L| ensures p.rowOf[x] <= p.rowOf[y] {
      assert Before(p.rowOf[x], a.C[x] - 1, p.rowOf[y], a.C[y] - 1);
    }
  }

  /** The builder's state between two matrix entries: the arena, the ghost
      bookkeeping, and the first node of the row under way. */
  datatype Stage = Stage(a: Arena, p: Progress, rs: nat)

  /** A stage in which a node can be attached in the column of header `top`. */
  ghost predicate Fits(s: Stage, top: nat)
  {
    && s.a.Sized() && top < |s.a.L| && s.a.U[top] < |s.a.L|
    && s.rs <= |s.a.L| && |s.p.end| == |s.a.L| && top < |s.p.col|
  }

  /** What entry (i, j) does to a stage: a true entry gets a node in column
      j + 1, closing the row's ring through it; a false one changes nothing. */
  ghost function Step(n: nat, m: CoverMatrix, s: Stage, i: nat, j: nat): Stage
    requires n >= 1 && i < |m| && j < |m[i]|
  {
    if !m[i][j] || !Fits(s, j + 1) then s
    else
      var x := |s.a.L|;
      var q, f := if s.rs == x then x else x - 1, if s.rs == x then x else s.rs;
      Stage(Attached(s.a, j + 1, q, f, Triple(n, i)), Grown(s.p, x, i, s.rs, j + 1), s.rs)
  }

  /** The stage the builder reaches, from the headers `a0`, just before
      entry (i, j). */
  ghost function Upto(n: nat, m: CoverMatrix, nc: nat, a0: Arena, i: nat, j: nat): Stage
    requires n >= 1 && Rect(m, nc) && i <= |m| && j <= nc && (i == |m| ==> j == 0)
    decreases i, j
  {
    if j > 0 then Step(n, m, Upto(n, m, nc, a0, i, j - 1), i, j - 1)
    else if i > 0 then
      var s := Upto(n, m, nc, a0, i - 1, nc);
      Stage(s.a, s.p, |s.a.L|)
    else Stage(a0, Start(nc), nc + 1)
  }

  /** The arena right after the headers are made: the header ring closed on
      the right, every column ring empty. */
  ghost predicate Fresh(a0: Arena, nc: nat, L0: nat)
  {
    && HeadersBuilt(a0, nc, L0) && |a0.L| == nc + 1
    && forall h :: 1 <= h <= nc ==> a0.D[h] == h && a0.U[h] == h && a0.S[h] == 0
  }

  /** Every stage the builder reaches keeps the builder's invariant. */
  lemma UptoBuilt(n: nat, m: CoverMatrix, nc: nat, L0: nat, a0: Arena, i: nat, j: nat)
    requires n >= 1 && Rect(m, nc) && i <= |m| && j <= nc && (i == |m| ==> j == 0) && Fresh(a0, nc, L0) == true
    ensures var s := Upto(n, m, nc, a0, i, j); Built(n, m, s.a, s.p, nc, L0, i, j, s.rs) == true
  {
    if i == |m| {
      RowStartBuilt(n, m, nc, L0, a0, i);
    } else {
      WithinRowBuilt(n, m, nc, L0, a0, i, j);
    }
  }

  /** The stage at the start of row i keeps the builder's invariant. */
  lemma {:induction false} RowStartBuilt(n: nat, m: CoverMatrix, nc: nat, L0: nat, a0: Arena, i: nat)
    requires n >= 1 && Rect(m, nc) && i <= |m| && Fresh(a0, nc, L0) == true
    ensures var s := Upto(n, m, nc, a0, i, 0); Built(n, m, s.a, s.p, nc, L0, i, 0, s.rs) == true
    decreases i, 0, 0
  {
    if i == 0 {
      UptoStartBuilt(n, m, nc, L0, a0);
    } else {
      WithinRowBuilt(n, m, nc, L0, a0, i - 1, nc);
      UptoRowBuilt(n, m, nc, L0, a0, i);
    }
  }

  /** The stages inside row i keep the builder's invariant. */
  lemma {:induction false} WithinRowBuilt(n: nat, m: CoverMatrix, nc: nat, L0: nat, a0: Arena, i: nat, j: nat)
    requires n >= 1 && Rect(m, nc) && i < |m| && j <= nc && Fresh(a0, nc, L0) == true
    ensures var s := Upto(n, m, nc, a0, i, j); Built(n, m, s.a, s.p, nc, L0, i, j, s.rs) == true
    decreases i, 1, j
  {
    if j == 0 {
      RowStartBuilt(n, m, nc, L0, a0, i);
    } else {
      WithinRowBuilt(n, m, nc, L0, a0, i, j - 1);
      UptoStepBuilt(n, m, nc, L0, a0, i, j);
    }
  }

  lemma UptoStartBuilt(n: nat, m: CoverMatrix, nc: nat, L0: nat, a0: Arena)
    requires n >= 1 && Rect(m, nc) && Fresh(a0, nc, L0) == true
    ensures var s := Upto(n, m, nc, a0, 0, 0); Built(n, m, s.a, s.p, nc, L0, 0, 0, s.rs) == true
  {
    BuiltStart(n, m, a0, nc, L0);
  }

  lemma UptoStepBuilt(n: nat, m: CoverMatrix, nc: nat, L0: nat, a0: Arena, i: nat, j: nat)
    requires n >= 1 && Rect(m, nc) && i < |m| && 0 < j <= nc
    requires var s := Upto(n, m, nc, a0, i, j - 1); Built(n, m, s.a, s.p, nc, L0, i, j - 1, s.rs) == true
    ensures var t := Upto(n, m, nc, a0, i, j); Built(n, m, t.a, t.p, nc, L0, i, j, t.rs) == true
  {
    UptoNext(n, m, nc, a0, i, j - 1);
    StepBuilt(n, m, nc, L0, Upto(n, m, nc, a0, i, j - 1), Upto(n, m, nc, a0, i, j), i, j - 1);
  }

  lemma UptoRowBuilt(n: nat, m: CoverMatrix, nc: nat, L0: nat, a0: Arena, i: nat)
    requires n >= 1 && Rect(m, nc) && 0 < i <= |m|
    requires var s := Upto(n, m, nc, a0, i - 1, nc); Built(n, m, s.a, s.p, nc, L0, i - 1, nc, s.rs) == true
    ensures var t := Upto(n, m, nc, a0, i, 0); Built(n, m, t.a, t.p, nc, L0, i, 0, t.rs) == true
  {
    UptoNewRow(n, m, nc, a0, i);
    RowBuilt(n, m, nc, L0, Upto(n, m, nc, a0, i - 1, nc), Upto(n, m, nc, a0, i, 0), i);
  }

  /** One entry's step keeps the builder's invariant. */
  lemma StepBuilt(n: nat, m: CoverMatrix, nc: nat, L0: nat, s: Stage, t: Stage, i: nat, j: nat)
    requires Built(n, m, s.a, s.p, nc, L0, i, j, s.rs) == true && i < |m| && j < nc && t == Step(n, m, s, i, j)
    ensures Built(n, m, t.a, t.p, nc, L0, i, j + 1, t.rs) == true
  {
    if m[i][j] {
      StepBuiltGrow(n, m, nc, L0, s, t, i, j);
    } else {
      StepSkips(n, m, s, i, j);
      BuiltSkip(n, m, s.a, s.p, nc, L0, i, j, s.rs);
    }
  }

  /** A true entry (i, j): attaching its node keeps the builder's invariant. */
  lemma StepBuiltGrow(n: nat, m: CoverMatrix, nc: nat, L0: nat, s: Stage, t: Stage, i: nat, j: nat)
    requires Built(n, m, s.a, s.p, nc, L0, i, j, s.rs) == true && i < |m| && j < nc && m[i][j] && t == Step(n, m, s, i, j)
    ensures Built(n, m, t.a, t.p, nc, L0, i, j + 1, t.rs) == true
  {
    BuiltLinks(n, m, s.a, s.p, nc, L0, i, j, s.rs, j + 1);
    StepHeaders(n, m, nc, L0, s, t, i, j);
    StepNodes(n, m, nc, s, t, i, j);
    StepRows(n, m, nc, s, t, i, j);
    StepColumns(n, m, nc, s, t, i, j);
  }

  /** The node of a true entry leaves the header ring alone. */
  lemma StepHeaders(n: nat, m: CoverMatrix, nc: nat, L0: nat, s: Stage, t: Stage, i: nat, j: nat)
    requires n >= 1 && Rect(m, nc) && i < |m| && j < nc && m[i][j] && Fits(s, j + 1) && nc < s.rs
    requires HeadersBuilt(s.a, nc, L0) == true && t == Step(n, m, s, i, j)
    ensures HeadersBuilt(t.a, nc, L0) == true
  {
    var x := |s.a.L|;
    var q, f := if s.rs == x then x else x - 1, if s.rs == x then x else s.rs;
    StepShape(n, m, s, t, i, j, q, f);
    AttachHeaders(s.a, nc, L0, j + 1, q, f, Triple(n, i));
  }

  /** The node of a true entry keeps the node invariant, one entry on. */
  lemma StepNodes(n: nat, m: CoverMatrix, nc: nat, s: Stage, t: Stage, i: nat, j: nat)
    requires n >= 1 && Rect(m, nc) && i < |m| && j < nc && m[i][j] && Fits(s, j + 1) && nc < |s.a.L|
    requires NodesBuilt(n, m, s.a, s.p, nc, i, j) == true && t == Step(n, m, s, i, j)
    ensures t.a.Sized() && NodesBuilt(n, m, t.a, t.p, nc, i, j + 1) == true
  {
    var x := |s.a.L|;
    var q, f := if s.rs == x then x else x - 1, if s.rs == x then x else s.rs;
    StepShape(n, m, s, t, i, j, q, f);
    NodesGrow(n, m, s.a, t.a, s.p, t.p, nc, i, j);
  }

  /** The node of a true entry closes the row's ring through it. */
  lemma StepRows(n: nat, m: CoverMatrix, nc: nat, s: Stage, t: Stage, i: nat, j: nat)
    requires n >= 1 && Rect(m, nc) && i < |m| && j < nc && m[i][j] && Fits(s, j + 1)
    requires |s.p.rowOf| == |s.a.L| && RowsBuilt(s.a, s.p, nc, i, s.rs) == true && t == Step(n, m, s, i, j)
    ensures t.a.Sized() && |t.p.rowOf| == |t.a.L| && RowsBuilt(t.a, t.p, nc, i, t.rs) == true
  {
    var x := |s.a.L|;
    var q, f := if s.rs == x then x else x - 1, if s.rs == x then x else s.rs;
    StepShape(n, m, s, t, i, j, q, f);
    GrownRowsHold(s.p, |s.a.L|, i, s.rs, j + 1);
    RowsGrow(s.a, t.a, s.p, t.p, nc, i, s.rs, q, f);
  }

  /** The node of a true entry joins its column's ring as the last member. */
  lemma StepColumns(n: nat, m: CoverMatrix, nc: nat, s: Stage, t: Stage, i: nat, j: nat)
    requires n >= 1 && Rect(m, nc) && i < |m| && j < nc && m[i][j] && Fits(s, j + 1)
    requires ColumnsBuilt(m, s.a, s.p, nc, i, j) == true && t == Step(n, m, s, i, j)
    ensures t.a.Sized() && ColumnsBuilt(m, t.a, t.p, nc, i, j + 1) == true
  {
    var x := |s.a.L|;
    var q, f := if s.rs == x then x else x - 1, if s.rs == x then x else s.rs;
    StepShape(n, m, s, t, i, j, q, f);
    ColumnsGrow(m, s.a, t.a, s.p, t.p, nc, i, j);
  }

  /** The stage after a true entry, link array by link array. */
  lemma StepShape(n: nat, m: CoverMatrix, s: Stage, t: Stage, i: nat, j: nat, q: nat, f: nat)
    requires n >= 1 && i < |m| && j < |m[i]| && m[i][j] && Fits(s, j + 1) && t == Step(n, m, s, i, j)
    requires var x := |s.a.L|; q == (if s.rs == x then x else x - 1) && f == (if s.rs == x then x else s.rs)
    ensures var a, a', x := s.a, t.a, |s.a.L|;
      && t.a == Attached(a, j + 1, q, f, Triple(n, i)) && t.p == Grown(s.p, x, i, s.rs, j + 1) && t.rs == s.rs
      && a'.Sized() && |a'.L| == x + 1
      && a'.L == (a.L + [q])[f := x] && a'.R == (a.R + [f])[q := x]
      && a'.U == (a.U + [a.U[j + 1]])[j + 1 := x] && a'.D == GrownDown(a.D, a.U, j + 1, x)
      && a'.C == a.C + [j + 1] && a'.S == (a.S + [0])[j + 1 := a.S[j + 1] + 1] && a'.Data == a.Data + [Triple(n, i)]
      && t.p.rowOf == s.p.rowOf + [i] && t.p.col == s.p.col[j + 1 := s.p.col[j + 1] + [x]]
  {
    StepGrows(n, m, s, i, j);
  }

  /** Finishing a row keeps the builder's invariant for the next one. */
  lemma RowBuilt(n: nat, m: CoverMatrix, nc: nat, L0: nat, s: Stage, t: Stage, i: nat)
    requires 0 < i <= |m| && Built(n, m, s.a, s.p, nc, L0, i - 1, nc, s.rs) == true && t == Stage(s.a, s.p, |s.a.L|)
    ensures Built(n, m, t.a, t.p, nc, L0, i, 0, t.rs) == true
  {
    BuiltNextRow(n, m, s.a, s.p, nc, L0, i, s.rs);
  }

  /** The stage after entry (i, j) is that entry's step on the stage before it. */
  lemma UptoNext(n: nat, m: CoverMatrix, nc: nat, a0: Arena, i: nat, j: nat)
    requires n >= 1 && Rect(m, nc) && i < |m| && j < nc
    ensures Upto(n, m, nc, a0, i, j + 1) == Step(n, m, Upto(n, m, nc, a0, i, j), i, j)
  {
  }

  /** A new row starts from the stage the last one ended in. */
  lemma UptoNewRow(n: nat, m: CoverMatrix, nc: nat, a0: Arena, i: nat)
    requires n >= 1 && Rect(m, nc) && 0 < i <= |m|
    ensures var s := Upto(n, m, nc, a0, i - 1, nc); Upto(n, m, nc, a0, i, 0) == Stage(s.a, s.p, |s.a.L|)
  {
  }

  /** A false entry's step changes nothing. */
  lemma StepSkips(n: nat, m: CoverMatrix, s: Stage, i: nat, j: nat)
    requires n >= 1 && i < |m| && j < |m[i]| && !m[i][j]
    ensures Step(n, m, s, i, j) == s
  {
  }

  /** A true entry's step on a stage that can take the node attaches it. */
  lemma StepGrows(n: nat, m: CoverMatrix, s: Stage, i: nat, j: nat)
    requires n >= 1 && i < |m| && j < |m[i]| && m[i][j] && Fits(s, j + 1)
    ensures var x := |s.a.L|;
      && Step(n, m, s, i, j).a == Attached(s.a, j + 1, if s.rs == x then x else x - 1, if s.rs == x then x else s.rs, Triple(n, i))
      && Step(n, m, s, i, j).p == Grown(s.p, x, i, s.rs, j + 1)
      && Step(n, m, s, i, j).rs == s.rs
  {
  }

  /** What the builder's loops need to know of the stage before entry
      (i, j): it is sized, the header ring leads from j to the next column's
      header, that column can take a node, and a row under way ends in a node
      linked back to the row's first. */
  ghost predicate Ready(s: Stage, nc: nat, j: nat)
  {
    && s.a.Sized() && nc < |s.a.L| && s.rs <= |s.a.L| && j <= nc
    && s.a.R[j] == (if j == nc then Root else j + 1)
    && (j < nc ==> Fits(s, j + 1))
    && (s.rs < |s.a.L| ==> s.a.R[|s.a.L| - 1] == s.rs)
  }

  /** The header ring leads from header j to the next column's header. */
  lemma HeadersReady(a: Arena, nc: nat, L0: nat, j: nat)
    requires HeadersBuilt(a, nc, L0) && j <= nc
    ensures a.Sized() && nc < |a.L| && a.R[j] == (if j == nc then Root else j + 1)
  {
  }

  /** A row under way ends in a node whose right link returns to its first. */
  lemma RowsReady(a: Arena, p: Progress, nc: nat, i: nat, rs: nat)
    requires a.Sized() && |p.rowOf| == |a.L| && RowsBuilt(a, p, nc, i, rs)
    ensures rs <= |a.L| && |p.end| == |a.L|
    ensures rs < |a.L| ==> a.R[|a.L| - 1] == rs
  {
  }

  /** Header h's up link names a node or the header itself. */
  lemma ColumnReady(m: CoverMatrix, a: Arena, p: Progress, nc: nat, i: nat, j: nat, h: nat)
    requires a.Sized() && i <= |m| && ColumnsBuilt(m, a, p, nc, i, j) && 1 <= h <= nc
    ensures a.U[h] < |a.L| && h < |p.col|
  {
    ColumnFacts(m, a, p, nc, i, j, h);
    var l := p.col[h];
    if |l| > 0 {
      assert a.U[h] == l[|l| - 1] && l[|l| - 1] in l;
    }
  }

  /** A stage that keeps the builder's invariant is ready. */
  lemma StageReady(n: nat, m: CoverMatrix, nc: nat, L0: nat, s: Stage, i: nat, j: nat)
    requires HeadersBuilt(s.a, nc, L0) && j <= nc && i <= |m| && |s.p.rowOf| == |s.a.L|
    requires RowsBuilt(s.a, s.p, nc, i, s.rs) && ColumnsBuilt(m, s.a, s.p, nc, i, j)
    ensures Ready(s, nc, j)
  {
    HeadersReady(s.a, nc, L0, j);
    RowsReady(s.a, s.p, nc, i, s.rs);
    if j < nc {
      ColumnReady(m, s.a, s.p, nc, i, j, j + 1);
    }
  }

  /** Every stage the builder reaches is ready; at the start of a row no row
      is under way. */
  lemma UptoReady(n: nat, m: CoverMatrix, nc: nat, L0: nat, a0: Arena, i: nat, j: nat)
    requires n >= 1 && Rect(m, nc) && i <= |m| && j <= nc && (i == |m| ==> j == 0) && Fresh(a0, nc, L0)
    ensures Ready(Upto(n, m, nc, a0, i, j), nc, j)
    ensures j == 0 ==> Upto(n, m, nc, a0, i, j).rs == |Upto(n, m, nc, a0, i, j).a.L|
  {
    UptoBuilt(n, m, nc, L0, a0, i, j);
    StageReady(n, m, nc, L0, Upto(n, m, nc, a0, i, j), i, j);
  }

  /** Where the builder ends up: with the root's left link set to the last
      header, a linked, exact fabric that stands for the matrix. */
  lemma UptoDone(n: nat, m: CoverMatrix, nc: nat, L0: nat, a0: Arena)
    requires n >= 1 && Rect(m, nc) && Fresh(a0, nc, L0)
    ensures var s := Upto(n, m, nc, a0, |m|, 0);
      var sh, v := Shape(nc, s.p.first, s.p.end), View(HeaderList(nc), s.p.col);
      && s.a.Sized() && nc < |s.a.L| && s.a.L[Root] == L0
      && Linked(sh, s.a.(L := s.a.L[Root := nc]), v) && Exact(sh, s.a.C, v)
      && Represents(n, m, s.a, sh, s.p.rowOf)
      && s.a.S[Root] == -1 && (forall h :: 1 <= h <= nc ==> Increasing(s.p.col[h]))
  {
    UptoBuilt(n, m, nc, L0, a0, |m|, 0);
    var s := Upto(n, m, nc, a0, |m|, 0);
    BuiltDone(n, m, s.a, s.p, nc, L0, s.rs);
    BuiltRepresents(n, m, s.a, s.p, nc, L0, s.rs);
    forall h | 1 <= h <= nc ensures Increasing(s.p.col[h]) {
      ColumnFacts(m, s.a, s.p, nc, |m|, 0, h);
    }
  }
}
