/** Choosing a row: covering, one after another, the columns met walking right
    around a row (the search, sudoku.cpp:110-112, and the clue application,
    sudoku.cpp:309-315), and undoing that by uncovering them walking left
    (sudoku.cpp:116-120). Also the bookkeeping of which columns the chosen
    rows account for. */
module Choose {
  import opened Rings
  import opened Arena
  import opened Cover

  /** The links are described by a view, and the view is exact. */
  ghost predicate Consistent(sh: Shape, a: Arena, v: View)
  {
    Linked(sh, a, v) && Exact(sh, a.C, v)
  }

  /** Covering an active column from a consistent state gives a consistent
      state whose header ring has lost exactly that column. */
  lemma CoverStep(sh: Shape, a: Arena, v: View, c: nat)
    requires CoverReady(sh, a, v, c)
    ensures c < |v.col| && AllInRow(sh, v.col[c])
    ensures Consistent(sh, ApplyAll(a, CoverOps(sh, v, c)), CoveredView(sh, a, v, c))
    ensures forall y :: y in CoveredView(sh, a, v, c).hs <==> y in v.hs && y != c
    ensures CoveredView(sh, a, v, c).col[c] == v.col[c]
  {
    CoverEffect(sh, a, v, c);
  }

  /** One cover: from (a, v), covering c gives (a', v'). */
  ghost predicate ChainStep(sh: Shape, a: Arena, v: View, c: nat, a': Arena, v': View)
  {
    && CoverReady(sh, a, v, c)
    && c < |v.col| && AllInRow(sh, v.col[c])
    && a' == ApplyAll(a, CoverOps(sh, v, c))
    && v' == CoveredView(sh, a, v, c)
  }

  /** `st[j + 1]` is `st[j]` with column `cols[j]` covered; every state is
      consistent, and the node layout and triples never change. */
  ghost predicate CoverChain(sh: Shape, st: seq<Arena>, vw: seq<View>, cols: seq<nat>)
  {
    && |st| == |cols| + 1 && |vw| == |cols| + 1
    && Consistent(sh, st[|cols|], vw[|cols|])
    && (forall j :: 0 <= j < |st| ==> st[j].C == st[0].C && st[j].Data == st[0].Data && |st[j].L| == |st[0].L|)
    && (forall j :: 0 <= j < |cols| ==> ChainStep(sh, st[j], vw[j], cols[j], st[j + 1], vw[j + 1]))
  }

  /** A chain extended by one more cover of an active column. */
  lemma ChainSnoc(sh: Shape, st: seq<Arena>, vw: seq<View>, cols: seq<nat>, c: nat)
    requires CoverChain(sh, st, vw, cols) == true
    requires c in vw[|cols|].hs
    ensures var a, v := st[|cols|], vw[|cols|];
            && c < |v.col| && AllInRow(sh, v.col[c])
            && CoverChain(sh, st + [ApplyAll(a, CoverOps(sh, v, c))], vw + [CoveredView(sh, a, v, c)], cols + [c])
            && forall y :: y in CoveredView(sh, a, v, c).hs <==> y in v.hs && y != c
  {
    var a, v := st[|cols|], vw[|cols|];
    assert CoverReady(sh, a, v, c);
    CoverStep(sh, a, v, c);
    var st', vw', cols' := st + [ApplyAll(a, CoverOps(sh, v, c))], vw + [CoveredView(sh, a, v, c)], cols + [c];
    forall j | 0 <= j < |cols'|
      ensures ChainStep(sh, st'[j], vw'[j], cols'[j], st'[j + 1], vw'[j + 1])
    {
      if j < |cols| {
        assert ChainStep(sh, st[j], vw[j], cols[j], st[j + 1], vw[j + 1]);
      }
    }
  }

  /** The columns of the nodes of a walk, in walk order. */
  ghost function ColsOf(cs: seq<nat>, w: seq<nat>): (r: seq<nat>)
    requires forall i :: 0 <= i < |w| ==> w[i] < |cs|
    ensures |r| == |w| && forall i :: 0 <= i < |w| ==> r[i] == cs[w[i]]
  {
    seq(|w|, i requires 0 <= i < |w| => cs[w[i]])
  }

  /** The walk's columns are those of x's row other than x's own. */
  lemma ColsOfWalk(sh: Shape, cs: seq<nat>, x: nat)
    requires RowShape(sh, |cs|, cs) && sh.nc < x < |cs|
    ensures InRow(sh, x)
    ensures forall i :: 0 <= i < |RightWalk(sh, x)| ==> RightWalk(sh, x)[i] < |cs|
    ensures forall h :: h in ColsOf(cs, RightWalk(sh, x)) <==> h in RowCols(sh, cs, x) && h != cs[x]
    ensures Distinct(ColsOf(cs, RightWalk(sh, x)))
  {
    var w := RightWalk(sh, x);
    RightWalkMembers(sh, x);
    var cols := ColsOf(cs, w);
    forall h | h in RowCols(sh, cs, x) && h != cs[x] ensures h in cols {
      var y :| sh.first[x] <= y < sh.end[x] && cs[y] == h;
      assert y in w;
      var i :| 0 <= i < |w| && w[i] == y;
      assert cols[i] == h;
    }
    forall h | h in cols ensures h in RowCols(sh, cs, x) && h != cs[x] {
      var i :| 0 <= i < |cols| && cols[i] == h;
      assert w[i] in w;
      RowColumnsDiffer(sh, cs, x, w[i]);
    }
    forall i, j | 0 <= i < j < |cols| ensures cols[i] != cols[j] {
      assert w[i] in w && w[j] in w;
      RowColumnsDiffer(sh, cs, w[i], w[j]);
    }
  }

  /** In a consistent state the row ring of a node is intact. */
  lemma RowRingAt(sh: Shape, a: Arena, v: View, x: nat)
    requires Consistent(sh, a, v) && IsNode(sh, a, x)
    ensures InRow(sh, x)
    ensures IsRing(a.R, a.L, x, RightWalk(sh, x))
  {
    RowRing(sh, a, x);
  }

  /** Every state of a chain from x's row has that row's ring intact. */
  lemma ChainRowRing(sh: Shape, st: seq<Arena>, vw: seq<View>, cols: seq<nat>, x: nat, j: nat)
    requires CoverChain(sh, st, vw, cols) == true && j < |st| && IsNode(sh, st[0], x)
    ensures InRow(sh, x)
    ensures IsRing(st[j].R, st[j].L, x, RightWalk(sh, x)) == true
  {
    if j < |cols| {
      assert ChainStep(sh, st[j], vw[j], cols[j], st[j + 1], vw[j + 1]);
      assert Consistent(sh, st[j], vw[j]);
    }
    RowRingAt(sh, st[j], vw[j], x);
  }

  /** The columns of the walk right from x are active when the other columns
      of x's row are. */
  lemma OthersActive(sh: Shape, a: Arena, v: View, x: nat)
    requires Consistent(sh, a, v) && IsNode(sh, a, x)
    requires forall y :: sh.first[x] <= y < sh.end[x] && y != x ==> a.C[y] in v.hs
    ensures InRow(sh, x) && forall i :: 0 <= i < |RightWalk(sh, x)| ==> RightWalk(sh, x)[i] < |a.C|
    ensures forall i :: 0 <= i < |RightWalk(sh, x)| ==> ColsOf(a.C, RightWalk(sh, x))[i] in v.hs
  {
    assert RowShape(sh, |a.C|, a.C);
    ColsOfWalk(sh, a.C, x);
  }

  lemma SnocSlice(s: seq<nat>)
    requires |s| > 0
    ensures s[..|s| - 1] + [s[|s| - 1]] == s
  {
  }

  /** A chain covering, in order, distinct active columns. */
  lemma {:induction false} BuildChain(sh: Shape, a: Arena, v: View, cols: seq<nat>)
    returns (st: seq<Arena>, vw: seq<View>)
    requires Consistent(sh, a, v) && Distinct(cols)
    requires forall i :: 0 <= i < |cols| ==> cols[i] in v.hs
    ensures CoverChain(sh, st, vw, cols) == true && st[0] == a && vw[0] == v
    ensures forall h :: h in vw[|cols|].hs <==> h in v.hs && h !in cols
    decreases |cols|
  {
    if |cols| == 0 {
      st, vw := [a], [v];
    } else {
      var k := |cols| - 1;
      DistinctPrefix(cols);
      st, vw := BuildChain(sh, a, v, cols[..k]);
      st, vw := ExtendChain(sh, a, v, cols, st, vw);
    }
  }

  /** Dropping the last column of a repetition-free list leaves one without
      that column. */
  lemma DistinctPrefix(cols: seq<nat>)
    requires Distinct(cols) && |cols| > 0
    ensures Distinct(cols[..|cols| - 1]) && cols[|cols| - 1] !in cols[..|cols| - 1]
  {
    var k := |cols| - 1;
    forall i, j | 0 <= i < j < k ensures cols[..k][i] != cols[..k][j] {
      assert cols[i] != cols[j];
    }
    forall i | 0 <= i < k ensures cols[..k][i] != cols[k] {
      assert cols[i] != cols[k];
    }
  }

  /** A chain for all but the last column, extended by covering the last. */
  lemma ExtendChain(sh: Shape, a: Arena, v: View, cols: seq<nat>, st0: seq<Arena>, vw0: seq<View>)
    returns (st: seq<Arena>, vw: seq<View>)
    requires |cols| > 0 && cols[|cols| - 1] in v.hs && cols[|cols| - 1] !in cols[..|cols| - 1]
    requires CoverChain(sh, st0, vw0, cols[..|cols| - 1]) == true && st0[0] == a && vw0[0] == v
    requires forall h :: h in vw0[|cols| - 1].hs <==> h in v.hs && h !in cols[..|cols| - 1]
    ensures CoverChain(sh, st, vw, cols) == true && st[0] == a && vw[0] == v
    ensures forall h :: h in vw[|cols|].hs <==> h in v.hs && h !in cols
  {
    var k := |cols| - 1;
    var c := cols[k];
    ChainSnoc(sh, st0, vw0, cols[..k], c);
    SnocSlice(cols);
    var a1, v1 := st0[k], vw0[k];
    st, vw := st0 + [ApplyAll(a1, CoverOps(sh, v1, c))], vw0 + [CoveredView(sh, a1, v1, c)];
  }

  /** What step j of the walk right from x needs: the column of the j-th node
      is active in the j-th state, covering it gives the next state, and that
      state still links the j-th node to the next one of the walk. */
  lemma CoverOthersStep(sh: Shape, st: seq<Arena>, vw: seq<View>, x: nat, j: nat)
    requires |st| > 0 && IsNode(sh, st[0], x) && InRow(sh, x)
    requires forall i :: 0 <= i < |RightWalk(sh, x)| ==> RightWalk(sh, x)[i] < |st[0].C|
    requires CoverChain(sh, st, vw, ColsOf(st[0].C, RightWalk(sh, x))) == true
    requires j < |RightWalk(sh, x)|
    ensures var w := RightWalk(sh, x);
            && w[j] < |st[j].C| && CoverReady(sh, st[j], vw[j], st[j].C[w[j]]) == true
            && st[j + 1] == ApplyAll(st[j], CoverOps(sh, vw[j], st[j].C[w[j]]))
            && st[j + 1].R[w[j]] == (if j + 1 < |w| then w[j + 1] else x)
  {
    var w := RightWalk(sh, x);
    var cols := ColsOf(st[0].C, w);
    assert ChainStep(sh, st[j], vw[j], cols[j], st[j + 1], vw[j + 1]);
    ChainRowRing(sh, st, vw, cols, x, j + 1);
    RingNeighbours(st[j + 1].R, st[j + 1].L, x, w, j);
  }

  /** What step j of the walk left from x needs: the column of the (j-1)-th
      node was covered from the (j-1)-th state, and that state links the node
      back to the one before it. */
  lemma UncoverOthersStep(sh: Shape, st: seq<Arena>, vw: seq<View>, x: nat, j: nat)
    requires |st| > 0 && IsNode(sh, st[0], x) && InRow(sh, x)
    requires forall i :: 0 <= i < |RightWalk(sh, x)| ==> RightWalk(sh, x)[i] < |st[0].C|
    requires CoverChain(sh, st, vw, ColsOf(st[0].C, RightWalk(sh, x))) == true
    requires 0 < j <= |RightWalk(sh, x)|
    ensures var w := RightWalk(sh, x);
            && w[j - 1] < |st[j].C| && st[j].C[w[j - 1]] == st[j - 1].C[w[j - 1]]
            && CoverReady(sh, st[j - 1], vw[j - 1], st[j].C[w[j - 1]]) == true
            && st[j].C[w[j - 1]] < |vw[j - 1].col| && AllInRow(sh, vw[j - 1].col[st[j].C[w[j - 1]]])
            && st[j] == ApplyAll(st[j - 1], CoverOps(sh, vw[j - 1], st[j].C[w[j - 1]]))
            && st[j - 1].L[w[j - 1]] == (if j > 1 then w[j - 2] else x)
  {
    var w := RightWalk(sh, x);
    var cols := ColsOf(st[0].C, w);
    assert ChainStep(sh, st[j - 1], vw[j - 1], cols[j - 1], st[j], vw[j]);
    ChainRowRing(sh, st, vw, cols, x, j - 1);
    RingNeighbours(st[j - 1].R, st[j - 1].L, x, w, j - 1);
  }

  /** The first link each walk follows from x. */
  lemma OthersStart(sh: Shape, st: seq<Arena>, vw: seq<View>, x: nat)
    requires |st| > 0 && IsNode(sh, st[0], x) && InRow(sh, x)
    requires forall i :: 0 <= i < |RightWalk(sh, x)| ==> RightWalk(sh, x)[i] < |st[0].C|
    requires CoverChain(sh, st, vw, ColsOf(st[0].C, RightWalk(sh, x))) == true
    ensures var w := RightWalk(sh, x);
            && x < |st[0].R| && st[0].R[x] == (if |w| > 0 then w[0] else x)
            && x < |st[|w|].L| && st[|w|].L[x] == (if |w| > 0 then w[|w| - 1] else x)
  {
    var w := RightWalk(sh, x);
    var cols := ColsOf(st[0].C, w);
    ChainRowRing(sh, st, vw, cols, x, 0);
    ChainRowRing(sh, st, vw, cols, x, |w|);
    if |w| > 0 {
      RingNeighbours(st[0].R, st[0].L, x, w, 0);
      RingNeighbours(st[|w|].R, st[|w|].L, x, w, |w| - 1);
    }
  }

  /** Covering the columns of x's row other than x's own column, walking right
      from x (sudoku.cpp:111-112, 314-315). They must all still be active. The
      header ring loses exactly those columns, and the chain of states is
      recorded for the uncovering that follows. */
  method CoverOthers(ghost sh: Shape, a: Arena, ghost v: View, x: nat)
    returns (a': Arena, ghost st: seq<Arena>, ghost vw: seq<View>)
    requires Consistent(sh, a, v) && IsNode(sh, a, x)
    requires forall y :: sh.first[x] <= y < sh.end[x] && y != x ==> a.C[y] in v.hs
    ensures InRow(sh, x) && forall i :: 0 <= i < |RightWalk(sh, x)| ==> RightWalk(sh, x)[i] < |a.C|
    ensures CoverChain(sh, st, vw, ColsOf(a.C, RightWalk(sh, x))) == true
    ensures st[0] == a && vw[0] == v && a' == st[|st| - 1]
    ensures forall h :: h in vw[|vw| - 1].hs <==> h in v.hs && (h == a.C[x] || h !in RowCols(sh, a.C, x))
  {
    ghost var w := RightWalk(sh, x);
    ColsOfWalk(sh, a.C, x);
    ghost var cols := ColsOf(a.C, w);
    OthersActive(sh, a, v, x);
    st, vw := BuildChain(sh, a, v, cols);
    a' := CoverWalk(sh, a, st, vw, x);
  }

  /** The loop of `CoverOthers`: following the chain of states right from x. */
  method CoverWalk(ghost sh: Shape, a: Arena, ghost st: seq<Arena>, ghost vw: seq<View>, x: nat)
    returns (a': Arena)
    requires |st| > 0 && IsNode(sh, st[0], x) && InRow(sh, x)
    requires forall i :: 0 <= i < |RightWalk(sh, x)| ==> RightWalk(sh, x)[i] < |st[0].C|
    requires CoverChain(sh, st, vw, ColsOf(st[0].C, RightWalk(sh, x))) == true && a == st[0]
    ensures a' == st[|st| - 1]
  {
    ghost var w := RightWalk(sh, x);
    OthersStart(sh, st, vw, x);
    a' := a;
    ghost var j := 0;
    var node := a'.R[x];
    while node != x
      invariant 0 <= j <= |w| && a' == st[j]
      invariant node == if j < |w| then w[j] else x
      decreases |w| - j
    {
      CoverOthersStep(sh, st, vw, x, j);
      a' := CoverColumn(sh, a', vw[j], a'.C[node]);
      node := a'.R[node];
      j := j + 1;
    }
  }

  /** Uncovering, walking left from x, the columns a `CoverOthers` from x
      covered (sudoku.cpp:119-120). It restores the state before that cover. */
  method UncoverOthers(ghost sh: Shape, a: Arena, ghost st: seq<Arena>, ghost vw: seq<View>, x: nat)
    returns (a': Arena)
    requires |st| > 0 && IsNode(sh, st[0], x) && InRow(sh, x)
    requires forall i :: 0 <= i < |RightWalk(sh, x)| ==> RightWalk(sh, x)[i] < |st[0].C|
    requires CoverChain(sh, st, vw, ColsOf(st[0].C, RightWalk(sh, x))) == true && a == st[|st| - 1]
    ensures a' == st[0]
  {
    ghost var w := RightWalk(sh, x);
    ghost var j := |w|;
    OthersStart(sh, st, vw, x);
    a' := a;
    var node := a'.L[x];
    while node != x
      invariant 0 <= j <= |w| && a' == st[j]
      invariant node == if j > 0 then w[j - 1] else x
      decreases j
    {
      UncoverOthersStep(sh, st, vw, x, j);
      a' := UncoverColumn(sh, a', st[j - 1], vw[j - 1], a'.C[node]);
      j := j - 1;
      node := a'.L[node];
    }
  }
}
