/** The dancing-links node arena (the `DLXNode` records of sudoku.h stored as
    parallel arrays indexed by node number), its static row structure, an
    abstract view of its dynamic rings, and the primitive splice operations out
    of which covering a column is built. */
module Arena {
  import opened Rings

  /** The `rowData` triple of a node: the Sudoku placement (value, row, col),
      all 1-based. Zero on the root and on column headers. */
  datatype RowData = RowData(value: int, row: int, col: int)

  /** Index 0 is the root; 1..nc are the column headers; the rest are the
      nodes of the matrix, stored row after row.
      `S` is `columnSize`, `Data` is `rowData`. */
  datatype Arena = Arena(L: seq<nat>, R: seq<nat>, U: seq<nat>, D: seq<nat>, C: seq<nat>, S: seq<int>, Data: seq<RowData>)
  {
    predicate Sized()
    {
      |L| == |R| == |U| == |D| == |C| == |S| == |Data|
    }
  }

  const Root: nat := 0

  /** The static layout of a built fabric: the number of column headers, and for
      every node the interval [first, end) of node numbers making up its row. */
  datatype Shape = Shape(nc: nat, first: seq<nat>, end: seq<nat>)

  ghost predicate IsNode(sh: Shape, a: Arena, x: int)
  {
    sh.nc < x < |a.L|
  }

  /** Facts about the row layout that nothing ever changes: every node points
      to a header, each node's row is an interval of node numbers, and the
      columns of a row increase from left to right. */
  ghost predicate RowShape(sh: Shape, size: nat, cs: seq<nat>)
  {
    && sh.nc < size && |cs| == size && |sh.first| == size && |sh.end| == size
    && cs[Root] == Root
    && (forall h :: 1 <= h <= sh.nc ==> cs[h] == h)
    && (forall x :: sh.nc < x < size ==> 1 <= cs[x] <= sh.nc)
    && (forall x :: sh.nc < x < size ==> sh.nc < sh.first[x] <= x < sh.end[x] <= size)
    && (forall x, y :: sh.nc < x < size && sh.first[x] <= y < sh.end[x] ==>
          sh.first[y] == sh.first[x] && sh.end[y] == sh.end[x])
    && (forall x, y :: sh.nc < x < size && x < y < sh.end[x] ==> cs[x] < cs[y])
  }

  /** The row rings: the nodes of one row are linked cyclically, left to right. */
  ghost predicate RowLinks(sh: Shape, size: nat, R: seq<nat>, L: seq<nat>)
    requires |sh.first| == size && |sh.end| == size
  {
    && |R| == size && |L| == size
    && (forall x :: sh.nc < x < size ==> R[x] == (if x + 1 == sh.end[x] then sh.first[x] else x + 1))
    && (forall x :: sh.nc < x < size ==> L[x] == (if x == sh.first[x] then sh.end[x] - 1 else x - 1))
  }

  /** The static facts of a built fabric, which no cover or uncover changes. */
  ghost predicate StaticOK(sh: Shape, a: Arena)
  {
    && a.Sized()
    && RowShape(sh, |a.L|, a.C)
    && RowLinks(sh, |a.L|, a.R, a.L)
  }

  /** Abstract state of the dynamic links: `hs` lists the headers in the root's
      right-ring, and `col[h]` lists the nodes currently in header h's down-ring
      (for a covered header: the ring it had when it was covered). */
  datatype View = View(hs: seq<nat>, col: seq<seq<nat>>)

  /** The root's right-ring is exactly `hs`, a repetition-free list of headers. */
  ghost predicate HeadersOK(sh: Shape, R: seq<nat>, L: seq<nat>, hs: seq<nat>)
  {
    && IsRing(R, L, Root, hs)
    && Distinct(hs)
    && (forall y :: y in hs ==> 1 <= y <= sh.nc)
  }

  /** Header h's down-ring is exactly `l`, its members are distinct nodes of
      column h, and its `columnSize` is the ring's length. */
  ghost predicate ColumnOK(sh: Shape, size: nat, D: seq<nat>, U: seq<nat>, cs: seq<nat>, S: seq<int>, h: nat, l: seq<nat>)
  {
    && IsRing(D, U, h, l)
    && Distinct(l)
    && (forall y :: y in l ==> sh.nc < y < size && y < |cs| && cs[y] == h)
    && h < |S| && S[h] == |l|
  }

  ghost predicate ColumnsOK(sh: Shape, size: nat, D: seq<nat>, U: seq<nat>, cs: seq<nat>, S: seq<int>, col: seq<seq<nat>>)
  {
    && |col| == sh.nc + 1
    && (forall h :: 1 <= h <= sh.nc ==> ColumnOK(sh, size, D, U, cs, S, h, col[h]))
  }

  /** The arena's links are described by the view. */
  ghost predicate Linked(sh: Shape, a: Arena, v: View)
  {
    && StaticOK(sh, a)
    && HeadersOK(sh, a.R, a.L, v.hs)
    && ColumnsOK(sh, |a.L|, a.D, a.U, a.C, a.S, v.col)
  }

  /** Every column of x's row is still in the header ring. */
  ghost predicate Alive(sh: Shape, cs: seq<nat>, hs: seq<nat>, x: nat)
    requires RowShape(sh, |cs|, cs) && sh.nc < x < |cs|
  {
    forall y :: sh.first[x] <= y < sh.end[x] ==> cs[y] in hs
  }

  /** The exact-cover invariant of the search: an active header's ring holds
      exactly the nodes of alive rows in that column. */
  ghost predicate Exact(sh: Shape, cs: seq<nat>, v: View)
    requires RowShape(sh, |cs|, cs) && |v.col| == sh.nc + 1
  {
    && (forall h, x :: 1 <= h <= sh.nc && h in v.hs && x in v.col[h] && sh.nc < x < |cs| ==> Alive(sh, cs, v.hs, x))
    && (forall x :: sh.nc < x < |cs| && Alive(sh, cs, v.hs, x) ==> x in v.col[cs[x]])
  }

  /** The primitive link edits: splicing header h out of the header ring, or
      node x out of its column's ring (which also decrements that column's size). */
  datatype Op = HRemove(h: nat) | VRemove(x: nat)

  ghost predicate OpInRange(a: Arena, op: Op)
  {
    && a.Sized()
    && match op
       case HRemove(h) => h < |a.L| && a.L[h] < |a.L| && a.R[h] < |a.L|
       case VRemove(x) => x < |a.L| && a.U[x] < |a.L| && a.D[x] < |a.L| && a.C[x] < |a.L|
  }

  ghost function ApplyOp(a: Arena, op: Op): (r: Arena)
    ensures r.Sized() == a.Sized() && |r.L| == |a.L| && r.C == a.C && r.Data == a.Data
  {
    if !OpInRange(a, op) then a
    else match op
      case HRemove(h) => a.(R := UnlinkNext(a.R, a.L, h), L := UnlinkPrev(a.R, a.L, h))
      case VRemove(x) =>
        a.(D := UnlinkNext(a.D, a.U, x), U := UnlinkPrev(a.D, a.U, x), S := a.S[a.C[x] := a.S[a.C[x]] - 1])
  }

  ghost function UndoOp(a: Arena, op: Op): Arena
  {
    if !OpInRange(a, op) then a
    else match op
      case HRemove(h) => a.(R := RelinkNext(a.R, a.L, h), L := RelinkPrev(a.R, a.L, h))
      case VRemove(x) =>
        a.(D := RelinkNext(a.D, a.U, x), U := RelinkPrev(a.D, a.U, x), S := a.S[a.C[x] := a.S[a.C[x]] + 1])
  }

  /** What an operation does to the view. */
  ghost function ViewOp(cs: seq<nat>, v: View, op: Op): (r: View)
    ensures |r.col| == |v.col|
  {
    match op
    case HRemove(h) => v.(hs := Without(v.hs, h))
    case VRemove(x) =>
      if x < |cs| && cs[x] < |v.col| then v.(col := v.col[cs[x] := Without(v.col[cs[x]], x)]) else v
  }

  /** A spliced-out target still points at a neighbour other than itself, so
      relinking it touches a different node. */
  ghost predicate PointsAway(a: Arena, op: Op)
  {
    && OpInRange(a, op)
    && match op
       case HRemove(h) => a.L[h] != h
       case VRemove(x) => a.D[x] != x
  }

  /** An operation is allowed when its target is currently linked. */
  ghost predicate OpOK(sh: Shape, a: Arena, v: View, op: Op)
  {
    match op
    case HRemove(h) => h in v.hs
    case VRemove(x) => IsNode(sh, a, x) && x < |a.C| && a.C[x] < |v.col| && x in v.col[a.C[x]]
  }

  /** Splicing a header out of the header ring: the ring loses that header. */
  lemma HeadersRemove(sh: Shape, R: seq<nat>, L: seq<nat>, hs: seq<nat>, h: nat)
    requires HeadersOK(sh, R, L, hs) && h in hs
    ensures h < |R| && h < |L| && L[h] < |R| && R[h] < |L|
    ensures L[h] <= sh.nc && R[h] <= sh.nc
    ensures HeadersOK(sh, UnlinkNext(R, L, h), UnlinkPrev(R, L, h), Without(hs, h))
    ensures R[L[h]] == h && L[R[h]] == h && L[h] != h
  {
    RingRemove(R, L, Root, hs, h);
  }

  /** Splicing a header out of the header ring keeps the arena linked, with the header dropped from the view. */
  lemma HRemoveStep(sh: Shape, a: Arena, v: View, h: nat)
    requires Linked(sh, a, v) && h in v.hs
    ensures OpInRange(a, HRemove(h)) == true
    ensures Linked(sh, ApplyOp(a, HRemove(h)), ViewOp(a.C, v, HRemove(h))) == true
    ensures UndoOp(ApplyOp(a, HRemove(h)), HRemove(h)) == a
    ensures PointsAway(ApplyOp(a, HRemove(h)), HRemove(h)) == true
  {
    HeadersRemove(sh, a.R, a.L, v.hs, h);
    var a' := ApplyOp(a, HRemove(h));
    assert a'.R == a.R[a.L[h] := a.R[h]] && a'.L == a.L[a.R[h] := a.L[h]];
    assert a'.D == a.D && a'.U == a.U && a'.S == a.S;
    assert RowLinks(sh, |a.L|, a'.R, a'.L);
    RelinkUndoesUnlink(a.R, a.L, h);
  }

  /** Splicing a node out of its column's ring: that ring loses the node, every other ring is untouched. */
  lemma ColumnsRemove(sh: Shape, size: nat, D: seq<nat>, U: seq<nat>, cs: seq<nat>, S: seq<int>, col: seq<seq<nat>>, x: nat)
    requires ColumnsOK(sh, size, D, U, cs, S, col)
    requires sh.nc < x < |cs| && 1 <= cs[x] <= sh.nc && x in col[cs[x]]
    ensures x < |D| && x < |U| && U[x] < |D| && D[x] < |U| && cs[x] < |S|
    ensures D[U[x]] == x && U[D[x]] == x && D[x] != x
    ensures ColumnsOK(sh, size, UnlinkNext(D, U, x), UnlinkPrev(D, U, x), cs, S[cs[x] := S[cs[x]] - 1],
                      col[cs[x] := Without(col[cs[x]], x)])
  {
    var h := cs[x];
    var l := col[h];
    assert ColumnOK(sh, size, D, U, cs, S, h, l);
    OwnColumnShrunk(sh, size, D, U, cs, S, h, l, x);
    var p := U[x];
    var q := D[x];
    var D' := UnlinkNext(D, U, x);
    var U' := UnlinkPrev(D, U, x);
    var S' := S[h := S[h] - 1];
    var col' := col[h := Without(l, x)];
    assert D' == D[p := q] && U' == U[q := p];
    forall h2 | 1 <= h2 <= sh.nc ensures ColumnOK(sh, size, D', U', cs, S', h2, col'[h2]) {
      if h2 != h {
        assert ColumnOK(sh, size, D, U, cs, S, h2, col[h2]);
        OtherColumnKept(sh, size, D, U, cs, S, h2, col[h2], h, p, q);
      }
    }
  }

  /** Splicing x out of its own column's ring leaves a ring one shorter. */
  lemma OwnColumnShrunk(sh: Shape, size: nat, D: seq<nat>, U: seq<nat>, cs: seq<nat>, S: seq<int>, h: nat, l: seq<nat>, x: nat)
    requires ColumnOK(sh, size, D, U, cs, S, h, l) && h <= sh.nc && x in l
    ensures x < |D| && x < |U| && U[x] < |D| && D[x] < |U|
    ensures D[U[x]] == x && U[D[x]] == x && D[x] != x
    ensures U[x] == h || (sh.nc < U[x] < |cs| && cs[U[x]] == h)
    ensures D[x] == h || (sh.nc < D[x] < |cs| && cs[D[x]] == h)
    ensures ColumnOK(sh, size, UnlinkNext(D, U, x), UnlinkPrev(D, U, x), cs, S[h := S[h] - 1], h, Without(l, x))
  {
    RingRemove(D, U, h, l, x);
  }

  /** Splicing a node of column h out leaves the ring of another column alone. */
  lemma OtherColumnKept(sh: Shape, size: nat, D: seq<nat>, U: seq<nat>, cs: seq<nat>, S: seq<int>,
                        h2: nat, l2: seq<nat>, h: nat, p: nat, q: nat)
    requires ColumnOK(sh, size, D, U, cs, S, h2, l2) && 1 <= h2 <= sh.nc && h2 != h && h <= sh.nc && h < |S|
    requires p < |D| && q < |U|
    requires p == h || (sh.nc < p < |cs| && cs[p] == h)
    requires q == h || (sh.nc < q < |cs| && cs[q] == h)
    ensures ColumnOK(sh, size, D[p := q], U[q := p], cs, S[h := S[h] - 1], h2, l2)
  {
    forall i | 0 <= i < |l2| ensures l2[i] != p && l2[i] != q {
      assert l2[i] in l2;
    }
    RingFrame(D, U, D[p := q], U[q := p], h2, l2);
  }

  /** Splicing a node out of its column ring keeps the arena linked, with the node dropped from that column's view. */
  lemma VRemoveStep(sh: Shape, a: Arena, v: View, x: nat)
    requires Linked(sh, a, v) && OpOK(sh, a, v, VRemove(x))
    ensures OpInRange(a, VRemove(x)) == true
    ensures Linked(sh, ApplyOp(a, VRemove(x)), ViewOp(a.C, v, VRemove(x))) == true
    ensures UndoOp(ApplyOp(a, VRemove(x)), VRemove(x)) == a
    ensures PointsAway(ApplyOp(a, VRemove(x)), VRemove(x)) == true
  {
    ColumnsRemove(sh, |a.L|, a.D, a.U, a.C, a.S, v.col, x);
    var a' := ApplyOp(a, VRemove(x));
    assert a'.D == UnlinkNext(a.D, a.U, x) && a'.U == UnlinkPrev(a.D, a.U, x) && a'.S == a.S[a.C[x] := a.S[a.C[x]] - 1];
    assert a'.L == a.L && a'.R == a.R;
    RelinkUndoesUnlink(a.D, a.U, x);
  }

  /** One allowed operation keeps the arena linked to the updated view, and undoing it restores the arena exactly. */
  lemma OpStep(sh: Shape, a: Arena, v: View, op: Op)
    requires Linked(sh, a, v) && OpOK(sh, a, v, op)
    ensures OpInRange(a, op)
    ensures Linked(sh, ApplyOp(a, op), ViewOp(a.C, v, op))
    ensures UndoOp(ApplyOp(a, op), op) == a
    ensures PointsAway(ApplyOp(a, op), op)
  {
    match op
    case HRemove(h) => HRemoveStep(sh, a, v, h);
    case VRemove(x) => VRemoveStep(sh, a, v, x);
  }

  /** Applying a list of operations in order. */
  ghost function ApplyAll(a: Arena, ops: seq<Op>): (r: Arena)
    ensures r.Sized() == a.Sized() && |r.L| == |a.L| && r.C == a.C && r.Data == a.Data
    decreases |ops|
  {
    if |ops| == 0 then a else ApplyOp(ApplyAll(a, ops[..|ops| - 1]), ops[|ops| - 1])
  }

  ghost function ViewAll(cs: seq<nat>, v: View, ops: seq<Op>): (r: View)
    ensures |r.col| == |v.col|
    decreases |ops|
  {
    if |ops| == 0 then v else ViewOp(cs, ViewAll(cs, v, ops[..|ops| - 1]), ops[|ops| - 1])
  }

  /** Every operation of the list is allowed in the state its predecessors leave. */
  ghost predicate AllOK(sh: Shape, a: Arena, v: View, ops: seq<Op>)
    decreases |ops|
  {
    |ops| == 0 ||
    (var init := ops[..|ops| - 1];
     AllOK(sh, a, v, init) && OpOK(sh, ApplyAll(a, init), ViewAll(a.C, v, init), ops[|ops| - 1]))
  }

  /** A list of allowed operations keeps the arena linked to the view it computes. */
  lemma {:induction false} AllLinked(sh: Shape, a: Arena, v: View, ops: seq<Op>)
    requires Linked(sh, a, v) && AllOK(sh, a, v, ops)
    ensures Linked(sh, ApplyAll(a, ops), ViewAll(a.C, v, ops))
    decreases |ops|
  {
    if |ops| > 0 {
      var init := ops[..|ops| - 1];
      AllLinked(sh, a, v, init);
      OpStep(sh, ApplyAll(a, init), ViewAll(a.C, v, init), ops[|ops| - 1]);
    }
  }

  /** Prefixes of an allowed list are allowed. */
  lemma {:induction false} AllOKPrefix(sh: Shape, a: Arena, v: View, ops: seq<Op>, k: nat)
    requires AllOK(sh, a, v, ops) && k <= |ops|
    ensures AllOK(sh, a, v, ops[..k])
    decreases |ops|
  {
    if k < |ops| {
      var init := ops[..|ops| - 1];
      assert init[..k] == ops[..k];
      AllOKPrefix(sh, a, v, init, k);
    } else {
      assert ops[..k] == ops;
    }
  }

  /** Undoing the last operation of an allowed list returns the state before it. */
  lemma UndoLast(sh: Shape, a: Arena, v: View, ops: seq<Op>, k: nat)
    requires Linked(sh, a, v) && AllOK(sh, a, v, ops) && k < |ops|
    ensures ApplyAll(a, ops[..k + 1]) == ApplyOp(ApplyAll(a, ops[..k]), ops[k])
    ensures OpInRange(ApplyAll(a, ops[..k]), ops[k])
    ensures UndoOp(ApplyAll(a, ops[..k + 1]), ops[k]) == ApplyAll(a, ops[..k])
    ensures Linked(sh, ApplyAll(a, ops[..k]), ViewAll(a.C, v, ops[..k]))
    ensures PointsAway(ApplyAll(a, ops[..k + 1]), ops[k])
  {
    var pre := ops[..k];
    var pre1 := ops[..k + 1];
    AllOKPrefix(sh, a, v, ops, k + 1);
    assert pre1[..|pre1| - 1] == pre && pre1[|pre1| - 1] == ops[k];
    assert AllOK(sh, a, v, pre) && OpOK(sh, ApplyAll(a, pre), ViewAll(a.C, v, pre), ops[k]);
    AllLinked(sh, a, v, pre);
    OpStep(sh, ApplyAll(a, pre), ViewAll(a.C, v, pre), ops[k]);
  }

  /** The solver's statement order for splicing a node out of its column
      (sudoku.cpp:65-67) performs `VRemove`. */
  lemma VRemoveInOrder(b: Arena, t: nat)
    requires OpInRange(b, VRemove(t))
    ensures var b1 := b.(U := b.U[b.D[t] := b.U[t]]);
            var b2 := b1.(D := b1.D[b1.U[t] := b1.D[t]]);
            ApplyOp(b, VRemove(t)) == b2.(S := b2.S[b2.C[t] := b2.S[b2.C[t]] - 1])
  {
  }

  /** The solver's statement order for splicing a header out (sudoku.cpp:59-60) performs `HRemove`. */
  lemma HRemoveInOrder(b: Arena, c: nat)
    requires OpInRange(b, HRemove(c))
    ensures var b1 := b.(R := b.R[b.L[c] := b.R[c]]);
            ApplyOp(b, HRemove(c)) == b1.(L := b1.L[b1.R[c] := b1.L[c]])
  {
  }

  /** The solver's statement order for splicing a node back (sudoku.cpp:78-80)
      undoes `VRemove`, given that the node does not point at itself. */
  lemma VRestoreInOrder(b: Arena, t: nat)
    requires PointsAway(b, VRemove(t))
    ensures var b1 := b.(S := b.S[b.C[t] := b.S[b.C[t]] + 1]);
            var b2 := b1.(U := b1.U[b1.D[t] := t]);
            UndoOp(b, VRemove(t)) == b2.(D := b2.D[b2.U[t] := t])
  {
  }

  /** The solver's statement order for splicing a header back (sudoku.cpp:83-84) undoes `HRemove`. */
  lemma HRestoreInOrder(b: Arena, c: nat)
    requires PointsAway(b, HRemove(c))
    ensures var b1 := b.(R := b.R[b.L[c] := c]);
            UndoOp(b, HRemove(c)) == b1.(L := b1.L[b1.R[c] := c])
  {
  }

  /** Every prefix of an allowed list keeps the arena linked. */
  lemma PrefixLinked(sh: Shape, a: Arena, v: View, ops: seq<Op>, k: nat)
    requires Linked(sh, a, v) && AllOK(sh, a, v, ops) && k <= |ops|
    ensures Linked(sh, ApplyAll(a, ops[..k]), ViewAll(a.C, v, ops[..k]))
  {
    AllOKPrefix(sh, a, v, ops, k);
    AllLinked(sh, a, v, ops[..k]);
  }

  /** Unfolding one step of a prefix. */
  lemma PrefixStep(a: Arena, cs: seq<nat>, v: View, ops: seq<Op>, k: nat)
    requires k < |ops|
    ensures ApplyAll(a, ops[..k + 1]) == ApplyOp(ApplyAll(a, ops[..k]), ops[k])
    ensures ViewAll(cs, v, ops[..k + 1]) == ViewOp(cs, ViewAll(cs, v, ops[..k]), ops[k])
  {
    assert ops[..k + 1][..k] == ops[..k];
  }

  /** An operation applied after a list is the list extended by it. */
  lemma ApplySnoc(a: Arena, cs: seq<nat>, v: View, ops: seq<Op>, op: Op)
    ensures ApplyAll(a, ops + [op]) == ApplyOp(ApplyAll(a, ops), op)
    ensures ViewAll(cs, v, ops + [op]) == ViewOp(cs, ViewAll(cs, v, ops), op)
  {
    assert (ops + [op])[..|ops|] == ops;
  }

  /** Membership in the header list after a list of operations. */
  lemma {:induction false} ViewAllHeaders(cs: seq<nat>, v: View, ops: seq<Op>, y: nat)
    ensures y in ViewAll(cs, v, ops).hs <==> y in v.hs && HRemove(y) !in ops
    decreases |ops|
  {
    if |ops| > 0 {
      var init := ops[..|ops| - 1];
      ViewAllHeaders(cs, v, init, y);
      assert ops == init + [ops[|ops| - 1]];
    }
  }

  /** Membership in a column list after a list of operations, when the column's
      members all carry that column's pointer. */
  lemma {:induction false} ViewAllColumn(cs: seq<nat>, v: View, ops: seq<Op>, h: nat, y: nat)
    requires h < |v.col|
    requires forall z :: z in v.col[h] ==> z < |cs| && cs[z] == h
    ensures y in ViewAll(cs, v, ops).col[h] <==> y in v.col[h] && VRemove(y) !in ops
    ensures forall z :: z in ViewAll(cs, v, ops).col[h] ==> z in v.col[h]
    decreases |ops|
  {
    if |ops| > 0 {
      var init := ops[..|ops| - 1];
      ViewAllColumn(cs, v, init, h, y);
      assert ops == init + [ops[|ops| - 1]];
    }
  }

  /** A column no operation touches keeps its list. */
  lemma {:induction false} ViewAllColumnUntouched(cs: seq<nat>, v: View, ops: seq<Op>, h: nat)
    requires h < |v.col|
    requires forall i :: 0 <= i < |ops| && ops[i].VRemove? ==> ops[i].x < |cs| && cs[ops[i].x] != h
    ensures ViewAll(cs, v, ops).col[h] == v.col[h]
    decreases |ops|
  {
    if |ops| > 0 {
      ViewAllColumnUntouched(cs, v, ops[..|ops| - 1], h);
    }
  }

  /** A header-free list leaves the header ring alone. */
  lemma {:induction false} ViewAllHeadersUntouched(cs: seq<nat>, v: View, ops: seq<Op>)
    requires forall i :: 0 <= i < |ops| ==> ops[i].VRemove?
    ensures ViewAll(cs, v, ops).hs == v.hs
    decreases |ops|
  {
    if |ops| > 0 {
      ViewAllHeadersUntouched(cs, v, ops[..|ops| - 1]);
    }
  }

  /** The target of an operation is linked in the starting view. */
  ghost predicate InitiallyOK(sh: Shape, a: Arena, v: View, op: Op)
  {
    match op
    case HRemove(h) => h in v.hs
    case VRemove(x) => IsNode(sh, a, x) && x < |a.C| && a.C[x] < |v.col| && x in v.col[a.C[x]]
  }

  /** A repetition-free list of operations whose targets are all linked at the
      start is allowed throughout: no operation removes another's target. */
  lemma {:induction false} DistinctOpsAllOK(sh: Shape, a: Arena, v: View, ops: seq<Op>)
    requires Linked(sh, a, v)
    requires forall i :: 0 <= i < |ops| ==> InitiallyOK(sh, a, v, ops[i])
    requires forall i, j :: 0 <= i < j < |ops| ==> ops[i] != ops[j]
    ensures AllOK(sh, a, v, ops)
    decreases |ops|
  {
    if |ops| > 0 {
      var init := ops[..|ops| - 1];
      var op := ops[|ops| - 1];
      DistinctOpsAllOK(sh, a, v, init);
      assert op !in init by {
        forall i | 0 <= i < |init| ensures init[i] != op {
          assert init[i] == ops[i];
        }
      }
      assert InitiallyOK(sh, a, v, op);
      match op
      case HRemove(h) =>
        ViewAllHeaders(a.C, v, init, h);
      case VRemove(x) =>
        var h := a.C[x];
        assert ColumnOK(sh, |a.L|, a.D, a.U, a.C, a.S, h, v.col[h]);
        ViewAllColumn(a.C, v, init, h, x);
    }
  }
}
