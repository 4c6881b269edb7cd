/** buildDLXLinkedList (sudoku.cpp:188-277) as the source writes it: the root,
    the header ring, then one node per true matrix entry, row after row, each
    node spliced into its row's ring and at the bottom of its column's ring.
    The loops keep the invariant `Build.Built`; the result is a linked, exact
    fabric that stands for the matrix. */
module Fabric {
  import opened Rings
  import opened Arith
  import opened Arena
  import opened Layout
  import opened Grid
  import opened Build

  /** The builder's `prev` pointer: no node of the row yet, or its last node. */
  datatype Ptr = Null | Node(x: nat)

  /** The root and the header ring (sudoku.cpp:191-217). The root's left link
      is left pointing at the root itself; every column ring is empty. */
  method MakeHeaders(nc: nat) returns (a: Arena)
    ensures HeadersBuilt(a, nc, Root) && |a.L| == nc + 1
    ensures forall h :: 1 <= h <= nc ==> a.D[h] == h && a.U[h] == h && a.S[h] == 0
  {
    var zero := RowData(0, 0, 0);
    a := Arena([Root], [Root], [Root], [Root], [Root], [-1], [zero]);
    var temp := Root;
    var i := 0;
    while i < nc
      invariant i <= nc && a.Sized() && |a.L| == i + 1 && temp == i
      invariant a.L[Root] == Root && a.S[Root] == -1
      invariant forall h :: 0 <= h <= i ==> a.R[h] == (if h == i then Root else h + 1) && a.C[h] == h
      invariant forall h :: 1 <= h <= i ==> a.L[h] == h - 1 && a.D[h] == h && a.U[h] == h && a.S[h] == 0
    {
      var x := |a.L|;
      a := Arena(a.L + [temp], a.R + [Root], a.U + [x], a.D + [x], a.C + [x], a.S + [0], a.Data + [zero]);
      a := a.(R := a.R[temp := x]);
      temp := x;
      i := i + 1;
    }
  }

  /** One new node (sudoku.cpp:247-271): it carries triple `d`, joins the row
      ring right after `prev` (or starts a ring of its own), and joins column
      `top`'s ring just above the header. */
  method Attach(a: Arena, top: nat, prev: Ptr, d: RowData) returns (a': Arena, x: nat)
    requires a.Sized() && top < |a.L| && a.U[top] < |a.L|
    requires prev.Node? ==> prev.x < |a.L| && a.R[prev.x] < |a.L|
    ensures x == |a.L|
    ensures a' == Attached(a, top, if prev.Null? then x else prev.x, if prev.Null? then x else a.R[prev.x], d)
    ensures a'.Sized() && |a'.L| == x + 1 && a'.C[x] == top && a'.Data[x] == d
    ensures forall l :: IsRing(a.D, a.U, top, l) && Distinct([top] + l) ==> IsRing(a'.D, a'.U, top, l + [x])
    ensures a'.S[top] == a.S[top] + 1 && forall h :: 0 <= h < |a.S| && h != top ==> a'.S[h] == a.S[h]
    ensures forall y :: 0 <= y < |a.L| && y != top && y != a.U[top] ==> a'.D[y] == a.D[y] && a'.U[y] == a.U[y]
    ensures prev.Null? ==> IsRing(a'.R, a'.L, x, [])
    ensures prev.Node? ==> forall row :: IsRing(a.R, a.L, a.R[prev.x], row) && Distinct([a.R[prev.x]] + row) && a.L[a.R[prev.x]] == prev.x
                                         ==> IsRing(a'.R, a'.L, a.R[prev.x], row + [x])
    ensures forall y :: 0 <= y < |a.L| && (prev.Null? || (y != prev.x && y != a.R[prev.x])) ==> a'.R[y] == a.R[y] && a'.L[y] == a.L[y]
  {
    x := |a.L|;
    var L, R, U, D, C, S := a.L + [0], a.R + [0], a.U + [0], a.D + [0], a.C + [0], a.S + [0];
    var pv := x;
    if prev.Null? {
      R := R[x := x];
    } else {
      pv := prev.x;
    }
    L := L[x := pv];
    R := R[x := R[pv]];
    L := L[R[x] := x];
    R := R[pv := x];
    C := C[x := top];
    D := D[x := top];
    U := U[x := U[top]];
    D := D[U[x] := x];
    S := S[top := S[top] + 1];
    U := U[top := x];
    if D[top] == top {
      D := D[top := x];
    }
    a' := Arena(L, R, U, D, C, S, a.Data + [d]);
    var q, f := if prev.Null? then x else prev.x, if prev.Null? then x else a.R[prev.x];
    assert a' == Attached(a, top, q, f, d);
    AttachedFacts(a, top, q, f, d);
  }

  /** The `id` counters' step before matrix row i (sudoku.cpp:225-240): the
      value goes up by one, and wraps back to 1 while the grid column moves
      on; after the last column the grid row moves on as well. */
  function NextId(n: nat, i: nat, id: RowData): RowData
    requires n >= 1
  {
    if i != 0 && i % (n * n) == 0 then RowData(id.value - (n - 1), id.row + 1, id.col - (n - 1))
    else if i != 0 && i % n == 0 then RowData(id.value - (n - 1), id.row, id.col + 1)
    else RowData(id.value + 1, id.row, id.col)
  }

  /** A matrix row with digits (r, c, v) has those parts. */
  lemma Parts(n: nat, i: nat, r: nat, c: nat, v: nat)
    requires n >= 1 && c < n && v < n && i == r * (n * n) + c * n + v
    ensures RowPart(n, i) == r && ColPart(n, i) == c && ValPart(n, i) == v
    ensures i % (n * n) == c * n + v
  {
    Expand(r, c, n, v);
    DivModUnique(i, n, r * n + c, v);
    DivModUnique(r * n + c, n, r, c);
    Below(c, v, n, n);
    DivModUnique(i, n * n, r, c * n + v);
  }

  /** Starting from (0, 1, 1), the counters step through the triples of the
      matrix rows in order: before row i they hold row i - 1's triple, and the
      step makes them row i's. */
  lemma NextIdTriple(n: nat, i: nat)
    requires n >= 1
    ensures NextId(n, i, if i == 0 then RowData(0, 1, 1) else Triple(n, i - 1)) == Triple(n, i)
  {
    if i == 0 {
      Parts(n, 0, 0, 0, 0);
    } else {
      var k := i - 1;
      var q, v := k / n, k % n;
      var r, c := q / n, q % n;
      Split(n, k);
      if v + 1 < n {
        StepValue(n, i, r, c, v);
      } else if c + 1 < n {
        StepCol(n, i, r, c);
      } else {
        StepRow(n, i, r);
      }
    }
  }

  /** Every k splits into its digits. */
  lemma Split(n: nat, k: nat)
    requires n >= 1
    ensures k / n % n < n && k % n < n
    ensures k == (k / n / n) * (n * n) + (k / n % n) * n + k % n
    ensures RowPart(n, k) == k / n / n && ColPart(n, k) == k / n % n && ValPart(n, k) == k % n
  {
    var q, v := k / n, k % n;
    var r, c := q / n, q % n;
    DivMod(k, n);
    DivMod(q, n);
    Expand(r, c, n, v);
    Parts(n, k, r, c, v);
  }

  /** The step inside a cell: only the value moves on. */
  lemma StepValue(n: nat, i: nat, r: nat, c: nat, v: nat)
    requires n >= 1 && c < n && v + 1 < n && i >= 1
    requires i - 1 == r * (n * n) + c * n + v
    ensures NextId(n, i, Triple(n, i - 1)) == Triple(n, i)
  {
    Parts(n, i - 1, r, c, v);
    Parts(n, i, r, c, v + 1);
    Below(c, v + 1, n, n);
    DivModUnique(i, n, r * n + c, v + 1) by {
      Expand(r, c, n, v + 1);
    }
  }

  /** The step to the next grid column: the value wraps back to 1. */
  lemma StepCol(n: nat, i: nat, r: nat, c: nat)
    requires n >= 1 && c + 1 < n && i >= 1
    requires i - 1 == r * (n * n) + c * n + (n - 1)
    ensures NextId(n, i, Triple(n, i - 1)) == Triple(n, i)
  {
    Parts(n, i - 1, r, c, n - 1);
    Parts(n, i, r, c + 1, 0);
    DivModUnique(i, n, r * n + c + 1, 0) by {
      Expand(r, c + 1, n, 0);
    }
  }

  /** The step to the next grid row: value and column wrap back to 1. */
  lemma StepRow(n: nat, i: nat, r: nat)
    requires n >= 1 && i >= 1
    requires i - 1 == r * (n * n) + (n - 1) * n + (n - 1)
    ensures NextId(n, i, Triple(n, i - 1)) == Triple(n, i)
  {
    Parts(n, i - 1, r, n - 1, n - 1);
    assert i == (r + 1) * (n * n);
    Parts(n, i, r + 1, 0, 0);
    DivModUnique(i, n, (r + 1) * n, 0) by {
      Expand(r + 1, 0, n, 0);
    }
  }

  /** The inner loop over the matrix columns for row i (sudoku.cpp:243-273):
      `top` walks the header ring in step with j, and `prev` is the row's last
      node so far. */
  method AddRow(n: nat, m: CoverMatrix, nc: nat, ghost L0: nat, ghost a0: Arena, i: nat, id: RowData, a: Arena)
    returns (a': Arena)
    requires n >= 1 && Rect(m, nc) && i < |m| && Fresh(a0, nc, L0) && id == Triple(n, i)
    requires a == Upto(n, m, nc, a0, i, 0).a
    ensures a' == Upto(n, m, nc, a0, i, nc).a
    ensures var s := Upto(n, m, nc, a0, i, nc); Built(n, m, a', s.p, nc, L0, i, nc, s.rs) == true
  {
    a' := a;
    UptoReady(n, m, nc, L0, a0, i, 0);
    var top := a.R[Root];
    var prev := Null;
    var j := 0;
    while j < nc
      invariant j <= nc && a' == Upto(n, m, nc, a0, i, j).a
      invariant top == (if j == nc then Root else j + 1)
      invariant prev.Null? <==> Upto(n, m, nc, a0, i, j).rs == |a'.L|
      invariant prev.Node? ==> prev.x == |a'.L| - 1
    {
      UptoReady(n, m, nc, L0, a0, i, j);
      UptoNext(n, m, nc, a0, i, j);
      ghost var s := Upto(n, m, nc, a0, i, j);
      if m[i][j] {
        StepGrows(n, m, s, i, j);
        var x;
        a', x := Attach(a', top, prev, id);
        prev := Node(x);
      } else {
        StepSkips(n, m, s, i, j);
      }
      j := j + 1;
      UptoReady(n, m, nc, L0, a0, i, j);
      top := a'.R[top];
    }
    UptoBuilt(n, m, nc, L0, a0, i, nc);
  }

  /** The outer loop over the matrix rows (sudoku.cpp:220-275), on the
      headers `a0` whose root's left link is `L0`. */
  method AddRows(n: nat, m: CoverMatrix, nc: nat, ghost L0: nat, a0: Arena)
    returns (a: Arena, ghost sh: Shape, ghost v: View, ghost rowOf: seq<nat>)
    requires n >= 1 && Rect(m, nc) && Fresh(a0, nc, L0)
    ensures a == Upto(n, m, nc, a0, |m|, 0).a
    ensures a.Sized() && nc < |a.L| && a.L[Root] == L0 && a.S[Root] == -1
    ensures sh.nc == nc && v.hs == HeaderList(nc)
    ensures Linked(sh, a.(L := a.L[Root := nc]), v) && Exact(sh, a.C, v)
    ensures Represents(n, m, a, sh, rowOf)
    ensures forall h :: 1 <= h <= nc ==> Increasing(v.col[h])
  {
    a := a0;
    var id := RowData(0, 1, 1);
    var i := 0;
    while i < |m|
      invariant i <= |m| && a == Upto(n, m, nc, a0, i, 0).a
      invariant id == if i == 0 then RowData(0, 1, 1) else Triple(n, i - 1)
    {
      NextIdTriple(n, i);
      id := NextId(n, i, id);
      a := AddRow(n, m, nc, L0, a0, i, id, a);
      i := i + 1;
    }
    UptoDone(n, m, nc, L0, a0);
    ghost var p := Upto(n, m, nc, a0, |m|, 0).p;
    sh, v, rowOf := Shape(nc, p.first, p.end), View(HeaderList(nc), p.col), p.rowOf;
  }

  /** A header ring whose root has a right neighbour but whose root's left link
      points back at the root is no ring at all. */
  lemma RootLeftUnlinked(sh: Shape, R: seq<nat>, L: seq<nat>, hs: seq<nat>)
    requires Root < |R| && Root < |L| && R[Root] != Root && L[Root] == Root
    ensures !HeadersOK(sh, R, L, hs)
  {
  }

  /** buildDLXLinkedList exactly as written: the root's left link is never
      set to the last header, so with at least one column the header ring is
      broken on that side; setting that one link gives a linked, exact fabric
      that stands for the matrix. */
  method BuildAsWritten(n: nat, m: CoverMatrix, nc: nat) returns (a: Arena, ghost sh: Shape, ghost v: View, ghost rowOf: seq<nat>)
    requires n >= 1 && Rect(m, nc)
    ensures a.Sized() && |a.L| > nc && a.L[Root] == Root
    ensures nc >= 1 ==> forall hs :: !HeadersOK(sh, a.R, a.L, hs)
    ensures sh.nc == nc && v.hs == HeaderList(nc)
    ensures Linked(sh, a.(L := a.L[Root := nc]), v) && Exact(sh, a.C, v)
    ensures Represents(n, m, a, sh, rowOf)
  {
    var a0 := MakeHeaders(nc);
    a, sh, v, rowOf := AddRows(n, m, nc, Root, a0);
    forall hs | nc >= 1 ensures !HeadersOK(sh, a.R, a.L, hs) {
      RootLeftUnlinked(sh, a.R, a.L, hs);
    }
  }

  /** A matrix row's triple addresses a cell of the grid and holds a digit. */
  lemma TripleOnBoard(n: nat, i: nat)
    requires n >= 1 && i < n * n * n
    ensures OnBoard(n, Triple(n, i)) && 1 <= Triple(n, i).value <= n
  {
    RowParts(n, i);
  }

  /** buildDLXLinkedList with the root's left link closing the header ring
      once the headers are made. The fabric is linked and exact with every
      column active in order, stands for the matrix, and (for a matrix of at
      most n^3 rows) every node's triple addresses a cell of the grid. */
  method BuildDLXLinkedList(n: nat, m: CoverMatrix, nc: nat) returns (a: Arena, ghost sh: Shape, ghost v: View, ghost rowOf: seq<nat>)
    requires n >= 1 && Rect(m, nc)
    ensures sh.nc == nc && v.hs == HeaderList(nc)
    ensures Linked(sh, a, v) && Exact(sh, a.C, v)
    ensures Represents(n, m, a, sh, rowOf)
    ensures a.S[Root] == -1 && forall h :: 1 <= h <= nc ==> Increasing(v.col[h])
    ensures |m| <= n * n * n ==> forall x :: nc < x < |a.Data| ==> OnBoard(n, a.Data[x])
  {
    var a0 := MakeHeaders(nc);
    a0 := a0.(L := a0.L[Root := nc]);
    a, sh, v, rowOf := AddRows(n, m, nc, nc, a0);
    assert a.(L := a.L[Root := nc]) == a;
    if |m| <= n * n * n {
      forall x | nc < x < |a.Data| ensures OnBoard(n, a.Data[x]) {
        TripleOnBoard(n, rowOf[x]);
      }
    }
  }
}
