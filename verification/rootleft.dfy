/** The root's left link. buildDLXLinkedList never closes the header ring on
    the root's left (sudoku.cpp:195-216, see `Fabric.BuildAsWritten`); the
    model's builder closes it. This module shows the difference cannot reach
    anything else: the builder, every splice other than removing the root, and
    so every cover and uncover, neither read that link nor write different
    values into it, so two arenas that differ only there stay that way. */
module RootLeft {
  import opened Arena
  import opened Layout
  import opened Build
  import opened Cover

  /** Two arenas that agree on every field and link except, possibly, the root's
      left link. */
  ghost predicate AgreeOffRootLeft(a: Arena, b: Arena)
  {
    Root < |a.L| && Root < |b.L| && a.(L := a.L[Root := Root]) == b.(L := b.L[Root := Root])
  }

  /** Agreement off the root's left link, field by field. */
  lemma AgreeParts(a: Arena, b: Arena)
    requires AgreeOffRootLeft(a, b)
    ensures a.R == b.R && a.U == b.U && a.D == b.D && a.C == b.C && a.S == b.S && a.Data == b.Data
    ensures |a.L| == |b.L| && a.Sized() == b.Sized()
    ensures forall y :: 0 <= y < |a.L| && y != Root ==> a.L[y] == b.L[y]
  {
    var a0, b0 := a.(L := a.L[Root := Root]), b.(L := b.L[Root := Root]);
    forall y | 0 <= y < |a.L| && y != Root ensures a.L[y] == b.L[y] {
      assert a0.L[y] == b0.L[y];
    }
  }

  /** No splice other than removing the root itself reads the root's left link,
      and a splice that writes it writes the same value into both arenas: so an
      arena whose root left link is stale behaves, under every splice and its
      undo, exactly like the one whose link is right. */
  lemma OpIgnoresRootLeft(a: Arena, b: Arena, op: Op)
    requires AgreeOffRootLeft(a, b) && op != HRemove(Root)
    ensures AgreeOffRootLeft(ApplyOp(a, op), ApplyOp(b, op))
    ensures AgreeOffRootLeft(UndoOp(a, op), UndoOp(b, op))
  {
    AgreeParts(a, b);
    assert OpInRange(a, op) == OpInRange(b, op);
    var a1, b1 := ApplyOp(a, op), ApplyOp(b, op);
    var a2, b2 := UndoOp(a, op), UndoOp(b, op);
    assert a1.(L := a1.L[Root := Root]).L == b1.(L := b1.L[Root := Root]).L;
    assert a2.(L := a2.L[Root := Root]).L == b2.(L := b2.L[Root := Root]).L;
  }

  /** The same, lifted to a list of splices none of which removes the root. */
  lemma {:induction false} AllIgnoreRootLeft(a: Arena, b: Arena, ops: seq<Op>)
    requires AgreeOffRootLeft(a, b)
    requires forall i :: 0 <= i < |ops| ==> ops[i] != HRemove(Root)
    ensures AgreeOffRootLeft(ApplyAll(a, ops), ApplyAll(b, ops))
    decreases |ops|
  {
    if |ops| > 0 {
      AllIgnoreRootLeft(a, b, ops[..|ops| - 1]);
      OpIgnoresRootLeft(ApplyAll(a, ops[..|ops| - 1]), ApplyAll(b, ops[..|ops| - 1]), ops[|ops| - 1]);
    }
  }

  /** Attaching a node writes the root's left link only when the row's first
      node is the root, which it never is: arenas that differ only in that
      link still differ only there afterwards. */
  lemma AttachedIgnoresRootLeft(a: Arena, b: Arena, top: nat, q: nat, f: nat, d: RowData)
    requires AgreeOffRootLeft(a, b) && f != Root
    requires a.Sized() && top < |a.L| && a.U[top] < |a.L| && q <= |a.L| && f <= |a.L|
    ensures b.Sized() && |b.L| == |a.L| && b.U == a.U
    ensures AgreeOffRootLeft(Attached(a, top, q, f, d), Attached(b, top, q, f, d))
    ensures Attached(a, top, q, f, d).L[Root] == a.L[Root] && Attached(b, top, q, f, d).L[Root] == b.L[Root]
  {
    AgreeParts(a, b);
    var a', b' := Attached(a, top, q, f, d), Attached(b, top, q, f, d);
    assert a'.L[Root := Root] == b'.L[Root := Root];
  }

  /** One step of the builder on two stages that differ only in the root's left link. */
  lemma StepIgnoresRootLeft(n: nat, m: CoverMatrix, s: Stage, t: Stage, i: nat, j: nat)
    requires n >= 1 && i < |m| && j < |m[i]|
    requires AgreeOffRootLeft(s.a, t.a) && s.p == t.p && s.rs == t.rs && s.rs >= 1
    ensures var s', t' := Step(n, m, s, i, j), Step(n, m, t, i, j);
      AgreeOffRootLeft(s'.a, t'.a) && s'.p == t'.p && s'.rs == t'.rs
      && s'.a.L[Root] == s.a.L[Root] && t'.a.L[Root] == t.a.L[Root]
  {
    AgreeParts(s.a, t.a);
    assert Fits(s, j + 1) == Fits(t, j + 1);
    if m[i][j] && Fits(s, j + 1) {
      var x := |s.a.L|;
      var q, f := if s.rs == x then x else x - 1, if s.rs == x then x else s.rs;
      AttachedIgnoresRootLeft(s.a, t.a, j + 1, q, f, Triple(n, i));
    }
  }

  /** Building from headers that differ only in the root's left link gives, at
      every stage, arenas that differ only in that link and the same
      bookkeeping: the builder never reads that link and never writes it. */
  lemma {:induction false} UptoIgnoresRootLeft(n: nat, m: CoverMatrix, nc: nat, a0: Arena, b0: Arena, i: nat, j: nat)
    requires n >= 1 && Rect(m, nc) && i <= |m| && j <= nc && (i == |m| ==> j == 0)
    requires AgreeOffRootLeft(a0, b0)
    ensures var s, t := Upto(n, m, nc, a0, i, j), Upto(n, m, nc, b0, i, j);
      AgreeOffRootLeft(s.a, t.a) && s.p == t.p && s.rs == t.rs && s.rs >= 1
      && s.a.L[Root] == a0.L[Root] && t.a.L[Root] == b0.L[Root]
    decreases i, j
  {
    if j > 0 {
      UptoIgnoresRootLeft(n, m, nc, a0, b0, i, j - 1);
      StepIgnoresRootLeft(n, m, Upto(n, m, nc, a0, i, j - 1), Upto(n, m, nc, b0, i, j - 1), i, j - 1);
    } else if i > 0 {
      UptoIgnoresRootLeft(n, m, nc, a0, b0, i - 1, nc);
      AgreeParts(Upto(n, m, nc, a0, i - 1, nc).a, Upto(n, m, nc, b0, i - 1, nc).a);
    }
  }

  /** Covering a column never removes the root from the header ring, so an arena
      whose root left link is stale is covered exactly like the one whose link
      is right, apart from that link. */
  lemma CoverIgnoresRootLeft(sh: Shape, v: View, c: nat, a: Arena, b: Arena)
    requires c < |v.col| && AllInRow(sh, v.col[c]) && c != Root
    requires AgreeOffRootLeft(a, b)
    ensures AgreeOffRootLeft(ApplyAll(a, CoverOps(sh, v, c)), ApplyAll(b, CoverOps(sh, v, c)))
  {
    var ops := CoverOps(sh, v, c);
    forall i | 0 <= i < |ops| ensures ops[i] != HRemove(Root) {
      if i > 0 { assert ops[i].VRemove?; }
    }
    AllIgnoreRootLeft(a, b, ops);
  }

  /** The as-written build with the root's left link set afterwards is the
      build that sets it right after the headers are made. */
  lemma BuildsAgree(n: nat, m: CoverMatrix, nc: nat, a0: Arena)
    requires n >= 1 && Rect(m, nc) && Fresh(a0, nc, Root)
    ensures Fresh(a0.(L := a0.L[Root := nc]), nc, nc)
    ensures var written, closed := Upto(n, m, nc, a0, |m|, 0).a, Upto(n, m, nc, a0.(L := a0.L[Root := nc]), |m|, 0).a;
      Root < |written.L| && written.L[Root] == Root && written.(L := written.L[Root := nc]) == closed
  {
    var b0 := a0.(L := a0.L[Root := nc]);
    assert AgreeOffRootLeft(a0, b0) by {
      assert a0.(L := a0.L[Root := Root]) == a0;
      assert b0.L[Root := Root] == a0.L;
    }
    UptoIgnoresRootLeft(n, m, nc, a0, b0, |m|, 0);
    var written, closed := Upto(n, m, nc, a0, |m|, 0).a, Upto(n, m, nc, b0, |m|, 0).a;
    AgreeParts(written, closed);
    assert written.(L := written.L[Root := nc]).L == closed.L;
  }
}
