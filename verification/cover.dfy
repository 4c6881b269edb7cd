/** Covering a column (`coverColumn`, sudoku.cpp:57-70) as a list of primitive
    splices, the abstract effect of that list on the view, and the two methods
    that walk the links the way the solver does. */
module Cover {
  import opened Rings
  import opened Arena

  /** x is a node number whose row interval has been laid out. */
  ghost predicate InRow(sh: Shape, x: nat)
  {
    x < |sh.first| && x < |sh.end| && sh.first[x] <= x < sh.end[x]
  }

  /** The nodes met walking right from x around its row ring, x excluded. */
  ghost function RightWalk(sh: Shape, x: nat): (r: seq<nat>)
    requires InRow(sh, x)
    ensures |r| == sh.end[x] - sh.first[x] - 1
    ensures forall i :: 0 <= i < |r| ==> sh.first[x] <= r[i] < sh.end[x] && r[i] != x
  {
    var f, e := sh.first[x], sh.end[x];
    seq(e - f - 1, i requires 0 <= i < e - f - 1 => if x + 1 + i < e then x + 1 + i else x + 1 + i - (e - f))
  }

  /** The walk meets every other node of the row, each once. */
  lemma RightWalkMembers(sh: Shape, x: nat)
    requires InRow(sh, x)
    ensures forall y :: y in RightWalk(sh, x) <==> sh.first[x] <= y < sh.end[x] && y != x
    ensures Distinct(RightWalk(sh, x))
  {
    var w := RightWalk(sh, x);
    var f, e := sh.first[x], sh.end[x];
    forall y | f <= y < e && y != x ensures y in w {
      var i := if y > x then y - x - 1 else y - x - 1 + (e - f);
      assert w[i] == y;
    }
  }

  /** Following right links from a node walks its row in column order and comes back. */
  lemma RowRing(sh: Shape, a: Arena, x: nat)
    requires StaticOK(sh, a) && IsNode(sh, a, x)
    ensures InRow(sh, x)
    ensures IsRing(a.R, a.L, x, RightWalk(sh, x))
  {
    var w := RightWalk(sh, x);
    var f, e := sh.first[x], sh.end[x];
    var n := |a.L|;
    assert sh.nc < f <= x < e <= n;
    assert forall y :: f <= y < e ==> sh.first[y] == f && sh.end[y] == e;
    forall i | 0 <= i < |w| ensures w[i] < n && sh.first[w[i]] == f && sh.end[w[i]] == e {
    }
    if |w| > 0 {
      assert a.R[x] == w[0] && a.L[w[0]] == x;
      assert a.R[w[|w| - 1]] == x && a.L[x] == w[|w| - 1];
      forall i | 0 <= i < |w| - 1 ensures a.R[w[i]] == w[i + 1] && a.L[w[i + 1]] == w[i] {
        RowStep(sh, a, x, i);
      }
    } else {
      assert a.R[x] == x && a.L[x] == x;
    }
  }

  lemma RowStep(sh: Shape, a: Arena, x: nat, i: nat)
    requires StaticOK(sh, a) && IsNode(sh, a, x)
    requires i + 1 < sh.end[x] - sh.first[x] - 1
    ensures InRow(sh, x)
    ensures a.R[RightWalk(sh, x)[i]] == RightWalk(sh, x)[i + 1]
    ensures a.L[RightWalk(sh, x)[i + 1]] == RightWalk(sh, x)[i]
  {
    var w := RightWalk(sh, x);
    var f, e := sh.first[x], sh.end[x];
    var y := w[i];
    assert sh.first[y] == f && sh.end[y] == e;
    var z := w[i + 1];
    assert sh.first[z] == f && sh.end[z] == e;
  }

  /** Unlinking every node of a list from its column, in list order. */
  ghost function WalkOps(w: seq<nat>): (r: seq<Op>)
    ensures |r| == |w| && forall i :: 0 <= i < |w| ==> r[i] == VRemove(w[i])
  {
    seq(|w|, i requires 0 <= i < |w| => VRemove(w[i]))
  }

  ghost predicate AllInRow(sh: Shape, rows: seq<nat>)
  {
    forall r :: r in rows ==> InRow(sh, r)
  }

  /** For each row of the list, in order, unlink that row's other nodes. */
  ghost function RowsOps(sh: Shape, rows: seq<nat>): (r: seq<Op>)
    requires AllInRow(sh, rows)
    ensures forall i :: 0 <= i < |r| ==> r[i].VRemove?
    decreases |rows|
  {
    if |rows| == 0 then []
    else RowsOps(sh, rows[..|rows| - 1]) + WalkOps(RightWalk(sh, rows[|rows| - 1]))
  }

  /** What `coverColumn(c)` does: splice c out of the header ring, then, for
      every node of c's down-ring from the top, unlink the rest of its row. */
  ghost function CoverOps(sh: Shape, v: View, c: nat): (r: seq<Op>)
    requires c < |v.col| && AllInRow(sh, v.col[c])
    ensures |r| >= 1 && r[0] == HRemove(c)
    ensures forall i :: 1 <= i < |r| ==> r[i].VRemove?
  {
    [HRemove(c)] + RowsOps(sh, v.col[c])
  }

  /** A node is unlinked by the row list exactly when it shares a row with
      one of the listed nodes without being that node. */
  lemma {:induction false} RowsOpsMembers(sh: Shape, rows: seq<nat>, t: nat)
    requires AllInRow(sh, rows)
    ensures VRemove(t) in RowsOps(sh, rows) <==> exists r :: r in rows && t in RightWalk(sh, r)
    decreases |rows|
  {
    if |rows| > 0 {
      var init := rows[..|rows| - 1];
      var last := rows[|rows| - 1];
      assert forall r :: r in rows <==> r in init || r == last;
      RowsOpsMembers(sh, init, t);
      var w := RightWalk(sh, last);
      assert VRemove(t) in WalkOps(w) <==> t in w by {
        if t in w {
          var i :| 0 <= i < |w| && w[i] == t;
          assert WalkOps(w)[i] == VRemove(t);
        }
      }
    }
  }

  /** Appending rows appends their operations. */
  lemma {:induction false} RowsOpsAppend(sh: Shape, xs: seq<nat>, ys: seq<nat>)
    requires AllInRow(sh, xs) && AllInRow(sh, ys)
    ensures AllInRow(sh, xs + ys)
    ensures RowsOps(sh, xs + ys) == RowsOps(sh, xs) + RowsOps(sh, ys)
    decreases |ys|
  {
    if |ys| > 0 {
      var ys' := ys[..|ys| - 1];
      assert (xs + ys)[..|xs + ys| - 1] == xs + ys';
      RowsOpsAppend(sh, xs, ys');
    } else {
      assert xs + ys == xs;
    }
  }

  /** Two different nodes of one row lie in different columns. */
  lemma RowColumnsDiffer(sh: Shape, cs: seq<nat>, x: nat, y: nat)
    requires RowShape(sh, |cs|, cs)
    requires sh.nc < x < |cs| && sh.first[x] <= y < sh.end[x] && y != x
    ensures cs[x] != cs[y]
  {
    assert sh.first[y] == sh.first[x] && sh.end[y] == sh.end[x];
    if y < x {
      assert sh.nc < y < |cs| && y < x < sh.end[y];
    }
  }

  /** A row has at most one node in each column. */
  lemma SameRowSameColumn(sh: Shape, cs: seq<nat>, x: nat, y: nat)
    requires RowShape(sh, |cs|, cs)
    requires sh.nc < x < |cs| && sh.nc < y < |cs| && sh.first[x] == sh.first[y] && cs[x] == cs[y]
    ensures x == y
  {
    assert sh.first[y] <= y < sh.end[y];
    assert sh.first[x] <= x < sh.end[x];
  }

  /** The unlink list of a row is disjoint from the lists of other rows of the same column. */
  lemma RowsOpsDisjoint(sh: Shape, cs: seq<nat>, rows: seq<nat>, last: nat, c: nat)
    requires RowShape(sh, |cs|, cs) && last !in rows
    requires forall r :: r in rows ==> sh.nc < r < |cs| && cs[r] == c
    requires sh.nc < last < |cs| && cs[last] == c
    ensures AllInRow(sh, rows) && InRow(sh, last)
    ensures forall op :: op in RowsOps(sh, rows) ==> op !in WalkOps(RightWalk(sh, last))
  {
    forall r | r in rows ensures InRow(sh, r) {
      assert sh.nc < r < |cs|;
    }
    var w := RightWalk(sh, last);
    RightWalkMembers(sh, last);
    forall i | 0 <= i < |w| ensures VRemove(w[i]) !in RowsOps(sh, rows) {
      var t := w[i];
      RowsOpsMembers(sh, rows, t);
      forall r | r in rows ensures t !in RightWalk(sh, r) {
        OtherRowWalk(sh, cs, r, last, t);
      }
    }
  }

  /** A node met walking one row is not met walking another row of the same column. */
  lemma OtherRowWalk(sh: Shape, cs: seq<nat>, r: nat, last: nat, t: nat)
    requires RowShape(sh, |cs|, cs) && r != last
    requires sh.nc < r < |cs| && sh.nc < last < |cs| && cs[r] == cs[last]
    requires sh.first[last] <= t < sh.end[last]
    ensures InRow(sh, r)
    ensures t !in RightWalk(sh, r)
  {
    RightWalkMembers(sh, r);
    if sh.first[r] == sh.first[last] {
      SameRowSameColumn(sh, cs, r, last);
    } else {
      assert sh.first[t] == sh.first[last];
    }
  }

  /** Alive depends only on the row. */
  lemma AliveRow(sh: Shape, cs: seq<nat>, hs: seq<nat>, x: nat, y: nat)
    requires RowShape(sh, |cs|, cs) && sh.nc < x < |cs|
    requires sh.first[x] <= y < sh.end[x]
    ensures sh.nc < y < |cs| && sh.first[y] == sh.first[x] && sh.end[y] == sh.end[x]
    ensures Alive(sh, cs, hs, x) <==> Alive(sh, cs, hs, y)
  {
    assert sh.first[y] == sh.first[x] && sh.end[y] == sh.end[x];
  }

  ghost predicate OpsDistinct(ops: seq<Op>)
  {
    forall i, j :: 0 <= i < j < |ops| ==> ops[i] != ops[j]
  }

  lemma OpsDistinctAppend(xs: seq<Op>, ys: seq<Op>)
    requires OpsDistinct(xs) && OpsDistinct(ys)
    requires forall op :: op in xs ==> op !in ys
    ensures OpsDistinct(xs + ys)
  {
    var s := xs + ys;
    forall i, j | 0 <= i < j < |s| ensures s[i] != s[j] {
      if j < |xs| {
        assert s[i] == xs[i] && s[j] == xs[j];
      } else if i >= |xs| {
        assert s[i] == ys[i - |xs|] && s[j] == ys[j - |xs|];
      } else {
        assert s[i] in xs && s[j] in ys;
      }
    }
  }

  /** The rows of a column ring are different rows, so their unlink lists never repeat a node. */
  lemma {:induction false} RowsOpsDistinct(sh: Shape, cs: seq<nat>, rows: seq<nat>, c: nat)
    requires RowShape(sh, |cs|, cs) && Distinct(rows)
    requires forall r :: r in rows ==> sh.nc < r < |cs| && cs[r] == c
    ensures AllInRow(sh, rows)
    ensures OpsDistinct(RowsOps(sh, rows))
    decreases |rows|
  {
    forall r | r in rows ensures InRow(sh, r) {
      assert sh.nc < r < |cs|;
    }
    if |rows| > 0 {
      var init := rows[..|rows| - 1];
      var last := rows[|rows| - 1];
      assert last in rows;
      assert sh.first[last] <= last < sh.end[last];
      assert Distinct(init);
      assert forall r :: r in init ==> r in rows;
      RowsOpsDistinct(sh, cs, init, c);
      var w := RightWalk(sh, last);
      RightWalkMembers(sh, last);
      assert OpsDistinct(WalkOps(w));
      RowsOpsDisjoint(sh, cs, init, last, c);
      OpsDistinctAppend(RowsOps(sh, init), WalkOps(w));
    }
  }

  /** The columns met by the row of node x. */
  ghost function RowCols(sh: Shape, cs: seq<nat>, x: nat): set<nat>
    requires RowShape(sh, |cs|, cs) && sh.nc < x < |cs|
  {
    set y | sh.first[x] <= y < sh.end[x] :: cs[y]
  }

  /** The state in which the solver may cover column c: the links are
      described by the view, the view is exact, and c is an active header. */
  ghost predicate CoverReady(sh: Shape, a: Arena, v: View, c: nat)
  {
    && Linked(sh, a, v)
    && Exact(sh, a.C, v)
    && c in v.hs
  }

  /** The members of a header's ring are laid-out nodes. */
  lemma ColumnRows(sh: Shape, a: Arena, v: View, h: nat)
    requires Linked(sh, a, v) && 1 <= h <= sh.nc
    ensures h < |v.col| && AllInRow(sh, v.col[h])
    ensures forall y :: y in v.col[h] ==> sh.nc < y < |a.C| && a.C[y] == h
  {
    assert ColumnOK(sh, |a.L|, a.D, a.U, a.C, a.S, h, v.col[h]);
    forall r | r in v.col[h] ensures InRow(sh, r) {
      assert sh.nc < r < |a.L|;
    }
  }

  /** Covering c unlinks exactly the nodes of live rows that meet column c,
      other than those rows' own nodes in column c. */
  lemma CoverOpsMember(sh: Shape, a: Arena, v: View, c: nat, y: nat)
    requires CoverReady(sh, a, v, c)
    requires sh.nc < y < |a.C|
    ensures c < |v.col| && AllInRow(sh, v.col[c])
    ensures VRemove(y) in CoverOps(sh, v, c) <==>
              Alive(sh, a.C, v.hs, y) && a.C[y] != c && c in RowCols(sh, a.C, y)
  {
    var cs := a.C;
    ColumnRows(sh, a, v, c);
    var ops := CoverOps(sh, v, c);
    assert VRemove(y) in ops <==> VRemove(y) in RowsOps(sh, v.col[c]);
    RowsOpsMembers(sh, v.col[c], y);
    if VRemove(y) in ops {
      var r :| r in v.col[c] && y in RightWalk(sh, r);
      RightWalkMembers(sh, r);
      AliveRow(sh, cs, v.hs, r, y);
      RowColumnsDiffer(sh, cs, r, y);
      assert cs[r] in RowCols(sh, cs, y);
    }
    if Alive(sh, cs, v.hs, y) && cs[y] != c && c in RowCols(sh, cs, y) {
      var z :| sh.first[y] <= z < sh.end[y] && cs[z] == c;
      AliveRow(sh, cs, v.hs, y, z);
      assert z in v.col[c];
      RightWalkMembers(sh, z);
      assert y in RightWalk(sh, z);
    }
  }

  /** Every splice of a cover is allowed: the operations never repeat and
      each target is linked before the cover starts. */
  lemma CoverAllowed(sh: Shape, a: Arena, v: View, c: nat)
    requires CoverReady(sh, a, v, c)
    ensures c < |v.col| && AllInRow(sh, v.col[c])
    ensures AllOK(sh, a, v, CoverOps(sh, v, c))
  {
    ColumnRows(sh, a, v, c);
    assert ColumnOK(sh, |a.L|, a.D, a.U, a.C, a.S, c, v.col[c]);
    RowsOpsDistinct(sh, a.C, v.col[c], c);
    var rest := RowsOps(sh, v.col[c]);
    var ops := CoverOps(sh, v, c);
    OpsDistinctAppend([HRemove(c)], rest);
    forall i | 0 <= i < |ops| ensures InitiallyOK(sh, a, v, ops[i]) {
      if i > 0 {
        var y := ops[i].x;
        assert ops[i] == rest[i - 1];
        assert VRemove(y) in rest;
        RowsOpsMembers(sh, v.col[c], y);
        var r :| r in v.col[c] && y in RightWalk(sh, r);
        RightWalkMembers(sh, r);
        AliveRow(sh, a.C, v.hs, r, y);
        assert sh.nc < y < |a.C|;
      }
    }
    DistinctOpsAllOK(sh, a, v, ops);
  }

  /** The view after covering c. */
  ghost function CoveredView(sh: Shape, a: Arena, v: View, c: nat): View
    requires c < |v.col| && AllInRow(sh, v.col[c])
  {
    ViewAll(a.C, v, CoverOps(sh, v, c))
  }

  /** Covering an active column keeps the fabric linked and the exact-cover
      invariant true; the header ring loses exactly c and c's own ring is kept. */
  lemma CoverEffect(sh: Shape, a: Arena, v: View, c: nat)
    requires CoverReady(sh, a, v, c)
    ensures c < |v.col| && AllInRow(sh, v.col[c])
    ensures Linked(sh, ApplyAll(a, CoverOps(sh, v, c)), CoveredView(sh, a, v, c))
    ensures Exact(sh, a.C, CoveredView(sh, a, v, c))
    ensures forall y :: y in CoveredView(sh, a, v, c).hs <==> y in v.hs && y != c
    ensures CoveredView(sh, a, v, c).col[c] == v.col[c]
  {
    var cs := a.C;
    CoverAllowed(sh, a, v, c);
    var ops := CoverOps(sh, v, c);
    var v' := CoveredView(sh, a, v, c);
    AllLinked(sh, a, v, ops);
    CoverHeaders(sh, a, v, c);
    CoverKeepsOwnColumn(sh, a, v, c);
    ExactAfterCover(sh, a, v, c);
  }

  lemma CoverHeaders(sh: Shape, a: Arena, v: View, c: nat)
    requires c < |v.col| && AllInRow(sh, v.col[c])
    ensures forall y :: y in CoveredView(sh, a, v, c).hs <==> y in v.hs && y != c
  {
    var ops := CoverOps(sh, v, c);
    forall y ensures y in CoveredView(sh, a, v, c).hs <==> y in v.hs && y != c {
      ViewAllHeaders(a.C, v, ops, y);
      assert HRemove(y) in ops <==> y == c;
    }
  }

  lemma CoverKeepsOwnColumn(sh: Shape, a: Arena, v: View, c: nat)
    requires Linked(sh, a, v) && 1 <= c <= sh.nc
    ensures c < |v.col| && AllInRow(sh, v.col[c])
    ensures CoveredView(sh, a, v, c).col[c] == v.col[c]
  {
    CoverOpsOtherColumns(sh, a, v, c);
    ViewAllColumnUntouched(a.C, v, CoverOps(sh, v, c), c);
  }

  /** No splice of a cover of c touches c's own ring. */
  lemma CoverOpsOtherColumns(sh: Shape, a: Arena, v: View, c: nat)
    requires Linked(sh, a, v) && 1 <= c <= sh.nc
    ensures c < |v.col| && AllInRow(sh, v.col[c])
    ensures var ops := CoverOps(sh, v, c);
            forall i :: 0 <= i < |ops| && ops[i].VRemove? ==> ops[i].x < |a.C| && a.C[ops[i].x] != c
  {
    var cs := a.C;
    ColumnRows(sh, a, v, c);
    var ops := CoverOps(sh, v, c);
    forall i | 0 <= i < |ops| && ops[i].VRemove? ensures ops[i].x < |cs| && cs[ops[i].x] != c {
      var y := ops[i].x;
      assert VRemove(y) in RowsOps(sh, v.col[c]);
      RowsOpsMembers(sh, v.col[c], y);
      var r :| r in v.col[c] && y in RightWalk(sh, r);
      RightWalkMembers(sh, r);
      assert sh.first[y] == sh.first[r] && sh.end[y] == sh.end[r];
      RowColumnsDiffer(sh, cs, r, y);
    }
  }

  lemma ExactAfterCover(sh: Shape, a: Arena, v: View, c: nat)
    requires CoverReady(sh, a, v, c)
    requires c < |v.col| && AllInRow(sh, v.col[c])
    requires forall y :: y in CoveredView(sh, a, v, c).hs <==> y in v.hs && y != c
    ensures Exact(sh, a.C, CoveredView(sh, a, v, c))
  {
    var cs := a.C;
    var ops := CoverOps(sh, v, c);
    var v' := CoveredView(sh, a, v, c);
    forall h, x | 1 <= h <= sh.nc && h in v'.hs && x in v'.col[h] && sh.nc < x < |cs|
      ensures Alive(sh, cs, v'.hs, x)
    {
      ColumnRows(sh, a, v, h);
      ViewAllColumn(cs, v, ops, h, x);
      CoverOpsMember(sh, a, v, c, x);
      assert Alive(sh, cs, v.hs, x);
      forall y | sh.first[x] <= y < sh.end[x] ensures cs[y] in v'.hs {
        assert cs[y] in RowCols(sh, cs, x);
      }
    }
    forall x | sh.nc < x < |cs| && Alive(sh, cs, v'.hs, x) ensures x in v'.col[cs[x]] {
      assert Alive(sh, cs, v.hs, x);
      assert sh.first[x] <= x < sh.end[x];
      var h := cs[x];
      ColumnRows(sh, a, v, h);
      ViewAllColumn(cs, v, ops, h, x);
      CoverOpsMember(sh, a, v, c, x);
      assert c !in RowCols(sh, cs, x);
    }
  }

  /** Index of the first splice of row i of the cover list: one for the header
      splice, plus the other nodes of the rows before it. */
  ghost function RowStart(sh: Shape, v: View, c: nat, i: nat): nat
    requires c < |v.col| && AllInRow(sh, v.col[c]) && i <= |v.col[c]|
  {
    if i == 0 then 1
    else
      assert v.col[c][i - 1] in v.col[c];
      RowStart(sh, v, c, i - 1) + |RightWalk(sh, v.col[c][i - 1])|
  }

  /** Row i starts right after the splices of the rows before it. */
  lemma {:induction false} RowStartLength(sh: Shape, v: View, c: nat, i: nat)
    requires c < |v.col| && AllInRow(sh, v.col[c]) && i <= |v.col[c]|
    ensures AllInRow(sh, v.col[c][..i])
    ensures RowStart(sh, v, c, i) == 1 + |RowsOps(sh, v.col[c][..i])|
  {
    var l := v.col[c];
    if i > 0 {
      RowStartLength(sh, v, c, i - 1);
      assert l[..i][..i - 1] == l[..i - 1];
      assert l[..i][i - 1] == l[i - 1];
    }
  }

  /** Where row i's unlinks sit inside the cover list. */
  lemma CoverOpsSplit(sh: Shape, v: View, c: nat, i: nat)
    requires c < |v.col| && AllInRow(sh, v.col[c]) && i < |v.col[c]|
    ensures RowStart(sh, v, c, i) + |RightWalk(sh, v.col[c][i])| == RowStart(sh, v, c, i + 1) <= |CoverOps(sh, v, c)|
    ensures forall j :: 0 <= j < |RightWalk(sh, v.col[c][i])| ==>
              CoverOps(sh, v, c)[RowStart(sh, v, c, i) + j] == VRemove(RightWalk(sh, v.col[c][i])[j])
  {
    var l := v.col[c];
    var w := RightWalk(sh, l[i]);
    RowStartLength(sh, v, c, i);
    RowStartLength(sh, v, c, i + 1);
    assert l[..i + 1][..i] == l[..i];
    assert l[..i + 1] + l[i + 1..] == l;
    RowsOpsAppend(sh, l[..i + 1], l[i + 1..]);
    assert RowsOps(sh, l[..i + 1]) == RowsOps(sh, l[..i]) + WalkOps(w);
  }

  /** The last row ends where the cover list ends. */
  lemma CoverOpsWhole(sh: Shape, v: View, c: nat)
    requires c < |v.col| && AllInRow(sh, v.col[c])
    ensures RowStart(sh, v, c, 0) == 1 && RowStart(sh, v, c, |v.col[c]|) == |CoverOps(sh, v, c)|
  {
    RowStartLength(sh, v, c, |v.col[c]|);
    assert v.col[c][..|v.col[c]|] == v.col[c];
  }

  /** Part-way through a cover the fabric is linked and c's ring is as it was. */
  lemma CoverPrefix(sh: Shape, a: Arena, v: View, c: nat, k: nat)
    requires CoverReady(sh, a, v, c)
    requires c < |v.col| && AllInRow(sh, v.col[c]) && k <= |CoverOps(sh, v, c)|
    ensures Linked(sh, ApplyAll(a, CoverOps(sh, v, c)[..k]), ViewAll(a.C, v, CoverOps(sh, v, c)[..k]))
    ensures ViewAll(a.C, v, CoverOps(sh, v, c)[..k]).col[c] == v.col[c]
  {
    CoverAllowed(sh, a, v, c);
    PrefixLinked(sh, a, v, CoverOps(sh, v, c), k);
    CoverPrefixColumn(sh, a, v, c, k);
  }

  /** No splice of a cover touches the covered column's own ring. */
  lemma CoverPrefixColumn(sh: Shape, a: Arena, v: View, c: nat, k: nat)
    requires Linked(sh, a, v) && 1 <= c <= sh.nc
    requires c < |v.col| && AllInRow(sh, v.col[c]) && k <= |CoverOps(sh, v, c)|
    ensures ViewAll(a.C, v, CoverOps(sh, v, c)[..k]).col[c] == v.col[c]
  {
    var ops := CoverOps(sh, v, c);
    CoverOpsOtherColumns(sh, a, v, c);
    var pre := ops[..k];
    assert forall i :: 0 <= i < |pre| ==> pre[i] == ops[i];
    ViewAllColumnUntouched(a.C, v, pre, c);
  }

  /** The arenas met while applying positions base.. base+n-1 of `ops`. */
  ghost function Trace(a0: Arena, ops: seq<Op>, base: nat, n: nat): (st: seq<Arena>)
    requires base + n <= |ops|
    ensures |st| == n + 1 && forall j :: 0 <= j <= n ==> st[j] == ApplyAll(a0, ops[..base + j])
  {
    seq(n + 1, j requires 0 <= j <= n => ApplyAll(a0, ops[..base + j]))
  }

  /** Each arena of `st` is the previous one with the next node of w spliced
      out of its column, and that splice is in range. */
  ghost predicate SpliceChain(st: seq<Arena>, w: seq<nat>)
  {
    && |st| == |w| + 1
    && forall j :: 0 <= j < |w| ==> OpInRange(st[j], VRemove(w[j])) && st[j + 1] == ApplyOp(st[j], VRemove(w[j]))
  }

  /** Each arena of `st` is recovered from the next one by splicing the
      corresponding node of w back in. */
  ghost predicate RestoreChain(st: seq<Arena>, w: seq<nat>)
  {
    && |st| == |w| + 1
    && forall j :: 0 <= j < |w| ==> PointsAway(st[j + 1], VRemove(w[j])) && UndoOp(st[j + 1], VRemove(w[j])) == st[j]
  }

  /** The arena just before row i of c's ring is unlinked. */
  ghost function Stage(sh: Shape, a: Arena, v: View, c: nat, i: nat): Arena
    requires c < |v.col| && AllInRow(sh, v.col[c]) && i <= |v.col[c]|
  {
    var ops := CoverOps(sh, v, c);
    if RowStart(sh, v, c, i) <= |ops| then ApplyAll(a, ops[..RowStart(sh, v, c, i)]) else a
  }

  /** The arenas met while row i of c's ring is unlinked. */
  ghost function RowTrace(sh: Shape, a: Arena, v: View, c: nat, i: nat): seq<Arena>
    requires c < |v.col| && AllInRow(sh, v.col[c]) && i < |v.col[c]|
  {
    var ops := CoverOps(sh, v, c);
    var w := RightWalk(sh, v.col[c][i]);
    if RowStart(sh, v, c, i) + |w| <= |ops| then Trace(a, ops, RowStart(sh, v, c, i), |w|) else []
  }

  /** What the header splice of a cover needs, and where c's ring starts and ends. */
  lemma CoverHeaderReady(sh: Shape, a0: Arena, v: View, c: nat)
    requires CoverReady(sh, a0, v, c)
    ensures c < |v.col| && AllInRow(sh, v.col[c])
    ensures OpInRange(a0, HRemove(c))
    ensures Stage(sh, a0, v, c, 0) == ApplyOp(a0, HRemove(c))
    ensures PointsAway(ApplyOp(a0, HRemove(c)), HRemove(c))
    ensures UndoOp(ApplyOp(a0, HRemove(c)), HRemove(c)) == a0
    ensures var b := Stage(sh, a0, v, c, 0);
            c < |b.D| && b.D[c] == (if |v.col[c]| > 0 then v.col[c][0] else c)
    ensures Stage(sh, a0, v, c, |v.col[c]|) == ApplyAll(a0, CoverOps(sh, v, c))
    ensures var b := Stage(sh, a0, v, c, |v.col[c]|);
            c < |b.U| && b.U[c] == (if |v.col[c]| > 0 then v.col[c][|v.col[c]| - 1] else c)
  {
    var ops := CoverOps(sh, v, c);
    var l := v.col[c];
    CoverAllowed(sh, a0, v, c);
    UndoLast(sh, a0, v, ops, 0);
    assert ops[..0] == [];
    CoverPrefix(sh, a0, v, c, 1);
    var b := ApplyAll(a0, ops[..1]);
    assert ColumnOK(sh, |b.L|, b.D, b.U, b.C, b.S, c, l);
    CoverPrefix(sh, a0, v, c, |ops|);
    assert ops[..|ops|] == ops;
    var e := ApplyAll(a0, ops);
    assert ColumnOK(sh, |e.L|, e.D, e.U, e.C, e.S, c, l);
    CoverOpsWhole(sh, v, c);
  }

  /** Every splice of `ops`, applied in turn to the linked arena a, is allowed. */
  ghost predicate Allowed(sh: Shape, a: Arena, v: View, ops: seq<Op>)
  {
    Linked(sh, a, v) && AllOK(sh, a, v, ops)
  }

  /** A run of column splices inside an allowed splice list forms a chain of
      arenas that can be walked forwards and backwards. */
  lemma TraceChains(sh: Shape, a0: Arena, v: View, ops: seq<Op>, base: nat, w: seq<nat>)
    requires Allowed(sh, a0, v, ops) && base + |w| <= |ops|
    requires forall j :: 0 <= j < |w| ==> ops[base + j] == VRemove(w[j])
    ensures SpliceChain(Trace(a0, ops, base, |w|), w) == true && RestoreChain(Trace(a0, ops, base, |w|), w) == true
  {
    var st := Trace(a0, ops, base, |w|);
    forall j | 0 <= j < |w|
      ensures OpInRange(st[j], VRemove(w[j])) && st[j + 1] == ApplyOp(st[j], VRemove(w[j]))
      ensures PointsAway(st[j + 1], VRemove(w[j])) && UndoOp(st[j + 1], VRemove(w[j])) == st[j]
    {
      UndoLast(sh, a0, v, ops, base + j);
      assert base + j + 1 == base + (j + 1);
    }
  }

  /** The splices of row i of a cover form such a chain. */
  lemma CoverRowChains(sh: Shape, a0: Arena, v: View, c: nat, i: nat)
    requires c < |v.col| && AllInRow(sh, v.col[c]) && i < |v.col[c]|
    requires Allowed(sh, a0, v, CoverOps(sh, v, c))
    ensures var st, w := RowTrace(sh, a0, v, c, i), RightWalk(sh, v.col[c][i]);
            SpliceChain(st, w) == true && RestoreChain(st, w) == true
  {
    CoverOpsSplit(sh, v, c, i);
    TraceChains(sh, a0, v, CoverOps(sh, v, c), RowStart(sh, v, c, i), RightWalk(sh, v.col[c][i]));
  }

  /** Row i's chain runs from the stage before the row to the stage after it. */
  lemma RowTraceEnds(sh: Shape, a0: Arena, v: View, c: nat, i: nat)
    requires c < |v.col| && AllInRow(sh, v.col[c]) && i < |v.col[c]|
    ensures |RowTrace(sh, a0, v, c, i)| == |RightWalk(sh, v.col[c][i])| + 1
    ensures RowTrace(sh, a0, v, c, i)[0] == Stage(sh, a0, v, c, i)
    ensures RowTrace(sh, a0, v, c, i)[|RightWalk(sh, v.col[c][i])|] == Stage(sh, a0, v, c, i + 1)
  {
    CoverOpsSplit(sh, v, c, i);
  }

  /** Around row i of a cover the row ring is intact, and c's ring leads from
      the row before to the row after. */
  lemma CoverRowLinks(sh: Shape, a0: Arena, v: View, c: nat, i: nat)
    requires CoverReady(sh, a0, v, c)
    requires c < |v.col| && AllInRow(sh, v.col[c]) && i < |v.col[c]|
    ensures var b := Stage(sh, a0, v, c, i);
            IsRing(b.R, b.L, v.col[c][i], RightWalk(sh, v.col[c][i]))
            && v.col[c][i] < |b.U| && b.U[v.col[c][i]] == (if i > 0 then v.col[c][i - 1] else c)
    ensures var b := Stage(sh, a0, v, c, i + 1);
            IsRing(b.R, b.L, v.col[c][i], RightWalk(sh, v.col[c][i]))
            && v.col[c][i] < |b.D| && b.D[v.col[c][i]] == (if i + 1 < |v.col[c]| then v.col[c][i + 1] else c)
  {
    var ops := CoverOps(sh, v, c);
    var l := v.col[c];
    CoverOpsSplit(sh, v, c, i);
    ColumnRows(sh, a0, v, c);
    assert l[i] in l;
    var k0 := RowStart(sh, v, c, i);
    var k1 := RowStart(sh, v, c, i + 1);
    CoverPrefix(sh, a0, v, c, k0);
    var b0 := ApplyAll(a0, ops[..k0]);
    RowRing(sh, b0, l[i]);
    assert ColumnOK(sh, |b0.L|, b0.D, b0.U, b0.C, b0.S, c, l);
    RingNeighbours(b0.D, b0.U, c, l, i);
    CoverPrefix(sh, a0, v, c, k1);
    var b1 := ApplyAll(a0, ops[..k1]);
    RowRing(sh, b1, l[i]);
    assert ColumnOK(sh, |b1.L|, b1.D, b1.U, b1.C, b1.S, c, l);
    RingNeighbours(b1.D, b1.U, c, l, i);
  }

  /** Everything the link walk of a cover (and of the uncover that follows)
      meets: the header splice, and per row of c's ring its walk, its chain
      of arenas, and the arena between rows. */
  datatype Plan = Plan(l: seq<nat>, walks: seq<seq<nat>>, traces: seq<seq<Arena>>, stages: seq<Arena>)

  ghost predicate PlanOK(p: Plan, a: Arena, c: nat)
  {
    && |p.stages| == |p.l| + 1 && |p.walks| == |p.l| && |p.traces| == |p.l|
    && c !in p.l
    && OpInRange(a, HRemove(c)) && p.stages[0] == ApplyOp(a, HRemove(c))
    && PointsAway(p.stages[0], HRemove(c)) && UndoOp(p.stages[0], HRemove(c)) == a
    && c < |p.stages[0].D| && p.stages[0].D[c] == (if |p.l| > 0 then p.l[0] else c)
    && c < |p.stages[|p.l|].U| && p.stages[|p.l|].U[c] == (if |p.l| > 0 then p.l[|p.l| - 1] else c)
    && forall i :: 0 <= i < |p.l| ==> RowPlanOK(p, c, i)
  }

  ghost predicate RowPlanOK(p: Plan, c: nat, i: nat)
    requires |p.stages| == |p.l| + 1 && |p.walks| == |p.l| && |p.traces| == |p.l| && i < |p.l|
  {
    var w, st, x := p.walks[i], p.traces[i], p.l[i];
    && SpliceChain(st, w) && RestoreChain(st, w)
    && st[0] == p.stages[i] && st[|w|] == p.stages[i + 1]
    && x !in w
    && IsRing(p.stages[i].R, p.stages[i].L, x, w)
    && IsRing(p.stages[i + 1].R, p.stages[i + 1].L, x, w)
    && x < |p.stages[i + 1].D| && p.stages[i + 1].D[x] == (if i + 1 < |p.l| then p.l[i + 1] else c)
    && x < |p.stages[i].U| && p.stages[i].U[x] == (if i > 0 then p.l[i - 1] else c)
  }

  ghost function CoverPlan(sh: Shape, a: Arena, v: View, c: nat): Plan
    requires c < |v.col| && AllInRow(sh, v.col[c])
  {
    var l := v.col[c];
    Plan(l,
         seq(|l|, i requires 0 <= i < |l| => RightWalk(sh, l[i])),
         seq(|l|, i requires 0 <= i < |l| => RowTrace(sh, a, v, c, i)),
         seq(|l| + 1, i requires 0 <= i <= |l| => Stage(sh, a, v, c, i)))
  }

  /** Row i of the cover plan is sound. */
  lemma CoverRowPlan(sh: Shape, a: Arena, v: View, c: nat, i: nat)
    requires CoverReady(sh, a, v, c)
    requires c < |v.col| && AllInRow(sh, v.col[c]) && i < |v.col[c]|
    ensures RowPlanOK(CoverPlan(sh, a, v, c), c, i)
  {
    var l := v.col[c];
    var p := CoverPlan(sh, a, v, c);
    CoverAllowed(sh, a, v, c);
    CoverRowChains(sh, a, v, c, i);
    RowTraceEnds(sh, a, v, c, i);
    CoverRowLinks(sh, a, v, c, i);
    RightWalkMembers(sh, l[i]);
    assert p.walks[i] == RightWalk(sh, l[i]);
    assert p.traces[i] == RowTrace(sh, a, v, c, i);
    assert p.stages[i] == Stage(sh, a, v, c, i) && p.stages[i + 1] == Stage(sh, a, v, c, i + 1);
  }

  /** The cover plan is sound, and its last stage is the whole cover. */
  lemma CoverPlanOK(sh: Shape, a: Arena, v: View, c: nat)
    requires CoverReady(sh, a, v, c)
    ensures c < |v.col| && AllInRow(sh, v.col[c])
    ensures PlanOK(CoverPlan(sh, a, v, c), a, c)
    ensures CoverPlan(sh, a, v, c).stages[|v.col[c]|] == ApplyAll(a, CoverOps(sh, v, c))
  {
    CoverHeaderReady(sh, a, v, c);
    var p := CoverPlan(sh, a, v, c);
    var l := v.col[c];
    ColumnRows(sh, a, v, c);
    forall i | 0 <= i < |l| ensures RowPlanOK(p, c, i) {
      CoverRowPlan(sh, a, v, c, i);
    }
    assert c !in l;
  }

  /** The inner loop of `coverColumn` (sudoku.cpp:63-68): walk right from
      `node` around its row, unlinking each node from its column in the
      solver's statement order. It performs the planned splices. */
  method UnlinkRow(ghost st: seq<Arena>, ghost w: seq<nat>, a: Arena, node: nat) returns (a': Arena)
    requires SpliceChain(st, w) && a == st[0]
    requires IsRing(a.R, a.L, node, w) && node !in w
    ensures a' == st[|w|]
    ensures a'.R == a.R && a'.L == a.L
  {
    a' := a;
    var t := a'.R[node];
    ghost var j := 0;
    while t != node
      invariant 0 <= j <= |w|
      invariant a' == st[j]
      invariant a'.R == a.R && a'.L == a.L
      invariant t == if j < |w| then w[j] else node
      decreases |w| - j
    {
      VRemoveInOrder(a', t);
      a' := a'.(U := a'.U[a'.D[t] := a'.U[t]]);
      a' := a'.(D := a'.D[a'.U[t] := a'.D[t]]);
      a' := a'.(S := a'.S[a'.C[t] := a'.S[a'.C[t]] - 1]);
      RingNeighbours(a.R, a.L, node, w, j);
      t := a'.R[t];
      j := j + 1;
    }
  }

  /** The inner loop of `uncoverColumn` (sudoku.cpp:76-81): walk left from
      `node` around its row, relinking each node into its column in the
      solver's statement order. It undoes the planned splices, last first. */
  method RelinkRow(ghost st: seq<Arena>, ghost w: seq<nat>, a: Arena, node: nat) returns (a': Arena)
    requires RestoreChain(st, w) && a == st[|w|]
    requires IsRing(a.R, a.L, node, w) && node !in w
    ensures a' == st[0]
    ensures a'.R == a.R && a'.L == a.L
  {
    a' := a;
    var t := a'.L[node];
    ghost var j := |w|;
    while t != node
      invariant 0 <= j <= |w|
      invariant a' == st[j]
      invariant a'.R == a.R && a'.L == a.L
      invariant t == if j > 0 then w[j - 1] else node
      decreases j
    {
      VRestoreInOrder(a', t);
      a' := a'.(S := a'.S[a'.C[t] := a'.S[a'.C[t]] + 1]);
      a' := a'.(U := a'.U[a'.D[t] := t]);
      a' := a'.(D := a'.D[a'.U[t] := t]);
      RingNeighbours(a.R, a.L, node, w, j - 1);
      t := a'.L[t];
      j := j - 1;
    }
  }

  /** `coverColumn` (sudoku.cpp:57-70): splice c out of the header ring, then
      walk c's down-ring and unlink the rest of each row. It performs exactly
      the splice list `CoverOps`. */
  method CoverColumn(ghost sh: Shape, a: Arena, ghost v: View, c: nat) returns (a': Arena)
    requires CoverReady(sh, a, v, c)
    ensures c < |v.col| && AllInRow(sh, v.col[c])
    ensures a' == ApplyAll(a, CoverOps(sh, v, c))
  {
    CoverPlanOK(sh, a, v, c);
    a' := WalkCover(CoverPlan(sh, a, v, c), a, c);
  }

  /** The link walk of `coverColumn`, following a sound plan. */
  method WalkCover(ghost p: Plan, a: Arena, c: nat) returns (a': Arena)
    requires PlanOK(p, a, c)
    ensures a' == p.stages[|p.l|]
  {
    HRemoveInOrder(a, c);
    a' := a.(R := a.R[a.L[c] := a.R[c]]);
    a' := a'.(L := a'.L[a'.R[c] := a'.L[c]]);
    ghost var i := 0;
    var node := a'.D[c];
    while node != c
      invariant 0 <= i <= |p.l|
      invariant a' == p.stages[i]
      invariant node == if i < |p.l| then p.l[i] else c
      decreases |p.l| - i
    {
      assert RowPlanOK(p, c, i);
      a' := UnlinkRow(p.traces[i], p.walks[i], a', node);
      node := a'.D[node];
      i := i + 1;
    }
  }

  /** `uncoverColumn` (sudoku.cpp:72-85): walk c's up-ring from the bottom,
      relinking each row leftwards, then splice c back into the header ring.
      Applied right after `CoverColumn`, it restores the arena exactly. */
  method UncoverColumn(ghost sh: Shape, a: Arena, ghost a0: Arena, ghost v: View, c: nat) returns (a': Arena)
    requires CoverReady(sh, a0, v, c)
    requires c < |v.col| && AllInRow(sh, v.col[c])
    requires a == ApplyAll(a0, CoverOps(sh, v, c))
    ensures a' == a0
  {
    CoverPlanOK(sh, a0, v, c);
    a' := WalkUncover(CoverPlan(sh, a0, v, c), a, a0, c);
  }

  /** The link walk of `uncoverColumn`, following a sound plan backwards. */
  method WalkUncover(ghost p: Plan, a: Arena, ghost a0: Arena, c: nat) returns (a': Arena)
    requires PlanOK(p, a0, c) && a == p.stages[|p.l|]
    ensures a' == a0
  {
    a' := a;
    ghost var i := |p.l|;
    var node := a'.U[c];
    while node != c
      invariant 0 <= i <= |p.l|
      invariant a' == p.stages[i]
      invariant node == if i > 0 then p.l[i - 1] else c
      decreases i
    {
      assert RowPlanOK(p, c, i - 1);
      a' := RelinkRow(p.traces[i - 1], p.walks[i - 1], a', node);
      node := a'.U[node];
      i := i - 1;
    }
    HRestoreInOrder(a', c);
    a' := a'.(R := a'.R[a'.L[c] := c]);
    a' := a'.(L := a'.L[a'.R[c] := c]);
  }
}
