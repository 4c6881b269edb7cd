/** The bookkeeping behind the search: the rows chosen so far (the clues and
    the rows on the solution stack) have pairwise disjoint column sets, and a
    column header is in the header ring exactly when no chosen row has a node
    in that column. When the ring is empty the chosen rows form an exact cover. */
module Partition {
  import opened Arena
  import opened Cover

  /** The union of a list of column sets. */
  ghost function UnionOf(ss: seq<set<nat>>): set<nat>
    decreases |ss|
  {
    if |ss| == 0 then {} else UnionOf(ss[..|ss| - 1]) + ss[|ss| - 1]
  }

  /** Each set shares nothing with the union of the sets before it. */
  ghost predicate DisjointSets(ss: seq<set<nat>>)
    decreases |ss|
  {
    |ss| == 0 || (DisjointSets(ss[..|ss| - 1]) && ss[|ss| - 1] !! UnionOf(ss[..|ss| - 1]))
  }

  /** A value is in the union exactly when it is in one of the sets. */
  lemma {:induction false} UnionOfMembers(ss: seq<set<nat>>, h: nat)
    ensures h in UnionOf(ss) <==> exists i :: 0 <= i < |ss| && h in ss[i]
    decreases |ss|
  {
    if |ss| > 0 {
      var k := |ss| - 1;
      UnionOfMembers(ss[..k], h);
      if h in UnionOf(ss) && h !in ss[k] {
        var i :| 0 <= i < k && h in ss[..k][i];
        assert h in ss[i];
      }
      if exists i :: 0 <= i < |ss| && h in ss[i] {
        var i :| 0 <= i < |ss| && h in ss[i];
        if i < k {
          assert h in ss[..k][i];
        }
      }
    }
  }

  /** Disjointness from the earlier union is pairwise disjointness. */
  lemma {:induction false} DisjointSetsPairs(ss: seq<set<nat>>)
    ensures DisjointSets(ss) <==> forall i, j :: 0 <= i < j < |ss| ==> ss[i] !! ss[j]
    decreases |ss|
  {
    if |ss| > 0 {
      var k := |ss| - 1;
      var pre := ss[..k];
      DisjointSetsPairs(pre);
      if DisjointSets(ss) {
        forall i, j | 0 <= i < j < |ss| ensures ss[i] !! ss[j] {
          assert ss[i] == pre[i];
          if j < k {
            assert ss[j] == pre[j];
          } else {
            forall h | h in ss[i] ensures h in UnionOf(pre) {
              UnionOfMembers(pre, h);
            }
          }
        }
      }
      if forall i, j :: 0 <= i < j < |ss| ==> ss[i] !! ss[j] {
        forall i, j | 0 <= i < j < k ensures pre[i] !! pre[j] {
          assert pre[i] == ss[i] && pre[j] == ss[j];
        }
        forall h | h in ss[k] ensures h !in UnionOf(pre) {
          UnionOfMembers(pre, h);
        }
      }
    }
  }

  /** `h` lies in exactly one of the sets. */
  ghost predicate InExactlyOne(ss: seq<set<nat>>, h: nat)
  {
    && (exists i :: 0 <= i < |ss| && h in ss[i])
    && (forall i, j :: 0 <= i < |ss| && 0 <= j < |ss| && h in ss[i] && h in ss[j] ==> i == j)
  }

  /** Every chosen row is named by one of its nodes. */
  ghost predicate AllNodes(sh: Shape, cs: seq<nat>, rows: seq<nat>)
  {
    RowShape(sh, |cs|, cs) && forall i :: 0 <= i < |rows| ==> sh.nc < rows[i] < |cs|
  }

  /** The column sets of the chosen rows, in order. */
  ghost function RowSets(sh: Shape, cs: seq<nat>, rows: seq<nat>): (r: seq<set<nat>>)
    requires AllNodes(sh, cs, rows)
    ensures |r| == |rows| && forall i :: 0 <= i < |rows| ==> r[i] == RowCols(sh, cs, rows[i])
  {
    seq(|rows|, i requires 0 <= i < |rows| => RowCols(sh, cs, rows[i]))
  }

  /** The search invariant: the active headers are exactly the columns no
      chosen row covers, and the chosen rows do not overlap. */
  ghost predicate Covers(sh: Shape, cs: seq<nat>, hs: seq<nat>, rows: seq<nat>)
  {
    && AllNodes(sh, cs, rows)
    && DisjointSets(RowSets(sh, cs, rows))
    && (forall h :: 1 <= h <= sh.nc ==> (h in hs <==> h !in UnionOf(RowSets(sh, cs, rows))))
  }

  /** The chosen rows cover every column, none of them twice. */
  ghost predicate ExactCover(sh: Shape, cs: seq<nat>, rows: seq<nat>)
  {
    && AllNodes(sh, cs, rows)
    && DisjointSets(RowSets(sh, cs, rows))
    && CoversRange(RowSets(sh, cs, rows), sh.nc)
  }

  /** The columns of a row are column headers. */
  lemma RowColsRange(sh: Shape, cs: seq<nat>, x: nat, h: nat)
    requires RowShape(sh, |cs|, cs) && sh.nc < x < |cs| && h in RowCols(sh, cs, x)
    ensures 1 <= h <= sh.nc
  {
    var y :| sh.first[x] <= y < sh.end[x] && cs[y] == h;
  }

  /** Every value in 1..nc lies in one of the sets. */
  ghost predicate CoversRange(ss: seq<set<nat>>, nc: nat)
  {
    forall h :: 1 <= h <= nc ==> h in UnionOf(ss)
  }

  /** Every value in 1..nc lies in exactly one of the sets. */
  ghost predicate EachOnce(ss: seq<set<nat>>, nc: nat)
  {
    forall h :: 1 <= h <= nc ==> InExactlyOne(ss, h)
  }

  /** Sets of values in 1..nc are disjoint and cover 1..nc exactly when every
      value in 1..nc lies in exactly one of them. */
  lemma ExactSets(ss: seq<set<nat>>, nc: nat)
    requires forall i, h :: 0 <= i < |ss| && h in ss[i] ==> 1 <= h <= nc
    ensures DisjointSets(ss) && CoversRange(ss, nc) <==> EachOnce(ss, nc)
  {
    if DisjointSets(ss) && CoversRange(ss, nc) {
      DisjointSetsPairs(ss);
      forall h | 1 <= h <= nc ensures InExactlyOne(ss, h) {
        UnionOfMembers(ss, h);
      }
    }
    if EachOnce(ss, nc) {
      forall i, j | 0 <= i < j < |ss| ensures ss[i] !! ss[j] {
        forall h | h in ss[i] ensures h !in ss[j] {
          assert InExactlyOne(ss, h);
        }
      }
      DisjointSetsPairs(ss);
      forall h | 1 <= h <= nc ensures h in UnionOf(ss) {
        assert InExactlyOne(ss, h);
        UnionOfMembers(ss, h);
      }
    }
  }

  /** An exact cover is a list of rows such that every column lies in exactly
      one of them. */
  lemma ExactCoverUnique(sh: Shape, cs: seq<nat>, rows: seq<nat>)
    requires AllNodes(sh, cs, rows)
    ensures ExactCover(sh, cs, rows) <==>
            EachOnce(RowSets(sh, cs, rows), sh.nc)
  {
    var ss := RowSets(sh, cs, rows);
    forall i, h | 0 <= i < |ss| && h in ss[i] ensures 1 <= h <= sh.nc {
      RowColsRange(sh, cs, rows[i], h);
    }
    ExactSets(ss, sh.nc);
  }

  lemma RowSetsSnoc(sh: Shape, cs: seq<nat>, rows: seq<nat>, t: nat)
    requires AllNodes(sh, cs, rows) && sh.nc < t < |cs|
    ensures AllNodes(sh, cs, rows + [t])
    ensures RowSets(sh, cs, rows + [t])[..|rows|] == RowSets(sh, cs, rows)
    ensures RowSets(sh, cs, rows + [t])[|rows|] == RowCols(sh, cs, t)
  {
  }

  /** Choosing one more row, all of whose columns are active, keeps the
      invariant when the header ring loses exactly that row's columns. */
  lemma CoversSnoc(sh: Shape, cs: seq<nat>, hs: seq<nat>, hs': seq<nat>, rows: seq<nat>, t: nat)
    requires Covers(sh, cs, hs, rows) && sh.nc < t < |cs|
    requires forall y :: sh.first[t] <= y < sh.end[t] ==> cs[y] in hs
    requires forall h :: h in hs' <==> h in hs && h !in RowCols(sh, cs, t)
    ensures Covers(sh, cs, hs', rows + [t])
  {
    RowSetsSnoc(sh, cs, rows, t);
    var ss := RowSets(sh, cs, rows + [t]);
    assert ss[..|ss| - 1] == RowSets(sh, cs, rows);
    forall h | h in RowCols(sh, cs, t) ensures h !in UnionOf(RowSets(sh, cs, rows)) {
      var y :| sh.first[t] <= y < sh.end[t] && cs[y] == h;
      RowColsRange(sh, cs, t, h);
    }
  }

  /** With no active header left, the chosen rows are an exact cover. */
  lemma CoversDone(sh: Shape, cs: seq<nat>, rows: seq<nat>)
    requires Covers(sh, cs, [], rows)
    ensures ExactCover(sh, cs, rows)
  {
  }
}
