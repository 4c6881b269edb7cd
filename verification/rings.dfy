/** Circular doubly-linked rings over an index arena.

    A ring is described by an anchor index and the list of the other members in
    `next` order; `prev` walks the same cycle backwards. Both the header ring
    (right/left links) and every column ring (down/up links) of the dancing-links
    fabric are rings in this sense, and so is every row ring (right/left links of
    the ordinary nodes). */
module Rings {

  /** All elements of `s` are different. */
  ghost predicate Distinct(s: seq<nat>)
  {
    forall i, j :: 0 <= i < j < |s| ==> s[i] != s[j]
  }

  /** `anchor` followed by `elems` is a cycle under `next`, and `prev` is its inverse on the cycle. */
  ghost predicate IsRing(next: seq<nat>, prev: seq<nat>, anchor: nat, elems: seq<nat>)
  {
    && anchor < |next| && anchor < |prev|
    && (forall i :: 0 <= i < |elems| ==> elems[i] < |next| && elems[i] < |prev|)
    && (if |elems| == 0 then next[anchor] == anchor && prev[anchor] == anchor
        else
          && next[anchor] == elems[0] && prev[elems[0]] == anchor
          && next[elems[|elems| - 1]] == anchor && prev[anchor] == elems[|elems| - 1]
          && (forall i :: 0 <= i < |elems| - 1 ==> next[elems[i]] == elems[i + 1] && prev[elems[i + 1]] == elems[i]))
  }

  /** `s` with every occurrence of `x` removed. */
  function Without(s: seq<nat>, x: nat): (r: seq<nat>)
    ensures forall y :: y in r <==> y in s && y != x
    ensures |r| <= |s|
    ensures x in s ==> |r| < |s|
  {
    if |s| == 0 then []
    else if s[|s| - 1] == x then Without(s[..|s| - 1], x)
    else Without(s[..|s| - 1], x) + [s[|s| - 1]]
  }

  /** On a list without repetitions, removing a member deletes exactly its one position. */
  lemma {:induction false} WithoutAt(s: seq<nat>, k: nat)
    requires Distinct(s) && k < |s|
    ensures Without(s, s[k]) == s[..k] + s[k + 1..]
    decreases |s|
  {
    var last := |s| - 1;
    if k == last {
      assert s[..k] + s[k + 1..] == s[..last];
      WithoutAbsent(s[..last], s[k]);
    } else {
      assert Distinct(s[..last]);
      assert s[..last][k] == s[k];
      WithoutAt(s[..last], k);
      assert s[..last][..k] == s[..k];
      assert s[..k] + s[k + 1..] == s[..last][..k] + s[..last][k + 1..] + [s[last]];
    }
  }

  /** Removing a value that does not occur changes nothing. */
  lemma {:induction false} WithoutAbsent(s: seq<nat>, x: nat)
    requires x !in s
    ensures Without(s, x) == s
    decreases |s|
  {
    if |s| > 0 {
      assert s[..|s| - 1] + [s[|s| - 1]] == s;
      WithoutAbsent(s[..|s| - 1], x);
    }
  }

  /** Removal keeps a list free of repetitions. */
  lemma WithoutDistinct(s: seq<nat>, x: nat)
    requires Distinct(s)
    ensures Distinct(Without(s, x))
  {
    if x in s {
      var k :| 0 <= k < |s| && s[k] == x;
      WithoutAt(s, k);
      var r := s[..k] + s[k + 1..];
      forall i, j | 0 <= i < j < |r| ensures r[i] != r[j] {
        var i' := if i < k then i else i + 1;
        var j' := if j < k then j else j + 1;
        assert r[i] == s[i'] && r[j] == s[j'];
      }
    } else {
      WithoutAbsent(s, x);
    }
  }

  /** The two link updates of splicing `x` out of its ring: its left neighbour now
      points past it and its right neighbour points back past it. */
  function UnlinkNext(next: seq<nat>, prev: seq<nat>, x: nat): seq<nat>
    requires x < |next| && x < |prev| && prev[x] < |next|
  {
    next[prev[x] := next[x]]
  }

  function UnlinkPrev(next: seq<nat>, prev: seq<nat>, x: nat): seq<nat>
    requires x < |next| && x < |prev| && next[x] < |prev|
  {
    prev[next[x] := prev[x]]
  }

  /** The two link updates of splicing `x` back between its remembered neighbours. */
  function RelinkNext(next: seq<nat>, prev: seq<nat>, x: nat): seq<nat>
    requires x < |prev| && prev[x] < |next|
  {
    next[prev[x] := x]
  }

  function RelinkPrev(next: seq<nat>, prev: seq<nat>, x: nat): seq<nat>
    requires x < |next| && next[x] < |prev|
  {
    prev[next[x] := x]
  }

  /** Splicing a member out of a ring leaves the ring without that member. */
  lemma UnlinkFromRing(next: seq<nat>, prev: seq<nat>, anchor: nat, elems: seq<nat>, k: nat)
    requires IsRing(next, prev, anchor, elems)
    requires Distinct([anchor] + elems)
    requires k < |elems|
    ensures prev[elems[k]] < |next| && next[elems[k]] < |prev|
    ensures var x := elems[k];
      IsRing(UnlinkNext(next, prev, x), UnlinkPrev(next, prev, x), anchor, elems[..k] + elems[k + 1..])
  {
    var x := elems[k];
    var cyc := [anchor] + elems;
    var p := if k == 0 then anchor else elems[k - 1];
    var q := if k == |elems| - 1 then anchor else elems[k + 1];
    assert prev[x] == p && next[x] == q;
    var n' := UnlinkNext(next, prev, x);
    var p' := UnlinkPrev(next, prev, x);
    var r := elems[..k] + elems[k + 1..];
    if |r| == 0 {
      assert p == anchor && q == anchor;
    } else {
      UnlinkInterior(next, prev, anchor, elems, k);
      assert n'[anchor] == r[0] && p'[r[0]] == anchor by {
        if k == 0 {
          assert r[0] == q;
        } else {
          assert r[0] == elems[0] && cyc[1] == elems[0] && cyc[k] == p && cyc[0] == anchor;
          assert cyc[k + 1] == x;
          if k < |elems| - 1 { assert cyc[k + 2] == q; }
        }
      }
      assert n'[r[|r| - 1]] == anchor && p'[anchor] == r[|r| - 1] by {
        if k == |elems| - 1 {
          assert r[|r| - 1] == p;
        } else {
          assert r[|r| - 1] == elems[|elems| - 1] == cyc[|elems|];
          assert cyc[k] == p && cyc[0] == anchor && cyc[k + 1] == x;
        }
      }
    }
  }

  /** The inner links of a ring with one member spliced out. */
  lemma UnlinkInterior(next: seq<nat>, prev: seq<nat>, anchor: nat, elems: seq<nat>, k: nat)
    requires IsRing(next, prev, anchor, elems)
    requires Distinct([anchor] + elems)
    requires k < |elems|
    ensures prev[elems[k]] < |next| && next[elems[k]] < |prev|
    ensures var x := elems[k];
      var n' := UnlinkNext(next, prev, x);
      var p' := UnlinkPrev(next, prev, x);
      var r := elems[..k] + elems[k + 1..];
      forall i :: 0 <= i < |r| - 1 ==> n'[r[i]] == r[i + 1] && p'[r[i + 1]] == r[i]
  {
    var x := elems[k];
    var cyc := [anchor] + elems;
    var p := if k == 0 then anchor else elems[k - 1];
    var q := if k == |elems| - 1 then anchor else elems[k + 1];
    assert prev[x] == p && next[x] == q;
    var n' := UnlinkNext(next, prev, x);
    var p' := UnlinkPrev(next, prev, x);
    var r := elems[..k] + elems[k + 1..];
    forall i | 0 <= i < |r| - 1
      ensures n'[r[i]] == r[i + 1] && p'[r[i + 1]] == r[i]
    {
      if i + 1 < k {
        assert r[i] == elems[i] && r[i + 1] == elems[i + 1];
        assert cyc[i + 1] == elems[i] && cyc[k] == p && cyc[i + 2] == elems[i + 1];
        assert q == cyc[0] || q == cyc[k + 2];
      } else if i + 1 == k {
        assert r[i] == elems[k - 1] == p && r[i + 1] == elems[k + 1] == q;
      } else {
        assert r[i] == elems[i + 1] && r[i + 1] == elems[i + 2];
        assert cyc[i + 2] == elems[i + 1] && cyc[k] == p;
        assert cyc[i + 3] == elems[i + 2] && cyc[k + 2] == q;
      }
    }
  }

  lemma DistinctCons(x: nat, l: seq<nat>)
    requires Distinct(l) && x !in l
    ensures Distinct([x] + l)
  {
    var s := [x] + l;
    forall i, j | 0 <= i < j < |s| ensures s[i] != s[j] {
      if i > 0 {
        assert s[i] == l[i - 1] && s[j] == l[j - 1];
      } else {
        assert s[j] in l;
      }
    }
  }

  /** Splicing a member out of a ring, stated on membership: its neighbours are
      ring members (or the anchor) pointing at it, and afterwards the ring is the
      old one without it. */
  lemma RingRemove(next: seq<nat>, prev: seq<nat>, anchor: nat, elems: seq<nat>, x: nat)
    requires IsRing(next, prev, anchor, elems)
    requires Distinct(elems) && anchor !in elems && x in elems
    ensures x < |next| && x < |prev| && prev[x] < |next| && next[x] < |prev|
    ensures prev[x] == anchor || prev[x] in elems
    ensures next[x] == anchor || next[x] in elems
    ensures next[prev[x]] == x && prev[next[x]] == x
    ensures next[x] != x && prev[x] != x
    ensures IsRing(UnlinkNext(next, prev, x), UnlinkPrev(next, prev, x), anchor, Without(elems, x))
    ensures Distinct(Without(elems, x)) && |Without(elems, x)| == |elems| - 1
  {
    var k :| 0 <= k < |elems| && elems[k] == x;
    DistinctCons(anchor, elems);
    RingNeighbours(next, prev, anchor, elems, k);
    UnlinkFromRing(next, prev, anchor, elems, k);
    WithoutAt(elems, k);
    WithoutDistinct(elems, x);
  }

  /** The neighbours of the k-th member of a ring. */
  lemma RingNeighbours(next: seq<nat>, prev: seq<nat>, anchor: nat, elems: seq<nat>, k: nat)
    requires IsRing(next, prev, anchor, elems) == true && k < |elems|
    ensures prev[elems[k]] == (if k == 0 then anchor else elems[k - 1])
    ensures next[elems[k]] == (if k == |elems| - 1 then anchor else elems[k + 1])
  {
  }

  /** Splicing a node back between its remembered neighbours undoes splicing it out,
      provided the ring was consistent around it when it was spliced out. */
  lemma RelinkUndoesUnlink(next: seq<nat>, prev: seq<nat>, x: nat)
    requires x < |next| && x < |prev| && prev[x] < |next| && next[x] < |prev|
    requires next[prev[x]] == x && prev[next[x]] == x
    ensures var n' := UnlinkNext(next, prev, x);
            var p' := UnlinkPrev(next, prev, x);
            n'[x] == next[x] && p'[x] == prev[x]
            && RelinkNext(n', p', x) == next && RelinkPrev(n', p', x) == prev
  {
  }

  /** A ring only depends on the links of its own members. */
  lemma RingFrame(next: seq<nat>, prev: seq<nat>, next': seq<nat>, prev': seq<nat>, anchor: nat, elems: seq<nat>)
    requires IsRing(next, prev, anchor, elems)
    requires |next'| >= |next| && |prev'| >= |prev|
    requires next'[anchor] == next[anchor] && prev'[anchor] == prev[anchor]
    requires forall i :: 0 <= i < |elems| ==> next'[elems[i]] == next[elems[i]] && prev'[elems[i]] == prev[elems[i]]
    ensures IsRing(next', prev', anchor, elems)
  {
  }

  /** Appending a fresh member just before the anchor, the way a column ring grows
      while the fabric is built: the new node points down to the anchor and up to the old last member. */
  lemma RingAppend(next: seq<nat>, prev: seq<nat>, anchor: nat, elems: seq<nat>, x: nat)
    requires IsRing(next, prev, anchor, elems)
    requires Distinct([anchor] + elems)
    requires x < |next| && x < |prev| && x != anchor && x !in elems
    ensures var last := prev[anchor];
            var n' := next[x := anchor][last := x];
            var p' := prev[x := last][anchor := x];
            IsRing(n', p', anchor, elems + [x])
  {
    var last := prev[anchor];
    var n' := next[x := anchor][last := x];
    var p' := prev[x := last][anchor := x];
    var e := elems + [x];
    if |elems| > 0 {
      assert ([anchor] + elems)[0] == anchor && ([anchor] + elems)[|elems|] == last;
    }
    forall i | 0 <= i < |e| - 1
      ensures n'[e[i]] == e[i + 1] && p'[e[i + 1]] == e[i]
    {
      assert e[i] == elems[i];
      if i < |elems| - 1 {
        assert ([anchor] + elems)[i + 1] == elems[i];
        assert ([anchor] + elems)[|elems|] == last;
        assert e[i + 1] == elems[i + 1];
      }
    }
  }
}
