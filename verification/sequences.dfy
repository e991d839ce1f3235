/**
 The one sequence operation the to-do screen is built on: JavaScript's
 `Array.prototype.filter`, which walks the array from left to right and
 pushes every element the callback accepts onto a fresh array.

 Besides the function itself, the module gives an independent description
 of what a filter returns -- "the elements at an increasing list of
 positions, and those positions are exactly the ones the predicate accepts"
 -- and proves that `Filter` meets it and that nothing else does.
 */
module Sequences {

  /** Left-to-right filter: the last element is decided after all the others,
      exactly as a loop that pushes onto a result array. */
  function Filter<T>(s: seq<T>, p: T -> bool): (r: seq<T>)
    ensures |r| <= |s|
    ensures forall k :: 0 <= k < |r| ==> p(r[k]) && r[k] in s
    ensures forall i :: 0 <= i < |s| && p(s[i]) ==> s[i] in r
    decreases |s|
  {
    if |s| == 0 then []
    else
      var front := Filter(s[..|s| - 1], p);
      if p(s[|s| - 1]) then front + [s[|s| - 1]] else front
  }

  /** `r` consists of the elements of `s` at the strictly increasing positions
      `idx`, and a position of `s` occurs in `idx` exactly when `p` accepts
      the element there. */
  ghost predicate SelectedBy<T>(r: seq<T>, s: seq<T>, p: T -> bool, idx: seq<int>)
  {
    && |idx| == |r|
    && (forall k :: 0 <= k < |idx| ==> 0 <= idx[k] < |s| && r[k] == s[idx[k]])
    && (forall k, l :: 0 <= k < l < |idx| ==> idx[k] < idx[l])
    && (forall i :: 0 <= i < |s| ==> (p(s[i]) <==> i in idx))
  }

  /** `r` is an order-preserving selection of exactly the accepted elements. */
  ghost predicate IsSelection<T>(r: seq<T>, s: seq<T>, p: T -> bool)
  {
    exists idx :: SelectedBy(r, s, p, idx)
  }

  /** Extending a selection of `s` to `s + [x]`. */
  lemma SelectedBySnoc<T>(r: seq<T>, s: seq<T>, x: T, p: T -> bool, idx: seq<int>)
    requires SelectedBy(r, s, p, idx)
    ensures p(x) ==> SelectedBy(r + [x], s + [x], p, idx + [|s|])
    ensures !p(x) ==> SelectedBy(r, s + [x], p, idx)
  {
    var s' := s + [x];
    assert forall i :: 0 <= i < |s| ==> s'[i] == s[i];
    if p(x) {
      var r', idx' := r + [x], idx + [|s|];
      assert forall k :: 0 <= k < |idx| ==> idx'[k] == idx[k] && r'[k] == r[k];
      assert forall i :: 0 <= i < |s'| ==> (p(s'[i]) <==> i in idx');
    } else {
      assert forall i :: 0 <= i < |s'| ==> (p(s'[i]) <==> i in idx);
    }
  }

  /** The filter result is such a selection. */
  lemma {:induction false} FilterIsSelection<T>(s: seq<T>, p: T -> bool)
    ensures IsSelection(Filter(s, p), s, p)
    decreases |s|
  {
    if |s| == 0 {
      assert SelectedBy(Filter(s, p), s, p, []);
    } else {
      var n := |s| - 1;
      var front := s[..n];
      FilterIsSelection(front, p);
      var idx :| SelectedBy(Filter(front, p), front, p, idx);
      SelectedBySnoc(Filter(front, p), front, s[n], p, idx);
      assert front + [s[n]] == s;
      if p(s[n]) {
        assert SelectedBy(Filter(s, p), s, p, idx + [n]);
      } else {
        assert SelectedBy(Filter(s, p), s, p, idx);
      }
    }
  }

  /** Dropping an accepted last element from a selection: it is also the
      last element of the selection, at the last position. */
  lemma DropAccepted<T>(r: seq<T>, s: seq<T>, p: T -> bool, idx: seq<int>)
    requires |s| > 0 && p(s[|s| - 1])
    requires SelectedBy(r, s, p, idx)
    ensures |r| > 0 && r == r[..|r| - 1] + [s[|s| - 1]]
    ensures SelectedBy(r[..|r| - 1], s[..|s| - 1], p, idx[..|idx| - 1])
  {
    var n := |s| - 1;
    assert n in idx;
    var m := |idx| - 1;
    assert idx[m] == n;
    var idx' := idx[..m];
    forall k | 0 <= k < m
      ensures idx'[k] < n
    {
      assert idx[k] < idx[m];
    }
    forall i | 0 <= i < n
      ensures p(s[..n][i]) <==> i in idx'
    {
      assert s[..n][i] == s[i];
      if i in idx {
        var k :| 0 <= k < |idx| && idx[k] == i;
        assert k != m;
        assert idx'[k] == i;
      }
    }
    assert SelectedBy(r[..|r| - 1], s[..n], p, idx');
  }

  /** Dropping a rejected last element leaves the selection as it is. */
  lemma DropRejected<T>(r: seq<T>, s: seq<T>, p: T -> bool, idx: seq<int>)
    requires |s| > 0 && !p(s[|s| - 1])
    requires SelectedBy(r, s, p, idx)
    ensures SelectedBy(r, s[..|s| - 1], p, idx)
  {
    var n := |s| - 1;
    assert n !in idx;
    forall i | 0 <= i < n
      ensures p(s[..n][i]) <==> i in idx
    {
      assert s[..n][i] == s[i];
    }
  }

  /** A strictly increasing list of non-negative positions has its `k`-th
      entry at least `k`. */
  lemma {:induction false} PositionAtLeastIndex(idx: seq<int>, k: int)
    requires forall j :: 0 <= j < |idx| ==> 0 <= idx[j]
    requires forall j, l :: 0 <= j < l < |idx| ==> idx[j] < idx[l]
    requires 0 <= k < |idx|
    ensures k <= idx[k]
    decreases k
  {
    if k > 0 {
      PositionAtLeastIndex(idx, k - 1);
      assert idx[k - 1] < idx[k];
    }
  }

  /** Strictly increasing positions below `n` number at most `n`. */
  lemma PositionsFit(idx: seq<int>, n: int)
    requires 0 <= n
    requires forall j :: 0 <= j < |idx| ==> 0 <= idx[j] < n
    requires forall j, l :: 0 <= j < l < |idx| ==> idx[j] < idx[l]
    ensures |idx| <= n
  {
    if |idx| > 0 {
      PositionAtLeastIndex(idx, |idx| - 1);
    }
  }

  /** Nothing can be selected from the empty sequence. */
  lemma SelectedByEmpty<T>(r: seq<T>, s: seq<T>, p: T -> bool, idx: seq<int>)
    requires |s| == 0
    requires SelectedBy(r, s, p, idx)
    ensures r == []
  {
    PositionsFit(idx, |s|);
  }

  /** Two selections of the accepted elements are equal. */
  lemma {:induction false} SelectedByUnique<T>(r1: seq<T>, r2: seq<T>, s: seq<T>, p: T -> bool,
                                               idx1: seq<int>, idx2: seq<int>)
    requires SelectedBy(r1, s, p, idx1)
    requires SelectedBy(r2, s, p, idx2)
    ensures r1 == r2
    decreases |s|
  {
    if |s| == 0 {
      SelectedByEmpty(r1, s, p, idx1);
      SelectedByEmpty(r2, s, p, idx2);
    } else {
      var n := |s| - 1;
      if p(s[n]) {
        DropAccepted(r1, s, p, idx1);
        DropAccepted(r2, s, p, idx2);
        SelectedByUnique(r1[..|r1| - 1], r2[..|r2| - 1], s[..n], p, idx1[..|idx1| - 1], idx2[..|idx2| - 1]);
      } else {
        DropRejected(r1, s, p, idx1);
        DropRejected(r2, s, p, idx2);
        SelectedByUnique(r1, r2, s[..n], p, idx1, idx2);
      }
    }
  }

  /** At most one sequence is a selection of the accepted elements. */
  lemma SelectionIsUnique<T>(r1: seq<T>, r2: seq<T>, s: seq<T>, p: T -> bool)
    requires IsSelection(r1, s, p)
    requires IsSelection(r2, s, p)
    ensures r1 == r2
  {
    var idx1 :| SelectedBy(r1, s, p, idx1);
    var idx2 :| SelectedBy(r2, s, p, idx2);
    SelectedByUnique(r1, r2, s, p, idx1, idx2);
  }

  /** `Filter` is characterised by the selection property: a sequence is the
      filter result if and only if it selects exactly the accepted elements,
      in their original order. */
  lemma FilterCharacterization<T>(r: seq<T>, s: seq<T>, p: T -> bool)
    ensures r == Filter(s, p) <==> IsSelection(r, s, p)
  {
    FilterIsSelection(s, p);
    if IsSelection(r, s, p) {
      SelectionIsUnique(r, Filter(s, p), s, p);
    }
  }

  /** When every element is accepted the filter returns its input. */
  lemma {:induction false} FilterKeepsAll<T>(s: seq<T>, p: T -> bool)
    requires forall k :: 0 <= k < |s| ==> p(s[k])
    ensures Filter(s, p) == s
    decreases |s|
  {
    if |s| > 0 {
      var n := |s| - 1;
      FilterKeepsAll(s[..n], p);
      assert s == s[..n] + [s[n]];
    }
  }

  /** Filtering twice with the same predicate is filtering once. */
  lemma FilterIdempotent<T>(s: seq<T>, p: T -> bool)
    ensures Filter(Filter(s, p), p) == Filter(s, p)
  {
    FilterKeepsAll(Filter(s, p), p);
  }

  /** One more element at the end is decided on its own. */
  lemma FilterSnoc<T>(s: seq<T>, x: T, p: T -> bool)
    ensures Filter(s + [x], p) == Filter(s, p) + (if p(x) then [x] else [])
  {
    assert (s + [x])[..|s|] == s;
  }

  /** Splitting off the last element of the right operand of `+`. */
  lemma SplitLast<T>(a: seq<T>, b: seq<T>)
    requires |b| > 0
    ensures b == b[..|b| - 1] + [b[|b| - 1]]
    ensures a + b == (a + b[..|b| - 1]) + [b[|b| - 1]]
  {
  }

  /** Concatenation is associative. */
  lemma AppendAssoc<T>(a: seq<T>, b: seq<T>, c: seq<T>)
    ensures (a + b) + c == a + (b + c)
  {
  }

  /** Filter distributes over concatenation. */
  lemma {:induction false} FilterAppend<T>(a: seq<T>, b: seq<T>, p: T -> bool)
    ensures Filter(a + b, p) == Filter(a, p) + Filter(b, p)
    decreases |b|
  {
    if |b| == 0 {
      assert a + b == a;
    } else {
      var n := |b| - 1;
      var front, x := b[..n], b[n];
      FilterAppend(a, front, p);
      SplitLast(a, b);
      FilterSnoc(a + front, x, p);
      FilterSnoc(front, x, p);
      AppendAssoc(Filter(a, p), Filter(front, p), if p(x) then [x] else []);
    }
  }

  /** Two predicates that split every element between them split the length. */
  lemma {:induction false} FilterComplementLengths<T>(s: seq<T>, p: T -> bool, q: T -> bool)
    requires forall k :: 0 <= k < |s| ==> p(s[k]) != q(s[k])
    ensures |Filter(s, p)| + |Filter(s, q)| == |s|
    decreases |s|
  {
    if |s| > 0 {
      FilterComplementLengths(s[..|s| - 1], p, q);
    }
  }
}
