/** Ordering facts about integer sequences shared by the search and the sort. */
module Ordering {

  /** Every pair of positions in [lo, hi) is in non-decreasing order. */
  ghost predicate SortedBetween(s: seq<int>, lo: int, hi: int)
    requires 0 <= lo <= hi <= |s|
  {
    forall k, l :: lo <= k < l < hi ==> s[k] <= s[l]
  }

  /** The whole sequence is in non-decreasing order. */
  ghost predicate Sorted(s: seq<int>) {
    SortedBetween(s, 0, |s|)
  }

  /** Every neighbouring pair inside [0, hi) is in order: what a pass that swapped nothing observed. */
  ghost predicate AdjacentInOrder(s: seq<int>, hi: int)
    requires 0 <= hi <= |s|
  {
    forall j :: 0 <= j < hi - 1 ==> s[j] <= s[j + 1]
  }

  /**
   * The positions from m on are final: they are sorted, and nothing before
   * position m exceeds anything at or after it.
   */
  ghost predicate SuffixPlaced(s: seq<int>, m: int)
    requires 0 <= m <= |s|
  {
    && SortedBetween(s, m, |s|)
    && forall k, l :: 0 <= k < m <= l < |s| ==> s[k] <= s[l]
  }

  /** Neighbour-wise order on a prefix is order on that prefix. */
  lemma {:induction false} AdjacentToSorted(s: seq<int>, hi: int)
    requires 0 <= hi <= |s|
    requires AdjacentInOrder(s, hi)
    ensures SortedBetween(s, 0, hi)
  {
    if hi > 1 {
      AdjacentToSorted(s, hi - 1);
      forall k, l | 0 <= k < l < hi
        ensures s[k] <= s[l]
      {
        if l < hi - 1 {
          assert SortedBetween(s, 0, hi - 1);
        } else if k < l - 1 {
          assert s[k] <= s[l - 1];
        }
      }
    }
  }

  /**
   * A placed suffix at m <= 1 leaves nothing to sort; this is the state
   * a run of outer passes ends in when it never exits early.
   */
  lemma PlacedSuffixSorts(s: seq<int>, m: int)
    requires 0 <= m <= 1 && m <= |s|
    requires SuffixPlaced(s, m)
    ensures Sorted(s)
  {
  }

  /** A sorted sequence starts with a least element of its multiset. */
  lemma HeadIsLeast(s: seq<int>, x: int)
    requires Sorted(s)
    requires x in multiset(s)
    ensures |s| > 0 && s[0] <= x
  {
  }

  /** Sorting is determined: two sorted arrangements of one multiset are equal. */
  lemma {:induction false} SortedPermutationUnique(a: seq<int>, b: seq<int>)
    requires Sorted(a) && Sorted(b)
    requires multiset(a) == multiset(b)
    ensures a == b
  {
    if |a| == 0 {
      assert |b| == |multiset(b)| == |multiset(a)| == 0;
    } else {
      HeadIsLeast(b, a[0]);
      HeadIsLeast(a, b[0]);
      var x := a[0];
      assert b[0] == x;
      var ta, tb := a[1..], b[1..];
      assert a == [x] + ta;
      assert b == [x] + tb;
      assert multiset(ta) == multiset(tb) by {
        assert multiset(a) == multiset{x} + multiset(ta);
        assert multiset(b) == multiset{x} + multiset(tb);
        forall y
          ensures multiset(ta)[y] == multiset(tb)[y]
        {
          assert multiset(a)[y] == multiset{x}[y] + multiset(ta)[y];
          assert multiset(b)[y] == multiset{x}[y] + multiset(tb)[y];
        }
      }
      SortedTail(a);
      SortedTail(b);
      SortedPermutationUnique(ta, tb);
    }
  }

  /** Dropping the head keeps a sorted sequence sorted. */
  lemma SortedTail(s: seq<int>)
    requires |s| > 0 && Sorted(s)
    ensures Sorted(s[1..])
  {
  }
}
