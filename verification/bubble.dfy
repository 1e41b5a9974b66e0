/** The early-exit bubble sort of main.go. */
module Bubble {
  import opened Ordering

  /**
   * One pass of the inner loop: for j from 0 while j < bound, swap the
   * neighbours j and j + 1 when s[j] > s[j + 1], and record whether any swap
   * happened. In BubbleSort, bound is n - i - 1 on outer pass i.
   */
  method Pass(s: seq<int>, bound: nat) returns (r: seq<int>, swapped: bool)
    requires bound < |s|
    ensures |r| == |s|
    ensures multiset(r) == multiset(s)
    ensures r[bound + 1..] == s[bound + 1..]
    ensures forall k :: 0 <= k <= bound ==> r[k] <= r[bound]
    ensures swapped <==> r != s
    ensures swapped <==> !AdjacentInOrder(s, bound + 1)
  {
    r := s;
    swapped := false;
    var j := 0;
    ghost var w := 0;  // a position the first swap lowered
    while j < bound
      invariant 0 <= j <= bound
      invariant |r| == |s|
      invariant multiset(r) == multiset(s)
      invariant r[bound + 1..] == s[bound + 1..]
      invariant forall k :: 0 <= k <= j ==> r[k] <= r[j]
      invariant !swapped ==> r == s && AdjacentInOrder(s, j + 1)
      invariant swapped ==> 0 <= w < j && r[w] < s[w] && s[w] > s[w + 1]
    {
      var did;
      r, did := CompareAndSwap(r, j);
      if did && !swapped {
        w := j;
      }
      swapped := swapped || did;
      j := j + 1;
    }
    if swapped {
      assert r[w] != s[w];
    }
  }

  /**
   * The body of the inner loop: exchange the neighbours j and j + 1 when they
   * are out of order, and report whether it did. The exchange keeps the
   * multiset, lowers position j, leaves every other position except j + 1
   * alone, and carries the running maximum from j to j + 1.
   */
  method CompareAndSwap(t: seq<int>, j: nat) returns (u: seq<int>, did: bool)
    requires j + 1 < |t|
    ensures did <==> t[j] > t[j + 1]
    ensures !did ==> u == t
    ensures |u| == |t|
    ensures multiset(u) == multiset(t)
    ensures forall k :: 0 <= k < |t| && k != j && k != j + 1 ==> u[k] == t[k]
    ensures did ==> u[j] == t[j + 1] && u[j + 1] == t[j]
    ensures did ==> u[j] < t[j]
    ensures u[j] <= u[j + 1]
    ensures (forall k :: 0 <= k <= j ==> t[k] <= t[j]) ==> forall k :: 0 <= k <= j + 1 ==> u[k] <= u[j + 1]
  {
    if t[j] > t[j + 1] {
      u := t[j := t[j + 1]][j + 1 := t[j]];
      did := true;
    } else {
      u := t;
      did := false;
    }
  }

  /** Equal multisets with equal suffixes from m have equal prefixes below m. */
  lemma SameSuffixSamePrefixItems(s: seq<int>, r: seq<int>, m: nat)
    requires m <= |s| == |r|
    requires multiset(r) == multiset(s)
    requires r[m..] == s[m..]
    ensures multiset(r[..m]) == multiset(s[..m])
  {
    assert s == s[..m] + s[m..];
    assert r == r[..m] + r[m..];
    forall x
      ensures multiset(r[..m])[x] == multiset(s[..m])[x]
    {
      assert multiset(s)[x] == multiset(s[..m])[x] + multiset(s[m..])[x];
      assert multiset(r)[x] == multiset(r[..m])[x] + multiset(r[m..])[x];
    }
  }

  /**
   * Passes only rearrange the unplaced prefix, so a prefix that held nothing
   * larger than the placed suffix still holds nothing larger.
   */
  lemma PrefixStaysBelow(s: seq<int>, r: seq<int>, m: nat)
    requires m <= |s| == |r|
    requires multiset(r) == multiset(s)
    requires r[m..] == s[m..]
    requires forall k, l :: 0 <= k < m <= l < |s| ==> s[k] <= s[l]
    ensures forall k, l :: 0 <= k < m <= l < |r| ==> r[k] <= r[l]
  {
    SameSuffixSamePrefixItems(s, r, m);
    forall k, l | 0 <= k < m <= l < |r|
      ensures r[k] <= r[l]
    {
      assert r[k] == r[..m][k];
      assert r[k] in multiset(s[..m]);
      var k' :| 0 <= k' < m && s[..m][k'] == r[k];
      assert r[l] == r[m..][l - m] == s[l];
    }
  }

  /**
   * Outer pass i grows the placed suffix by one: if the last m positions were
   * placed and the pass carried the prefix maximum to position m - 1, then
   * the last m + 1 positions are placed.
   */
  lemma PassGrowsSuffix(s: seq<int>, r: seq<int>, m: nat)
    requires 1 <= m <= |s| == |r|
    requires SuffixPlaced(s, m)
    requires multiset(r) == multiset(s)
    requires r[m..] == s[m..]
    requires forall k :: 0 <= k < m ==> r[k] <= r[m - 1]
    ensures SuffixPlaced(r, m - 1)
  {
    PrefixStaysBelow(s, r, m);
    forall k, l | m <= k < l < |r|
      ensures r[k] <= r[l]
    {
      assert r[k] == r[m..][k - m] == s[k];
      assert r[l] == r[m..][l - m] == s[l];
    }
  }

  /**
   * The early exit is sound: when the pass over the unplaced prefix [0, m)
   * found every neighbour in order, the whole sequence is sorted.
   */
  lemma NoSwapMeansSorted(s: seq<int>, m: nat)
    requires m <= |s|
    requires SuffixPlaced(s, m)
    requires AdjacentInOrder(s, m)
    ensures Sorted(s)
  {
    AdjacentToSorted(s, m);
    forall k, l | 0 <= k < l < |s|
      ensures s[k] <= s[l]
    {
      if l < m {
        assert SortedBetween(s, 0, m);
      } else if k < m {
        assert 0 <= k < m <= l < |s|;
      }
    }
  }

  /**
   * Sorts into non-decreasing order by repeated passes of neighbour swaps,
   * stopping after the first pass that swaps nothing. The Go function sorts
   * the caller's slice in place; r is that slice's contents afterwards.
   */
  method BubbleSort(a: seq<int>) returns (r: seq<int>)
    ensures Sorted(r)
    ensures multiset(r) == multiset(a)
    ensures |r| == |a|
  {
    r := a;
    var n := |r|;
    var i := 0;
    while i < n - 1
      invariant 0 <= i <= n
      invariant |r| == n
      invariant multiset(r) == multiset(a)
      invariant SuffixPlaced(r, n - i)
      decreases n - i
    {
      ghost var before := r;
      var swapped;
      r, swapped := Pass(r, n - i - 1);
      if !swapped {
        NoSwapMeansSorted(r, n - i);
        break;
      }
      PassGrowsSuffix(before, r, n - i);
      i := i + 1;
    }
    if i >= n - 1 {
      PlacedSuffixSorts(r, n - i);
    }
  }
}
