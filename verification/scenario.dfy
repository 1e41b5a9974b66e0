/** The sorting-and-search walk-through at the end of chapter2 in main.go. */
module Scenario {
  import opened Ordering
  import Bubble
  import Search

  /**
   * Sorts [64, 34, 25, 12, 22, 11, 90] and then looks for 90 in the result.
   * The printing of both results is left out; the values printed are returned.
   */
  method Chapter2() returns (sorted: seq<int>, found: int)
    ensures sorted == [11, 12, 22, 25, 34, 64, 90]
    ensures found == 6
  {
    var arr := [64, 34, 25, 12, 22, 11, 90];
    sorted := Bubble.BubbleSort(arr);
    ExpectedOrder();
    SortedPermutationUnique(sorted, [11, 12, 22, 25, 34, 64, 90]);
    found := Search.LinearSearch(sorted, 90);
    assert sorted[6] == 90;
  }

  /** The printed result is a sorted arrangement of the input slice. */
  lemma ExpectedOrder()
    ensures Sorted([11, 12, 22, 25, 34, 64, 90])
    ensures multiset([11, 12, 22, 25, 34, 64, 90]) == multiset([64, 34, 25, 12, 22, 11, 90])
  {
    var e := [11, 12, 22, 25, 34, 64, 90];
    assert AdjacentInOrder(e, |e|);
    AdjacentToSorted(e, |e|);
  }
}
