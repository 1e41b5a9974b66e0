/** The linear scan of main.go. */
module Search {

  /**
   * Scans arr from the front and returns the index of the first element equal
   * to target, or -1 when there is none. The slice is taken by value, so the
   * scan cannot change it.
   */
  method LinearSearch(arr: seq<int>, target: int) returns (r: int)
    ensures -1 <= r < |arr|
    ensures r == -1 <==> target !in arr
    ensures r >= 0 ==> arr[r] == target
    ensures r >= 0 ==> forall j :: 0 <= j < r ==> arr[j] != target
  {
    var i := 0;
    while i < |arr|
      invariant 0 <= i <= |arr|
      invariant forall j :: 0 <= j < i ==> arr[j] != target
    {
      if target == arr[i] {
        return i;
      }
      i := i + 1;
    }
    return -1;
  }
}
