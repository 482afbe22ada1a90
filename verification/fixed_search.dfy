/**
 The searcher with its two unsigned subtractions guarded. The function's
 `Option<usize>` result and the caller's "could not find" report give an
 absent target an answer of its own, and an empty list or a target below
 every element is exactly such a case. So an empty list answers "not found"
 before any bound is computed, and an element above the target at index
 zero ends the search with "not found" instead of computing `0 - 1`.

 Everywhere the original completes, this version gives the same answer;
 where the original aborts, this one answers "not found", and on a sorted
 list it is found exactly when the target occurs.
 */
module FixedSearch {
  import opened MachineInt
  import opened Searcher
  import SearchProperties

  method BinarySearchGuarded(list: seq<u64>, target: u64) returns (r: Outcome)
    requires Representable(list)
    // never aborts, in either build
    ensures !r.Panicked?
    // a reported index is inside the list and holds the target, sorted or not
    ensures r.Found? ==> r.index < |list| && list[r.index] == target
    // on a sorted list the target is found exactly when it occurs
    ensures Sorted(list) ==> (r.Found? <==> target in list)
    // only the inputs on which the original aborts are answered differently
    ensures !Search(list, target, Debug).Panicked? ==> r == Search(list, target, Debug)
    ensures !Search(list, target, Release).Panicked? ==> r == Search(list, target, Release)
  {
    SearchProperties.SearchBuildsAgree(list, target);
    if |list| == 0 {
      return NotFound;
    }
    var left: usize := 0;
    var right: usize := |list| - 1;
    while left <= right
      invariant left <= right + 1 && right < |list|
      invariant Sorted(list) ==> forall k :: 0 <= k < |list| && list[k] == target ==> left <= k <= right
      invariant Run(list, target, Debug, left, right) == Search(list, target, Debug)
      decreases right + 1 - left
    {
      var mid: usize := (left + right) / 2;
      SearchProperties.RunStep(list, target, Debug, left, right);
      if list[mid] == target {
        return Found(mid);
      }
      if list[mid] < target {
        if Sorted(list) {
          SearchProperties.OccurrencesAfter(list, target, mid);
        }
        left := mid + 1;
      } else if mid == 0 {
        // the original computes `0 - 1` here; every element of a sorted
        // list is at least `list[0]`, which is above the target
        if Sorted(list) {
          SearchProperties.OccurrencesBefore(list, target, 0);
        }
        return NotFound;
      } else {
        if Sorted(list) {
          SearchProperties.OccurrencesBefore(list, target, mid);
        }
        right := mid - 1;
      }
    }
    return NotFound;
  }
}
