/**
 What the searcher promises, stated over the functional model `Search`.

 On a sorted list the outcome is decided by two questions: is the list
 non-empty with its first element at most the target (otherwise the search
 aborts), and does the target occur (found or not found). The two builds
 abort on exactly the same inputs and agree everywhere else, and a found
 index among duplicates is not necessarily the first one.
 */
module SearchProperties {
  import opened MachineInt
  import opened Searcher

  /** In a sorted list, an element below the target has every occurrence
      of the target to its right. */
  lemma OccurrencesAfter(list: seq<u64>, target: u64, mid: nat)
    requires Sorted(list)
    requires mid < |list| && list[mid] < target
    ensures forall k :: 0 <= k < |list| && list[k] == target ==> mid < k
  {
    forall k | 0 <= k < |list| && list[k] == target
      ensures mid < k
    {
    }
  }

  /** In a sorted list, an element above the target has every occurrence
      of the target to its left. */
  lemma OccurrencesBefore(list: seq<u64>, target: u64, mid: nat)
    requires Sorted(list)
    requires mid < |list| && target < list[mid]
    ensures forall k :: 0 <= k < |list| && list[k] == target ==> k < mid
  {
    forall k | 0 <= k < |list| && list[k] == target
      ensures k < mid
    {
    }
  }

  /** One iteration from an in-list window with the interval still open:
      a match at the midpoint is reported, otherwise the search continues on
      the half that can still hold the target. */
  lemma RunStep(list: seq<u64>, target: u64, build: Build, left: usize, right: usize)
    requires Representable(list)
    requires left <= right < |list|
    ensures var mid := (left + right) / 2;
      && (list[mid] == target ==> Run(list, target, build, left, right) == Found(mid))
      && (list[mid] < target ==> Run(list, target, build, left, right) == Run(list, target, build, mid + 1, right))
      && (target < list[mid] && mid != 0 ==>
            Run(list, target, build, left, right) == Run(list, target, build, left, mid - 1))
  {
  }

  /** The loop invariant on sorted input: while every occurrence of the
      target lies in `[left, right]` and the first element is not above the
      target, the loop never aborts, and it reports "not found" exactly when
      the target does not occur. */
  lemma {:induction false} RunSortedDecides(list: seq<u64>, target: u64, build: Build, left: usize, right: usize)
    requires Representable(list) && Sorted(list)
    requires left <= right + 1 && right < |list|
    requires list[0] <= target
    requires forall k :: 0 <= k < |list| && list[k] == target ==> left <= k <= right
    ensures !Run(list, target, build, left, right).Panicked?
    ensures Run(list, target, build, left, right).NotFound? <==> target !in list
    decreases right + 1 - left
  {
    if left > right {
      assert forall k :: 0 <= k < |list| ==> list[k] != target;
    } else {
      var mid := (left + right) / 2;
      RunStep(list, target, build, left, right);
      if list[mid] == target {
      } else if list[mid] < target {
        OccurrencesAfter(list, target, mid);
        RunSortedDecides(list, target, build, mid + 1, right);
      } else {
        assert mid != 0 by {
          assert list[0] <= list[mid];
        }
        OccurrencesBefore(list, target, mid);
        RunSortedDecides(list, target, build, left, mid - 1);
      }
    }
  }

  /** When every element of `[0, right]` is above the target, each step
      narrows to `[0, mid - 1]` until `mid` is zero, and then `mid - 1`
      goes below zero. No ordering of the list is needed for this. */
  lemma {:induction false} RunBelowAllAborts(list: seq<u64>, target: u64, build: Build, right: usize)
    requires Representable(list)
    requires right < |list|
    requires forall k :: 0 <= k <= right ==> target < list[k]
    ensures Run(list, target, build, 0, right) == Panicked(UnderflowPanic(build))
    decreases right
  {
    var mid := right / 2;
    if mid != 0 {
      RunBelowAllAborts(list, target, build, mid - 1);
    }
  }

  /** The outcome on a sorted list, in all three cases. */
  lemma SearchSorted(list: seq<u64>, target: u64, build: Build)
    requires Representable(list) && Sorted(list)
    ensures Search(list, target, build).Panicked? <==> |list| == 0 || target < list[0]
    ensures Search(list, target, build).NotFound? <==> 0 < |list| && list[0] <= target && target !in list
    ensures Search(list, target, build).Found? <==> 0 < |list| && list[0] <= target && target in list
  {
    if |list| == 0 {
    } else if target < list[0] {
      RunBelowAllAborts(list, target, build, |list| - 1);
    } else {
      RunSortedDecides(list, target, build, 0, |list| - 1);
    }
  }

  /** An empty list aborts in both builds: `list.len() - 1` goes below zero. */
  lemma EmptyAborts(target: u64, build: Build)
    ensures Search([], target, build) == Panicked(UnderflowPanic(build))
  {
  }

  /** From any in-list window, the debug and the release loop abort together
      and otherwise reach the same outcome. */
  lemma {:induction false} RunBuildsAgree(list: seq<u64>, target: u64, left: usize, right: usize)
    requires Representable(list)
    requires left <= right + 1 && right < |list|
    ensures Run(list, target, Debug, left, right).Panicked? <==> Run(list, target, Release, left, right).Panicked?
    ensures !Run(list, target, Debug, left, right).Panicked? ==>
              Run(list, target, Debug, left, right) == Run(list, target, Release, left, right)
    decreases right + 1 - left
  {
    if left <= right {
      var mid := (left + right) / 2;
      if list[mid] == target {
      } else if list[mid] < target {
        RunBuildsAgree(list, target, mid + 1, right);
      } else if mid == 0 {
        assert Run(list, target, Release, left, right) == Run(list, target, Release, 0, USIZE_MAX);
      } else {
        RunBuildsAgree(list, target, left, mid - 1);
      }
    }
  }

  /** The build only changes how an abort shows, never whether one happens
      or what a completed search answers; this holds on unsorted lists too. */
  lemma SearchBuildsAgree(list: seq<u64>, target: u64)
    requires Representable(list)
    ensures Search(list, target, Debug).Panicked? <==> Search(list, target, Release).Panicked?
    ensures !Search(list, target, Debug).Panicked? ==> Search(list, target, Debug) == Search(list, target, Release)
  {
    if |list| > 0 {
      RunBuildsAgree(list, target, 0, |list| - 1);
    }
  }

  /** With duplicates the index reported is whichever occurrence a midpoint
      lands on first: here the middle one, neither the first nor the last. */
  lemma DuplicatesGiveMiddle(build: Build)
    ensures Search([5, 5, 5], 5, build) == Found(1)
  {
  }

  /** The worked example: six odd numbers, target present and target absent. */
  lemma SixOddNumbers(build: Build)
    ensures Search([1, 3, 5, 7, 9, 11], 7, build) == Found(3)
    ensures Search([1, 3, 5, 7, 9, 11], 4, build) == NotFound
  {
  }

  /** A one-element list: found at index 0 before any `mid - 1`; a larger
      target is not found; a smaller target aborts. */
  lemma Singleton(x: u64, y: u64, build: Build)
    ensures Search([x], x, build) == Found(0)
    ensures x < y ==> Search([x], y, build) == NotFound
    ensures y < x ==> Search([x], y, build) == Panicked(UnderflowPanic(build))
  {
    if x < y {
      assert Search([x], y, build) == Run([x], y, build, 1, 0);
    }
    if y < x {
      RunBelowAllAborts([x], y, build, 0);
    }
  }
}
