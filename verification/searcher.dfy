/**
 The searcher: an iterative binary search over a list of `u64` that keeps a
 closed interval `[left, right]` of `usize` indices and answers with the
 index of a match or with "not found".

 The search is modelled exactly as written, including the two unsigned
 subtractions that are not guarded: computing `right` as the length minus
 one, and narrowing to `mid - 1`. Either can go below zero, which is a
 panic in a debug build and a wrap to `usize::MAX` in a release build; in
 the latter case the next indexing of the list is out of bounds and panics
 instead. The outcome therefore has a third case beside the two the source
 returns.

 `Run` is one iteration of the loop per recursive call and `Search` is the
 whole function; the method `BinarySearch` is the loop itself, proved to
 compute the same outcome.
 */
module Searcher {
  import opened MachineInt

  /** Why the program aborted. */
  datatype Panic =
    | SubtractOverflow   // a debug build caught an unsigned subtraction below zero
    | IndexOutOfBounds   // `list[mid]` with `mid >= list.len()`

  /** What a call of the search can come to: the `Some(i)` and `None` the
      source returns, or an abort on the way. */
  datatype Outcome = Found(index: usize) | NotFound | Panicked(cause: Panic)

  /** Non-decreasing order, duplicates allowed. */
  predicate Sorted(list: seq<u64>)
  {
    forall i, j :: 0 <= i <= j < |list| ==> list[i] <= list[j]
  }

  /** Every list the program can hold: a `Vec` never exceeds `isize::MAX`. */
  predicate Representable(list: seq<u64>)
  {
    |list| <= ISIZE_MAX
  }

  /** The states the loop's two indices can be in at the top of the loop.
      Either the interval lies inside the list (and is empty only as
      `left == right + 1`), or a release build has just wrapped `right`
      below zero, which can only happen with `left` still at zero. */
  predicate Window(list: seq<u64>, build: Build, left: usize, right: usize)
  {
    || (left <= right + 1 && right < |list|)
    || (build == Release && left == 0 && right == USIZE_MAX)
  }

  /** How a subtraction below zero eventually surfaces in each build. */
  function UnderflowPanic(build: Build): Panic
  {
    match build
    case Debug => SubtractOverflow
    case Release => IndexOutOfBounds
  }

  /** The loop, entered with the interval `[left, right]`. Each recursive
      call is one more iteration; the interval shrinks every time, or a
      wrapped `right` sends the next iteration out of bounds. */
  function Run(list: seq<u64>, target: u64, build: Build, left: usize, right: usize): (r: Outcome)
    requires Representable(list)
    requires Window(list, build, left, right)
    // a reported index lies in the interval, inside the list, and holds the target
    ensures r.Found? ==> left <= r.index && r.index < |list| && list[r.index] == target
    // ... and at or before `right` when the interval lies inside the list
    ensures r.Found? && right < |list| ==> r.index <= right
    // the only way to abort is the unguarded `mid - 1`, reached with an
    // element above the target at index zero, or a `right` already wrapped
    ensures r.Panicked? ==> r.cause == UnderflowPanic(build)
    ensures r.Panicked? ==> right >= |list| || target < list[0]
    decreases if right < |list| then right + 2 - left else 0
  {
    if left > right then NotFound
    else
      var sum: usize := left + right;   // never overflows: see `Window`
      var mid: usize := sum / 2;
      if mid >= |list| then Panicked(IndexOutOfBounds)
      else if list[mid] == target then Found(mid)
      else if list[mid] < target then
        var next: usize := mid + 1;
        Run(list, target, build, next, right)
      else
        match Sub(build, mid, 1)
        case Overflow => Panicked(SubtractOverflow)
        case Ok(next) => Run(list, target, build, left, next)
  }

  /** `binary_search(list, target)`. */
  function Search(list: seq<u64>, target: u64, build: Build): (r: Outcome)
    requires Representable(list)
    // a reported index is inside the list and holds the target, sorted or not
    ensures r.Found? ==> r.index < |list| && list[r.index] == target
    // every abort is the one an unsigned subtraction below zero produces in
    // that build, and happens only on an empty list or a target below `list[0]`
    ensures r.Panicked? ==> r.cause == UnderflowPanic(build)
    ensures r.Panicked? ==> |list| == 0 || target < list[0]
  {
    match Sub(build, |list|, 1)
    case Overflow => Panicked(SubtractOverflow)
    case Ok(right) => Run(list, target, build, 0, right)
  }

  /** The loop of `binary_search` as the source writes it. */
  method BinarySearch(list: seq<u64>, target: u64, build: Build) returns (r: Outcome)
    requires Representable(list)
    ensures r == Search(list, target, build)
    ensures r.Found? ==> r.index < |list| && list[r.index] == target
  {
    var left: usize := 0;
    var right: usize;
    match Sub(build, |list|, 1) {
      case Overflow =>
        return Panicked(SubtractOverflow);
      case Ok(v) =>
        right := v;
    }
    while left <= right
      invariant Window(list, build, left, right)
      invariant Run(list, target, build, left, right) == Search(list, target, build)
      decreases if right < |list| then right + 2 - left else 0
    {
      var sum: usize := left + right;   // never overflows: see `Window`
      var mid: usize := sum / 2;
      if mid >= |list| {
        return Panicked(IndexOutOfBounds);
      }
      if list[mid] == target {
        return Found(mid);
      }
      if list[mid] < target {
        left := mid + 1;
      } else {
        match Sub(build, mid, 1) {
          case Overflow =>
            return Panicked(SubtractOverflow);
          case Ok(v) =>
            right := v;
        }
      }
    }
    return NotFound;
  }
}
