# Binary search over a list of `u64`, modelled in Dafny

The program `bs` reads a list of unsigned 64-bit integers and a target, runs
`binary_search(list, target) -> Option<usize>`, and prints where the target
was found. This project models that search function: an iterative binary
search that keeps a closed interval `[left, right]` of `usize` indices,
returns `Some(mid)` when the midpoint element equals the target and `None`
when the interval is exhausted.

The model keeps the code exactly as written, including its two unguarded
unsigned subtractions:

- `right = list.len() - 1` goes below zero when the list is empty;
- `right = mid - 1` goes below zero when `mid == 0` and `list[0] > target`.

Unsigned arithmetic is modelled on a 64-bit target (`MachineInt`). The build
is a parameter: a debug build panics on the subtraction, a release build
wraps to `usize::MAX`. After a wrap the next midpoint is `usize::MAX / 2 =
isize::MAX`, which no list reaches, so the index `list[mid]` panics instead.
The outcome type `Searcher.Outcome` therefore has three cases: `Found(i)`,
`NotFound` and `Panicked(cause)`.

Files:

- `machine_int.dfy`: `u64`, `usize`, the two builds, and `usize` subtraction as a partial operation.
- `searcher.dfy`: the as-written model. `Run` performs one loop iteration per recursive call and `Search` is the whole function. `BinarySearch` is the loop as a method. Their contracts state soundness of a found index and when an abort can happen.
- `search_properties.dfy`: what the search promises across calls and cases. This covers the three-way outcome on sorted input, agreement between builds, and worked examples.
- `fixed_search.dfy`: the search with both subtractions guarded (see Findings).

Two additions never overflow: `left + right` and `mid + 1`. Both are
bound to `usize` in the model, so the verifier proves they fit. The proof
uses the fact that a `Vec` never holds more than `isize::MAX` elements
(`Searcher.Representable`).

The function returns `Option<usize>`, and its caller prints "Could not find
... in list." for `None` (src/main.rs:72). So an absent target has an answer
of its own, and an empty list or a target below every element should get it.
The code aborts in both cases instead. The model keeps the abort (see
Findings).

## Model

| member | source | states |
|---|---|---|
| MachineInt.Sub | src/main.rs:49-59 | `usize` subtraction, as at the two `- 1` sites: a debug build refuses exactly when the true difference is negative; otherwise the result is exact when representable and always congruent to the true difference modulo 2^64 (release wrap-around) |
| Searcher.Run | src/main.rs:50-62 | one loop iteration per call from any reachable window; a reported index lies inside the list, within `[left, right]`, and holds the target; every abort has the cause an underflowing `mid - 1` produces in that build (never an overflowing `+`), and happens only with `target < list[0]` or an already wrapped `right` |
| Searcher.Search | src/main.rs:47-63 | the whole function: a `Some(i)` always has `i < len` and `list[i] == target`, even on unsorted input; every abort has the cause a subtraction below zero produces in that build, and happens only on an empty list or a target below `list[0]`, sorted or not |
| Searcher.BinarySearch | src/main.rs:47-63 | the imperative loop with `usize` indices and a decreasing measure (interval width, or the wrap that ends the loop) computes the same outcome as `Search`; its found index is sound |
| SearchProperties.RunStep | src/main.rs:51-60 | one iteration: a midpoint match is reported; below the target the search continues on `[mid + 1, right]`; above it, with `mid != 0`, on `[left, mid - 1]` |
| SearchProperties.RunSortedDecides | src/main.rs:50-62 | the loop invariant on sorted input: if every occurrence of the target lies in `[left, right]` and `list[0] <= target`, the loop never aborts and answers "not found" exactly when the target is absent |
| SearchProperties.RunBelowAllAborts | src/main.rs:56-59 | if every element of `[0, right]` exceeds the target, sorted or not, the loop narrows down to `mid == 0` and aborts there |
| SearchProperties.SearchSorted | src/main.rs:47-63 | on sorted input: aborts iff the list is empty or `target < list[0]`; "not found" iff `list[0] <= target` and the target is absent; found iff `list[0] <= target` and the target occurs |
| SearchProperties.EmptyAborts | src/main.rs:49 | an empty list aborts in both builds, because `list.len() - 1` goes below zero |
| SearchProperties.RunBuildsAgree | src/main.rs:50-62 | from any in-list window, the debug and release loops abort on the same inputs and otherwise give the same answer |
| SearchProperties.SearchBuildsAgree | src/main.rs:47-63 | for every list, sorted or not, the build changes only how an abort shows, never whether it happens or what a completed search answers |
| SearchProperties.DuplicatesGiveMiddle | src/main.rs:51-53 | on `[5, 5, 5]` with target 5 the answer is index 1: some occurrence, neither the first nor the last |
| SearchProperties.SixOddNumbers | src/main.rs:47-63 | `[1, 3, 5, 7, 9, 11]`: target 7 is found at index 3; target 4 is not found |
| SearchProperties.Singleton | src/main.rs:48-59 | `[x]`: target `x` is found at 0 before any `mid - 1`; a larger target is not found; a smaller one aborts |
| FixedSearch.BinarySearchGuarded | src/main.rs:47-63 | with both subtractions guarded: never aborts; a found index is sound; on sorted input found iff the target occurs; identical to the original wherever the original completes |

## Left out

- `cli` (src/main.rs:14-28): command-line definitions built with an external argument-parsing library.
- `get_args` (src/main.rs:30-45): file reading, JSON parsing and parsing the target string. These are I/O and library calls whose failures are immediate aborts.
- `main` (src/main.rs:65-76): wall-clock timing and printing the result.
- Targets other than 64-bit: `usize` is fixed at 64 bits.
- Searcher.Representable: it bounds a list by `isize::MAX` elements. A `Vec<u64>` is really bounded by `isize::MAX` bytes, i.e. one eighth of that. The weaker bound is enough to rule out overflow of `left + right`.
- Idempotence of the search is not stated as a lemma. `Search` is a Dafny function, so equal inputs give equal outcomes by construction.

## Findings

| source | as written | input that shows it | evidently intended | confidence | as-written member | corrected member |
|---|---|---|---|---|---|---|
| src/main.rs:49 | `list.len() - 1` with no empty-list guard | `list = []`, any target: panics in a debug build, indexes out of bounds in a release build | an empty list answers `None` | high (not executed) | SearchProperties.EmptyAborts | FixedSearch.BinarySearchGuarded |
| src/main.rs:59 | `right = mid - 1` with no check for `mid == 0` | `list = [5]`, target `3` (any target below `list[0]`): panics in a debug build, indexes out of bounds in a release build | a target below every element answers `None` | high (not executed) | SearchProperties.Singleton | FixedSearch.BinarySearchGuarded |

The rest of the model keeps the as-written search, since that is what the
program does. `FixedSearch.BinarySearchGuarded` is the corrected search. It
is proved to agree with the original on every input where the original
completes.
