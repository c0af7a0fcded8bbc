# Overlapping activity assignment — a Dafny model

This project models the rental-feasibility core of OverlappingActivityAssignment. You have `N`
interchangeable items, some rentals already accepted and one new rental. Each rental is a
half-open interval `[start, end)`. `activity_selection` is a greedy answer to whether all the
rentals together can be spread over items `0 .. N-1` so that rentals that overlap in time never
share an item. `True` means it found such an assignment and wrote it onto the rentals. `False`
means it reached a rental whose forbidden list was full. That does not by itself show that no
assignment exists (see "## Left out").

The algorithm works in four steps:

1. It sorts a fresh list of all rentals by `(end, start)`.
2. It walks that list. An activity whose forbidden list already has `N` entries makes the
   function return `False` immediately.
3. Otherwise it picks the eligible item with the largest `max_end_time`. Ties go to the lowest
   index, because the comparison is a strict `>`. It records the item on the activity and sets
   that item's `max_end_time` to the activity's end.
4. It appends the item to the forbidden list of every later activity that starts before this one
   ends. Touching intervals such as 1-2 and 2-3 do not count as overlapping.

Modules, one concern each:

- `Wrappers` (wrappers.dfy): `Option`, which stands for Python's `None`.
- `Rentals` (rental.dfy): class `Rental`. `start` and `end` are constants. The mutable fields
  `invalidItems: seq<int>` and `item: Option<int>` are what the algorithm updates in place. The
  module also holds the `<start>-<end>` text form and a parser that reads it back.
- `Ordering` (ordering.dfy): the stable sort by `(end, start)`, written as an insertion sort on
  a fresh sequence.
- `Assignment` (assignment.dfy): a model of the loop on plain values. `Step` processes one
  activity and `Run` runs the whole loop. The lemmas here state what the loop guarantees.
- `Algorithm` (algorithm.dfy): the imperative method `ActivitySelection`. It works on the
  `Rental` objects, and `max_end_time` is a local array. It is proved to leave exactly the
  fields that `Assignment.Run` computes, so the `Run` lemmas carry over to the objects.
- `Scenarios` (scenarios.dfy): concrete runs. One of them is the worked case:
  - two items;
  - existing rentals 1-3 and 5-7, and the new rental 2-6;
  - the result is success, with items 0, 1, 0 in sorted order (1-3, 2-6, 5-7).

State carried over from an earlier call is an input. The code never clears `invalid_items` or
`item` on existing rentals, so the method takes whatever forbidden lists it is given. It
requires only that each list has distinct entries in `[0, N)`, which is what an earlier call
with the same `N` leaves behind. On failure nothing is rolled back: the model states which
rentals were already reassigned and which kept their old item.

## Model

| member | source | states |
|---|---|---|
| Rentals.Rental.constructor | rental.py:4-10 | requires `0 < start < end`; stores start and end as given, starts with an empty forbidden list and no item (`None`) |
| Rentals.Decimal | rental.py:14 | the decimal form of a natural number is a non-empty digit string with no leading zero |
| Rentals.DecimalRoundTrip | rental.py:14 | reading the decimal digits back gives the number |
| Rentals.Str | rental.py:14 | Python's `str` of an integer: for `n >= 0` a canonical numeral (digits, no leading zero unless it is `"0"`) whose value is `n`; for `n < 0` a minus sign followed by the canonical numeral of `-n` |
| Rentals.TextRoundTrip | rental.py:14 | for natural numbers `a` and `b`, the text `str(a) + "-" + str(b)` parses back to exactly `(a, b)`: the first dash separates the two numbers |
| Rentals.Rental.ToString | rental.py:12-14 | `__str__`, `str(start) + "-" + str(end)`: the first dash splits the text into two canonical numerals with no leading zeros, and the text parses back to exactly the rental's `(start, end)` |
| Ordering.KeyOrder | algorithm.py:30 | `KeyLe`, the comparison of the keys `(end, start)`, is lexicographic: total and transitive, and two rentals compare both ways exactly when their keys are equal |
| Ordering.Insert | algorithm.py:30 | one insertion step of the sort adds exactly the one rental to the sequence (multiset of the result is the old one plus it) |
| Ordering.SortByKey | algorithm.py:29-30 | the processing list is a permutation of the existing rentals plus the new one, sorted by `(end, start)`, with no rental twice |
| Ordering.SortIsStable | algorithm.py:30 | for every key, rentals with that key appear in the same relative order as in the input, as with Python's stable `sorted` |
| Ordering.SortSameRentals | algorithm.py:29-30 | every input rental, the new one included, appears in the processing list |
| Assignment.Zeros | algorithm.py:33 | `[0] * overlaps`: a table of `n` entries, all zero |
| Assignment.ForwardTestIsOverlap | algorithm.py:55-56 | on spans sorted by end, with `start < end`, the one-sided test `next.start < activity.end` for a later span holds exactly when the two spans overlap |
| Assignment.ForbiddenBound | algorithm.py:39 | a forbidden list of distinct items in `[0, N)` has at most `N` entries, so `len == N` is the "all items forbidden" test |
| Assignment.EligibleExists | algorithm.py:39-47 | if a forbidden list is not full, some item in `[0, N)` is not on it |
| Assignment.BestItem | algorithm.py:45-49 | the scan over items `0 .. k-1` returns -1 or an item below `k` |
| Assignment.BestItemSpec | algorithm.py:45-49 | the scan returns -1 exactly when every scanned item is forbidden; otherwise it returns an eligible item with the largest `max_end_time`, strictly larger than that of every eligible item with a lower index |
| Assignment.BestFitUnique | algorithm.py:48 | that best-fit rule (largest `max_end_time`, lowest index on ties) picks one item only |
| Assignment.ChoiceIsBestFit | algorithm.py:39-49 | if the forbidden list is not full, the item chosen is the best fit, so it is never -1 |
| Assignment.AddItemMembers | algorithm.py:57-58 | `AddItem`, appending an item unless present: the result holds exactly the old entries and the item, keeps the old list as its prefix, and is at most one longer |
| Assignment.AddItemSpec | algorithm.py:57-58 | on a well-formed forbidden list and an item in `[0, N)`, the append-unless-present step keeps the list well formed: no duplicate is added and every entry stays in range |
| Assignment.PropagateSpec | algorithm.py:54-58 | `Propagate`, the forward pass on values: every forbidden list keeps its old entries as a prefix, and gains the item exactly when it belongs to a later activity starting before the current end; the members of each list are exactly the old ones plus, in that case, the item; every other list is left exactly as it was |
| Assignment.Step | algorithm.py:45-58 | processing one activity keeps every forbidden list made of distinct items in `[0, N)` |
| Assignment.Run | algorithm.py:35-60 | the loop stops at some position no earlier than its start; it succeeds exactly when it processed every activity, and on failure the activity where it stopped has a full forbidden list |
| Assignment.StepSpec | algorithm.py:45-58 | one step gives the best-fit item and changes no other activity's item. That item's `max_end_time` becomes the activity's end and never decreases; no other entry changes, and none exceeds this end. Each later activity that starts before this end gains the item and nothing else; every other forbidden list is unchanged |
| Assignment.StepProcessed | algorithm.py:45-58 | one step keeps three facts and extends them to the activity just processed: each processed activity holds an in-range item not on its own forbidden list; that item is forbidden for every unprocessed activity starting before its end; processed activities in conflict hold different items |
| Assignment.RunProcessed | algorithm.py:35-60 | those three facts hold for every activity processed before the run stops |
| Assignment.Initial | algorithm.py:29-33 | the loop starts from the forbidden lists and items as the rentals hold them, and a `max_end_time` table of `n` zeros |
| Assignment.StepTracksLastEnd | algorithm.py:51 | after a step, each item's `max_end_time` is still the end of the last activity put on that item (0 if none) |
| Assignment.RunTracksLastEnd | algorithm.py:33-51 | the whole run keeps that meaning of `max_end_time` |
| Assignment.InitialTracksLastEnd | algorithm.py:33 | the all-zero starting table has that meaning before any activity is processed |
| Assignment.LastEndIsLatest | algorithm.py:51 | under the sort, the last activity put on an item has the largest end among all activities on it |
| Assignment.LastEndBelowCurrent | algorithm.py:51 | under the sort, no `max_end_time` entry exceeds the end of the activity being processed |
| Assignment.RunKeepsItems | algorithm.py:39-40 | the run changes no item of an activity before its start position, nor of the activity where it stops or any later one |
| Assignment.RunGrowsLists | algorithm.py:54-58 | forbidden lists only grow during a run: each list at the start is a prefix of the list at the end |
| Assignment.Soundness | algorithm.py:54-60 | on success, every activity holds an item in `[0, N)`, and any two distinct overlapping activities hold different items; this holds from any well-formed state, whatever the processing order |
| Assignment.FailureIsPartial | algorithm.py:39-40 | on failure, the stopping activity's list is full. Activities before it hold new items in range; it and those after it keep the item they had. There is no rollback |
| Algorithm.ChooseItem | algorithm.py:45-49 | the loop returns -1 exactly when every item is forbidden; otherwise it returns the best-fit item |
| Algorithm.ForbidLater | algorithm.py:54-58 | every rental after position `i` that starts before `end` has the item appended unless it is already there; other forbidden lists and all items are unchanged |
| Algorithm.Process | algorithm.py:42-58 | one pass of the loop body leaves the rentals and the `max_end_time` array as `Assignment.Step` says |
| Algorithm.ProcessAll | algorithm.py:35-60 | the loop returns what `Assignment.Run` returns and leaves the rentals and the table in `Run`'s final state |
| Algorithm.ActivitySelection | algorithm.py:22-60 | requires `overlaps >= 1`, no rental object listed twice, and valid forbidden lists. Starts from a table of `overlaps` zeros. The result and every rental's `invalidItems` and `item` equal `Run` on the sorted list. On `True`, every rental holds an item in range and overlapping rentals hold different items. On `False`, `StoppedAt` holds at `Run`'s stopping position |
| Algorithm.Conclude | algorithm.py:56-60 | restates `Soundness` and `FailureIsPartial` on the rental objects, using the original overlap relation on `start` and `end` |
| Scenarios.TouchingShareAnItem | algorithm.py:17 | with one item, 1-3 and 3-5 only touch, so both get item 0 |
| Scenarios.OverlapNeedsSecondItem | algorithm.py:39-40 | with one item, 1-3 and 2-5 overlap, so the run fails at the second |
| Scenarios.StaleListRefusesFeasible | algorithm.py:39-40 | with one item, refusing 1-3 next to 2-5 leaves item 0 on 2-5's list; a second call with 2-5 and 10-12 then returns `False`, although the two do not overlap |
| Scenarios.ThreeMutualOverlapsTwoItems | algorithm.py:39-58 | with two items, 1-4, 3-5 and 2-6 overlap pairwise; the first two get items 0 and 1, and the run fails at 2-6 |
| Scenarios.PrintsThreeFive | rental.py:12-14 | a rental 3-5 prints exactly `"3-5"` |
| Scenarios.BridgingActivityFits | algorithm.py:35-60 | with two items, 1-3, 2-6 and 5-7 succeed with items 0, 1, 0 |

## Left out

- `print_assignments` (algorithm.py:63-73) is console output and is not modelled.
- `check_new_rental` (algorithm.py:76-93) is console output and orchestration. Its one line of logic, `rentals += [new_rental]` on success, is not modelled either.
- Aliasing: `ActivitySelection` requires that no rental object appears twice in `activities + [new_activity]`. Python accepts such lists, but the in-place updates of the loop assume distinct records.
- Malformed forbidden lists: `ActivitySelection` requires every forbidden list to hold distinct entries in `[0, N)`. Lists left by an earlier call with a different `N` can break this, and the Python code then does not do what the model states:
  - A list of exactly `N` entries with a duplicate or an entry outside `[0, N)` makes algorithm.py:39-40 return `False` although an item is free. For example, `N = 2` and `invalid_items == [0, 3]`, left by a call with `N = 4`.
  - A list of more than `N` entries is never caught by the `len == N` test. If its entries still leave an item of `[0, N)` free, the scan goes on as usual. If they cover all of `[0, N)`, `best_item` stays `-1`: line 50 sets `item = -1`, line 51 writes `max_end_time[-1]` (the last entry), and lines 57-58 append `-1` to the lists of later overlapping rentals.
  - A shorter list with such entries is scanned correctly, but the appends at lines 57-58 can later bring it to exactly `N` entries while an item is still free, which is the first case.
- `Rental` validity is an explicit precondition of `ActivitySelection`. Its proof does not need it. It is there so a caller can apply the sort-dependent lemmas `Assignment.StepSpec`, `Assignment.LastEndBelowCurrent` and `Assignment.ForwardTestIsOverlap` to the processing order, which need `0 < start < end`. The constructor guarantees this for every rental it builds; Dafny has no class invariant to carry it.
- `start` and `end` are constants. Python attributes could be reassigned by outside code, but nothing in the core does so.
- Forbidden lists are values. `next_activity.invalid_items += [activity.item]` (algorithm.py:58) extends a Python list object in place, while `Rental.invalidItems` is a `seq<int>` that belongs to one rental. If outside code made two rentals share one list object, Python would show every append on both; the model does not capture this sharing. Nothing in the core creates it, because the constructor gives each rental a fresh list (rental.py:9).
- Python's `assert` statements (rental.py:6, algorithm.py:32) are preconditions. The model does not include the `AssertionError` they raise.
- Completeness is not proved. The docstring (algorithm.py:6-7) says the algorithm "tells whether all the activities can be performed", but the model proves only soundness: `True` gives a conflict-free assignment (`Assignment.Soundness`, `Algorithm.Feasible`). `False` can come back when an assignment exists, because forbidden lists left by an earlier call are never cleared. For example, with one item, the new rental 1-3 is refused next to 2-5 and leaves item 0 on 2-5's list (algorithm.py:39-40, 56-58). A second call with the same 2-5 and a new 10-12 is then refused at algorithm.py:39-40, although the two do not overlap (`Scenarios.StaleListRefusesFeasible`). Completeness from fresh forbidden lists is not claimed either.
- The result can depend on the input order. Python's `sorted` is stable (algorithm.py:30), so rentals with equal `(end, start)` are processed in input order, and `Ordering.SortIsStable` states exactly that. Reversing the input reverses them and can swap their items: two fresh rentals 1-3 with `N = 2` get items 0 and 1 in one order, 1 and 0 in the other. No lemma claims invariance under reordering.
- `Rentals.TextRoundTrip` covers natural numbers only. `Rentals.Str` handles negative numbers as Python's `str` does, but a text with a leading minus sign is not parsed back, because a valid rental never has one.
