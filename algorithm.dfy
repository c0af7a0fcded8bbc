/**
 * `activity_selection` (algorithm.py:22-60) as an imperative method over the
 * rental objects: it sorts a fresh list, keeps the `max_end_time` table in
 * an array, writes `item` on each rental it processes and appends to the
 * `invalidItems` of later ones. Its postcondition ties the final fields of
 * the rentals to the value-level model `Assignment.Run`, and restates the
 * model's guarantees on the objects themselves.
 */
module Algorithm {
  import opened Wrappers
  import opened Rentals
  import opened Ordering
  import opened Assignment

  /** The intervals of the rentals, position by position. */
  function Spans(order: seq<Rental>): (spans: seq<Span>)
    ensures |spans| == |order|
    ensures forall j :: 0 <= j < |order| ==> spans[j] == Span(order[j].start, order[j].end)
  {
    seq(|order|, j requires 0 <= j < |order| => Span(order[j].start, order[j].end))
  }

  ghost function Invalids(order: seq<Rental>): (r: seq<seq<int>>)
    reads set a | a in order
    ensures |r| == |order| && forall j :: 0 <= j < |order| ==> r[j] == order[j].invalidItems
  {
    seq(|order|, j reads set a | a in order requires 0 <= j < |order| => order[j].invalidItems)
  }

  ghost function Items(order: seq<Rental>): (r: seq<Option<int>>)
    reads set a | a in order
    ensures |r| == |order| && forall j :: 0 <= j < |order| ==> r[j] == order[j].item
  {
    seq(|order|, j reads set a | a in order requires 0 <= j < |order| => order[j].item)
  }

  /** Every rental holds an item in [0, n), and overlapping rentals hold different items. */
  ghost predicate Feasible(all: seq<Rental>, n: int)
    reads set a | a in all
  {
    (forall a :: a in all ==> a.item.Some? && 0 <= a.item.value < n) &&
    (forall a, b ::
       (a in all && b in all && a != b && Overlap(Span(a.start, a.end), Span(b.start, b.end))) ==>
         a.item != b.item)
  }

  /**
   * The run stopped at position `stop`, whose forbidden list is full: the
   * rentals before it hold items in [0, n) and the others keep their items.
   */
  ghost predicate StoppedAt(order: seq<Rental>, stop: int, items0: seq<Option<int>>, n: int)
    reads set a | a in order
    requires |items0| == |order|
  {
    0 <= stop < |order| && |order[stop].invalidItems| == n &&
    (forall j :: 0 <= j < stop ==> order[j].item.Some? && 0 <= order[j].item.value < n) &&
    (forall j :: stop <= j < |order| ==> order[j].item == items0[j])
  }

  /** The model's view of the rentals and the `max_end_time` table. */
  ghost function Current(order: seq<Rental>, maxEnd: array<int>): State
    reads (set a | a in order), maxEnd
  {
    State(Invalids(order), Items(order), maxEnd[..])
  }

  /**
   * Adds `newActivity` to `activities`, processes all of them in (end, start)
   * order, and answers whether every one received an item in [0, overlaps).
   */
  method ActivitySelection(activities: seq<Rental>, newActivity: Rental, overlaps: int) returns (ok: bool)
    requires overlaps >= 1
    requires NoAliases(activities + [newActivity])
    requires forall a :: a in activities + [newActivity] ==> a.Valid() && ForbiddenOk(a.invalidItems, overlaps)
    modifies set a | a in activities + [newActivity]
    // The final fields are exactly those the model computes; on success the
    // assignment is complete and conflict-free, on failure it stopped part-way.
    ensures var order := SortByKey(activities + [newActivity]);
      var out := Run(Spans(order), Initial(old(Invalids(order)), old(Items(order)), overlaps), 0, overlaps);
      ok == out.ok && Invalids(order) == out.st.invalid && Items(order) == out.st.item &&
      (ok ==> Feasible(activities + [newActivity], overlaps)) &&
      (!ok ==> StoppedAt(order, out.stop, old(Items(order)), overlaps))
  {
    var order := SortByKey(activities + [newActivity]);
    SortSameRentals(activities + [newActivity]);
    var maxEnd := new int[overlaps](_ => 0);
    assert maxEnd[..] == Zeros(overlaps);
    ghost var st0 := Current(order, maxEnd);
    assert st0 == Initial(old(Invalids(order)), old(Items(order)), overlaps);
    ok := ProcessAll(order, maxEnd);
    Conclude(activities + [newActivity], order, st0, overlaps, ok, old(Items(order)));
  }

  /** The loop of algorithm.py:35-60 over the sorted activities, returning at the first full forbidden list. */
  method ProcessAll(order: seq<Rental>, maxEnd: array<int>) returns (ok: bool)
    requires NoAliases(order) && Inv(Spans(order), Current(order, maxEnd), maxEnd.Length)
    modifies (set a | a in order), maxEnd
    ensures var out := Run(Spans(order), old(Current(order, maxEnd)), 0, maxEnd.Length);
      ok == out.ok && Current(order, maxEnd) == out.st
  {
    ghost var spans := Spans(order);
    ghost var st0 := Current(order, maxEnd);
    for index := 0 to |order|
      invariant Inv(spans, Current(order, maxEnd), maxEnd.Length)
      invariant Run(spans, st0, 0, maxEnd.Length) == Run(spans, Current(order, maxEnd), index, maxEnd.Length)
    {
      if |order[index].invalidItems| == maxEnd.Length {
        return false;
      }
      Process(order, index, maxEnd);
    }
    return true;
  }

  /**
   * One pass of the loop body of algorithm.py:42-58 for an activity whose
   * forbidden list is not full: choose the item, record it and its end, and
   * forbid it to the later activities that start before this one ends.
   */
  method Process(order: seq<Rental>, index: nat, maxEnd: array<int>)
    requires NoAliases(order) && index < |order|
    requires Inv(Spans(order), Current(order, maxEnd), maxEnd.Length)
    requires |order[index].invalidItems| != maxEnd.Length
    modifies (set a | a in order), maxEnd
    ensures Current(order, maxEnd) == Step(Spans(order), old(Current(order, maxEnd)), index, maxEnd.Length)
  {
    var activity := order[index];
    ghost var spans := Spans(order);
    ghost var cur := Current(order, maxEnd);
    var bestItem := ChooseItem(activity.invalidItems, maxEnd);
    ChoiceIsBestFit(activity.invalidItems, maxEnd[..], maxEnd.Length);
    activity.item := Some(bestItem);
    maxEnd[bestItem] := activity.end;
    assert Invalids(order) == cur.invalid;
    assert Items(order) == cur.item[index := Some(bestItem)];

    if index + 1 != |order| {
      ForbidLater(order, index, activity.end, bestItem);
    } else {
      assert Propagate(spans, cur.invalid, index, activity.end, bestItem) == cur.invalid;
    }
    StepIs(spans, cur, index, maxEnd.Length, Current(order, maxEnd));
  }

  /** The scan of algorithm.py:45-49 over items 0 .. n-1. */
  method ChooseItem(invalid: seq<int>, maxEnd: array<int>) returns (bestItem: int)
    ensures bestItem == BestItem(invalid, maxEnd[..], maxEnd.Length)
    ensures bestItem == -1 <==> forall x :: 0 <= x < maxEnd.Length ==> x in invalid
    ensures bestItem != -1 ==> IsBestFit(invalid, maxEnd[..], maxEnd.Length, bestItem)
  {
    bestItem := -1;
    for item := 0 to maxEnd.Length
      invariant bestItem == BestItem(invalid, maxEnd[..], item)
    {
      if item !in invalid {
        if bestItem == -1 || maxEnd[item] > maxEnd[bestItem] {
          bestItem := item;
        }
      }
    }
    BestItemSpec(invalid, maxEnd[..], maxEnd.Length);
  }

  /**
   * The propagation of algorithm.py:55-58: every rental after position i that
   * starts before `end` gets `item` appended to its forbidden list, unless
   * the item is already there.
   */
  method ForbidLater(order: seq<Rental>, i: nat, end: int, item: int)
    requires i < |order| && NoAliases(order)
    modifies set a | a in order
    ensures Invalids(order) == Propagate(Spans(order), old(Invalids(order)), i, end, item)
    ensures Items(order) == old(Items(order))
  {
    for k := i + 1 to |order|
      invariant forall j :: 0 <= j < |order| ==>
        order[j].invalidItems ==
          (if i < j < k && order[j].start < end
           then AddItem(old(order[j].invalidItems), item) else old(order[j].invalidItems))
      invariant Items(order) == old(Items(order))
    {
      var next := order[k];
      if next.start < end {
        if item !in next.invalidItems {
          next.invalidItems := next.invalidItems + [item];
        }
      }
    }
  }

  lemma StepIs(spans: seq<Span>, st: State, i: nat, n: int, st': State)
    requires Inv(spans, st, n) && i < |spans| && |st.invalid[i]| != n
    requires var b := BestItem(st.invalid[i], st.maxEnd, n);
      0 <= b < n &&
      st'.invalid == Propagate(spans, st.invalid, i, spans[i].end, b) &&
      st'.item == st.item[i := Some(b)] && st'.maxEnd == st.maxEnd[b := spans[i].end]
    ensures st' == Step(spans, st, i, n)
  {
  }

  /** Reads the guarantees of Soundness and FailureIsPartial back onto the rental objects. */
  lemma Conclude(all: seq<Rental>, order: seq<Rental>, st0: State, n: int, ok: bool, items0: seq<Option<int>>)
    requires order == SortByKey(all)
    requires Inv(Spans(order), st0, n) && st0.item == items0
    requires var out := Run(Spans(order), st0, 0, n);
      ok == out.ok && Invalids(order) == out.st.invalid && Items(order) == out.st.item
    ensures ok ==> Feasible(all, n)
    ensures !ok ==> StoppedAt(order, Run(Spans(order), st0, 0, n).stop, items0, n)
  {
    var spans := Spans(order);
    SortSameRentals(all);
    if ok {
      Soundness(spans, st0, n);
      forall a, b | a in all && b in all && a != b && Overlap(Span(a.start, a.end), Span(b.start, b.end))
        ensures a.item != b.item
      {
        var p :| 0 <= p < |order| && order[p] == a;
        var q :| 0 <= q < |order| && order[q] == b;
        assert Overlap(spans[p], spans[q]);
      }
      forall a | a in all ensures a.item.Some? && 0 <= a.item.value < n {
        var p :| 0 <= p < |order| && order[p] == a;
      }
    } else {
      FailureIsPartial(spans, st0, n);
    }
  }
}
