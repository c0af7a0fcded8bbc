/**
 * A value-level model of the greedy loop of `activity_selection`
 * (algorithm.py:33-60). Activities are given by their spans, already in
 * processing order; the state is the forbidden list and the assigned item of
 * each activity, and the `max_end_time` table of the items. `Run` is the
 * loop, one `Step` per activity; the imperative method in module Algorithm
 * is proved to compute exactly `Run`, and the lemmas here say what `Run`
 * guarantees.
 */
module Assignment {
  import opened Wrappers

  datatype Span = Span(start: int, end: int)

  /** Half-open intervals overlap when they share more than an endpoint. */
  predicate Overlap(a: Span, b: Span) {
    a.start < b.end && b.start < a.end
  }

  /** The forward test of algorithm.py:56: the later span starts before the earlier one ends. */
  predicate ForwardConflict(earlier: Span, later: Span) {
    later.start < earlier.end
  }

  predicate EndsSorted(spans: seq<Span>) {
    forall p, q :: 0 <= p < q < |spans| ==> spans[p].end <= spans[q].end
  }

  predicate Proper(spans: seq<Span>) {
    forall p :: 0 <= p < |spans| ==> 0 < spans[p].start < spans[p].end
  }

  /** On spans sorted by end, the one-sided test of algorithm.py:56 is exactly overlap. */
  lemma ForwardTestIsOverlap(spans: seq<Span>, p: int, q: int)
    requires EndsSorted(spans) && Proper(spans) && 0 <= p < q < |spans|
    ensures Overlap(spans[p], spans[q]) <==> ForwardConflict(spans[p], spans[q])
  {
  }

  /** A forbidden list: distinct items, each in [0, n). */
  predicate ForbiddenOk(s: seq<int>, n: int) {
    (forall i, j :: 0 <= i < j < |s| ==> s[i] != s[j]) &&
    (forall i :: 0 <= i < |s| ==> 0 <= s[i] < n)
  }

  predicate Eligible(invalid: seq<int>, x: int, n: int) {
    0 <= x < n && x !in invalid
  }

  datatype State = State(invalid: seq<seq<int>>, item: seq<Option<int>>, maxEnd: seq<int>)

  /** Shape of the state, and every forbidden list well formed. */
  predicate Inv(spans: seq<Span>, st: State, n: int) {
    n >= 1 && |st.invalid| == |spans| && |st.item| == |spans| && |st.maxEnd| == n &&
    forall j :: 0 <= j < |spans| ==> ForbiddenOk(st.invalid[j], n)
  }

  /** `[0] * overlaps` (algorithm.py:33). */
  function Zeros(n: nat): (z: seq<int>)
    ensures |z| == n && forall x :: 0 <= x < n ==> z[x] == 0
  {
    seq(n, _ => 0)
  }

  // ----- Counting items -----

  /** The set {0, ..., n-1}. */
  function Range(n: nat): (r: set<int>)
    ensures forall x :: x in r <==> 0 <= x < n
    ensures |r| == n
  {
    if n == 0 then {} else Range(n - 1) + {n - 1}
  }

  lemma {:induction false} DistinctCard(s: seq<int>)
    requires forall i, j :: 0 <= i < j < |s| ==> s[i] != s[j]
    ensures |set x | x in s| == |s|
  {
    if s != [] {
      DistinctCard(s[1..]);
      assert (set x | x in s) == (set x | x in s[1..]) + {s[0]};
      assert s[0] !in s[1..];
    }
  }

  /** A forbidden list never has more than n entries. */
  lemma ForbiddenBound(s: seq<int>, n: int)
    requires ForbiddenOk(s, n) && n >= 0
    ensures |s| <= n
  {
    DistinctCard(s);
    var a, r := (set x | x in s), Range(n);
    assert a <= r;
    assert r == a + (r - a);
    assert |r| == |a| + |r - a|;
  }

  /** A forbidden list with fewer than n entries leaves an eligible item. */
  lemma EligibleExists(s: seq<int>, n: int)
    requires ForbiddenOk(s, n) && n >= 0 && |s| != n
    ensures exists x :: Eligible(s, x, n)
  {
    ForbiddenBound(s, n);
    DistinctCard(s);
    var a, r := (set x | x in s), Range(n);
    assert a <= r;
    assert r == a + (r - a);
    assert |r - a| > 0;
    var x :| x in r - a;
    assert Eligible(s, x, n);
  }

  // ----- Best-fit choice (algorithm.py:45-49) -----

  /** The scan over items 0 .. k-1; -1 when none is eligible. */
  function BestItem(invalid: seq<int>, maxEnd: seq<int>, k: nat): (b: int)
    requires k <= |maxEnd|
    ensures -1 <= b < k
  {
    if k == 0 then -1
    else
      var b := BestItem(invalid, maxEnd, k - 1);
      if k - 1 !in invalid && (b == -1 || maxEnd[k - 1] > maxEnd[b]) then k - 1 else b
  }

  /** Eligible, with the largest `max_end_time` among eligible items, and the lowest such index. */
  predicate IsBestFit(invalid: seq<int>, maxEnd: seq<int>, n: int, b: int)
    requires n <= |maxEnd|
  {
    Eligible(invalid, b, n) &&
    (forall x :: 0 <= x < n && x !in invalid ==> maxEnd[x] <= maxEnd[b]) &&
    (forall x :: 0 <= x < b && x !in invalid ==> maxEnd[x] < maxEnd[b])
  }

  lemma {:induction false} BestItemSpec(invalid: seq<int>, maxEnd: seq<int>, k: nat)
    requires k <= |maxEnd|
    ensures BestItem(invalid, maxEnd, k) == -1 <==> forall x :: 0 <= x < k ==> x in invalid
    ensures BestItem(invalid, maxEnd, k) != -1 ==> IsBestFit(invalid, maxEnd, k, BestItem(invalid, maxEnd, k))
  {
    if k > 0 {
      BestItemSpec(invalid, maxEnd, k - 1);
    }
  }

  /** The best-fit rule names one item only. */
  lemma BestFitUnique(invalid: seq<int>, maxEnd: seq<int>, n: int, b: int, c: int)
    requires n <= |maxEnd|
    requires IsBestFit(invalid, maxEnd, n, b) && IsBestFit(invalid, maxEnd, n, c)
    ensures b == c
  {
  }

  /** The scan over all n items picks the best fit whenever the list is not full. */
  lemma ChoiceIsBestFit(invalid: seq<int>, maxEnd: seq<int>, n: int)
    requires n == |maxEnd| && ForbiddenOk(invalid, n) && |invalid| != n
    ensures IsBestFit(invalid, maxEnd, n, BestItem(invalid, maxEnd, n))
  {
    EligibleExists(invalid, n);
    BestItemSpec(invalid, maxEnd, n);
  }

  // ----- Forward propagation (algorithm.py:54-58) -----

  /** Appends x unless already present. */
  function AddItem(s: seq<int>, x: int): seq<int> {
    if x in s then s else s + [x]
  }

  /** The result holds exactly the old entries and x, with the old list as its prefix. */
  lemma AddItemMembers(s: seq<int>, x: int)
    ensures var r := AddItem(s, x);
      (forall y :: y in r <==> y in s || y == x) &&
      |s| <= |r| <= |s| + 1 && r[..|s|] == s
  {
  }

  lemma AddItemSpec(s: seq<int>, x: int, n: int)
    requires ForbiddenOk(s, n) && 0 <= x < n
    ensures var r := AddItem(s, x);
      x in r && r[..|s|] == s && |r| <= |s| + 1 &&
      (forall y :: y in r <==> y in s || y == x) &&
      ForbiddenOk(r, n)
  {
  }

  /** Every later span starting before e gets b added to its forbidden list. */
  function Propagate(spans: seq<Span>, invalid: seq<seq<int>>, i: int, e: int, b: int): (r: seq<seq<int>>)
    requires |invalid| == |spans|
    ensures |r| == |invalid|
  {
    seq(|invalid|, j requires 0 <= j < |invalid| =>
      if i < j && spans[j].start < e then AddItem(invalid[j], b) else invalid[j])
  }

  /**
   * Propagation only appends: each list keeps its old entries as a prefix, and
   * gains b exactly when it belongs to a later span starting before e; every
   * other list is left as it was.
   */
  lemma PropagateSpec(spans: seq<Span>, invalid: seq<seq<int>>, i: int, e: int, b: int)
    requires |invalid| == |spans|
    ensures var r := Propagate(spans, invalid, i, e, b);
      (forall j :: 0 <= j < |r| ==> |invalid[j]| <= |r[j]| && r[j][..|invalid[j]|] == invalid[j]) &&
      (forall j, y :: 0 <= j < |r| ==>
         (y in r[j] <==> y in invalid[j] || (y == b && i < j && spans[j].start < e))) &&
      (forall j :: 0 <= j < |r| && !(i < j && spans[j].start < e) ==> r[j] == invalid[j])
  {
  }

  // ----- One activity, and the loop (algorithm.py:35-60) -----

  /** Assigns the best-fit item to activity i, records its end, and forbids the item downstream. */
  function Step(spans: seq<Span>, st: State, i: nat, n: int): (st': State)
    requires Inv(spans, st, n) && i < |spans| && |st.invalid[i]| != n
    ensures Inv(spans, st', n)
  {
    ChoiceIsBestFit(st.invalid[i], st.maxEnd, n);
    var b := BestItem(st.invalid[i], st.maxEnd, n);
    var e := spans[i].end;
    var inv' := Propagate(spans, st.invalid, i, e, b);
    assert forall j :: 0 <= j < |spans| ==> ForbiddenOk(inv'[j], n) by {
      forall j | 0 <= j < |spans| ensures ForbiddenOk(inv'[j], n) {
        AddItemSpec(st.invalid[j], b, n);
      }
    }
    State(inv', st.item[i := Some(b)], st.maxEnd[b := e])
  }

  datatype Outcome = Outcome(ok: bool, stop: nat, st: State)

  /**
   * Processes activities i, i+1, ...; fails at the first one whose forbidden
   * list is full (`stop` is its position), succeeds when all are processed.
   */
  function Run(spans: seq<Span>, st: State, i: nat, n: int): (out: Outcome)
    requires Inv(spans, st, n) && i <= |spans|
    ensures Inv(spans, out.st, n) && i <= out.stop <= |spans|
    ensures out.ok <==> out.stop == |spans|
    ensures !out.ok ==> |out.st.invalid[out.stop]| == n
    decreases |spans| - i
  {
    if i == |spans| then Outcome(true, i, st)
    else if |st.invalid[i]| == n then Outcome(false, i, st)
    else Run(spans, Step(spans, st, i, n), i + 1, n)
  }

  /** The state the loop starts from: lists and items as given, every `max_end_time` zero. */
  function Initial(invalid: seq<seq<int>>, item: seq<Option<int>>, n: nat): (st: State)
    ensures st.invalid == invalid && st.item == item
    ensures |st.maxEnd| == n && forall x :: 0 <= x < n ==> st.maxEnd[x] == 0
  {
    State(invalid, item, Zeros(n))
  }

  // ----- What the loop maintains -----

  /** Latest end among activities before position i assigned item x, or 0. */
  function LastEnd(spans: seq<Span>, item: seq<Option<int>>, i: nat, x: int): int
    requires i <= |spans| && i <= |item|
  {
    if i == 0 then 0
    else if item[i - 1] == Some(x) then spans[i - 1].end
    else LastEnd(spans, item, i - 1, x)
  }

  lemma {:induction false} LastEndPrefix(spans: seq<Span>, item: seq<Option<int>>, item': seq<Option<int>>, i: nat, x: int)
    requires i <= |spans| && i <= |item| && i <= |item'| && item[..i] == item'[..i]
    ensures LastEnd(spans, item, i, x) == LastEnd(spans, item', i, x)
  {
    if i > 0 {
      assert item[i - 1] == item[..i][i - 1];
      assert item'[i - 1] == item'[..i][i - 1];
      assert item[..i - 1] == item[..i][..i - 1];
      assert item'[..i - 1] == item'[..i][..i - 1];
      LastEndPrefix(spans, item, item', i - 1, x);
    }
  }

  /** Activities before i hold an item in range that is not on their own forbidden list. */
  predicate Assigned(spans: seq<Span>, st: State, i: nat, n: int)
    requires Inv(spans, st, n) && i <= |spans|
  {
    forall p :: 0 <= p < i ==>
      st.item[p].Some? && 0 <= st.item[p].value < n && st.item[p].value !in st.invalid[p]
  }

  /** Each assigned item is forbidden for every unprocessed activity that starts before it ends. */
  predicate Forwarded(spans: seq<Span>, st: State, i: nat, n: int)
    requires Inv(spans, st, n) && i <= |spans|
  {
    forall p, q :: 0 <= p < i <= q < |spans| && ForwardConflict(spans[p], spans[q]) ==>
      st.item[p].Some? && st.item[p].value in st.invalid[q]
  }

  /** Processed activities in forward conflict hold different items. */
  predicate Separated(spans: seq<Span>, st: State, i: nat, n: int)
    requires Inv(spans, st, n) && i <= |spans|
  {
    forall p, q :: 0 <= p < q < i && ForwardConflict(spans[p], spans[q]) ==> st.item[p] != st.item[q]
  }

  /** `max_end_time[x]` is the end of the last processed activity on item x. */
  predicate TracksLastEnd(spans: seq<Span>, st: State, i: nat, n: int)
    requires Inv(spans, st, n) && i <= |spans|
  {
    forall x :: 0 <= x < n ==> st.maxEnd[x] == LastEnd(spans, st.item, i, x)
  }

  predicate Processed(spans: seq<Span>, st: State, i: nat, n: int)
    requires Inv(spans, st, n) && i <= |spans|
  {
    Assigned(spans, st, i, n) && Forwarded(spans, st, i, n) && Separated(spans, st, i, n)
  }

  lemma StepProcessed(spans: seq<Span>, st: State, i: nat, n: int)
    requires Inv(spans, st, n) && i < |spans| && |st.invalid[i]| != n
    requires Processed(spans, st, i, n)
    ensures Processed(spans, Step(spans, st, i, n), i + 1, n)
  {
    var st' := Step(spans, st, i, n);
    ChoiceIsBestFit(st.invalid[i], st.maxEnd, n);
    var b := BestItem(st.invalid[i], st.maxEnd, n);
    var e := spans[i].end;
    assert st'.item == st.item[i := Some(b)];
    assert st'.invalid == Propagate(spans, st.invalid, i, e, b);
    forall j | 0 <= j < |spans|
      ensures forall y :: y in st.invalid[j] ==> y in st'.invalid[j]
      ensures i < j && spans[j].start < e ==> b in st'.invalid[j]
      ensures j <= i ==> st'.invalid[j] == st.invalid[j]
    {
      AddItemSpec(st.invalid[j], b, n);
    }
    // Separated: the new activity differs from every earlier one it conflicts with.
    forall p, q | 0 <= p < q < i + 1 && ForwardConflict(spans[p], spans[q])
      ensures st'.item[p] != st'.item[q]
    {
      if q == i {
        assert st.item[p].value in st.invalid[i];
      }
    }
  }

  lemma StepTracksLastEnd(spans: seq<Span>, st: State, i: nat, n: int)
    requires Inv(spans, st, n) && i < |spans| && |st.invalid[i]| != n
    requires TracksLastEnd(spans, st, i, n)
    ensures TracksLastEnd(spans, Step(spans, st, i, n), i + 1, n)
  {
    var st' := Step(spans, st, i, n);
    forall x | 0 <= x < n ensures st'.maxEnd[x] == LastEnd(spans, st'.item, i + 1, x) {
      assert st'.item[..i] == st.item[..i];
      LastEndPrefix(spans, st.item, st'.item, i, x);
    }
  }

  /** From the all-zero table, `max_end_time[x]` stays the end of the last activity put on x. */
  lemma {:induction false} RunTracksLastEnd(spans: seq<Span>, st: State, i: nat, n: int)
    requires Inv(spans, st, n) && i <= |spans| && TracksLastEnd(spans, st, i, n)
    ensures var out := Run(spans, st, i, n); TracksLastEnd(spans, out.st, out.stop, n)
    decreases |spans| - i
  {
    if i < |spans| && |st.invalid[i]| != n {
      StepTracksLastEnd(spans, st, i, n);
      RunTracksLastEnd(spans, Step(spans, st, i, n), i + 1, n);
    }
  }

  lemma InitialTracksLastEnd(spans: seq<Span>, invalid: seq<seq<int>>, item: seq<Option<int>>, n: nat)
    requires Inv(spans, Initial(invalid, item, n), n)
    ensures TracksLastEnd(spans, Initial(invalid, item, n), 0, n)
  {
  }

  lemma {:induction false} RunProcessed(spans: seq<Span>, st: State, i: nat, n: int)
    requires Inv(spans, st, n) && i <= |spans| && Processed(spans, st, i, n)
    ensures var out := Run(spans, st, i, n); Processed(spans, out.st, out.stop, n)
    decreases |spans| - i
  {
    if i < |spans| && |st.invalid[i]| != n {
      StepProcessed(spans, st, i, n);
      RunProcessed(spans, Step(spans, st, i, n), i + 1, n);
    }
  }

  /** b continues a: every entry of a stays, in place. */
  predicate Extends(a: seq<int>, b: seq<int>) {
    |a| <= |b| && b[..|a|] == a
  }

  /** Nothing at or after the stopping position, and nothing before i, is assigned in this run. */
  lemma {:induction false} RunKeepsItems(spans: seq<Span>, st: State, i: nat, n: int)
    requires Inv(spans, st, n) && i <= |spans|
    ensures var out := Run(spans, st, i, n);
      forall j :: 0 <= j < i || out.stop <= j < |spans| ==> out.st.item[j] == st.item[j]
    decreases |spans| - i
  {
    if i < |spans| && |st.invalid[i]| != n {
      RunKeepsItems(spans, Step(spans, st, i, n), i + 1, n);
    }
  }

  /** Forbidden lists only grow during a run: each old list is a prefix of the new one. */
  lemma {:induction false} RunGrowsLists(spans: seq<Span>, st: State, i: nat, n: int)
    requires Inv(spans, st, n) && i <= |spans|
    ensures var out := Run(spans, st, i, n);
      forall j :: 0 <= j < |spans| ==> Extends(st.invalid[j], out.st.invalid[j])
    decreases |spans| - i
  {
    if i < |spans| && |st.invalid[i]| != n {
      var st' := Step(spans, st, i, n);
      ChoiceIsBestFit(st.invalid[i], st.maxEnd, n);
      var b := BestItem(st.invalid[i], st.maxEnd, n);
      RunGrowsLists(spans, st', i + 1, n);
      var out := Run(spans, st', i + 1, n);
      forall j | 0 <= j < |spans| ensures Extends(st.invalid[j], out.st.invalid[j]) {
        AddItemSpec(st.invalid[j], b, n);
        var a, m, z := st.invalid[j], st'.invalid[j], out.st.invalid[j];
        assert z[..|a|] == z[..|m|][..|a|];
      }
    }
  }

  // ----- Main results -----

  /**
   * Soundness: when the loop succeeds from the initial state, every activity
   * holds an item in [0, n), and overlapping activities hold different items.
   * This does not depend on the sort: the sort only gives `max_end_time` its
   * meaning (LastEndIsLatest).
   */
  lemma Soundness(spans: seq<Span>, st: State, n: int)
    requires Inv(spans, st, n)
    requires Run(spans, st, 0, n).ok
    ensures var out := Run(spans, st, 0, n);
      (forall p :: 0 <= p < |spans| ==> out.st.item[p].Some? && 0 <= out.st.item[p].value < n) &&
      (forall p, q :: 0 <= p < |spans| && 0 <= q < |spans| && p != q && Overlap(spans[p], spans[q]) ==>
         out.st.item[p] != out.st.item[q])
  {
    var out := Run(spans, st, 0, n);
    RunProcessed(spans, st, 0, n);
    assert out.stop == |spans|;
    assert Assigned(spans, out.st, |spans|, n);
    assert Separated(spans, out.st, |spans|, n);
    forall p, q | 0 <= p < |spans| && 0 <= q < |spans| && p != q && Overlap(spans[p], spans[q])
      ensures out.st.item[p] != out.st.item[q]
    {
      if p < q {
        assert ForwardConflict(spans[p], spans[q]);
      } else {
        assert ForwardConflict(spans[q], spans[p]);
      }
    }
  }

  /**
   * On failure there is no rollback: the activities before the stopping one
   * keep their new items, the stopping one and those after it keep the items
   * they had, and the stopping one's forbidden list is full.
   */
  lemma FailureIsPartial(spans: seq<Span>, st: State, n: int)
    requires Inv(spans, st, n) && !Run(spans, st, 0, n).ok
    ensures var out := Run(spans, st, 0, n);
      out.stop < |spans| && |out.st.invalid[out.stop]| == n &&
      (forall p :: 0 <= p < out.stop ==> out.st.item[p].Some? && 0 <= out.st.item[p].value < n) &&
      (forall q :: out.stop <= q < |spans| ==> out.st.item[q] == st.item[q])
  {
    RunProcessed(spans, st, 0, n);
    RunKeepsItems(spans, st, 0, n);
  }

  /** Among processed activities on item x, `max_end_time[x]` is the largest end, by the sort. */
  lemma {:induction false} LastEndIsLatest(spans: seq<Span>, item: seq<Option<int>>, i: nat, x: int, p: nat)
    requires i <= |spans| && i <= |item| && EndsSorted(spans)
    requires p < i && item[p] == Some(x)
    ensures spans[p].end <= LastEnd(spans, item, i, x)
  {
    if p < i - 1 && item[i - 1] != Some(x) {
      LastEndIsLatest(spans, item, i - 1, x, p);
    }
  }

  /** No `max_end_time` entry exceeds the end of the activity being processed. */
  lemma {:induction false} LastEndBelowCurrent(spans: seq<Span>, item: seq<Option<int>>, i: nat, x: int)
    requires i < |spans| && i <= |item| && EndsSorted(spans) && Proper(spans)
    ensures LastEnd(spans, item, i, x) <= spans[i].end
  {
    if i > 0 && item[i - 1] != Some(x) {
      LastEndBelowCurrent(spans, item, i - 1, x);
    }
  }

  /**
   * One step: the item is the best fit, its `max_end_time` becomes the
   * activity's end (never lowering it, by the sort) and no other entry
   * changes; only later activities that start before this end gain it as a
   * forbidden item, and no other list changes.
   */
  lemma StepSpec(spans: seq<Span>, st: State, i: nat, n: int)
    requires Inv(spans, st, n) && i < |spans| && |st.invalid[i]| != n
    requires EndsSorted(spans) && Proper(spans) && TracksLastEnd(spans, st, i, n)
    ensures var st' := Step(spans, st, i, n); var b := st'.item[i].value;
      st'.item[i].Some? && IsBestFit(st.invalid[i], st.maxEnd, n, b) &&
      (forall j :: 0 <= j < |spans| && j != i ==> st'.item[j] == st.item[j]) &&
      st'.maxEnd[b] == spans[i].end && st.maxEnd[b] <= spans[i].end &&
      (forall x :: 0 <= x < n && x != b ==> st'.maxEnd[x] == st.maxEnd[x] <= spans[i].end) &&
      (forall j :: 0 <= j < |spans| ==>
         if i < j && ForwardConflict(spans[i], spans[j])
         then b in st'.invalid[j] && (forall y :: y in st'.invalid[j] <==> y in st.invalid[j] || y == b)
         else st'.invalid[j] == st.invalid[j])
  {
    ChoiceIsBestFit(st.invalid[i], st.maxEnd, n);
    var b := BestItem(st.invalid[i], st.maxEnd, n);
    forall x | 0 <= x < n ensures st.maxEnd[x] <= spans[i].end {
      LastEndBelowCurrent(spans, st.item, i, x);
    }
    forall j | 0 <= j < |spans| {
      AddItemSpec(st.invalid[j], b, n);
    }
  }
}
