/**
 * Concrete runs of the model from a fresh start (empty forbidden lists, no
 * items), with the activities already in (end, start) order, and the text
 * form of one rental.
 */
module Scenarios {
  import opened Wrappers
  import opened Assignment
  import Rentals

  function Fresh(spans: seq<Span>, n: nat): (st: State)
    ensures |st.invalid| == |spans| && forall j :: 0 <= j < |spans| ==> st.invalid[j] == []
  {
    Initial(seq(|spans|, _ => []), seq(|spans|, _ => None), n)
  }

  /** One item; 1-3 and 3-5 only touch, so both go on item 0. */
  lemma TouchingShareAnItem()
    ensures var out := Run([Span(1, 3), Span(3, 5)], Fresh([Span(1, 3), Span(3, 5)], 1), 0, 1);
      out.ok && out.st.item == [Some(0), Some(0)]
  {
    var spans := [Span(1, 3), Span(3, 5)];
    var s0 := Fresh(spans, 1);
    var s1 := Step(spans, s0, 0, 1);
    assert s1 == State([[], []], [Some(0), None], [3]);
    var s2 := Step(spans, s1, 1, 1);
    assert s2 == State([[], []], [Some(0), Some(0)], [5]);
  }

  /** One item; 1-3 and 2-5 overlap, so the second finds its only item forbidden. */
  lemma OverlapNeedsSecondItem()
    ensures var out := Run([Span(1, 3), Span(2, 5)], Fresh([Span(1, 3), Span(2, 5)], 1), 0, 1);
      !out.ok && out.stop == 1
  {
    var spans := [Span(1, 3), Span(2, 5)];
    var s0 := Fresh(spans, 1);
    assert BestItem(s0.invalid[0], s0.maxEnd, 1) == 0;
    var p := Propagate(spans, s0.invalid, 0, 3, 0);
    assert p[0] == [] && p[1] == [0];
    var s1 := Step(spans, s0, 0, 1);
    assert s1 == State([[], [0]], [Some(0), None], [3]);
  }

  /**
   * Forbidden lists are not cleared between calls. With one item, the new
   * rental 1-3 is refused next to 2-5 and leaves item 0 on 2-5's list. A
   * second call with the same 2-5 and a new 10-12 is then refused too,
   * although the two do not overlap and both fit on item 0.
   */
  lemma StaleListRefusesFeasible()
    ensures var out1 := Run([Span(1, 3), Span(2, 5)], Fresh([Span(1, 3), Span(2, 5)], 1), 0, 1);
      !out1.ok && out1.st.invalid[1] == [0] && out1.st.item[1] == None &&
      var spans2 := [Span(2, 5), Span(10, 12)];
      var st2 := Initial([out1.st.invalid[1], []], [out1.st.item[1], None], 1);
      Inv(spans2, st2, 1) && !Run(spans2, st2, 0, 1).ok &&
      !Overlap(spans2[0], spans2[1])
  {
    var spans := [Span(1, 3), Span(2, 5)];
    var s0 := Fresh(spans, 1);
    assert BestItem(s0.invalid[0], s0.maxEnd, 1) == 0;
    var p := Propagate(spans, s0.invalid, 0, 3, 0);
    assert p[0] == [] && p[1] == [0];
    var s1 := Step(spans, s0, 0, 1);
    assert s1 == State([[], [0]], [Some(0), None], [3]);
    var st2 := Initial([[0], []], [None, None], 1);
    assert st2 == State([[0], []], [None, None], [0]);
  }

  /** Two items; 1-4, 3-5 and 2-6 pairwise overlap, so 2-6 finds both items forbidden. */
  lemma ThreeMutualOverlapsTwoItems()
    ensures var spans := [Span(1, 4), Span(3, 5), Span(2, 6)];
      var out := Run(spans, Fresh(spans, 2), 0, 2);
      !out.ok && out.stop == 2 && out.st.item[..2] == [Some(0), Some(1)]
  {
    var spans := [Span(1, 4), Span(3, 5), Span(2, 6)];
    assert Fresh(spans, 2) == State([[], [], []], [None, None, None], [0, 0]);
    MutualStep0();
    MutualStep1();
    var s2 := State([[], [0], [0, 1]], [Some(0), Some(1), None], [4, 5]);
    assert s2.item[..2] == [Some(0), Some(1)];
  }

  lemma MutualStep0()
    ensures var spans := [Span(1, 4), Span(3, 5), Span(2, 6)];
      var s0 := State([[], [], []], [None, None, None], [0, 0]);
      Inv(spans, s0, 2) && |s0.invalid[0]| != 2 &&
      Step(spans, s0, 0, 2) == State([[], [0], [0]], [Some(0), None, None], [4, 0])
  {
    var spans := [Span(1, 4), Span(3, 5), Span(2, 6)];
    var s0 := State([[], [], []], [None, None, None], [0, 0]);
    assert BestItem(s0.invalid[0], s0.maxEnd, 2) == 0;
    var p := Propagate(spans, s0.invalid, 0, 4, 0);
    assert p[0] == [] && p[1] == [0] && p[2] == [0];
  }

  lemma MutualStep1()
    ensures var spans := [Span(1, 4), Span(3, 5), Span(2, 6)];
      var s1 := State([[], [0], [0]], [Some(0), None, None], [4, 0]);
      Inv(spans, s1, 2) && |s1.invalid[1]| != 2 &&
      Step(spans, s1, 1, 2) == State([[], [0], [0, 1]], [Some(0), Some(1), None], [4, 5])
  {
    var spans := [Span(1, 4), Span(3, 5), Span(2, 6)];
    var s1 := State([[], [0], [0]], [Some(0), None, None], [4, 0]);
    assert BestItem(s1.invalid[1], s1.maxEnd, 2) == 1;
    var p := Propagate(spans, s1.invalid, 1, 5, 1);
    assert p[0] == [] && p[1] == [0] && p[2] == [0, 1];
  }

  /**
   * Two items; 1-3 and 5-7 with the new 2-6 between them. 2-6 overlaps both
   * but they do not overlap each other, so 1-3 and 5-7 share item 0 and 2-6
   * takes item 1.
   */
  lemma BridgingActivityFits()
    ensures var spans := [Span(1, 3), Span(2, 6), Span(5, 7)];
      var out := Run(spans, Fresh(spans, 2), 0, 2);
      out.ok && out.st.item == [Some(0), Some(1), Some(0)]
  {
    var spans := [Span(1, 3), Span(2, 6), Span(5, 7)];
    assert Fresh(spans, 2) == State([[], [], []], [None, None, None], [0, 0]);
    BridgeStep0();
    BridgeStep1();
    BridgeStep2();
  }

  lemma BridgeStep0()
    ensures var spans := [Span(1, 3), Span(2, 6), Span(5, 7)];
      var s0 := State([[], [], []], [None, None, None], [0, 0]);
      Inv(spans, s0, 2) && |s0.invalid[0]| != 2 &&
      Step(spans, s0, 0, 2) == State([[], [0], []], [Some(0), None, None], [3, 0])
  {
    var spans := [Span(1, 3), Span(2, 6), Span(5, 7)];
    var s0 := State([[], [], []], [None, None, None], [0, 0]);
    assert BestItem(s0.invalid[0], s0.maxEnd, 2) == 0;
    var p := Propagate(spans, s0.invalid, 0, 3, 0);
    assert p[0] == [] && p[1] == [0] && p[2] == [];
  }

  lemma BridgeStep1()
    ensures var spans := [Span(1, 3), Span(2, 6), Span(5, 7)];
      var s1 := State([[], [0], []], [Some(0), None, None], [3, 0]);
      Inv(spans, s1, 2) && |s1.invalid[1]| != 2 &&
      Step(spans, s1, 1, 2) == State([[], [0], [1]], [Some(0), Some(1), None], [3, 6])
  {
    var spans := [Span(1, 3), Span(2, 6), Span(5, 7)];
    var s1 := State([[], [0], []], [Some(0), None, None], [3, 0]);
    assert BestItem(s1.invalid[1], s1.maxEnd, 2) == 1;
    var p := Propagate(spans, s1.invalid, 1, 6, 1);
    assert p[0] == [] && p[1] == [0] && p[2] == [1];
  }

  lemma BridgeStep2()
    ensures var spans := [Span(1, 3), Span(2, 6), Span(5, 7)];
      var s2 := State([[], [0], [1]], [Some(0), Some(1), None], [3, 6]);
      Inv(spans, s2, 2) && |s2.invalid[2]| != 2 &&
      Step(spans, s2, 2, 2) == State([[], [0], [1]], [Some(0), Some(1), Some(0)], [7, 6])
  {
    var spans := [Span(1, 3), Span(2, 6), Span(5, 7)];
    var s2 := State([[], [0], [1]], [Some(0), Some(1), None], [3, 6]);
    assert BestItem(s2.invalid[2], s2.maxEnd, 2) == 0;
  }

  /** A 3-5 rental prints exactly as Python's `__str__` does, without padding. */
  lemma PrintsThreeFive(r: Rentals.Rental)
    requires r.start == 3 && r.end == 5
    ensures r.ToString() == "3-5"
  {
  }
}
