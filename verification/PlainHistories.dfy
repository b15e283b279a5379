/** Price histories without corporate actions, as examples need them: every bar is its own adjusted close. */
module PlainHistories {
  import opened Prelude
  import opened Adjustment
  import AdjustmentLaws
  import W = WeeklyPoints
  import CtaEngine

  function PlainBar(p: W.Point): CleanBar {
    var price := Finite(p.value);
    DailyBar(p.day, price, price, price, price, 0, Finite(0.0), Finite(1.0), Some(price), "example")
  }

  function PlainBars(points: seq<W.Point>): (r: seq<CleanBar>)
    ensures |r| == |points| && FullyAdjusted(r)
    ensures forall i :: 0 <= i < |points| ==> r[i] == PlainBar(points[i])
  {
    seq(|points|, i requires 0 <= i < |points| => PlainBar(points[i]))
  }

  lemma PlainPoints(points: seq<W.Point>)
    ensures CtaEngine.Points(PlainBars(points)) == points
  {}

  lemma PlainStep(previous: CleanBar, bar: CleanBar)
    requires bar.dividend == Finite(0.0) && bar.splitFactor == Finite(1.0)
    ensures StepFailure(previous, bar) == None && Ratio(previous, bar) == 1.0
  {
    assert 1.0 / 1.0 == 1.0;
  }

  lemma {:induction false} PlainFactor(points: seq<W.Point>, i: nat)
    requires i < |points|
    ensures Factor(PlainBars(points), i) == 1.0
    decreases |points| - i
  {
    hide Ratio;
    if i < |points| - 1 {
      PlainFactor(points, i + 1);
      PlainStep(PlainBars(points)[i], PlainBars(points)[i + 1]);
    }
  }

  lemma PlainAdjusts(points: seq<W.Point>)
    ensures AdjustBars(PlainBars(points)) == Ok(PlainBars(points))
  {
    hide Ratio;
    hide Factor;
    hide StepFailure;
    hide NewestFailure;
    var bars := PlainBars(points);
    forall i | 1 <= i < |bars| ensures StepsBack(bars, i) { PlainStep(bars[i - 1], bars[i]); }
    AdjustableIffNoFailure(bars);
    forall i | 0 <= i < |bars| ensures AdjustedValue(bars, i) == bars[i].close.value { PlainFactor(points, i); }
    assert AdjustBars(bars).value == bars;
  }

  lemma PlainChronological(points: seq<W.Point>)
    requires W.Chronological(points)
    ensures AdjustmentLaws.Chronological(PlainBars(points))
  {}

  /** Merging a later plain bar into a plain history appends it; merging nothing changes nothing. */
  lemma PlainMerge(points: seq<W.Point>, later: seq<W.Point>)
    requires W.Chronological(points + later)
    ensures MergeSpec(PlainBars(points), PlainBars(later)) == Ok(PlainBars(points + later))
  {
    hide AdjustBars;
    hide PlainBar;
    hide SortedBars;
    hide Collect;
    PlainChronological(points + later);
    PlainAdjusts(points + later);
    assert PlainBars(points) + PlainBars(later) == PlainBars(points + later);
    AdjustmentLaws.CollectConcat(map[], PlainBars(points), PlainBars(later));
    AdjustmentLaws.SortedBarsOfOrdered(PlainBars(points + later));
  }

  lemma PlainIsMerged(points: seq<W.Point>)
    requires W.Chronological(points)
    ensures AdjustmentLaws.IsMerged(PlainBars(points))
  {
    hide MergeSpec;
    assert points + [] == points && PlainBars([]) == [];
    PlainMerge(points, []);
  }

  lemma PlainCloses(points: seq<W.Point>, i: nat)
    requires i < |points|
    ensures AdjustmentLaws.Closes(PlainBars(points))[i] == points[i].value
  {}

  /** Two days at 1, of which the first is restated at 2: no single factor explains the refreshed prices. */
  lemma RestatedCloseRepaints()
    ensures var published := PlainBars([W.Point(0, 1.0), W.Point(1, 1.0)]);
      var refreshed := MergeSpec(published, PlainBars([W.Point(0, 2.0)]));
      && AdjustmentLaws.IsMerged(published) && refreshed == Ok(PlainBars([W.Point(0, 2.0), W.Point(1, 1.0)]))
      && !AdjustmentLaws.Rescaled(published, refreshed.value)
  {
    hide AdjustmentLaws.IsMerged;
    hide AdjustmentLaws.Closes;
    hide AdjustBars;
    hide Merged;
    var before, after := [W.Point(0, 1.0), W.Point(1, 1.0)], [W.Point(0, 2.0), W.Point(1, 1.0)];
    PlainIsMerged(before);
    PlainAdjusts(after);
    RestatedMerge();
    PlainCloses(before, 0);
    PlainCloses(before, 1);
    PlainCloses(after, 0);
    PlainCloses(after, 1);
    hide PlainBars;
    assert !AdjustmentLaws.Rescaled(PlainBars(before), PlainBars(after));
  }

  lemma RestatedMerge()
    ensures Merged(PlainBars([W.Point(0, 1.0), W.Point(1, 1.0)]), PlainBars([W.Point(0, 2.0)]))
         == PlainBars([W.Point(0, 2.0), W.Point(1, 1.0)])
  {
    hide Merged;
    var first, second, restated := W.Point(0, 1.0), W.Point(1, 1.0), W.Point(0, 2.0);
    assert PlainBars([first, second]) == [PlainBar(first), PlainBar(second)];
    assert PlainBars([restated]) == [PlainBar(restated)];
    assert PlainBars([restated, second]) == [PlainBar(restated), PlainBar(second)];
    AdjustmentLaws.TwoBarsRestated(PlainBar(first), PlainBar(second), PlainBar(restated));
  }
}
