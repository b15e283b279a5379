/**
 A weekly cross that is published and then withdrawn.  With neither a closing weekday
 nor the incomplete-week rule the newest weekly point moves during its week: after
 fifty flat weeks a Monday at 2 makes a golden cross, and the Tuesday after it, at
 0.5, makes it a death cross.
 */
module MidweekCross {
  import opened Prelude
  import opened WeeklyPoints
  import opened CrossSignals
  import CrossLaws
  import opened CtaEngine
  import opened PlainHistories
  import opened FlatWeeks
  import Adjustment
  import AdjustmentLaws
  import CtaLaws

  const DASHBOARD_RULE := Rule(None, false)
  const MONDAY := Point(350, 2.0)
  const TUESDAY := Point(351, 0.5)

  lemma OnMonday()
    ensures Chronological(FlatDays() + [MONDAY])
    ensures Published(FlatDays() + [MONDAY], DASHBOARD_RULE) == Fridays() + [MONDAY]
  {
    hide LastOfWeeks;
    hide Chronological;
    FlatWeekly();
    OneMoreWeek(FlatDays(), MONDAY);
    SelectAll(Fridays() + [MONDAY]);
  }

  lemma OnTuesday()
    ensures Chronological(FlatDays() + [MONDAY] + [TUESDAY])
    ensures Published(FlatDays() + [MONDAY] + [TUESDAY], DASHBOARD_RULE) == Fridays() + [TUESDAY]
  {
    hide LastOfWeeks;
    hide Chronological;
    FlatWeekly();
    OneMoreWeek(FlatDays(), MONDAY);
    ChronologicalAppend(FlatDays() + [MONDAY], TUESDAY);
    AppendStep(FlatDays() + [MONDAY], TUESDAY);
    assert (Fridays() + [MONDAY])[..50] == Fridays();
    SelectAll(Fridays() + [TUESDAY]);
  }

  lemma CrossOn(p: Point, trend: Trend)
    requires p.value > 0.0 && CrossLaws.SameSide(p.value - 1.0, trend)
    ensures PositivePrices(Fridays() + [p])
    ensures Crossings(ValuesOf(Fridays() + [p]), 30, 50, 51) == [Crossing(50, trend)]
    ensures WeeklySignal(Fridays() + [p]).Ok?
    ensures WeeklySignal(Fridays() + [p]).value.crossStatus == Some(trend)
    ensures WeeklySignal(Fridays() + [p]).value.lastCrossDate == Some(p.day)
  {
    hide Crossings;
    FirstCrossing(ValuesOf(Fridays() + [p]), trend);
    FreshAtEnd(Fridays() + [p], trend);
  }

  /** The whole calculation on plain bars of positive prices. */
  function Decision(points: seq<Point>): Result<CtaResult, CtaError> { Evaluate(PlainBars(points), DASHBOARD_RULE) }

  lemma PublishesWeekly(points: seq<Point>)
    requires PositivePrices(points) && |points| >= 200 && |Published(points, DASHBOARD_RULE)| >= 50
    ensures Decision(points).Ok? && WeeklySignal(Published(points, DASHBOARD_RULE)) == Ok(Decision(points).value.weeklyCross)
  {
    hide Evaluate;
    hide Published;
    hide PlainBars;
    PlainPoints(points);
    EvaluatesIff(PlainBars(points), DASHBOARD_RULE);
  }

  /** Monday's history is a merged one, and Tuesday's is its refresh. */
  lemma RefreshedOnTuesday()
    ensures AdjustmentLaws.IsMerged(PlainBars(FlatDays() + [MONDAY]))
    ensures Adjustment.MergeSpec(PlainBars(FlatDays() + [MONDAY]), PlainBars([TUESDAY]))
         == Ok(PlainBars(FlatDays() + [MONDAY] + [TUESDAY]))
  {
    hide Chronological;
    hide PlainBars;
    OnMonday();
    OnTuesday();
    PlainIsMerged(FlatDays() + [MONDAY]);
    PlainMerge(FlatDays() + [MONDAY], [TUESDAY]);
  }

  /** The golden weekly cross published on Monday is gone on Tuesday, and its date with it. */
  lemma MidweekCrossIsWithdrawn()
    ensures var monday, tuesday := Decision(FlatDays() + [MONDAY]), Decision(FlatDays() + [MONDAY] + [TUESDAY]);
      && monday.Ok? && tuesday.Ok?
      && monday.value.weeklyCross.crossStatus == Some(Golden) && monday.value.weeklyCross.lastCrossDate == Some(350)
      && tuesday.value.weeklyCross.crossStatus == Some(Death) && tuesday.value.weeklyCross.lastCrossDate == Some(351)
    ensures var history := FlatDays() + [MONDAY];
      !CtaLaws.CrossingsKept(Published(history, DASHBOARD_RULE), Published(history + [TUESDAY], DASHBOARD_RULE), 30, 50)
  {
    hide Published;
    hide Crossings;
    hide WeeklySignal;
    hide Decision;
    OnMonday();
    OnTuesday();
    CrossOn(MONDAY, Golden);
    CrossOn(TUESDAY, Death);
    PublishesWeekly(FlatDays() + [MONDAY]);
    PublishesWeekly(FlatDays() + [MONDAY] + [TUESDAY]);
    assert [Crossing(50, Golden)][0] != [Crossing(50, Death)][0];
  }
}
