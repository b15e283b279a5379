/** The daily refresh from adjusted bars to a BUY/HOLD/WATCH/SELL decision. */
module CtaEngine {
  import opened Prelude
  import opened Ordering
  import opened RealMath
  import Adjustment
  import AdjustmentLaws
  import opened WeeklyPoints
  import opened CrossSignals
  import opened CrossLaws

  datatype Cta = Buy | Hold | Watch | Sell

  datatype CtaError =
    | InsufficientDaily(observed: nat)
    | Unadjusted
    | InsufficientWeekly(observed: nat)
    | CrossFailed(error: CrossError)

  datatype CtaResult = CtaResult(
    asOf: int, price: real, daily50: real, daily200: real, weekly30: real, weekly50: real,
    cta: Cta, dailyCross: CrossSignal, weeklyCross: CrossSignal)

  // ----- the decision -----

  /** Weekly crossover first, daily as confirmation. */
  function CrossPriority(daily: CrossSignal, weekly: CrossSignal): Cta {
    if weekly.crossStatus == Some(Golden) then Buy
    else if weekly.crossStatus == Some(Death) then Sell
    else if weekly.alignment == Trending(Golden) then
      if daily.crossStatus == Some(Death) || daily.alignment == Trending(Death) then Watch
      else if weekly.phase == Confirmed || weekly.phase == Active then Buy
      else if daily.crossStatus == Some(Golden) || daily.phase == Confirmed || daily.phase == Active then Buy
      else Hold
    else if weekly.alignment == Trending(Death) then
      if daily.crossStatus == Some(Golden) then Watch
      else if weekly.phase == New || weekly.phase == Confirmed || weekly.phase == Active then Sell
      else Watch
    else if daily.crossStatus == Some(Death) || daily.alignment == Trending(Death) then Watch
    else Hold
  }

  /** The same rule without the tests that produced signals can never need. */
  function LeanPriority(daily: CrossSignal, weekly: CrossSignal): Cta {
    match weekly.alignment
    case Trending(Golden) =>
      if weekly.phase == New then Buy
      else if daily.alignment == Trending(Death) then Watch
      else if weekly.phase == Confirmed || weekly.phase == Active then Buy
      else if daily.phase == New || daily.phase == Confirmed || daily.phase == Active then Buy
      else Hold
    case Trending(Death) =>
      if weekly.phase == New then Sell
      else if daily.phase == New && daily.alignment == Trending(Golden) then Watch
      else if weekly.phase == Confirmed || weekly.phase == Active then Sell
      else Watch
    case Equal =>
      if daily.alignment == Trending(Death) then Watch else Hold
  }

  /**
   For produced signals the death-cross tests are implied by the alignment tests,
   and phase NEW cannot be seen once a fresh weekly cross has been handled.
   */
  lemma RedundantTests(daily: CrossSignal, weekly: CrossSignal)
    requires Coherent(daily) && Coherent(weekly)
    ensures CrossPriority(daily, weekly) == LeanPriority(daily, weekly)
    ensures daily.crossStatus == Some(Death) ==> daily.alignment == Trending(Death)
    ensures weekly.crossStatus == None ==> weekly.phase != New
  {}

  /** On which weekly alignments each decision is possible. */
  lemma PriorityByAlignment(daily: CrossSignal, weekly: CrossSignal)
    requires Coherent(weekly)
    ensures var cta := CrossPriority(daily, weekly);
      && (cta == Buy ==> weekly.alignment == Trending(Golden))
      && (cta == Sell ==> weekly.alignment == Trending(Death))
      && (cta == Hold ==> weekly.alignment != Trending(Death))
  {}

  /**
   An aging weekly golden trend that is upgraded to BUY was upgraded by a golden
   daily cross, whenever the daily averages are not exactly equal.
   */
  lemma AgingUpgradeIsGolden(daily: CrossSignal, weekly: CrossSignal)
    requires Coherent(daily) && Coherent(weekly)
    requires weekly.alignment == Trending(Golden) && weekly.phase in {Unknown, Aging}
    requires CrossPriority(daily, weekly) == Buy && daily.alignment != Equal
    ensures daily.alignment == Trending(Golden) && daily.lastCrossStatus == Some(Golden)
  {}

  /**
   Exactly when an aging weekly golden trend is upgraded to BUY without a golden daily
   cross on record: the daily averages are equal and the last daily cross, a death
   cross, is confirmed or active.
   */
  lemma AgingUpgradeWithoutGoldenIff(daily: CrossSignal, weekly: CrossSignal)
    requires Coherent(daily) && Coherent(weekly)
    requires weekly.alignment == Trending(Golden) && weekly.phase in {Unknown, Aging}
    ensures CrossPriority(daily, weekly) == Buy && daily.lastCrossStatus != Some(Golden)
       <==> daily.alignment == Equal && daily.lastCrossStatus == Some(Death) && daily.phase in {Confirmed, Active}
  {
    match daily.alignment
    case Trending(trend) =>
      if daily.phase != Unknown { assert daily.lastCrossStatus == Some(trend); }
    case Equal =>
      if daily.lastCrossStatus.Some? { assert daily.lastCrossStatus.value.Golden? || daily.lastCrossStatus.value.Death?; }
  }

  // ----- the calculation -----

  predicate ByDay(a: Adjustment.PricedBar, b: Adjustment.PricedBar) { a.day <= b.day }

  function Points(history: seq<Adjustment.PricedBar>): (r: seq<Point>)
    requires Adjustment.FullyAdjusted(history)
    ensures |r| == |history|
  {
    seq(|history|, i requires 0 <= i < |history| => Point(history[i].day, history[i].adjustedClose.value.value))
  }

  function DatesOf(points: seq<Point>): (r: seq<int>)
    ensures |r| == |points|
    ensures forall i :: 0 <= i < |points| ==> r[i] == points[i].day
  {
    seq(|points|, i requires 0 <= i < |points| => points[i].day)
  }

  function ValuesOf(points: seq<Point>): (r: seq<real>)
    ensures |r| == |points|
    ensures forall i :: 0 <= i < |points| ==> r[i] == points[i].value
  {
    seq(|points|, i requires 0 <= i < |points| => points[i].value)
  }

  function WeeklySignal(weekly: seq<Point>): Result<CrossSignal, CrossError> {
    SignalOf(DatesOf(weekly), ValuesOf(weekly), 30, 50, 4, 52)
  }

  function DailySignal(points: seq<Point>): Result<CrossSignal, CrossError> {
    SignalOf(DatesOf(points), ValuesOf(points), 50, 200, 5, 60)
  }

  function MeanOfLast(values: seq<real>, n: nat): real
    requires 0 < n <= |values|
  {
    Mean(values[|values| - n..])
  }

  /** What `calculate_cta` returns for an ordered, adjusted history. */
  function Evaluate(history: seq<Adjustment.PricedBar>, rule: Rule): Result<CtaResult, CtaError> {
    if |history| < 200 then Err(InsufficientDaily(|history|))
    else if !Adjustment.FullyAdjusted(history) then Err(Unadjusted)
    else
      var points := Points(history);
      var weekly := Published(points, rule);
      if |weekly| < 50 then Err(InsufficientWeekly(|weekly|))
      else
        var daily, week := DailySignal(points), WeeklySignal(weekly);
        if daily.Err? then Err(CrossFailed(daily.error))
        else if week.Err? then Err(CrossFailed(week.error))
        else
          var closes, values := ValuesOf(points), ValuesOf(weekly);
          Ok(CtaResult(
               points[|points| - 1].day, closes[|closes| - 1],
               MeanOfLast(closes, 50), MeanOfLast(closes, 200), MeanOfLast(values, 30), MeanOfLast(values, 50),
               CrossPriority(daily.value, week.value), daily.value, week.value))
  }

  method CalculateCta(bars: seq<Adjustment.PricedBar>, rule: Rule) returns (r: Result<CtaResult, CtaError>)
    ensures r == Evaluate(SortBy(bars, ByDay), rule)
  {
    hide CrossPriority;
    hide SignalOf;
    hide MeanOfLast;
    hide LastOfWeeks;
    hide Select;
    hide SortBy;
    var history := SortBy(bars, ByDay);
    if |history| < 200 { return Err(InsufficientDaily(|history|)); }
    if !Adjustment.FullyAdjusted(history) { return Err(Unadjusted); }
    var points := Points(history);
    var closes := ValuesOf(points);
    var weeklyPoints := WeeklyLastPoints(points, rule.required);
    if rule.excludeIncomplete && weeklyPoints != [] && Weekday(weeklyPoints[|weeklyPoints| - 1].day) != FRIDAY {
      weeklyPoints := weeklyPoints[..|weeklyPoints| - 1];
    }
    var weekly := ValuesOf(weeklyPoints);
    if |weekly| < 50 { return Err(InsufficientWeekly(|weekly|)); }
    var price := closes[|closes| - 1];
    var d50, d200 := MeanOfLast(closes, 50), MeanOfLast(closes, 200);
    var w30, w50 := MeanOfLast(weekly, 30), MeanOfLast(weekly, 50);
    var daily := DetectCross(DatesOf(points), closes, 50, 200, 5, 60);
    if daily.Err? { return Err(CrossFailed(daily.error)); }
    var week := DetectCross(DatesOf(weeklyPoints), weekly, 30, 50, 4, 52);
    if week.Err? { return Err(CrossFailed(week.error)); }
    var signal := CrossPriority(daily.value, week.value);
    r := Ok(CtaResult(points[|points| - 1].day, price, d50, d200, w30, w50, signal, daily.value, week.value));
  }

  /** The reported means are the averages the crossing detector compared. */
  lemma ReportedMeansAreTheAverages(values: seq<real>, n: nat)
    requires 0 < n <= |values|
    ensures MeanOfLast(values, n) == WindowMean(values, n, |values| - 1)
  {
    assert values[|values| - n..] == values[|values| - 1 + 1 - n..|values| - 1 + 1];
  }

  /**
   End to end: BUY needs the reported 30-week mean strictly above the 50-week mean,
   SELL strictly below, and HOLD never appears under a weekly death alignment.
   */
  lemma DecisionFollowsReportedMeans(history: seq<Adjustment.PricedBar>, rule: Rule)
    requires Evaluate(history, rule).Ok?
    ensures var r := Evaluate(history, rule).value;
      && (r.cta == Buy ==> r.weekly30 > r.weekly50)
      && (r.cta == Sell ==> r.weekly30 < r.weekly50)
      && (r.cta == Hold ==> r.weekly30 >= r.weekly50)
      && Coherent(r.dailyCross) && Coherent(r.weeklyCross)
      && r.weeklyCross.alignment == AlignmentOf(r.weekly30 - r.weekly50)
      && r.dailyCross.alignment == AlignmentOf(r.daily50 - r.daily200)
  {
    hide Mean;
    hide Crossings;
    hide MeanOfLast;
    hide WindowMean;
    hide Coherent;
    hide CrossPriority;
    hide Published;
    var points := Points(history);
    var weekly := Published(points, rule);
    var r := Evaluate(history, rule).value;
    SignalCoherent(DatesOf(points), ValuesOf(points), 50, 200, 5, 60);
    SignalCoherent(DatesOf(weekly), ValuesOf(weekly), 30, 50, 4, 52);
    PriorityByAlignment(r.dailyCross, r.weeklyCross);
    ReportedMeansAreTheAverages(ValuesOf(points), 50);
    ReportedMeansAreTheAverages(ValuesOf(points), 200);
    ReportedMeansAreTheAverages(ValuesOf(weekly), 30);
    ReportedMeansAreTheAverages(ValuesOf(weekly), 50);
  }

  /** What the result reports besides the crosses: the newest bar, and the means of the last closes and weekly points. */
  lemma ReportedFields(history: seq<Adjustment.PricedBar>, rule: Rule)
    requires Evaluate(history, rule).Ok?
    ensures |history| >= 200 && Adjustment.FullyAdjusted(history)
    ensures var r, weekly := Evaluate(history, rule).value, Published(Points(history), rule); var closes, n := ValuesOf(Points(history)), |history|;
      && |weekly| >= 50
      && r.asOf == history[n - 1].day && history[n - 1].adjustedClose == Some(Adjustment.Finite(r.price))
      && r.daily50 * 50.0 == Sum(closes[n - 50..]) && r.daily200 * 200.0 == Sum(closes[n - 200..])
      && r.weekly30 * 30.0 == Sum(ValuesOf(weekly)[|weekly| - 30..]) && r.weekly50 * 50.0 == Sum(ValuesOf(weekly)[|weekly| - 50..])
  {
    hide SignalOf;
    hide CrossPriority;
    hide Published;
    hide Sum;
  }

  /** The age of a signal's last cross in periods, or -1 for none. */
  function Age(signal: CrossSignal): int { if signal.periodsSinceCross.Some? then signal.periodsSinceCross.value else -1 }

  /** A phase says how many periods ago the last cross was. */
  ghost predicate PhaseByAge(signal: CrossSignal, confirmedThrough: nat, activeThrough: nat) {
    && (signal.lastCrossStatus.Some? <==> signal.periodsSinceCross.Some?)
    && (signal.phase == Unknown <==> Age(signal) == -1)
    && (signal.phase == New <==> Age(signal) == 0)
    && (signal.phase == Confirmed <==> 1 <= Age(signal) <= confirmedThrough)
    && (signal.phase == Active <==> confirmedThrough < Age(signal) <= activeThrough)
    && (signal.phase == Aging <==> Age(signal) > activeThrough)
  }

  lemma SignalPhase(dates: seq<int>, values: seq<real>, short: nat, long: nat, confirmed: nat, active: nat)
    requires |dates| == |values| && SignalOf(dates, values, short, long, confirmed, active).Ok? && 0 < confirmed < active
    ensures PhaseByAge(SignalOf(dates, values, short, long, confirmed, active).value, confirmed, active)
  {
    hide WindowMean;
    hide Crossings;
  }

  /** Daily phases end after 5 and 60 days, weekly ones after 4 and 52 weeks. */
  lemma ReportedPhases(history: seq<Adjustment.PricedBar>, rule: Rule)
    requires Evaluate(history, rule).Ok?
    ensures PhaseByAge(Evaluate(history, rule).value.dailyCross, 5, 60)
    ensures PhaseByAge(Evaluate(history, rule).value.weeklyCross, 4, 52)
  {
    hide MeanOfLast;
    hide CrossPriority;
    hide Published;
    var points := Points(history);
    SignalPhase(DatesOf(points), ValuesOf(points), 50, 200, 5, 60);
    SignalPhase(DatesOf(Published(points, rule)), ValuesOf(Published(points, rule)), 30, 50, 4, 52);
    hide SignalOf;
    hide PhaseByAge;
  }

  /** The decision, by alignments and the ages of the last crosses alone. */
  function DecisionByAge(daily: Alignment, dailyAge: int, weekly: Alignment, weeklyAge: int): Cta {
    match weekly
    case Trending(Golden) =>
      if weeklyAge == 0 then Buy
      else if daily == Trending(Death) then Watch
      else if 0 <= weeklyAge <= 52 || 0 <= dailyAge <= 60 then Buy
      else Hold
    case Trending(Death) =>
      if weeklyAge == 0 then Sell
      else if dailyAge == 0 && daily == Trending(Golden) then Watch
      else if 0 <= weeklyAge <= 52 then Sell
      else Watch
    case Equal => if daily == Trending(Death) then Watch else Hold
  }

  lemma PriorityByAge(daily: CrossSignal, weekly: CrossSignal)
    requires Coherent(daily) && Coherent(weekly) && PhaseByAge(daily, 5, 60) && PhaseByAge(weekly, 4, 52)
    ensures CrossPriority(daily, weekly) == DecisionByAge(daily.alignment, Age(daily), weekly.alignment, Age(weekly))
  {
    RedundantTests(daily, weekly);
    hide CrossPriority;
  }

  /**
   The decision table of the whole calculation.  A golden weekly trend at most 52 weeks
   old is BUY unless the daily trend is down, or always when it is new; a death one at
   most 52 weeks old is SELL unless the daily trend turned up today, or always when new.
   */
  lemma DecisionTable(history: seq<Adjustment.PricedBar>, rule: Rule)
    requires Evaluate(history, rule).Ok?
    ensures var r := Evaluate(history, rule).value;
      r.cta == DecisionByAge(r.dailyCross.alignment, Age(r.dailyCross), r.weeklyCross.alignment, Age(r.weeklyCross))
  {
    DecisionFollowsReportedMeans(history, rule);
    ReportedPhases(history, rule);
    hide PhaseByAge;
    hide Coherent;
    hide DecisionByAge;
    hide CrossPriority;
    hide SignalOf;
    hide MeanOfLast;
    hide Published;
    var r := Evaluate(history, rule).value;
    PriorityByAge(r.dailyCross, r.weeklyCross);
  }

  /** A weekly trend at most 52 weeks old decides, unless the daily averages speak against it. */
  lemma RecentTrendDecides(history: seq<Adjustment.PricedBar>, rule: Rule)
    requires Evaluate(history, rule).Ok?
    ensures var r := Evaluate(history, rule).value; var daily, weekly := r.dailyCross, r.weeklyCross;
      && (weekly.alignment == Trending(Golden) && 0 <= Age(weekly) <= 52 && daily.alignment != Trending(Death) ==> r.cta == Buy)
      && (weekly.alignment == Trending(Death) && 0 <= Age(weekly) <= 52 && daily.crossStatus != Some(Golden) ==> r.cta == Sell)
  {
    DecisionFollowsReportedMeans(history, rule);
    ReportedPhases(history, rule);
    var r := Evaluate(history, rule).value;
    hide Evaluate;
    PriorityByAge(r.dailyCross, r.weeklyCross);
    DecisionTable(history, rule);
    hide CrossPriority;
  }

  /** The reported spread is the distance of the two reported means, in percent of the long one. */
  lemma ReportedSpreads(history: seq<Adjustment.PricedBar>, rule: Rule)
    requires Evaluate(history, rule).Ok?
    ensures var r := Evaluate(history, rule).value;
      && r.daily200 != 0.0 && r.dailyCross.spreadPct == (Over(r.daily50, r.daily200) - 1.0) * 100.0
      && r.weekly50 != 0.0 && r.weeklyCross.spreadPct == (Over(r.weekly30, r.weekly50) - 1.0) * 100.0
  {
    hide Mean;
    hide Crossings;
    hide MeanOfLast;
    hide WindowMean;
    hide CrossPriority;
    hide CrossPhase;
    hide Published;
    var points := Points(history);
    var weekly := Published(points, rule);
    ReportedMeansAreTheAverages(ValuesOf(points), 50);
    ReportedMeansAreTheAverages(ValuesOf(points), 200);
    ReportedMeansAreTheAverages(ValuesOf(weekly), 30);
    ReportedMeansAreTheAverages(ValuesOf(weekly), 50);
  }

  ghost predicate PositivePrices(points: seq<Point>) { forall p :: p in points ==> p.value > 0.0 }

  lemma PositiveMean(values: seq<real>, window: nat, index: nat)
    requires 0 < window <= index + 1 <= |values| && forall i :: 0 <= i < |values| ==> values[i] > 0.0
    ensures WindowMean(values, window, index) > 0.0
  {
    hide Sum;
    SumPositive(values[index + 1 - window..index + 1]);
  }

  lemma PositiveSignal(points: seq<Point>, short: nat, long: nat, confirmed: nat, active: nat)
    requires PositivePrices(points) && 0 < short <= long <= |points|
    ensures SignalOf(DatesOf(points), ValuesOf(points), short, long, confirmed, active).Ok?
  {
    hide WindowMean;
    hide Crossings;
    forall i | 0 <= i < |points| ensures ValuesOf(points)[i] > 0.0 { assert points[i] in points; }
    PositiveMean(ValuesOf(points), long, |points| - 1);
  }

  /** On positive prices the calculation raises exactly for want of 200 bars or 50 published weeks. */
  lemma EvaluatesIff(history: seq<Adjustment.PricedBar>, rule: Rule)
    requires Adjustment.FullyAdjusted(history) && PositivePrices(Points(history))
    ensures Evaluate(history, rule).Ok? <==> |history| >= 200 && |Published(Points(history), rule)| >= 50
    ensures Evaluate(history, rule).Ok? ==> WeeklySignal(Published(Points(history), rule)) == Ok(Evaluate(history, rule).value.weeklyCross)
  {
    hide SignalOf;
    hide MeanOfLast;
    hide CrossPriority;
    hide Published;
    hide Points;
    PublishedAreBars(Points(history), rule);
    if |history| >= 200 && |Published(Points(history), rule)| >= 50 {
      PositiveSignal(Points(history), 50, 200, 5, 60);
      PositiveSignal(Published(Points(history), rule), 30, 50, 4, 52);
    }
  }

  /** Re-sorting a merged history changes nothing, so the calculation reads it as it is. */
  lemma SortedHistoryIsKept(history: seq<Adjustment.PricedBar>)
    requires AdjustmentLaws.Chronological(history)
    ensures SortBy(history, ByDay) == history
  {
    assert Sorted(history, ByDay);
    SortKeepsSorted(history, ByDay);
  }
}
