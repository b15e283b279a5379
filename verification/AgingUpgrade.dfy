/**
 One price history on which the decision rule surprises: an aging weekly golden trend
 is upgraded to BUY although the only recent daily cross is a death cross.  The price
 is 1, rises to 2 in week 50 and to 3 in week 75; at the very end it dips to 2.5 for
 a day and recovers to 3.5, which makes both daily averages 3 again.  Bars are weekly
 at first and daily, Monday to Friday, from week 75 on.
 */
module AgingUpgrade {
  import opened Prelude
  import opened RealMath
  import Adjustment
  import AdjustmentLaws
  import opened WeeklyPoints
  import opened CrossSignals
  import opened CrossLaws
  import opened CtaEngine
  import opened PlainHistories

  const BARS := 280
  const WEEKS := 116

  function Level(k: int): real { if k < 50 then 1.0 else if k < 75 then 2.0 else 3.0 }

  function WeekNumber(i: nat): nat { if i < 75 then i else 75 + (i - 75) / 5 }

  function Day(i: nat): int { 7 * WeekNumber(i) + if i < 75 then 0 else (i - 75) % 5 }

  function Price(i: nat): real { if i == 278 then 2.5 else if i == 279 then 3.5 else Level(i) }

  function Prices(): (r: seq<Point>)
    ensures |r| == BARS && forall i :: 0 <= i < BARS ==> r[i] == Point(Day(i), Price(i))
  {
    seq(BARS, i requires 0 <= i < BARS => Point(Day(i), Price(i)))
  }

  lemma DaysIncrease(i: nat, j: nat)
    requires i < j
    ensures Day(i) < Day(j)
  {}

  // ----- its weekly points -----

  function LastBar(week: nat): nat { if week < 75 then week else 5 * week - 296 }

  function WeeklyUpTo(n: nat): (r: seq<Point>)
    requires 1 <= n <= BARS
    ensures |r| == WeekNumber(n - 1) + 1 && r[|r| - 1] == Prices()[n - 1]
    ensures forall k :: 0 <= k < |r| - 1 ==> LastBar(k) < BARS && r[k] == Prices()[LastBar(k)]
  {
    var points := Prices();
    seq(WeekNumber(n - 1) + 1, k requires 0 <= k <= WeekNumber(n - 1) =>
      if k < WeekNumber(n - 1) && LastBar(k) < BARS then points[LastBar(k)] else points[n - 1])
  }

  lemma WeekStep(n: nat)
    requires n >= 1
    ensures WeekNumber(n) == WeekNumber(n - 1) || (WeekNumber(n) == WeekNumber(n - 1) + 1 && LastBar(WeekNumber(n - 1)) == n - 1)
    ensures Week(Day(n)) == WeekNumber(n)
  {}

  lemma PointsChronological(n: nat)
    requires n <= BARS
    ensures Chronological(Prices()[..n])
  {
    var points := Prices();
    forall i, j | 0 <= i < j < n ensures points[i].day < points[j].day { DaysIncrease(i, j); }
  }

  lemma {:induction false} WeeklyOf(n: nat)
    requires 1 <= n <= BARS
    ensures LastOfWeeks(Prices()[..n]) == WeeklyUpTo(n)
  {
    hide LastOfWeeks;
    hide Day;
    hide WeekNumber;
    hide LastBar;
    hide Week;
    hide WeeklyUpTo;
    hide Prices;
    hide Chronological;
    var points := Prices();
    PointDay(n - 1);
    if n == 1 {
      FirstWeek();
    } else {
      var front, last := points[..n - 1], points[n - 1];
      assert points[..n] == front + [last];
      WeeklyOf(n - 1);
      PointsChronological(n);
      ChronologicalAppend(front, last);
      PointDay(n - 2);
      WeekStep(n - 1);
      if n > 2 { WeekStep(n - 2); } else { FirstWeek(); }
      AppendStep(front, last);
    }
  }

  lemma PointDay(i: nat)
    requires i < BARS
    ensures |Prices()| == BARS && Prices()[i].day == Day(i)
  {}

  lemma FirstWeek()
    ensures WeekNumber(0) == 0 && Week(Day(0)) == 0 && LastOfWeeks(Prices()[..1]) == WeeklyUpTo(1)
  {
    var points := Prices()[..1];
    assert points[..0] == [];
    assert LastOfWeeks(points) == [points[0]];
  }

  /** The last bar is a Friday, so nothing is withheld. */
  lemma PublishedWeeks(rule: Rule)
    requires rule.required == None
    ensures var r := Published(Prices(), rule);
      && |r| == WEEKS && ValuesOf(r)[WEEKS - 1] == 3.5
      && forall k :: 0 <= k < WEEKS - 1 ==> ValuesOf(r)[k] == Level(k)
  {
    hide LastOfWeeks;
    hide Select;
    var points := Prices();
    assert points[..BARS] == points;
    WeeklyOf(BARS);
    SelectAll(WeeklyUpTo(BARS));
  }

  // ----- window sums of the rising price -----

  function Rise(n: int): real {
    n as real + (if n > 50 then (n - 50) as real else 0.0) + if n > 75 then (n - 75) as real else 0.0
  }

  lemma {:induction false} SumOfLevels(values: seq<real>, a: nat, b: nat)
    requires a <= b <= |values| && forall k :: a <= k < b ==> values[k] == Level(k)
    ensures Sum(values[a..b]) == Rise(b) - Rise(a)
    decreases b
  {
    if a < b {
      SumOfLevels(values, a, b - 1);
      assert values[a..b][..b - a - 1] == values[a..b - 1];
    }
  }

  // ----- the weekly signal -----

  ghost predicate WeeklyPrices(values: seq<real>) {
    |values| == WEEKS && values[WEEKS - 1] == 3.5 && forall k :: 0 <= k < WEEKS - 1 ==> values[k] == Level(k)
  }

  /** The last week closes half a point above its level. */
  function Bump(i: nat): real { if i == WEEKS - 1 then 0.5 else 0.0 }

  lemma WeeklySum(values: seq<real>, a: nat, i: nat)
    requires WeeklyPrices(values) && a <= i < WEEKS
    ensures Sum(values[a..i + 1]) == Rise(i + 1) - Rise(a) + Bump(i)
  {
    hide Rise;
    SumOfLevels(values, a, i);
    SumExtended(values, a, i);
    RiseStep(i);
  }

  lemma RiseStep(i: nat)
    ensures Rise(i + 1) == Rise(i) + Level(i)
  {}

  /** Each rise holds the short average above the long one until the next takes over. */
  lemma RisingGap(i: nat)
    requires 49 <= i < WEEKS
    ensures var gap := (Rise(i + 1) - Rise(i - 29) + Bump(i)) / 30.0 - (Rise(i + 1) - Rise(i - 49) + Bump(i)) / 50.0;
      (i == 49 ==> gap == 0.0) && (i > 49 ==> gap > 0.0)
  {}

  lemma WeeklyGap(values: seq<real>, i: nat)
    requires WeeklyPrices(values) && 49 <= i < WEEKS
    ensures i == 49 ==> Gap(values, 30, 50, i) == 0.0
    ensures i > 49 ==> Gap(values, 30, 50, i) > 0.0
  {
    hide Rise;
    hide Bump;
    hide Level;
    hide WindowMean;
    WeeklyMeanAt(values, 30, i);
    WeeklyMeanAt(values, 50, i);
    RisingGap(i);
  }

  lemma WeeklyMeanAt(values: seq<real>, window: nat, i: nat)
    requires WeeklyPrices(values) && 0 < window <= i + 1 <= WEEKS
    ensures WindowMean(values, window, i) == (Rise(i + 1) - Rise(i + 1 - window) + Bump(i)) / window as real
  {
    hide Sum;
    hide Rise;
    hide Bump;
    hide Level;
    WeeklySum(values, i + 1 - window, i);
  }

  lemma WeeklyCrossing(values: seq<real>)
    requires WeeklyPrices(values)
    ensures var r := Crossings(values, 30, 50, WEEKS); r != [] && r[|r| - 1] == Crossing(50, Golden)
  {
    hide Gap;
    WeeklyGap(values, 49);
    WeeklyGap(values, 50);
    assert CrossAt(values, 30, 50, 50) == Some(Golden);
    forall i | 51 <= i < WEEKS ensures CrossAt(values, 30, 50, i) == None {
      WeeklyGap(values, i - 1);
      WeeklyGap(values, i);
    }
    assert Quiet(values, 30, 50, 51, WEEKS);
    QuietAddsNothing(values, 30, 50, 51, WEEKS);
  }

  lemma WeeklyMean(values: seq<real>)
    requires WeeklyPrices(values)
    ensures WindowMean(values, 50, WEEKS - 1) != 0.0
  {
    hide Sum;
    WeeklySum(values, 66, 115);
  }

  // ----- the daily signal -----

  ghost predicate DailyPrices(values: seq<real>) {
    |values| == BARS && forall k :: 0 <= k < BARS ==> values[k] == Price(k)
  }

  lemma DailyMean(values: seq<real>, window: nat)
    requires DailyPrices(values) && 2 <= window <= 200
    ensures WindowMean(values, window, 277) == 3.0
    ensures WindowMean(values, window, 278) == 3.0 - 0.5 / window as real
    ensures WindowMean(values, window, 279) == 3.0
  {
    hide Sum;
    SumOfLevels(values, 278 - window, 278);
    SumOfLevels(values, 279 - window, 278);
    SumExtended(values, 279 - window, 278);
    SumOfLevels(values, 280 - window, 278);
    SumExtended(values, 280 - window, 278);
    SumExtended(values, 280 - window, 279);
    var w := window as real;
    ExactQuotient(3.0 * w, 3.0, w);
    ExactQuotient(3.0 * w - 0.5, 3.0 - 0.5 / w, w);
  }

  lemma DailyCrossing(values: seq<real>)
    requires DailyPrices(values)
    ensures var r := Crossings(values, 50, 200, BARS); r != [] && r[|r| - 1] == Crossing(278, Death)
    ensures Gap(values, 50, 200, BARS - 1) == 0.0
  {
    DailyMean(values, 50);
    DailyMean(values, 200);
    hide WindowMean;
    assert CrossAt(values, 50, 200, 278) == Some(Death);
    assert CrossAt(values, 50, 200, 279) == None;
  }

  // ----- the decision -----

  function History(): (r: seq<Adjustment.CleanBar>)
    ensures |r| == BARS && Adjustment.FullyAdjusted(r) && Points(r) == Prices()
  {
    PlainPoints(Prices());
    PlainBars(Prices())
  }

  /** What `calculate_cta` makes of this history. */
  function Decision(rule: Rule): Result<CtaResult, CtaError> { Evaluate(History(), rule) }

  lemma WeeklySide(weekly: seq<Point>)
    requires WeeklyPrices(ValuesOf(weekly))
    ensures var r := WeeklySignal(weekly);
      r.Ok? && r.value.alignment == Trending(Golden) && r.value.crossStatus == None && r.value.phase == Aging
  {
    hide Crossings;
    hide WindowMean;
    WeeklyCrossing(ValuesOf(weekly));
    WeeklyGap(ValuesOf(weekly), WEEKS - 1);
    WeeklyMean(ValuesOf(weekly));
  }

  lemma DailySide(points: seq<Point>)
    requires DailyPrices(ValuesOf(points))
    ensures var r := DailySignal(points);
      && r.Ok? && r.value.alignment == Equal && r.value.crossStatus == None
      && r.value.lastCrossStatus == Some(Death) && r.value.phase == Confirmed
  {
    hide Crossings;
    hide WindowMean;
    DailyCrossing(ValuesOf(points));
    DailyMean(ValuesOf(points), 200);
  }

  /**
   The whole calculation on this history: BUY, on an aging weekly golden trend, with
   equal daily averages one day after a daily death cross.
   */
  lemma AgingUpgradeByDeathCross(rule: Rule)
    requires rule.required == None
    ensures AdjustmentLaws.IsMerged(History())
    ensures var r := Decision(rule);
      && r.Ok? && r.value.cta == Buy
      && r.value.weeklyCross.alignment == Trending(Golden) && r.value.weeklyCross.phase == Aging
      && r.value.dailyCross.alignment == Equal && r.value.dailyCross.lastCrossStatus == Some(Death)
  {
    hide WeeklyPrices;
    hide DailyPrices;
    hide Points;
    hide PlainBars;
    hide Prices;
    hide Published;
    hide Evaluate;
    hide DailySignal;
    hide WeeklySignal;
    PricesAreMerged();
    WeeklyIsPriced(rule);
    DailyIsPriced();
    WeeklySide(Published(Prices(), rule));
    DailySide(Prices());
    Decide(History(), rule);
  }

  lemma PricesAreMerged()
    ensures AdjustmentLaws.IsMerged(History())
  {
    hide AdjustmentLaws.IsMerged;
    hide Chronological;
    assert Prices()[..BARS] == Prices();
    PointsChronological(BARS);
    PlainIsMerged(Prices());
  }

  lemma WeeklyIsPriced(rule: Rule)
    requires rule.required == None
    ensures |Published(Prices(), rule)| == WEEKS
    ensures WeeklyPrices(ValuesOf(Published(Prices(), rule)))
  {
    PublishedWeeks(rule);
  }

  lemma DailyIsPriced()
    ensures DailyPrices(ValuesOf(Prices()))
  {}

  lemma Decide(history: seq<Adjustment.PricedBar>, rule: Rule)
    requires Adjustment.FullyAdjusted(history) && |history| >= 200 && |Published(Points(history), rule)| >= 50
    requires DailySignal(Points(history)).Ok? && WeeklySignal(Published(Points(history), rule)).Ok?
    requires var daily, weekly := DailySignal(Points(history)).value, WeeklySignal(Published(Points(history), rule)).value;
      && weekly.alignment == Trending(Golden) && weekly.crossStatus == None && weekly.phase == Aging
      && daily.alignment == Equal && daily.crossStatus == None && daily.phase == Confirmed
    ensures var r := Evaluate(history, rule);
      r.Ok? && r.value.cta == Buy && r.value.dailyCross == DailySignal(Points(history)).value
      && r.value.weeklyCross == WeeklySignal(Published(Points(history), rule)).value
  {
    hide DailySignal;
    hide WeeklySignal;
    hide Published;
    hide MeanOfLast;
  }
}
