/** Fifty weeks of Monday-Friday prices at 1, and what one or two more weekly points make of them. */
module FlatWeeks {
  import opened Prelude
  import opened RealMath
  import opened WeeklyPoints
  import opened CrossSignals
  import opened CrossLaws
  import opened CtaEngine

  const DAYS := 250

  function FlatDay(i: nat): int { 7 * (i / 5) + i % 5 }

  function FlatDays(): (r: seq<Point>)
    ensures |r| == DAYS && forall i :: 0 <= i < DAYS ==> r[i] == Point(FlatDay(i), 1.0)
  {
    seq(DAYS, i requires 0 <= i < DAYS => Point(FlatDay(i), 1.0))
  }

  function Fridays(): (r: seq<Point>)
    ensures |r| == 50 && forall k :: 0 <= k < 50 ==> r[k] == Point(7 * k + 4, 1.0)
  {
    seq(50, k => Point(7 * k + 4, 1.0))
  }

  // ----- weekly points of the flat days -----

  lemma FlatDaysIncrease(i: nat, j: nat)
    requires i < j
    ensures FlatDay(i) < FlatDay(j)
  {}

  lemma FlatChronological(n: nat)
    requires n <= DAYS
    ensures Chronological(FlatDays()[..n])
  {
    forall i, j | 0 <= i < j < n ensures FlatDays()[i].day < FlatDays()[j].day { FlatDaysIncrease(i, j); }
  }

  /** The weekly points of the first `n` days. */
  function FlatUpTo(n: nat): (r: seq<Point>)
    requires 1 <= n <= DAYS
    ensures |r| == (n - 1) / 5 + 1 && r[|r| - 1] == FlatDays()[n - 1]
    ensures forall k :: 0 <= k < |r| - 1 ==> r[k] == Point(7 * k + 4, 1.0)
  {
    seq((n - 1) / 5 + 1, k requires 0 <= k <= (n - 1) / 5 => if k < (n - 1) / 5 then Point(7 * k + 4, 1.0) else FlatDays()[n - 1])
  }

  lemma FlatStep(n: nat)
    requires n >= 1
    ensures Week(FlatDay(n)) == n / 5
    ensures n / 5 == (n - 1) / 5 || (n / 5 == (n - 1) / 5 + 1 && FlatDay(n - 1) == 7 * ((n - 1) / 5) + 4)
  {}

  lemma {:induction false} FlatWeeklyUpTo(n: nat)
    requires 1 <= n <= DAYS
    ensures LastOfWeeks(FlatDays()[..n]) == FlatUpTo(n)
  {
    hide LastOfWeeks;
    hide FlatDay;
    hide Week;
    hide FlatDays;
    hide FlatUpTo;
    hide Chronological;
    if n == 1 {
      FirstFlatDay();
    } else {
      var front, last := FlatDays()[..n - 1], FlatDays()[n - 1];
      assert FlatDays()[..n] == front + [last];
      FlatWeeklyUpTo(n - 1);
      FlatChronological(n);
      ChronologicalAppend(front, last);
      FlatStep(n - 1);
      if n > 2 { FlatStep(n - 2); } else { FirstFlatDay(); }
      AppendStep(front, last);
    }
  }

  lemma FirstFlatDay()
    ensures Week(FlatDay(0)) == 0 && LastOfWeeks(FlatDays()[..1]) == FlatUpTo(1)
  {
    var points := FlatDays()[..1];
    assert points[..0] == [];
    assert LastOfWeeks(points) == [points[0]];
  }

  lemma FlatWeekly()
    ensures Chronological(FlatDays()) && LastOfWeeks(FlatDays()) == Fridays()
    ensures FlatDays()[DAYS - 1].day == 347
  {
    hide LastOfWeeks;
    assert FlatDays()[..DAYS] == FlatDays();
    FlatChronological(DAYS);
    FlatWeeklyUpTo(DAYS);
    assert FlatUpTo(DAYS) == Fridays();
  }

  /** One more bar, in a later week, is one more weekly point. */
  lemma OneMoreWeek(history: seq<Point>, p: Point)
    requires Chronological(history) && history != [] && Week(history[|history| - 1].day) < Week(p.day)
    ensures Chronological(history + [p]) && LastOfWeeks(history + [p]) == LastOfWeeks(history) + [p]
  {
    ChronologicalAppend(history, p);
    AppendStep(history, p);
  }

  // ----- crossings -----

  lemma {:induction false} SumOfOnes(values: seq<real>, a: nat, b: nat)
    requires a <= b <= |values| && forall k :: a <= k < b ==> values[k] == 1.0
    ensures Sum(values[a..b]) == (b - a) as real
    decreases b
  {
    if a < b {
      SumOfOnes(values, a, b - 1);
      SumExtended(values, a, b - 1);
    }
  }

  /** Fifty ones, then whatever comes. */
  ghost predicate StartsFlat(values: seq<real>) { |values| >= 50 && forall k :: 0 <= k < 50 ==> values[k] == 1.0 }

  lemma MeansAround(values: seq<real>, window: nat)
    requires StartsFlat(values) && |values| >= 51 && 2 <= window <= 50
    ensures WindowMean(values, window, 49) == 1.0
    ensures WindowMean(values, window, 50) == 1.0 + (values[50] - 1.0) / window as real
    ensures |values| >= 52 ==> WindowMean(values, window, 51) == 1.0 + (values[50] + values[51] - 2.0) / window as real
  {
    hide Sum;
    SumOfOnes(values, 50 - window, 50);
    SumOfOnes(values, 51 - window, 50);
    SumExtended(values, 51 - window, 50);
    ShiftedMean(0.0, window as real);
    ShiftedMean(values[50] - 1.0, window as real);
    if |values| >= 52 {
      SumOfOnes(values, 52 - window, 50);
      SumExtended(values, 52 - window, 50);
      SumExtended(values, 52 - window, 51);
      ShiftedMean(values[50] + values[51] - 2.0, window as real);
    }
  }

  lemma ShiftedMean(x: real, w: real)
    requires w > 0.0
    ensures (w + x) / w == 1.0 + x / w
  {
    var share := x / w;
    assert share * w == x;
    assert (1.0 + share) * w == w + share * w;
    ExactQuotient(w + x, 1.0 + share, w);
  }

  lemma NoFlatCrossing(values: seq<real>)
    requires StartsFlat(values)
    ensures Crossings(values, 30, 50, 50) == []
  {
    hide WindowMean;
    forall i | 0 <= i < 50 ensures CrossAt(values, 30, 50, i) == None {}
    hide CrossAt;
    assert Quiet(values, 30, 50, 0, 50);
    QuietAddsNothing(values, 30, 50, 0, 50);
    assert Crossings(values, 30, 50, 0) == [];
  }

  /** The first value that is not 1 crosses to its own side. */
  lemma FirstCrossing(values: seq<real>, trend: Trend)
    requires StartsFlat(values) && |values| >= 51 && SameSide(values[50] - 1.0, trend)
    ensures Crossings(values, 30, 50, 51) == [Crossing(50, trend)]
  {
    NoFlatCrossing(values);
    MeansAround(values, 30);
    MeansAround(values, 50);
    hide WindowMean;
    assert CrossAt(values, 30, 50, 50) == Some(trend);
  }

  /** A rise, then a larger fall: a golden crossing and a death crossing. */
  lemma RiseAndFall(values: seq<real>)
    requires StartsFlat(values) && |values| == 52 && values[50] > 1.0 && values[50] + values[51] < 2.0
    ensures Crossings(values, 30, 50, 52) == [Crossing(50, Golden), Crossing(51, Death)]
  {
    FirstCrossing(values, Golden);
    MeansAround(values, 30);
    MeansAround(values, 50);
    hide WindowMean;
    assert CrossAt(values, 30, 50, 51) == Some(Death);
  }

  /** A crossing at the last point is a fresh cross dated there. */
  lemma FreshAtEnd(weekly: seq<Point>, trend: Trend)
    requires PositivePrices(weekly) && |weekly| >= 50
    requires var r := Crossings(ValuesOf(weekly), 30, 50, |weekly|); r != [] && r[|r| - 1] == Crossing(|weekly| - 1, trend)
    ensures WeeklySignal(weekly).Ok?
    ensures WeeklySignal(weekly).value.crossStatus == Some(trend) == WeeklySignal(weekly).value.lastCrossStatus
    ensures WeeklySignal(weekly).value.lastCrossDate == Some(weekly[|weekly| - 1].day)
  {
    hide Crossings;
    hide WindowMean;
    PositiveSignal(weekly, 30, 50, 4, 52);
  }
}
