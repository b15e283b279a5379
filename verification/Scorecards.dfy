/** Completed half-year scorecards: drawdown, calendar half-years, and how the periods fit together. */
module Scorecards {
  import opened Prelude
  import opened Ordering
  import opened RealMath
  import opened Calendar
  import opened FundReturns

  // ----- maximum drawdown -----

  /** The largest of a non-empty series. */
  function Peak(values: seq<Positive>): Positive
    requires values != []
  {
    if |values| == 1 then values[0]
    else
      var peak, last := Peak(values[..|values| - 1]), values[|values| - 1];
      if last > peak then last else peak
  }

  function Fall(values: seq<Positive>, i: nat, j: nat): real
    requires i < |values| && j < |values|
  {
    Over(values[j], values[i]) - 1.0
  }

  /** The loop's running minimum of value over peak so far. */
  function WorstFall(values: seq<Positive>): real {
    if values == [] then 0.0
    else
      var worst, fall := WorstFall(values[..|values| - 1]), Over(values[|values| - 1], Peak(values)) - 1.0;
      if fall < worst then fall else worst
  }

  function Drawdown(values: seq<Positive>): real { WorstFall(values) * 100.0 }

  method MaxDrawdown(values: seq<Positive>) returns (r: real)
    requires values != []
    ensures r == Drawdown(values)
  {
    var peak: Positive := values[0];
    var worst: real := 0.0;
    for k := 0 to |values|
      invariant k == 0 ==> peak == values[0]
      invariant k > 0 ==> peak == Peak(values[..k])
      invariant worst == WorstFall(values[..k])
    {
      assert values[..k + 1][..k] == values[..k];
      var value := values[k];
      if value > peak { peak := value; }
      if Over(value, peak) - 1.0 < worst { worst := Over(value, peak) - 1.0; }
    }
    assert values[..|values|] == values;
    r := worst * 100.0;
  }

  lemma {:induction false} PeakIsLargest(values: seq<Positive>) returns (i: nat)
    requires values != []
    ensures i < |values| && Peak(values) == values[i]
    ensures forall k :: 0 <= k < |values| ==> values[k] <= Peak(values)
  {
    if |values| == 1 {
      i := 0;
    } else {
      i := PeakIsLargest(values[..|values| - 1]);
      if values[|values| - 1] > Peak(values[..|values| - 1]) { i := |values| - 1; }
    }
  }

  lemma SmallerQuotient(x: Positive, p: Positive, q: Positive)
    requires p <= q
    ensures Over(x, q) <= Over(x, p)
  {
    var a, b := Over(x, p), Over(x, q);
    assert a * p == b * q == x;
    if b > a { assert false; }
  }

  lemma QuotientRange(x: Positive, p: Positive)
    ensures Over(x, p) > 0.0 && (x <= p ==> Over(x, p) <= 1.0)
  {
    assert Over(x, p) * p == x;
    FactorRange(Over(x, p), p);
  }

  lemma FactorRange(a: real, p: real)
    requires p > 0.0 && a * p > 0.0
    ensures a > 0.0 && (a * p <= p ==> a <= 1.0)
  {
    assert (a - 1.0) * p == a * p - p;
  }

  /**
   The one-pass loop finds the worst of all falls from an earlier value to a later
   one, and a positive series never loses all of its value.
   */
  lemma {:induction false} WorstFallIsWorst(values: seq<Positive>) returns (i: nat, j: nat)
    requires values != []
    ensures i <= j < |values| && WorstFall(values) == Fall(values, i, j)
    ensures forall a, b :: 0 <= a <= b < |values| ==> WorstFall(values) <= Fall(values, a, b)
    ensures -1.0 < WorstFall(values) <= 0.0
  {
    var n := |values| - 1;
    var front, last := values[..n], values[n];
    var k := PeakIsLargest(values);
    var fall := Over(last, Peak(values)) - 1.0;
    QuotientRange(last, Peak(values));
    if n == 0 {
      i, j := 0, 0;
      assert front == [] && Over(values[0], values[0]) == 1.0;
    } else {
      i, j := WorstFallIsWorst(front);
      assert Fall(values, i, j) == Fall(front, i, j);
      if fall < WorstFall(front) { i, j := k, n; }
    }
    forall a, b | 0 <= a <= b < |values|
      ensures WorstFall(values) <= Fall(values, a, b)
    {
      if b == n {
        SmallerQuotient(last, values[a], Peak(values));
      } else {
        assert Fall(values, a, b) == Fall(front, a, b);
      }
    }
  }

  /** The reported percentage lies above -100 and never above zero. */
  lemma DrawdownRange(values: seq<Positive>)
    requires values != []
    ensures -100.0 < Drawdown(values) <= 0.0
  {
    var i, j := WorstFallIsWorst(values);
  }

  /** `scaled` is the same series in another currency unit. */
  ghost predicate Scaled(values: seq<Positive>, scaled: seq<Positive>, g: Positive) {
    |values| == |scaled| && forall k :: 0 <= k < |values| ==> scaled[k] == values[k] * g
  }

  lemma QuotientScale(x: Positive, y: Positive, g: Positive, x': Positive, y': Positive)
    requires x' == x * g && y' == y * g
    ensures Over(x', y') == Over(x, y)
  {
    var q := Over(x, y);
    assert q * y == x;
    TimesEqual(q, y', y * g);
    TimesEqual(g, q * y, x);
    assert q * y' == x';
    Cancel(Over(x', y'), q, y');
  }

  lemma FallScaled(values: seq<Positive>, scaled: seq<Positive>, g: Positive, i: nat, j: nat)
    requires Scaled(values, scaled, g) && i < |values| && j < |values|
    ensures Fall(scaled, i, j) == Fall(values, i, j)
  {
    QuotientScale(values[j], values[i], g, scaled[j], scaled[i]);
  }

  /** Drawdown does not depend on the unit the series is quoted in. */
  lemma DrawdownScaleInvariant(values: seq<Positive>, scaled: seq<Positive>, g: Positive)
    requires values != [] && Scaled(values, scaled, g)
    ensures Drawdown(scaled) == Drawdown(values)
  {
    hide Fall;
    hide WorstFall;
    var i, j := WorstFallIsWorst(values);
    var k, l := WorstFallIsWorst(scaled);
    FallScaled(values, scaled, g, i, j);
    FallScaled(values, scaled, g, k, l);
  }

  // ----- one scorecard -----

  datatype Metric = TotalReturn | Sharpe | Drawdowns

  datatype Period = HalfYear(year: int, half: int) | NoPeriod

  datatype Scorecard =
    | UnknownCard(period: Period)
    | Card(period: Period, start: int, end: int, observations: nat, fundReturn: real, proxyReturn: real,
           fundDrawdown: real, proxyDrawdown: real, wins: set<Metric>, advantage: bool)

  function LastOverFirst(values: seq<Positive>): real
    requires values != []
  {
    Over(values[|values| - 1], values[0])
  }

  function Wins(fund: seq<Positive>, proxy: seq<Positive>, sharpe: seq<Positive> -> Option<real>): set<Metric>
    requires |fund| == |proxy| > 0
  {
    (if LastOverFirst(fund) > LastOverFirst(proxy) then {TotalReturn} else {})
    + (if sharpe(fund).Some? && sharpe(proxy).Some? && sharpe(fund).value > sharpe(proxy).value then {Sharpe} else {})
    + (if Drawdown(fund) > Drawdown(proxy) then {Drawdowns} else {})
  }

  lemma WinsDisjoint(fund: seq<Positive>, proxy: seq<Positive>, sharpe: seq<Positive> -> Option<real>)
    requires |fund| == |proxy| > 0
    ensures Wins(fund, proxy, sharpe) !! Wins(proxy, fund, sharpe)
    ensures Wins(fund, proxy, sharpe) + Wins(proxy, fund, sharpe) <= {TotalReturn, Sharpe, Drawdowns}
  {
    hide LastOverFirst;
    hide Drawdown;
  }

  /** Exchanging fund and proxy can never give an advantage both ways. */
  lemma NoMutualAdvantage(fund: seq<Positive>, proxy: seq<Positive>, sharpe: seq<Positive> -> Option<real>)
    requires |fund| == |proxy| > 0
    ensures !(|Wins(fund, proxy, sharpe)| >= 2 && |Wins(proxy, fund, sharpe)| >= 2)
  {
    hide Wins;
    var a, b := Wins(fund, proxy, sharpe), Wins(proxy, fund, sharpe);
    WinsDisjoint(fund, proxy, sharpe);
    SubsetSize(a + b, {TotalReturn, Sharpe, Drawdowns});
    assert |a + b| == |a| + |b|;
  }

  lemma {:induction false} SubsetSize<T>(a: set<T>, b: set<T>)
    requires a <= b
    ensures |a| <= |b|
  {
    if |a| > 0 {
      var x := SomeElement(a);
      SubsetSize(a - {x}, b - {x});
    }
  }

  function ValuesOn(series: Series, days: seq<int>): (r: seq<Positive>)
    requires forall d :: d in days ==> d >= 0 && d in series
    ensures |r| == |days| && forall k :: 0 <= k < |days| ==> days[k] in days && r[k] == series[days[k] as nat]
  {
    seq(|days|, i requires 0 <= i < |days| => assert days[i] in days; series[days[i] as nat])
  }

  function CardFor(
      period: Period, days: seq<int>, funds: Series, etfs: Series, minObservations: int, sharpe: seq<Positive> -> Option<real>): Scorecard
    requires days != [] && forall d :: d in days ==> d >= 0 && d in funds && d in etfs
  {
    if |days| < minObservations then UnknownCard(period)
    else
      var fund, proxy := ValuesOn(funds, days), ValuesOn(etfs, days);
      var wins := Wins(fund, proxy, sharpe);
      Card(period, days[0], days[|days| - 1], |days|,
           (LastOverFirst(fund) - 1.0) * 100.0, (LastOverFirst(proxy) - 1.0) * 100.0,
           Drawdown(fund), Drawdown(proxy), wins, |wins| >= 2)
  }

  // ----- calendar half-years -----

  predicate HalfYearEnd(d: Date) { (d.month == 6 && d.day == 30) || (d.month == 12 && d.day == 31) }

  function LastCompletedHalfYearEnd(asOf: CalendarDate): (r: Option<CalendarDate>)
    ensures r.Some? ==> HalfYearEnd(r.value)
  {
    if Ordinal(asOf) >= Ordinal(Date(asOf.year, 6, 30)) then Some(Date(asOf.year, 6, 30))
    else if asOf.year > 1 then Some(Date(asOf.year - 1, 12, 31))
    else None
  }

  /** The half-year end before a half-year end. */
  function StartBoundary(cursor: CalendarDate): (r: Option<CalendarDate>)
    ensures r.Some? ==> HalfYearEnd(r.value)
  {
    if cursor.month == 6 then (if cursor.year > 1 then Some(Date(cursor.year - 1, 12, 31)) else None)
    else Some(Date(cursor.year, 6, 30))
  }

  /**
   The first period reviewed ends on the latest half-year end on or before `asOf`,
   for every date except 31 December, when the half-year that ends that day is skipped.
   */
  lemma FirstPeriodIsLatest(asOf: CalendarDate)
    requires LastCompletedHalfYearEnd(asOf).Some?
    ensures var r := LastCompletedHalfYearEnd(asOf).value;
      && Ordinal(r) <= Ordinal(asOf)
      && ((forall h: CalendarDate :: HalfYearEnd(h) && Ordinal(h) <= Ordinal(asOf) ==> Ordinal(h) <= Ordinal(r))
          <==> !(asOf.month == 12 && asOf.day == 31))
  {
    hide Ordinal;
    var r := LastCompletedHalfYearEnd(asOf).value;
    OrdinalOrder(Date(asOf.year, 6, 30), asOf);
    OrdinalOrder(asOf, Date(asOf.year, 6, 30));
    OrdinalOrder(r, asOf);
    OrdinalOrder(asOf, r);
    if asOf.month == 12 && asOf.day == 31 {
      OrdinalOrder(r, asOf);
      assert HalfYearEnd(asOf);
    } else {
      forall h: CalendarDate | HalfYearEnd(h) && Ordinal(h) <= Ordinal(asOf) ensures Ordinal(h) <= Ordinal(r) {
        OrdinalOrder(asOf, h);
        OrdinalOrder(r, h);
      }
    }
  }

  /** Between a half-year end and the one before it there is no other. */
  lemma StartBoundaryIsPrevious(cursor: CalendarDate)
    requires HalfYearEnd(cursor) && StartBoundary(cursor).Some?
    ensures Ordinal(StartBoundary(cursor).value) < Ordinal(cursor)
    ensures forall h: CalendarDate :: HalfYearEnd(h) && Ordinal(h) < Ordinal(cursor) ==> Ordinal(h) <= Ordinal(StartBoundary(cursor).value)
  {
    hide Ordinal;
    var r := StartBoundary(cursor).value;
    OrdinalOrder(r, cursor);
    forall h: CalendarDate | HalfYearEnd(h) && Ordinal(h) < Ordinal(cursor) ensures Ordinal(h) <= Ordinal(r) {
      OrdinalOrder(h, cursor);
      OrdinalOrder(r, h);
    }
  }

  // ----- the run of scorecards -----

  /** The newest day of an increasing list that is not after `limit`. */
  function LatestUpTo(days: seq<int>, limit: int): (r: Option<int>)
    requires StrictlyIncreasing(days)
    ensures r.None? <==> forall d :: d in days ==> d > limit
    ensures r.Some? ==> r.value in days && r.value <= limit && forall d :: d in days && d <= limit ==> d <= r.value
  {
    var candidates := UpTo(days, limit);
    if candidates == [] then
      assert forall d :: d in days && d <= limit ==> d in candidates;
      None
    else
      LastIsLargest(candidates);
      assert forall d :: d in days && d <= limit ==> d in candidates;
      Some(candidates[|candidates| - 1])
  }

  function Between(days: seq<int>, start: int, end: int): (r: seq<int>)
    requires StrictlyIncreasing(days)
    ensures forall d :: d in r <==> d in days && start <= d <= end
    ensures StrictlyIncreasing(r)
  {
    if days == [] then []
    else
      var front, last := Between(days[..|days| - 1], start, end), days[|days| - 1];
      assert days == days[..|days| - 1] + [last];
      SmallerThanLast(days);
      AppendIncreasing(front, last);
      if start <= last <= end then front + [last] else front
  }

  datatype Inputs = Inputs(
    common: seq<int>, funds: Series, etfs: Series, maxBoundaryGapDays: int, minObservations: int,
    sharpe: seq<Positive> -> Option<real>)
  {
    ghost predicate Valid() {
      StrictlyIncreasing(common) && forall d :: d in common ==> d >= 0 && d in funds && d in etfs
    }
  }

  function PeriodOf(cursor: CalendarDate): Period { HalfYear(cursor.year, if cursor.month == 6 then 1 else 2) }

  /** The scorecard of the half-year after `startBoundary` that ends at `cursor`. */
  function CardAt(inputs: Inputs, startBoundary: CalendarDate, cursor: CalendarDate): Scorecard
    requires inputs.Valid() && Ordinal(startBoundary) <= Ordinal(cursor)
  {
    var start, end := LatestUpTo(inputs.common, Ordinal(startBoundary)), LatestUpTo(inputs.common, Ordinal(cursor));
    if start.None? || end.None? then UnknownCard(PeriodOf(cursor))
    else if Ordinal(startBoundary) - start.value > inputs.maxBoundaryGapDays
         || Ordinal(cursor) - end.value > inputs.maxBoundaryGapDays then UnknownCard(PeriodOf(cursor))
    else
      var days := Between(inputs.common, start.value, end.value);
      assert start.value in days;
      CardFor(PeriodOf(cursor), days, inputs.funds, inputs.etfs, inputs.minObservations, inputs.sharpe)
  }

  /** Scorecards of `periods` half-years, the newest ending at `cursor`, oldest first; None when year 1 is passed. */
  function CardsFrom(inputs: Inputs, cursor: CalendarDate, periods: nat): (r: Option<seq<Scorecard>>)
    requires inputs.Valid() && HalfYearEnd(cursor)
    ensures r.Some? ==> |r.value| == periods
    decreases periods
  {
    if periods == 0 then Some([])
    else
      match StartBoundary(cursor)
      case None => None
      case Some(boundary) =>
        StartBoundaryIsPrevious(cursor);
        var older := CardsFrom(inputs, boundary, periods - 1);
        if older.None? then None else Some(older.value + [CardAt(inputs, boundary, cursor)])
  }

  function PrependOlder(older: Option<seq<Scorecard>>, newer: seq<Scorecard>): Option<seq<Scorecard>> {
    if older.None? then None else Some(older.value + newer)
  }

  lemma PrependToNothing(older: Option<seq<Scorecard>>)
    ensures PrependOlder(older, []) == older
  {
    if older.Some? { assert older.value + [] == older.value; }
  }

  /** The loop over half-years; None stands for the ValueError raised before year 1. */
  method CompletedHalfYearScorecards(inputs: Inputs, first: CalendarDate, periods: nat) returns (r: Option<seq<Scorecard>>)
    requires inputs.Valid() && HalfYearEnd(first)
    ensures r == CardsFrom(inputs, first, periods)
  {
    hide CardAt;
    hide StartBoundary;
    hide Ordinal;
    hide HalfYearEnd;
    var cursor := first;
    var scorecards: seq<Scorecard> := [];
    PrependToNothing(CardsFrom(inputs, first, periods));
    for k := 0 to periods
      invariant HalfYearEnd(cursor) && |scorecards| == k
      invariant CardsFrom(inputs, first, periods) == PrependOlder(CardsFrom(inputs, cursor, periods - k), Reversed(scorecards))
    {
      var boundary := StartBoundary(cursor);
      if boundary == None { return None; }
      StartBoundaryIsPrevious(cursor);
      var card := CardAt(inputs, boundary.value, cursor);
      ReversedAppend(scorecards, card);
      ghost var older, newer := CardsFrom(inputs, boundary.value, periods - k - 1), Reversed(scorecards);
      scorecards := scorecards + [card];
      if older.Some? { assert older.value + [card] + newer == older.value + ([card] + newer); }
      cursor := boundary.value;
    }
    assert [] + Reversed(scorecards) == Reversed(scorecards);
    r := Some(Reversed(scorecards));
  }

  datatype CardError = NonPositivePeriods | YearBeforeFirst

  ghost function ReviewInputs(
      fundHistory: seq<FundNav>, etfHistory: seq<EtfBar>, asOf: CalendarDate, gap: int, minObservations: int,
      sharpe: seq<Positive> -> Option<real>): (r: Inputs)
    ensures r.Valid() && forall d :: d in r.common ==> d <= Ordinal(asOf)
  {
    var funds, etfs := NavSeries(fundHistory), EtfSeries(etfHistory);
    Inputs(UpTo(Common(funds, etfs), Ordinal(asOf)), funds, etfs, gap, minObservations, sharpe)
  }

  /** What `completed_half_year_scorecards` returns. */
  ghost function Review(inputs: Inputs, asOf: CalendarDate, periods: int): Result<seq<Scorecard>, CardError>
    requires inputs.Valid()
  {
    if periods <= 0 then Err(NonPositivePeriods)
    else if inputs.common == [] then Ok([UnknownCard(NoPeriod)])
    else if LastCompletedHalfYearEnd(asOf).None? then Err(YearBeforeFirst)
    else
      match CardsFrom(inputs, LastCompletedHalfYearEnd(asOf).value, periods)
      case None => Err(YearBeforeFirst)
      case Some(cards) => Ok(cards)
  }

  /** When there is nothing to review: an error for the number of periods, one unknown card for want of a common day. */
  lemma NothingToReview(inputs: Inputs, asOf: CalendarDate, periods: int)
    requires inputs.Valid()
    ensures Review(inputs, asOf, periods) == Err(NonPositivePeriods) <==> periods < 1
    ensures periods >= 1 && inputs.common == [] ==> Review(inputs, asOf, periods) == Ok([UnknownCard(NoPeriod)])
    ensures periods >= 1 && inputs.common != [] && Review(inputs, asOf, periods).Ok? ==> |Review(inputs, asOf, periods).value| == periods
  {
    hide CardsFrom;
  }

  method ReviewHalfYears(
      fundHistory: seq<FundNav>, etfHistory: seq<EtfBar>, asOf: CalendarDate, periods: int, gap: int, minObservations: int,
      sharpe: seq<Positive> -> Option<real>) returns (r: Result<seq<Scorecard>, CardError>)
    ensures r == Review(ReviewInputs(fundHistory, etfHistory, asOf, gap, minObservations, sharpe), asOf, periods)
  {
    hide CardsFrom;
    if periods <= 0 { return Err(NonPositivePeriods); }
    var funds, etfs := NavSeries(fundHistory), EtfSeries(etfHistory);
    var common := UpTo(Common(funds, etfs), Ordinal(asOf));
    if common == [] { return Ok([UnknownCard(NoPeriod)]); }
    var first := LastCompletedHalfYearEnd(asOf);
    if first == None { return Err(YearBeforeFirst); }
    var cards := CompletedHalfYearScorecards(Inputs(common, funds, etfs, gap, minObservations, sharpe), first.value, periods);
    r := if cards.Some? then Ok(cards.value) else Err(YearBeforeFirst);
  }

  // ----- tiling -----

  lemma FirstAndLastBetween(days: seq<int>, start: int, end: int)
    requires StrictlyIncreasing(days) && start in days && end in days && start <= end
    ensures var r := Between(days, start, end); r != [] && r[0] == start && r[|r| - 1] == end
  {
    hide Between;
    var r := Between(days, start, end);
    assert start in r && end in r;
    assert r[0] in r && r[|r| - 1] in r;
    var i :| 0 <= i < |r| && r[i] == start;
    var j :| 0 <= j < |r| && r[j] == end;
  }

  /** A known scorecard runs from the newest common day up to its start boundary to the newest up to its end. */
  lemma KnownCardDates(inputs: Inputs, boundary: CalendarDate, cursor: CalendarDate)
    requires inputs.Valid() && Ordinal(boundary) <= Ordinal(cursor) && CardAt(inputs, boundary, cursor).Card?
    ensures var card := CardAt(inputs, boundary, cursor);
      && Some(card.start) == LatestUpTo(inputs.common, Ordinal(boundary))
      && Some(card.end) == LatestUpTo(inputs.common, Ordinal(cursor))
      && card.start in inputs.common && card.end in inputs.common
      && Ordinal(boundary) - inputs.maxBoundaryGapDays <= card.start <= Ordinal(boundary)
      && Ordinal(cursor) - inputs.maxBoundaryGapDays <= card.end <= Ordinal(cursor)
      && card.fundReturn == (GrowthOf(inputs.funds, card.start, card.end) - 1.0) * 100.0
      && card.proxyReturn == (GrowthOf(inputs.etfs, card.start, card.end) - 1.0) * 100.0
  {
    hide Ordinal;
    hide Drawdown;
    hide Wins;
    var start, end := LatestUpTo(inputs.common, Ordinal(boundary)).value, LatestUpTo(inputs.common, Ordinal(cursor)).value;
    assert start <= end;
    FirstAndLastBetween(inputs.common, start, end);
  }

  /** `drawdown` is the worst fall of the series, in percent, and some fall attains it. */
  ghost predicate IsWorstFall(values: seq<Positive>, drawdown: real) {
    && (exists i, j :: 0 <= i <= j < |values| && drawdown == (Over(values[j], values[i]) - 1.0) * 100.0)
    && forall i, j :: 0 <= i <= j < |values| ==> drawdown <= (Over(values[j], values[i]) - 1.0) * 100.0
  }

  lemma DrawdownIsWorstFall(values: seq<Positive>)
    requires values != []
    ensures IsWorstFall(values, Drawdown(values))
  {
    hide WorstFall;
    var i, j := WorstFallIsWorst(values);
    assert Drawdown(values) == (Over(values[j], values[i]) - 1.0) * 100.0;
    forall a, b | 0 <= a <= b < |values| ensures Drawdown(values) <= (Over(values[b], values[a]) - 1.0) * 100.0 {
      assert WorstFall(values) <= Fall(values, a, b);
    }
  }

  /** Ahead in growth: compared by cross multiplication. */
  predicate AheadInReturn(fund: seq<Positive>, proxy: seq<Positive>)
    requires fund != [] && proxy != []
  {
    Times(fund[|fund| - 1], proxy[0]) > Times(proxy[|proxy| - 1], fund[0])
  }

  predicate AheadInSharpe(fund: seq<Positive>, proxy: seq<Positive>, sharpe: seq<Positive> -> Option<real>) {
    sharpe(fund).Some? && sharpe(proxy).Some? && sharpe(fund).value > sharpe(proxy).value
  }

  lemma CompareQuotients(x: Positive, p: Positive, y: Positive, q: Positive)
    ensures Over(x, p) > Over(y, q) <==> Times(x, q) > Times(y, p)
  {
    var a, b := Over(x, p), Over(y, q);
    assert a * p == x && b * q == y;
    var scale := p * q;
    assert scale > 0.0;
    assert x * q == a * scale by { TimesEqual(q, x, a * p); }
    assert y * p == b * scale by { TimesEqual(p, y, b * q); }
    OrderScaled(a, b, scale);
  }

  lemma OrderScaled(a: real, b: real, scale: real)
    requires scale > 0.0
    ensures a > b <==> a * scale > b * scale
  {
    assert (a - b) * scale == a * scale - b * scale;
    FactorSigns(a - b, scale);
  }

  lemma FactorSigns(x: real, scale: real)
    requires scale > 0.0
    ensures x > 0.0 <==> x * scale > 0.0
  {}

  /**
   What a known card says: over the common days from its start to its end, the fund
   has the advantage exactly when it is strictly ahead in at least two of growth,
   Sharpe ratio and worst fall, and its wins are exactly those it is ahead in.
   */
  lemma CardMeaning(period: Period, days: seq<int>, funds: Series, etfs: Series, minObservations: int, sharpe: seq<Positive> -> Option<real>)
    requires days != [] && forall d :: d in days ==> d >= 0 && d in funds && d in etfs
    ensures var card := CardFor(period, days, funds, etfs, minObservations, sharpe); var fund, proxy := ValuesOn(funds, days), ValuesOn(etfs, days);
      && card.period == period && (card.Card? <==> |days| >= minObservations)
      && (card.Card? ==>
            && card.start == days[0] && card.end == days[|days| - 1] && card.observations == |days|
            && IsWorstFall(fund, card.fundDrawdown) && IsWorstFall(proxy, card.proxyDrawdown)
            && (TotalReturn in card.wins <==> AheadInReturn(fund, proxy))
            && (Sharpe in card.wins <==> AheadInSharpe(fund, proxy, sharpe))
            && (Drawdowns in card.wins <==> card.fundDrawdown > card.proxyDrawdown)
            && (card.advantage <==>
                  || (AheadInReturn(fund, proxy) && AheadInSharpe(fund, proxy, sharpe))
                  || (AheadInReturn(fund, proxy) && card.fundDrawdown > card.proxyDrawdown)
                  || (AheadInSharpe(fund, proxy, sharpe) && card.fundDrawdown > card.proxyDrawdown)))
  {
    hide Drawdown;
    hide IsWorstFall;
    hide AheadInReturn;
    hide AheadInSharpe;
    hide LastOverFirst;
    hide Wins;
    var fund, proxy := ValuesOn(funds, days), ValuesOn(etfs, days);
    DrawdownIsWorstFall(fund);
    DrawdownIsWorstFall(proxy);
    WinsMeaning(fund, proxy, sharpe);
    CountWins(Wins(fund, proxy, sharpe));
  }

  lemma WinsMeaning(fund: seq<Positive>, proxy: seq<Positive>, sharpe: seq<Positive> -> Option<real>)
    requires |fund| == |proxy| > 0
    ensures TotalReturn in Wins(fund, proxy, sharpe) <==> AheadInReturn(fund, proxy)
    ensures Sharpe in Wins(fund, proxy, sharpe) <==> AheadInSharpe(fund, proxy, sharpe)
    ensures Drawdowns in Wins(fund, proxy, sharpe) <==> Drawdown(fund) > Drawdown(proxy)
  {
    hide Drawdown;
    hide Times;
    hide Over;
    CompareQuotients(fund[|fund| - 1], fund[0], proxy[|proxy| - 1], proxy[0]);
  }

  lemma CountWins(wins: set<Metric>)
    ensures |wins| >= 2 <==>
      (TotalReturn in wins && Sharpe in wins) || (TotalReturn in wins && Drawdowns in wins) || (Sharpe in wins && Drawdowns in wins)
  {
    var rest := wins - {TotalReturn} - {Sharpe} - {Drawdowns};
    WithoutOne(wins, TotalReturn);
    WithoutOne(wins - {TotalReturn}, Sharpe);
    WithoutOne(wins - {TotalReturn} - {Sharpe}, Drawdowns);
    forall m: Metric ensures m !in rest {
      match m
      case TotalReturn =>
      case Sharpe =>
      case Drawdowns =>
    }
    assert rest == {};
  }

  lemma WithoutOne<T>(s: set<T>, x: T)
    ensures |s| == (if x in s then 1 else 0) + |s - {x}|
  {
    if x in s { assert s == (s - {x}) + {x}; } else { assert s - {x} == s; }
  }

  /** Two cards with fund and proxy exchanged never both show an advantage. */
  lemma NoMutualAdvantageOnCards(period: Period, days: seq<int>, funds: Series, etfs: Series, minObservations: int, sharpe: seq<Positive> -> Option<real>)
    requires days != [] && forall d :: d in days ==> d >= 0 && d in funds && d in etfs
    ensures var card, swapped := CardFor(period, days, funds, etfs, minObservations, sharpe), CardFor(period, days, etfs, funds, minObservations, sharpe);
      card.Card? == swapped.Card? && !(card.Card? && card.advantage && swapped.advantage)
  {
    NoMutualAdvantage(ValuesOn(funds, days), ValuesOn(etfs, days), sharpe);
    hide Wins;
  }

  /**
   When a card is known at all: both boundaries have a common day before them within the
   gap, and the common days between these two are enough.
   */
  lemma KnownCardIff(inputs: Inputs, boundary: CalendarDate, cursor: CalendarDate)
    requires inputs.Valid() && Ordinal(boundary) <= Ordinal(cursor)
    ensures var first, last := LatestUpTo(inputs.common, Ordinal(boundary)), LatestUpTo(inputs.common, Ordinal(cursor));
      && (CardAt(inputs, boundary, cursor).Card? <==>
            && first.Some? && last.Some?
            && Ordinal(boundary) - first.value <= inputs.maxBoundaryGapDays && Ordinal(cursor) - last.value <= inputs.maxBoundaryGapDays
            && |Between(inputs.common, first.value, last.value)| >= inputs.minObservations)
      && (CardAt(inputs, boundary, cursor).Card? ==>
            CardAt(inputs, boundary, cursor)
            == CardFor(PeriodOf(cursor), Between(inputs.common, first.value, last.value), inputs.funds, inputs.etfs, inputs.minObservations, inputs.sharpe))
  {
    hide Ordinal;
    hide Drawdown;
    hide Wins;
  }

  /** A period is the half-year its cursor ends. */
  lemma PeriodMeaning(cursor: CalendarDate)
    requires HalfYearEnd(cursor)
    ensures PeriodOf(cursor) == HalfYear(cursor.year, 1) <==> cursor.month == 6
    ensures PeriodOf(cursor) == HalfYear(cursor.year, 2) <==> cursor.month == 12
  {}

  function GrowthOf(series: Series, start: int, end: int): real
    requires start >= 0 && end >= 0 && start in series && end in series
  {
    Over(series[end as nat], series[start as nat])
  }

  /** Contiguous scorecards: each known period starts on the very day a known one just before it ended. */
  ghost predicate Tiled(cards: seq<Scorecard>) {
    forall i {:trigger cards[i]} :: 0 <= i < |cards| - 1 && cards[i].Card? && cards[i + 1].Card? ==> cards[i].end == cards[i + 1].start
  }

  /** The end of a card is decided by the cursor alone, and so is the start of the next one. */
  ghost predicate EndsAt(inputs: Inputs, card: Scorecard, cursor: CalendarDate)
    requires inputs.Valid()
  {
    card.Card? ==> Some(card.end) == LatestUpTo(inputs.common, Ordinal(cursor))
  }

  /** Half-years numbered one after the other. */
  function PeriodNumber(p: Period): int
    requires p.HalfYear?
  {
    2 * p.year + p.half
  }

  /** Known or not, the cards cover consecutive half-years, the last of them ending at `cursor`. */
  ghost predicate Consecutive(cards: seq<Scorecard>, cursor: CalendarDate) {
    forall i :: 0 <= i < |cards| ==>
      && cards[i].period.HalfYear? && cards[i].period.half in {1, 2}
      && PeriodNumber(cards[i].period) == PeriodNumber(PeriodOf(cursor)) - (|cards| - 1 - i)
  }

  lemma PreviousPeriod(cursor: CalendarDate)
    requires HalfYearEnd(cursor) && StartBoundary(cursor).Some?
    ensures PeriodNumber(PeriodOf(StartBoundary(cursor).value)) == PeriodNumber(PeriodOf(cursor)) - 1
  {}

  lemma CardPeriod(inputs: Inputs, boundary: CalendarDate, cursor: CalendarDate)
    requires inputs.Valid() && Ordinal(boundary) <= Ordinal(cursor)
    ensures CardAt(inputs, boundary, cursor).period == PeriodOf(cursor)
  {
    hide Ordinal;
    hide Drawdown;
    hide Wins;
  }

  /** No half-year is skipped or repeated, and each card is labelled with its own. */
  lemma {:induction false} PeriodsAreConsecutive(inputs: Inputs, cursor: CalendarDate, periods: nat)
    requires inputs.Valid() && HalfYearEnd(cursor) && CardsFrom(inputs, cursor, periods).Some?
    ensures Consecutive(CardsFrom(inputs, cursor, periods).value, cursor)
    decreases periods
  {
    hide CardAt;
    hide Ordinal;
    hide StartBoundary;
    if periods > 0 {
      var boundary := StartBoundary(cursor).value;
      StartBoundaryIsPrevious(cursor);
      PeriodsAreConsecutive(inputs, boundary, periods - 1);
      PreviousPeriod(cursor);
      CardPeriod(inputs, boundary, cursor);
    }
  }

  /** Known cards never overlap: each starts no earlier than any card before it ended. */
  ghost predicate InOrder(cards: seq<Scorecard>) {
    && (forall i :: 0 <= i < |cards| && cards[i].Card? ==> cards[i].start <= cards[i].end)
    && forall i, j :: 0 <= i < j < |cards| && cards[i].Card? && cards[j].Card? ==> cards[i].end <= cards[j].start
  }

  ghost predicate EndBy(cards: seq<Scorecard>, common: seq<int>, limit: int) {
    forall i :: 0 <= i < |cards| && cards[i].Card? ==> cards[i].end in common && cards[i].end <= limit
  }

  lemma {:induction false} KnownCardsInOrder(inputs: Inputs, cursor: CalendarDate, periods: nat)
    requires inputs.Valid() && HalfYearEnd(cursor) && CardsFrom(inputs, cursor, periods).Some?
    ensures InOrder(CardsFrom(inputs, cursor, periods).value)
    ensures EndBy(CardsFrom(inputs, cursor, periods).value, inputs.common, Ordinal(cursor))
    decreases periods
  {
    hide CardAt;
    hide Ordinal;
    hide StartBoundary;
    hide LatestUpTo;
    hide GrowthOf;
    if periods > 0 {
      var boundary := StartBoundary(cursor).value;
      StartBoundaryIsPrevious(cursor);
      KnownCardsInOrder(inputs, boundary, periods - 1);
      if CardAt(inputs, boundary, cursor).Card? { KnownCardDates(inputs, boundary, cursor); }
    }
  }

  lemma {:induction false} HalfYearsTile(inputs: Inputs, cursor: CalendarDate, periods: nat)
    requires inputs.Valid() && HalfYearEnd(cursor) && CardsFrom(inputs, cursor, periods).Some?
    ensures Tiled(CardsFrom(inputs, cursor, periods).value)
    ensures periods > 0 ==> EndsAt(inputs, CardsFrom(inputs, cursor, periods).value[periods - 1], cursor)
    decreases periods
  {
    hide CardAt;
    hide Ordinal;
    hide StartBoundary;
    hide LatestUpTo;
    if periods > 0 {
      var boundary := StartBoundary(cursor).value;
      StartBoundaryIsPrevious(cursor);
      HalfYearsTile(inputs, boundary, periods - 1);
      var older, card := CardsFrom(inputs, boundary, periods - 1).value, CardAt(inputs, boundary, cursor);
      var cards := CardsFrom(inputs, cursor, periods).value;
      assert cards == older + [card];
      if card.Card? { KnownCardDates(inputs, boundary, cursor); }
      forall i | 0 <= i < |cards| - 1 && cards[i].Card? && cards[i + 1].Card?
        ensures cards[i].end == cards[i + 1].start
      {
        if i < |cards| - 2 { assert older[i].Card? && older[i + 1].Card?; }
      }
    }
  }

  datatype Side = Fund | Proxy

  function ReturnOf(card: Scorecard, side: Side): real
    requires card.Card?
  {
    if side.Fund? then card.fundReturn else card.proxyReturn
  }

  function SeriesOf(inputs: Inputs, side: Side): Series { if side.Fund? then inputs.funds else inputs.etfs }

  /** The product of one side's unrounded growth factors over a run of known scorecards. */
  ghost function TotalGrowth(cards: seq<Scorecard>, side: Side): real
    requires forall i :: 0 <= i < |cards| ==> cards[i].Card?
  {
    if cards == [] then 1.0
    else TotalGrowth(cards[..|cards| - 1], side) * (ReturnOf(cards[|cards| - 1], side) / 100.0 + 1.0)
  }

  ghost predicate MeasuredOn(cards: seq<Scorecard>, series: Series, side: Side) {
    forall i :: 0 <= i < |cards| && cards[i].Card? ==>
      && cards[i].start >= 0 && cards[i].end >= 0 && cards[i].start in series && cards[i].end in series
      && ReturnOf(cards[i], side) == (GrowthOf(series, cards[i].start, cards[i].end) - 1.0) * 100.0
  }

  lemma {:induction false} CardsMeasured(inputs: Inputs, cursor: CalendarDate, periods: nat, side: Side)
    requires inputs.Valid() && HalfYearEnd(cursor) && CardsFrom(inputs, cursor, periods).Some?
    ensures MeasuredOn(CardsFrom(inputs, cursor, periods).value, SeriesOf(inputs, side), side)
    decreases periods
  {
    hide CardAt;
    hide Ordinal;
    hide StartBoundary;
    hide GrowthOf;
    if periods > 0 {
      var boundary := StartBoundary(cursor).value;
      StartBoundaryIsPrevious(cursor);
      CardsMeasured(inputs, boundary, periods - 1, side);
      if CardAt(inputs, boundary, cursor).Card? { KnownCardDates(inputs, boundary, cursor); }
    }
  }

  lemma ChainGrowth(x: Positive, y: Positive, z: Positive)
    ensures Over(y, x) * Over(z, y) == Over(z, x)
  {
    var a, b := Over(y, x), Over(z, y);
    assert a * x == y && b * y == z;
    TimesEqual(b, a * x, y);
    assert (a * b) * x == b * (a * x);
    Cancel(a * b, Over(z, x), x);
  }

  lemma ChainGrowthOf(series: Series, a: int, b: int, c: int)
    requires a >= 0 && b >= 0 && c >= 0 && a in series && b in series && c in series
    ensures GrowthOf(series, a, b) * GrowthOf(series, b, c) == GrowthOf(series, a, c)
  {
    ChainGrowth(series[a as nat], series[b as nat], series[c as nat]);
  }

  /** Known half-year growth factors multiply to the growth over the whole span. */
  lemma {:induction false} GrowthTelescopes(cards: seq<Scorecard>, series: Series, side: Side)
    requires cards != [] && (forall i :: 0 <= i < |cards| ==> cards[i].Card?)
    requires Tiled(cards) && MeasuredOn(cards, series, side)
    ensures TotalGrowth(cards, side) == GrowthOf(series, cards[0].start, cards[|cards| - 1].end)
  {
    hide GrowthOf;
    var n := |cards| - 1;
    var last := cards[n];
    var growth := GrowthOf(series, last.start, last.end);
    assert ReturnOf(last, side) / 100.0 + 1.0 == growth;
    if n == 0 {
      assert cards[..0] == [];
      TimesEqual(1.0, ReturnOf(last, side) / 100.0 + 1.0, growth);
    } else {
      var front := cards[..n];
      TiledPrefix(cards);
      GrowthTelescopes(front, series, side);
      assert cards[n - 1].end == cards[n - 1 + 1].start;
      ChainGrowthOf(series, cards[0].start, last.start, last.end);
      TimesEqual(TotalGrowth(front, side), ReturnOf(last, side) / 100.0 + 1.0, growth);
      TimesEqual(growth, TotalGrowth(front, side), GrowthOf(series, cards[0].start, last.start));
    }
  }

  lemma TiledPrefix(cards: seq<Scorecard>)
    requires cards != [] && Tiled(cards)
    ensures Tiled(cards[..|cards| - 1])
  {
    var front := cards[..|cards| - 1];
    forall i | 0 <= i < |front| - 1 && front[i].Card? && front[i + 1].Card? ensures front[i].end == front[i + 1].start {
      assert cards[i].end == cards[i + 1].start;
    }
  }

  /**
   Half-years tile the reviewed span: when every scorecard of a run is known, its
   unrounded growth factors, the fund's as well as the proxy's, multiply to the growth
   from the first start to the last end.
   */
  lemma HalfYearGrowth(inputs: Inputs, cursor: CalendarDate, periods: nat, side: Side)
    requires inputs.Valid() && HalfYearEnd(cursor) && periods > 0 && CardsFrom(inputs, cursor, periods).Some?
    requires forall i :: 0 <= i < periods ==> CardsFrom(inputs, cursor, periods).value[i].Card?
    ensures var cards := CardsFrom(inputs, cursor, periods).value;
      && cards[0].start >= 0 && cards[periods - 1].end >= 0
      && cards[0].start in SeriesOf(inputs, side) && cards[periods - 1].end in SeriesOf(inputs, side)
      && TotalGrowth(cards, side) == GrowthOf(SeriesOf(inputs, side), cards[0].start, cards[periods - 1].end)
  {
    hide CardsFrom;
    HalfYearsTile(inputs, cursor, periods);
    CardsMeasured(inputs, cursor, periods, side);
    GrowthTelescopes(CardsFrom(inputs, cursor, periods).value, SeriesOf(inputs, side), side);
  }
}
