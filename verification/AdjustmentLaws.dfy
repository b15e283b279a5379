/** What the adjusted history keeps: the closed form, no repainting, and merging laws. */
module AdjustmentLaws {
  import opened Prelude
  import opened Ordering
  import opened RealMath
  import opened Adjustment

  // ----- closed form -----

  /** The ratio of one step is (previous close - dividend) / (previous close * effective split). */
  lemma RatioAsFraction(previous: CleanBar, bar: CleanBar)
    requires StepFailure(previous, bar) == None
    ensures Ratio(previous, bar) * previous.close.value * Effective(previous, bar)
         == previous.close.value - bar.dividend.value
  {
    var close, effective := previous.close.value, Effective(previous, bar);
    var split, kept := SplitPart(previous, bar), DividendPart(previous, bar);
    assert split * effective == 1.0;
    assert kept * close == close - bar.dividend.value;
    assert Ratio(previous, bar) * close * effective == (split * kept) * close * effective by {
      TimesEqual(close * effective, Ratio(previous, bar), split * kept);
    }
    assert (split * kept) * close * effective == (kept * close) * (split * effective);
    TimesEqual(kept * close, split * effective, 1.0);
  }

  lemma RecurrenceArithmetic(before: real, now: real, effective: real, left: real, r: real, f: real, f': real)
    requires r * before * effective == left && f' == r * f
    ensures before * f' * now * effective == now * f * left
  {
    TimesEqual(before * now * effective, f', r * f);
    TimesEqual(f * now, r * before * effective, left);
  }

  /** The newest adjusted close is the raw close; earlier ones obey the adjustment recurrence. */
  lemma ClosedForm(bars: seq<CleanBar>, i: nat)
    requires Adjustable(bars) && 1 <= i < |bars|
    ensures AdjustedValue(bars, |bars| - 1) == bars[|bars| - 1].close.value
    ensures AdjustedValue(bars, i - 1) * bars[i].close.value * Effective(bars[i - 1], bars[i])
         == AdjustedValue(bars, i) * (bars[i - 1].close.value - bars[i].dividend.value)
  {
    hide Ratio;
    hide Effective;
    assert StepsBack(bars, i);
    RatioAsFraction(bars[i - 1], bars[i]);
    RecurrenceArithmetic(
      bars[i - 1].close.value, bars[i].close.value, Effective(bars[i - 1], bars[i]),
      bars[i - 1].close.value - bars[i].dividend.value,
      Ratio(bars[i - 1], bars[i]), Factor(bars, i), Factor(bars, i - 1));
  }

  // ----- which split factor is applied -----

  /** The relative gap between a close and the one before it. */
  function PriceGap(previousClose: real, close: real): real
    requires previousClose != 0.0
  {
    Abs(Over(close, previousClose) - 1.0)
  }

  /**
   Between positive closes the factor applied is the one of 1 and the provider's split
   that leaves the smaller gap, and 1 when they tie; otherwise it is the provider's.
   */
  lemma SmallestGapIsChosen(previous: CleanBar, bar: CleanBar)
    ensures var before, close, split, effective := previous.close.value, bar.close.value, bar.splitFactor.value, Effective(previous, bar);
      && (effective == 1.0 || effective == split)
      && (before > 0.0 && close > 0.0 ==>
            && PriceGap(before, Times(close, effective)) <= PriceGap(before, close)
            && PriceGap(before, Times(close, effective)) <= PriceGap(before, Times(close, split))
            && (PriceGap(before, close) == PriceGap(before, Times(close, split)) ==> effective == 1.0))
      && (before <= 0.0 || close <= 0.0 ==> effective == split)
  {
    var before, close, split := previous.close.value, bar.close.value, bar.splitFactor.value;
    TimesOne(close);
    if before > 0.0 {
      GapForms(before, close, split);
      hide Abs;
      hide Over;
      hide Times;
      if split == 1.0 {
        assert Times(close, split) == close;
      }
    }
  }

  lemma TimesOne(x: real)
    ensures Times(x, 1.0) == x
  {}

  lemma GapForms(before: real, close: real, split: real)
    requires before > 0.0
    ensures Abs(close / before - 1.0) == PriceGap(before, close)
    ensures Abs(close * split / before - 1.0) == PriceGap(before, Times(close, split))
  {
    hide Abs;
    assert close * split == Times(close, split);
  }

  /** Without a dividend the adjusted prices move exactly by the factor applied. */
  lemma AdjustedGap(bars: seq<CleanBar>, i: nat)
    requires Adjustable(bars) && 1 <= i < |bars| && bars[i].dividend.value == 0.0
    requires bars[i - 1].close.value > 0.0 && bars[i].close.value > 0.0
    ensures AdjustedValue(bars, i - 1) != 0.0
    ensures Over(AdjustedValue(bars, i), AdjustedValue(bars, i - 1))
         == bars[i].close.value * Effective(bars[i - 1], bars[i]) / bars[i - 1].close.value
  {
    hide Effective;
    hide Factor;
    ClosedForm(bars, i);
    FactorSign(bars, i - 1);
    var v, before, close, effective := AdjustedValue(bars, i), AdjustedValue(bars, i - 1), bars[i].close.value, Effective(bars[i - 1], bars[i]);
    CrossRatio(before, close * effective, v, bars[i - 1].close.value, bars[i - 1].close.value, Factor(bars, i - 1));
  }

  lemma CrossRatio(before: real, x: real, v: real, previous: real, close: real, factor: real)
    requires before * x == v * previous && previous != 0.0 && before == close * factor && close != 0.0 && factor != 0.0
    ensures before != 0.0 && Over(v, before) == x / previous
  {
    if before == 0.0 { Cancel(close, 0.0, factor); }
    var a, b := Over(v, before), x / previous;
    assert a * before == v && b * previous == x;
    assert (a * before) * previous == (b * previous) * before by { TimesEqual(previous, a * before, v); TimesEqual(before, b * previous, x); }
    assert a * (before * previous) == b * (before * previous);
    if before * previous == 0.0 { Cancel(before, 0.0, previous); }
    Cancel(a, b, before * previous);
  }

  /** So an adjusted step is never larger than the raw one, nor than the one the split alone would leave. */
  lemma AdjustedGapIsSmallest(bars: seq<CleanBar>, i: nat)
    requires Adjustable(bars) && 1 <= i < |bars| && bars[i].dividend.value == 0.0
    requires bars[i - 1].close.value > 0.0 && bars[i].close.value > 0.0
    ensures AdjustedValue(bars, i - 1) != 0.0
    ensures var before, close, gap := bars[i - 1].close.value, bars[i].close.value, PriceGap(AdjustedValue(bars, i - 1), AdjustedValue(bars, i));
      gap <= PriceGap(before, close) && gap <= PriceGap(before, Times(close, bars[i].splitFactor.value))
  {
    hide Effective;
    hide AdjustedValue;
    AdjustedGap(bars, i);
    SmallestGapIsChosen(bars[i - 1], bars[i]);
    hide Abs;
    var before, close, effective := bars[i - 1].close.value, bars[i].close.value, Effective(bars[i - 1], bars[i]);
    assert Over(Times(close, effective), before) == close * effective / before;
    hide Over;
    hide Times;
    assert PriceGap(AdjustedValue(bars, i - 1), AdjustedValue(bars, i)) == PriceGap(before, Times(close, effective));
  }

  /** A raw split is smoothed away, and a split the provider has applied already is not applied again. */
  lemma SplitsAreSmoothed(bars: seq<CleanBar>, i: nat)
    requires Adjustable(bars) && 1 <= i < |bars| && bars[i].dividend.value == 0.0
    requires bars[i - 1].close.value > 0.0 && bars[i].close.value > 0.0
    requires Times(bars[i].close.value, bars[i].splitFactor.value) == bars[i - 1].close.value || bars[i].close.value == bars[i - 1].close.value
    ensures AdjustedValue(bars, i - 1) == AdjustedValue(bars, i)
  {
    hide AdjustedValue;
    hide Times;
    AdjustedGapIsSmallest(bars, i);
    NoGap(bars[i - 1].close.value);
    GapIsZero(AdjustedValue(bars, i - 1), AdjustedValue(bars, i));
  }

  lemma NoGap(x: real)
    requires x != 0.0
    ensures PriceGap(x, x) == 0.0
  {
    assert Over(x, x) == 1.0;
  }

  lemma GapIsZero(x: real, y: real)
    requires x != 0.0 && PriceGap(x, y) <= 0.0
    ensures x == y
  {
    var ratio := Over(y, x);
    assert ratio == 1.0;
    assert ratio * x == y;
  }

  // ----- one appended bar -----

  /** A step keeps the sign of the history exactly when no dividend meets a non-positive close. */
  lemma RatioSign(previous: CleanBar, bar: CleanBar)
    requires StepFailure(previous, bar) == None
    ensures Ratio(previous, bar) != 0.0
    ensures Ratio(previous, bar) > 0.0 <==> bar.dividend.value == 0.0 || previous.close.value > 0.0
  {
    var close, kept := previous.close.value, DividendPart(previous, bar);
    if bar.dividend.value != 0.0 {
      assert kept * close == close - bar.dividend.value > 0.0;
      assert close > 0.0 ==> kept > 0.0;
      assert close < 0.0 ==> kept < 0.0;
    }
    ProductSign(SplitPart(previous, bar), kept);
  }

  lemma ProductSign(x: real, y: real)
    requires x > 0.0
    ensures x * y > 0.0 <==> y > 0.0
    ensures x * y == 0.0 <==> y == 0.0
  {}

  /** The factors of a longer history are those of the shorter one times a single number. */
  lemma {:induction false} FactorConcat(bars: seq<CleanBar>, later: seq<CleanBar>, i: nat)
    requires i < |bars|
    ensures Factor(bars + later, i) == Factor(bars, i) * Factor(bars + later, |bars| - 1)
    decreases |bars| - i
  {
    hide Ratio;
    var longer, g := bars + later, Factor(bars + later, |bars| - 1);
    if i < |bars| - 1 {
      FactorConcat(bars, later, i + 1);
      var r := Ratio(bars[i], bars[i + 1]);
      assert longer[i] == bars[i] && longer[i + 1] == bars[i + 1];
      TimesEqual(r, Factor(longer, i + 1), Factor(bars, i + 1) * g);
      TimesEqual(g, Factor(bars, i), r * Factor(bars, i + 1));
    }
  }

  /** Price levels of an adjusted history. */
  function Closes(history: seq<CleanBar>): (r: seq<real>)
    requires FullyAdjusted(history)
    ensures |r| == |history|
  {
    seq(|history|, i requires 0 <= i < |history| => history[i].adjustedClose.value.value)
  }

  function Raw(bar: DailyBar): DailyBar { bar.(adjustedClose := None) }

  ghost predicate SameRaw(s: seq<DailyBar>, t: seq<DailyBar>) {
    |s| == |t| && forall i :: 0 <= i < |s| ==> Raw(s[i]) == Raw(t[i])
  }

  /** A non-zero dividend after a negative close turns the sign of the earlier history. */
  predicate TurnsSign(previous: CleanBar, bar: CleanBar) { bar.dividend.value != 0.0 && previous.close.value < 0.0 }

  /** How many bars from `from` on turn the sign of the history before them. */
  ghost function Flips(bars: seq<CleanBar>, from: nat): nat
    requires 1 <= from <= |bars|
    decreases |bars| - from
  {
    if from == |bars| then 0 else (if TurnsSign(bars[from - 1], bars[from]) then 1 else 0) + Flips(bars, from + 1)
  }

  /** A factor is never zero, and it is positive exactly when the later bars turn the sign an even number of times. */
  lemma {:induction false} FactorSign(bars: seq<CleanBar>, i: nat)
    requires i < |bars| && Adjustable(bars)
    ensures Factor(bars, i) != 0.0
    ensures Factor(bars, i) > 0.0 <==> Flips(bars, i + 1) % 2 == 0
    decreases |bars| - i
  {
    hide Ratio;
    if i < |bars| - 1 {
      assert StepsBack(bars, i + 1);
      RatioSign(bars[i], bars[i + 1]);
      FactorSign(bars, i + 1);
      SignOfProduct(Ratio(bars[i], bars[i + 1]), Factor(bars, i + 1));
    }
  }

  lemma SignOfProduct(x: real, y: real)
    requires x != 0.0 && y != 0.0
    ensures x * y != 0.0
    ensures x * y > 0.0 <==> (x > 0.0) == (y > 0.0)
  {}

  /** A caller's check that is enough: every dividend is zero or paid out of a close that is not negative. */
  lemma {:induction false} NormalPayoutsNeverFlip(bars: seq<CleanBar>, from: nat)
    requires 1 <= from <= |bars|
    requires forall k {:trigger bars[k]} :: from <= k < |bars| ==> bars[k].dividend.value == 0.0 || bars[k - 1].close.value >= 0.0
    ensures Flips(bars, from) == 0
    decreases |bars| - from
  {
    if from < |bars| { NormalPayoutsNeverFlip(bars, from + 1); }
  }

  function PriceBar(day: int, close: real, dividend: real): CleanBar {
    var price := Finite(close);
    DailyBar(day, price, price, price, price, 0, Finite(dividend), Finite(1.0), None, "example")
  }

  /** A negative close followed by a bar with a dividend: the whole earlier history changes sign. */
  lemma NegativeCloseTurnsSign()
    ensures var bars := [PriceBar(0, -1.0, 0.0), PriceBar(1, 1.0, -2.0)];
      AdjustBars(bars).Ok? && Factor(bars, 0) == -1.0 && AdjustedValue(bars, 0) == 1.0
  {
    var bars := [PriceBar(0, -1.0, 0.0), PriceBar(1, 1.0, -2.0)];
    assert StepFailure(bars[0], bars[1]) == None;
    assert bars[..1] == [bars[0]];
    assert SplitPart(bars[0], bars[1]) == 1.0 && DividendPart(bars[0], bars[1]) == -1.0;
    assert Factor(bars, 1) == 1.0;
  }

  lemma DividesByZeroIff(previous: CleanBar, bar: CleanBar)
    ensures StepFailure(previous, bar).Some? && StepFailure(previous, bar).value.DivisionByZero?
       <==> previous.close.value == 0.0 && bar.dividend.value < 0.0
  {}

  /** A close of zero followed by a bar with a negative dividend: the program divides by zero. */
  lemma ZeroCloseDividesByZero()
    ensures AdjustBars([PriceBar(0, 0.0, 0.0), PriceBar(1, 1.0, -1.0)]) == Err(DivisionByZero(1))
  {
    var bars := [PriceBar(0, 0.0, 0.0), PriceBar(1, 1.0, -1.0)];
    assert StepFailure(bars[0], bars[1]) == Some(DivisionByZero(1));
  }

  lemma AdjustablePrefix(bars: seq<CleanBar>, later: seq<CleanBar>)
    requires AdjustBars(bars + later).Ok?
    ensures AdjustBars(bars).Ok? && Adjustable(bars + later)
  {
    AdjustableIffNoFailure(bars + later);
    AdjustableIffNoFailure(bars);
    forall i | 1 <= i < |bars| ensures StepsBack(bars, i) { assert StepsBack(bars + later, i); }
  }

  lemma AdjustedHistory(bars: seq<CleanBar>)
    requires AdjustBars(bars).Ok?
    ensures var history := AdjustBars(bars).value;
      && |history| == |bars| && FullyAdjusted(history) && SameRaw(history, bars)
      && forall i {:trigger Closes(history)[i]} :: 0 <= i < |bars| ==> Closes(history)[i] == AdjustedValue(bars, i)
  {}

  lemma ValuesScale(bars: seq<CleanBar>, later: seq<CleanBar>, i: nat)
    requires i < |bars|
    ensures AdjustedValue(bars + later, i) == AdjustedValue(bars, i) * Factor(bars + later, |bars| - 1)
  {
    hide Ratio;
    FactorConcat(bars, later, i);
    ScaledValue(bars[i].close.value, Factor(bars, i), Factor(bars + later, |bars| - 1), Factor(bars + later, i));
  }

  /**
   No repainting: bars and corporate actions that arrive later multiply every
   earlier adjusted close by one common factor.  The factor is never zero, and it is
   positive exactly when the later bars turn the sign an even number of times.
   */
  lemma NoRepaint(bars: seq<CleanBar>, later: seq<CleanBar>) returns (g: real)
    requires bars != [] && AdjustBars(bars + later).Ok?
    ensures AdjustBars(bars).Ok?
    ensures var older, newer := AdjustBars(bars).value, AdjustBars(bars + later).value;
      && FullyAdjusted(older) && FullyAdjusted(newer)
      && SameRaw(older, bars) && SameRaw(newer, bars + later)
      && ScaledPrefix(Closes(older), Closes(newer), g)
    ensures g != 0.0
    ensures g > 0.0 <==> Flips(bars + later, |bars|) % 2 == 0
  {
    hide Factor;
    hide AdjustBars;
    AdjustablePrefix(bars, later);
    g := Factor(bars + later, |bars| - 1);
    FactorSign(bars + later, |bars| - 1);
    AdjustedHistory(bars);
    AdjustedHistory(bars + later);
    forall i | 0 <= i < |bars|
      ensures AdjustedValue(bars + later, i) == AdjustedValue(bars, i) * g
    {
      ValuesScale(bars, later, i);
    }
  }

  lemma ScaledValue(close: real, f: real, g: real, f': real)
    requires f' == f * g
    ensures close * f' == (close * f) * g
  {
    TimesEqual(close, f', f * g);
  }

  /** For a single appended bar: no dividend, or a positive close before it. */
  lemma NoRepaintSign(bars: seq<CleanBar>, bar: CleanBar)
    requires bars != [] && AdjustBars(bars + [bar]).Ok?
    ensures Factor(bars + [bar], |bars| - 1) > 0.0
        <==> bar.dividend.value == 0.0 || bars[|bars| - 1].close.value > 0.0
  {
    hide Ratio;
    AdjustablePrefix(bars, [bar]);
    assert StepsBack(bars + [bar], |bars|);
    RatioSign(bars[|bars| - 1], bar);
    assert Factor(bars + [bar], |bars|) == 1.0;
  }

  function SplitBar(day: int, close: real, split: real): CleanBar
    requires split > 0.0
  {
    PriceBar(day, close, 0.0).(splitFactor := Finite(split))
  }

  /** Closes 100 and 50 across a two-for-one split become 50 and 50; closes 50 and 51, adjusted already, stay. */
  lemma SplitExamples()
    ensures AdjustedValue([PriceBar(0, 100.0, 0.0), SplitBar(1, 50.0, 2.0)], 0) == 50.0
    ensures AdjustedValue([PriceBar(0, 50.0, 0.0), SplitBar(1, 51.0, 2.0)], 0) == 50.0
  {
    OneSplit(PriceBar(0, 100.0, 0.0), SplitBar(1, 50.0, 2.0));
    OneSplit(PriceBar(0, 50.0, 0.0), SplitBar(1, 51.0, 2.0));
    assert 50.0 / 100.0 - 1.0 == -0.5 && 50.0 * 2.0 / 100.0 - 1.0 == 0.0;
    assert 51.0 / 50.0 - 1.0 == 0.02 && 51.0 * 2.0 / 50.0 - 1.0 == 1.04;
  }

  lemma OneSplit(previous: CleanBar, bar: CleanBar)
    requires bar.dividend.value == 0.0
    ensures AdjustedValue([previous, bar], 0) == previous.close.value * (1.0 / Effective(previous, bar))
  {
    hide Effective;
    var bars := [previous, bar];
    assert Factor(bars, 1) == 1.0;
    assert Factor(bars, 0) == Ratio(previous, bar);
  }

  /** A bar is dropped exactly when some value of it is not finite or its split factor is not positive. */
  lemma DroppedIff(bar: DailyBar)
    ensures Merged([], [bar]) == [] <==>
      || bar.open.NonFinite? || bar.high.NonFinite? || bar.low.NonFinite? || bar.close.NonFinite?
      || bar.dividend.NonFinite? || bar.splitFactor.NonFinite? || bar.splitFactor.value <= 0.0
      || (bar.adjustedClose.Some? && bar.adjustedClose.value.NonFinite?)
    ensures Merged([], [bar]) != [] ==> Merged([], [bar]) == [bar]
  {
    hide SortedDays;
    assert [bar][..0] == [];
    var m := Collect(Collect(map[], []), [bar]);
    if BarIsFinite(bar) {
      assert m.Keys == {bar.day};
      IncreasingUnique(SortedDays(m.Keys), [bar.day]);
      assert SortedBars(m) == [bar];
    } else {
      assert m.Keys == {};
      IncreasingUnique(SortedDays(m.Keys), []);
    }
  }

  // ----- merging in instalments -----

  lemma {:induction false} CollectConcat(m: BarMap, b: seq<DailyBar>, c: seq<DailyBar>)
    ensures Collect(m, b + c) == Collect(Collect(m, b), c)
  {
    if c == [] {
      assert b + c == b;
    } else {
      CollectConcat(m, b, c[..|c| - 1]);
      assert (b + c)[..|b + c| - 1] == b + c[..|c| - 1];
    }
  }

  lemma {:induction false} CollectWellKeyed(m: BarMap, bars: seq<DailyBar>)
    requires WellKeyed(m)
    ensures WellKeyed(Collect(m, bars))
  {
    if bars != [] { CollectWellKeyed(m, bars[..|bars| - 1]); }
  }

  ghost function Days(bars: seq<DailyBar>): set<int> {
    set bar | bar in bars :: bar.day
  }

  ghost function FiniteDays(bars: seq<DailyBar>): set<int> {
    set bar | bar in bars && BarIsFinite(bar) :: bar.day
  }

  /** The merged dates are those on hand plus those of the finite incoming bars. */
  lemma {:induction false} CollectKeys(m: BarMap, bars: seq<DailyBar>)
    ensures Collect(m, bars).Keys == m.Keys + FiniteDays(bars)
  {
    if bars != [] {
      var front, bar := bars[..|bars| - 1], bars[|bars| - 1];
      CollectKeys(m, front);
      assert bars == front + [bar];
      assert FiniteDays(bars) == FiniteDays(front) + if BarIsFinite(bar) then {bar.day} else {};
    }
  }

  /** On each date the last finite incoming bar wins over everything before it. */
  lemma {:induction false} IncomingWins(m: BarMap, bars: seq<DailyBar>, k: nat)
    requires k < |bars| && BarIsFinite(bars[k])
    requires forall j :: k < j < |bars| && BarIsFinite(bars[j]) ==> bars[j].day != bars[k].day
    ensures bars[k].day in Collect(m, bars) && Collect(m, bars)[bars[k].day] == bars[k]
  {
    var n := |bars| - 1;
    if k < n { IncomingWins(m, bars[..n], k); }
  }

  ghost predicate Chronological(bars: seq<DailyBar>) {
    forall i, j :: 0 <= i < j < |bars| ==> bars[i].day < bars[j].day
  }

  lemma SortedBarsOrdered(m: BarMap)
    requires WellKeyed(m)
    ensures |SortedBars(m)| == |m.Keys| && Chronological(SortedBars(m))
    ensures forall k :: 0 <= k < |m.Keys| ==> SortedBars(m)[k].day in m && SortedBars(m)[k] == m[SortedBars(m)[k].day]
  {
    hide SortedDays;
    var days := SortedDays(m.Keys);
    assert forall k :: 0 <= k < |days| ==> days[k] in days && days[k] in m;
    assert forall k :: 0 <= k < |days| ==> SortedBars(m)[k] == m[days[k]];
  }

  lemma BarOnDay(m: BarMap, day: int) returns (k: nat)
    requires WellKeyed(m) && day in m
    ensures k < |SortedBars(m)| && SortedBars(m)[k] == m[day]
  {
    assert day in SortedDays(m.Keys);
    k :| 0 <= k < |SortedDays(m.Keys)| && SortedDays(m.Keys)[k] == day;
  }

  lemma SortedBarsDays(m: BarMap)
    requires WellKeyed(m)
    ensures Days(SortedBars(m)) == m.Keys
  {
    SortedBarsOrdered(m);
    forall day | day in m.Keys ensures day in Days(SortedBars(m)) {
      var k := BarOnDay(m, day);
      assert SortedBars(m)[k] in SortedBars(m);
    }
  }

  ghost predicate SameBars(m: BarMap, m': BarMap) {
    m.Keys == m'.Keys && forall d :: d in m ==> Raw(m[d]) == Raw(m'[d])
  }

  lemma {:induction false} CollectRespects(m: BarMap, m': BarMap, bars: seq<DailyBar>)
    requires SameBars(m, m')
    ensures SameBars(Collect(m, bars), Collect(m', bars))
  {
    if bars != [] { CollectRespects(m, m', bars[..|bars| - 1]); }
  }

  /** Collecting an ordered clean history gives it back date by date. */
  lemma CollectOrdered(bars: seq<CleanBar>)
    requires Chronological(bars)
    ensures Collect(map[], bars).Keys == Days(bars)
    ensures forall k :: 0 <= k < |bars| ==> bars[k].day in Days(bars) && Collect(map[], bars)[bars[k].day] == bars[k]
  {
    CollectKeys(map[], bars);
    assert FiniteDays(bars) == Days(bars);
    forall k | 0 <= k < |bars|
      ensures bars[k].day in Days(bars) && Collect(map[], bars)[bars[k].day] == bars[k]
    {
      IncomingWins(map[], bars, k);
    }
  }

  /** The two bars agree in all that adjusting reads. */
  predicate SameBasis(x: DailyBar, y: DailyBar) {
    x.day == y.day && x.close == y.close && x.dividend == y.dividend && x.splitFactor == y.splitFactor
  }

  ghost predicate SameBases(s: seq<DailyBar>, t: seq<DailyBar>) {
    |s| == |t| && forall i :: 0 <= i < |s| ==> SameBasis(s[i], t[i])
  }

  lemma RawIsBasis(s: seq<DailyBar>, t: seq<DailyBar>)
    requires SameRaw(s, t)
    ensures SameBases(s, t)
  {
    assert forall i :: 0 <= i < |s| ==> Raw(s[i]).day == Raw(t[i]).day && Raw(s[i]).close == Raw(t[i]).close;
  }

  lemma {:induction false} FailureRespects(s: seq<CleanBar>, t: seq<CleanBar>)
    requires SameBases(s, t)
    ensures NewestFailure(s) == NewestFailure(t)
  {
    if |s| > 1 {
      assert SameBasis(s[|s| - 2], t[|s| - 2]) && SameBasis(s[|s| - 1], t[|s| - 1]);
      FailureRespects(s[..|s| - 1], t[..|t| - 1]);
    }
  }

  lemma RatioRespects(p: CleanBar, b: CleanBar, p': CleanBar, b': CleanBar)
    requires SameBasis(p, p') && SameBasis(b, b')
    ensures Ratio(p, b) == Ratio(p', b')
  {}

  lemma {:induction false} FactorRespects(s: seq<CleanBar>, t: seq<CleanBar>, i: nat)
    requires SameBases(s, t) && i < |s|
    ensures Factor(s, i) == Factor(t, i)
    decreases |s| - i
  {
    hide Ratio;
    if i < |s| - 1 {
      FactorRespects(s, t, i + 1);
      RatioRespects(s[i], s[i + 1], t[i], t[i + 1]);
    }
  }

  lemma AdjustRespects(s: seq<CleanBar>, t: seq<CleanBar>)
    requires SameRaw(s, t)
    ensures AdjustBars(s) == AdjustBars(t)
  {
    hide Factor;
    hide NewestFailure;
    RawIsBasis(s, t);
    FailureRespects(s, t);
    if NewestFailure(s) == None {
      var x, y := AdjustBars(s).value, AdjustBars(t).value;
      forall i | 0 <= i < |s| ensures x[i] == y[i] {
        assert Raw(s[i]) == Raw(t[i]);
        assert s[i].close == t[i].close;
        FactorRespects(s, t, i);
        assert AdjustedValue(s, i) == AdjustedValue(t, i);
      }
      assert x == y;
    }
  }

  lemma BasisDays(s: seq<DailyBar>, t: seq<DailyBar>)
    requires SameBases(s, t)
    ensures Days(s) == Days(t) && (Chronological(s) <==> Chronological(t))
  {
    assert forall i :: 0 <= i < |s| ==> s[i].day == t[i].day;
    forall bar | bar in s ensures bar.day in Days(t) {
      var i :| 0 <= i < |s| && s[i] == bar;
      assert t[i] in t;
    }
    forall bar | bar in t ensures bar.day in Days(s) {
      var i :| 0 <= i < |t| && t[i] == bar;
      assert s[i] in s;
    }
  }

  /** Collecting bars with the raw fields of the sorted bars of a map restores the map, up to adjusted closes. */
  lemma CollectRestores(m: BarMap, history: seq<CleanBar>)
    requires WellKeyed(m) && SameRaw(history, SortedBars(m))
    ensures Chronological(history) && SameBars(Collect(map[], history), m)
  {
    SortedBarsOrdered(m);
    SortedBarsDays(m);
    RawIsBasis(history, SortedBars(m));
    BasisDays(history, SortedBars(m));
    CollectOrdered(history);
    forall day | day in m
      ensures Raw(Collect(map[], history)[day]) == Raw(m[day])
    {
      var k := BarOnDay(m, day);
      assert Raw(history[k]).day == Raw(SortedBars(m)[k]).day;
      assert Collect(map[], history)[history[k].day] == history[k];
    }
  }

  lemma SameBarsSorted(m: BarMap, m': BarMap)
    requires SameBars(m, m')
    ensures SameRaw(SortedBars(m), SortedBars(m'))
  {
    hide Raw;
    hide SortedDays;
    var days := SortedDays(m.Keys);
    assert forall k :: 0 <= k < |days| ==> days[k] in days && days[k] in m;
  }

  ghost function MergedMap(a: seq<DailyBar>, b: seq<DailyBar>): BarMap {
    Collect(Collect(map[], a), b)
  }

  /** What is known of a merge that did not raise. */
  lemma MergeShape(a: seq<DailyBar>, b: seq<DailyBar>)
    requires MergeSpec(a, b).Ok?
    ensures WellKeyed(MergedMap(a, b)) && MergedMap(a, b).Keys == FiniteDays(a + b)
    ensures SameRaw(MergeSpec(a, b).value, SortedBars(MergedMap(a, b)))
    ensures FullyAdjusted(MergeSpec(a, b).value)
  {
    hide AdjustBars;
    CollectWellKeyed(map[], a);
    CollectWellKeyed(Collect(map[], a), b);
    CollectConcat(map[], a, b);
    CollectKeys(map[], a + b);
    AdjustedHistory(SortedBars(MergedMap(a, b)));
  }

  /**
   Incremental refresh equals full rebuild: merging `c` into an already merged
   history gives exactly the outcome, value or exception, of merging everything at once.
   */
  lemma IncrementalEqualsRebuild(a: seq<DailyBar>, b: seq<DailyBar>, c: seq<DailyBar>)
    requires MergeSpec(a, b).Ok?
    ensures MergeSpec(MergeSpec(a, b).value, c) == MergeSpec(a, b + c)
  {
    hide AdjustBars;
    hide SortedBars;
    hide Collect;
    var m, history := MergedMap(a, b), MergeSpec(a, b).value;
    MergeShape(a, b);
    CollectRestores(m, history);
    var again := Collect(map[], history);
    CollectRespects(again, m, c);
    SameBarsSorted(Collect(again, c), Collect(m, c));
    AdjustRespects(SortedBars(Collect(again, c)), SortedBars(Collect(m, c)));
    CollectConcat(Collect(map[], a), b, c);
  }

  /** Re-merging a result with nothing is the identity. */
  lemma RemergeIsIdentity(a: seq<DailyBar>, b: seq<DailyBar>)
    requires MergeSpec(a, b).Ok?
    ensures MergeSpec(MergeSpec(a, b).value, []) == MergeSpec(a, b)
  {
    hide AdjustBars;
    IncrementalEqualsRebuild(a, b, []);
    assert b + [] == b;
  }

  /**
   The output is strictly date-ordered and fully adjusted, and its dates are
   exactly those of the finite bars of either input.
   */
  lemma MergedHistory(a: seq<DailyBar>, b: seq<DailyBar>)
    requires MergeSpec(a, b).Ok?
    ensures Chronological(MergeSpec(a, b).value) && FullyAdjusted(MergeSpec(a, b).value)
    ensures Days(MergeSpec(a, b).value) == FiniteDays(a + b)
  {
    hide AdjustBars;
    hide SortedBars;
    MergeShape(a, b);
    CollectRestores(MergedMap(a, b), MergeSpec(a, b).value);
    CollectOrdered(MergeSpec(a, b).value);
  }

  /** On each date the last finite incoming bar supplies the merged raw fields. */
  lemma MergeIncomingWins(a: seq<DailyBar>, b: seq<DailyBar>, k: nat) returns (i: nat)
    requires MergeSpec(a, b).Ok? && k < |b| && BarIsFinite(b[k])
    requires forall j :: k < j < |b| && BarIsFinite(b[j]) ==> b[j].day != b[k].day
    ensures i < |MergeSpec(a, b).value| && Raw(MergeSpec(a, b).value[i]) == Raw(b[k])
  {
    hide AdjustBars;
    hide SortedBars;
    MergeShape(a, b);
    IncomingWins(Collect(map[], a), b, k);
    i := BarOnDay(MergedMap(a, b), b[k].day);
  }

  // ----- no repainting, across refreshes -----

  lemma DaySequence(bars: seq<CleanBar>) returns (days: seq<int>)
    requires Chronological(bars)
    ensures |days| == |bars| && forall i :: 0 <= i < |bars| ==> days[i] == bars[i].day
    ensures days == SortedDays(Days(bars))
  {
    days := seq(|bars|, i requires 0 <= i < |bars| => bars[i].day);
    forall k ensures k in days <==> k in Days(bars) {
      if k in Days(bars) {
        var bar :| bar in bars && bar.day == k;
        var i :| 0 <= i < |bars| && bars[i] == bar;
        assert days[i] == k;
      }
    }
    IncreasingUnique(SortedDays(Days(bars)), days);
  }

  lemma SortedBarsOfOrdered(bars: seq<CleanBar>)
    requires Chronological(bars)
    ensures SortedBars(Collect(map[], bars)) == bars
  {
    hide Collect;
    CollectOrdered(bars);
    var days := DaySequence(bars);
    var sorted := SortedBars(Collect(map[], bars));
    forall i | 0 <= i < |bars| ensures sorted[i] == bars[i] {
      assert sorted[i] == Collect(map[], bars)[days[i]];
    }
  }

  /** What a merge returns; by RemergeIsIdentity every result of a merge is one. */
  ghost predicate IsMerged(history: seq<CleanBar>) { MergeSpec(history, []) == Ok(history) }

  lemma MergedIsAdjusted(history: seq<CleanBar>)
    requires IsMerged(history)
    ensures Chronological(history) && FullyAdjusted(history) && AdjustBars(history) == Ok(history)
  {
    hide AdjustBars;
    MergedHistory(history, []);
    SortedBarsOfOrdered(history);
  }

  ghost predicate IsLater(history: seq<CleanBar>, day: int) { forall k :: 0 <= k < |history| ==> history[k].day < day }

  ghost predicate Resent(history: seq<CleanBar>, bar: DailyBar) {
    exists k :: 0 <= k < |history| && SameBasis(bar, history[k])
  }

  /**
   A batch as a provider sends it, in any order and with repeats: a finite bar of a
   date on hand repeats that date's close, dividend and split; every other finite bar
   is later than all on hand.  Bars that are not finite may be anything.
   */
  ghost predicate Continues(history: seq<CleanBar>, batch: seq<DailyBar>) {
    forall bar :: bar in batch && BarIsFinite(bar) ==> Resent(history, bar) || IsLater(history, bar.day)
  }

  /** Every date on hand keeps its basis; every other date is later. */
  ghost predicate OnHand(history: seq<CleanBar>, m: BarMap) {
    && (forall k :: 0 <= k < |history| ==> history[k].day in m && SameBasis(m[history[k].day], history[k]))
    && forall d :: d in m ==> d in Days(history) || IsLater(history, d)
  }

  lemma CollectOne(history: seq<CleanBar>, m: BarMap, bar: CleanBar)
    requires Chronological(history) && OnHand(history, m) && (Resent(history, bar) || IsLater(history, bar.day))
    ensures OnHand(history, m[bar.day := bar])
  {
    if Resent(history, bar) {
      var j :| 0 <= j < |history| && SameBasis(bar, history[j]);
      assert history[j] in history;
    }
  }

  lemma {:induction false} CollectKeepsOnHand(history: seq<CleanBar>, batch: seq<DailyBar>)
    requires Chronological(history) && Continues(history, batch)
    ensures OnHand(history, Collect(Collect(map[], history), batch))
    decreases |batch|
  {
    hide OnHand;
    if batch == [] {
      assert OnHand(history, Collect(map[], history)) by { HistoryOnHand(history); }
    } else {
      var front, bar := batch[..|batch| - 1], batch[|batch| - 1];
      CollectKeepsOnHand(history, front);
      if BarIsFinite(bar) { CollectOne(history, Collect(Collect(map[], history), front), bar); }
    }
  }

  lemma HistoryOnHand(history: seq<CleanBar>)
    requires Chronological(history)
    ensures OnHand(history, Collect(map[], history))
  {
    hide Collect;
    CollectOrdered(history);
  }

  /** The dates on hand are all in the map, and every other date in it is later. */
  ghost predicate DaysOnHand(history: seq<CleanBar>, m: BarMap) {
    Days(history) <= m.Keys && forall d :: d in m && d !in Days(history) ==> IsLater(history, d)
  }

  lemma DaysSplit(history: seq<CleanBar>, m: BarMap)
    requires Chronological(history) && DaysOnHand(history, m)
    ensures |history| <= |m.Keys| && forall i :: 0 <= i < |history| ==> SortedDays(m.Keys)[i] == history[i].day
  {
    hide SortedDays;
    var known := DaySequence(history);
    var added := m.Keys - Days(history);
    assert m.Keys == Days(history) + added;
    forall a, b | a in Days(history) && b in added ensures a < b {
      var bar :| bar in history && bar.day == a;
      assert IsLater(history, b);
    }
    SortedDaysSplit(Days(history), added);
  }

  lemma KnownDays(history: seq<CleanBar>, m: BarMap)
    requires OnHand(history, m)
    ensures DaysOnHand(history, m)
  {
    forall bar | bar in history ensures bar.day in m {
      var i :| 0 <= i < |history| && history[i] == bar;
    }
  }

  /** A batch that continues a history leaves the basis of its bars alone and adds later bars after them. */
  lemma MergedContinues(history: seq<CleanBar>, batch: seq<DailyBar>)
    requires Chronological(history) && Continues(history, batch)
    ensures |history| <= |Merged(history, batch)| && SameBases(Merged(history, batch)[..|history|], history)
    ensures Chronological(Merged(history, batch))
  {
    hide Collect;
    var m := Collect(Collect(map[], history), batch);
    CollectKeepsOnHand(history, batch);
    CollectWellKeyed(map[], history);
    CollectWellKeyed(Collect(map[], history), batch);
    KnownDays(history, m);
    DaysSplit(history, m);
    SortedBarsOrdered(m);
    forall i | 0 <= i < |history| ensures SameBasis(Merged(history, batch)[i], history[i]) {
      assert Merged(history, batch)[i] == m[SortedDays(m.Keys)[i]];
    }
  }

  lemma BasisCloses(s: seq<CleanBar>, t: seq<CleanBar>)
    requires SameBases(s, t) && AdjustBars(s).Ok? && AdjustBars(t).Ok?
    ensures FullyAdjusted(AdjustBars(s).value) && FullyAdjusted(AdjustBars(t).value)
    ensures Closes(AdjustBars(s).value) == Closes(AdjustBars(t).value)
  {
    hide Factor;
    hide AdjustBars;
    AdjustedHistory(s);
    AdjustedHistory(t);
    forall i | 0 <= i < |s| ensures AdjustedValue(s, i) == AdjustedValue(t, i) {
      FactorRespects(s, t, i);
      assert SameBasis(s[i], t[i]);
    }
  }

  /** Every finite bar repeats the raw fields of a bar on hand. */
  ghost predicate OnlyResends(history: seq<CleanBar>, batch: seq<DailyBar>) {
    forall bar :: bar in batch && BarIsFinite(bar) ==> exists k :: 0 <= k < |history| && Raw(bar) == Raw(history[k])
  }

  lemma {:induction false} ResendKeepsBars(history: seq<CleanBar>, batch: seq<DailyBar>)
    requires Chronological(history) && OnlyResends(history, batch)
    ensures SameBars(Collect(Collect(map[], history), batch), Collect(map[], history))
    decreases |batch|
  {
    if batch != [] {
      var front, bar := batch[..|batch| - 1], batch[|batch| - 1];
      ResendKeepsBars(history, front);
      if BarIsFinite(bar) { ResendOne(history, Collect(Collect(map[], history), front), bar); }
    }
  }

  lemma ResendOne(history: seq<CleanBar>, m: BarMap, bar: CleanBar)
    requires Chronological(history) && SameBars(m, Collect(map[], history))
    requires exists k :: 0 <= k < |history| && Raw(bar) == Raw(history[k])
    ensures SameBars(m[bar.day := bar], Collect(map[], history))
  {
    hide Collect;
    hide Chronological;
    hide Raw;
    CollectOrdered(history);
    var k :| 0 <= k < |history| && Raw(bar) == Raw(history[k]);
    assert bar.day == history[k].day by { RawDay(bar, history[k]); }
  }

  lemma RawDay(x: DailyBar, y: DailyBar)
    requires Raw(x) == Raw(y)
    ensures x.day == y.day
  {
    assert Raw(x).day == Raw(y).day;
  }

  /** Fetching again what is on hand changes nothing, not even the adjusted closes. */
  lemma ResendIsIdentity(published: seq<CleanBar>, batch: seq<DailyBar>)
    requires IsMerged(published) && OnlyResends(published, batch)
    ensures MergeSpec(published, batch) == Ok(published)
  {
    hide AdjustBars;
    hide SortedBars;
    hide Collect;
    MergedIsAdjusted(published);
    ResendKeepsBars(published, batch);
    SameBarsSorted(Collect(Collect(map[], published), batch), Collect(map[], published));
    AdjustRespects(SortedBars(Collect(Collect(map[], published), batch)), SortedBars(Collect(map[], published)));
    SortedBarsOfOrdered(published);
  }

  /**
   A published history never repaints: refreshing it with any batch that continues it
   rescales every published price by one common non-zero factor and adds later bars.
   */
  lemma RefreshNeverRepaints(published: seq<CleanBar>, batch: seq<DailyBar>) returns (g: real)
    requires IsMerged(published) && Continues(published, batch) && MergeSpec(published, batch).Ok?
    ensures var refreshed, merged := MergeSpec(published, batch).value, Merged(published, batch);
      && Chronological(refreshed) && FullyAdjusted(published) && FullyAdjusted(refreshed)
      && |published| <= |merged| && SameBases(merged[..|published|], published) && SameRaw(refreshed, merged)
      && ScaledPrefix(Closes(published), Closes(refreshed), g)
    ensures g != 0.0 && (published == [] ==> g == 1.0)
    ensures published != [] ==> (g > 0.0 <==> Flips(Merged(published, batch), |published|) % 2 == 0)
  {
    hide AdjustBars;
    hide Merged;
    MergedIsAdjusted(published);
    MergedContinues(published, batch);
    MergedHistory(published, batch);
    var merged, n := Merged(published, batch), |published|;
    AdjustedHistory(merged);
    if published == [] {
      g := 1.0;
    } else {
      assert merged == merged[..n] + merged[n..];
      g := NoRepaint(merged[..n], merged[n..]);
      BasisCloses(merged[..n], published);
    }
  }

  // ----- restated bars -----

  /** The adjusted price of the bar before `i`, as a multiple of that of bar `i`. */
  ghost function StepBackReturn(bars: seq<CleanBar>, i: nat): real
    requires 1 <= i < |bars| && bars[i].close.value != 0.0
  {
    Over(bars[i - 1].close.value * Ratio(bars[i - 1], bars[i]), bars[i].close.value)
  }

  ghost predicate NonZeroCloses(bars: seq<CleanBar>) { forall i :: 0 <= i < |bars| ==> bars[i].close.value != 0.0 }

  lemma AdjustedStep(bars: seq<CleanBar>, i: nat)
    requires NonZeroCloses(bars) && 1 <= i < |bars|
    ensures AdjustedValue(bars, i - 1) == StepBackReturn(bars, i) * AdjustedValue(bars, i)
  {
    hide Ratio;
    var x, r, c, f := bars[i - 1].close.value, Ratio(bars[i - 1], bars[i]), bars[i].close.value, Factor(bars, i);
    var step := StepBackReturn(bars, i);
    assert step * c == x * r;
    ThreeFactors(x, r, f, step, c);
  }

  lemma ThreeFactors(x: real, r: real, f: real, step: real, c: real)
    requires step * c == x * r
    ensures x * (r * f) == step * (c * f)
  {
    TimesEqual(f, step * c, x * r);
  }

  lemma AdjustedNonZero(bars: seq<CleanBar>, i: nat)
    requires NonZeroCloses(bars) && Adjustable(bars) && i < |bars|
    ensures AdjustedValue(bars, i) != 0.0
  {
    hide Factor;
    FactorSign(bars, i);
    var close, factor := bars[i].close.value, Factor(bars, i);
    if close * factor == 0.0 { Cancel(close, 0.0, factor); }
  }

  ghost predicate OneFactor(s: seq<CleanBar>, t: seq<CleanBar>, g: real)
    requires |s| == |t|
  {
    forall i {:trigger AdjustedValue(t, i)} :: 0 <= i < |s| ==> AdjustedValue(t, i) == AdjustedValue(s, i) * g
  }

  ghost predicate SameReturns(s: seq<CleanBar>, t: seq<CleanBar>)
    requires |s| == |t| && NonZeroCloses(s) && NonZeroCloses(t)
  {
    forall i {:trigger StepBackReturn(t, i)} :: 1 <= i < |s| ==> StepBackReturn(s, i) == StepBackReturn(t, i)
  }

  lemma {:induction false} SameReturnsScale(s: seq<CleanBar>, t: seq<CleanBar>, g: real, i: nat)
    requires |s| == |t| && i < |s| && NonZeroCloses(s) && NonZeroCloses(t) && SameReturns(s, t)
    requires AdjustedValue(t, |t| - 1) == AdjustedValue(s, |s| - 1) * g
    ensures AdjustedValue(t, i) == AdjustedValue(s, i) * g
    decreases |s| - i
  {
    hide AdjustedValue;
    hide StepBackReturn;
    if i < |s| - 1 {
      SameReturnsScale(s, t, g, i + 1);
      AdjustedStep(s, i + 1);
      AdjustedStep(t, i + 1);
      assert StepBackReturn(s, i + 1) == StepBackReturn(t, i + 1);
      ScaledStep(StepBackReturn(s, i + 1), AdjustedValue(s, i + 1), AdjustedValue(t, i + 1), g);
    }
  }

  lemma ScaledStep(step: real, v: real, w: real, g: real)
    requires w == v * g
    ensures step * w == (step * v) * g
  {
    TimesEqual(step, w, v * g);
  }

  lemma FactorSameReturn(s: seq<CleanBar>, t: seq<CleanBar>, g: real, i: nat)
    requires |s| == |t| && 1 <= i < |s| && NonZeroCloses(s) && NonZeroCloses(t) && Adjustable(t)
    requires AdjustedValue(t, i) == AdjustedValue(s, i) * g && AdjustedValue(t, i - 1) == AdjustedValue(s, i - 1) * g
    ensures StepBackReturn(s, i) == StepBackReturn(t, i)
  {
    hide AdjustedValue;
    hide StepBackReturn;
    AdjustedStep(s, i);
    AdjustedStep(t, i);
    ScaledStep(StepBackReturn(s, i), AdjustedValue(s, i), AdjustedValue(t, i), g);
    AdjustedNonZero(t, i);
    Cancel(StepBackReturn(s, i), StepBackReturn(t, i), AdjustedValue(t, i));
  }

  /** Two adjusted histories differ by one factor exactly when all their adjusted returns agree. */
  lemma OneFactorIff(s: seq<CleanBar>, t: seq<CleanBar>)
    requires |s| == |t| > 0 && NonZeroCloses(s) && NonZeroCloses(t) && Adjustable(s) && Adjustable(t)
    ensures (exists g :: OneFactor(s, t, g)) <==> SameReturns(s, t)
  {
    hide AdjustedValue;
    hide StepBackReturn;
    if g :| OneFactor(s, t, g) {
      forall i | 1 <= i < |s| ensures StepBackReturn(s, i) == StepBackReturn(t, i) {
        assert AdjustedValue(t, i) == AdjustedValue(s, i) * g && AdjustedValue(t, i - 1) == AdjustedValue(s, i - 1) * g;
        FactorSameReturn(s, t, g, i);
      }
    }
    if SameReturns(s, t) {
      var n := |s| - 1;
      AdjustedNonZero(s, n);
      var g := AdjustedValue(t, n) / AdjustedValue(s, n);
      assert AdjustedValue(t, n) == AdjustedValue(s, n) * g;
      forall i | 0 <= i < |s| ensures AdjustedValue(t, i) == AdjustedValue(s, i) * g { SameReturnsScale(s, t, g, i); }
      assert OneFactor(s, t, g);
    }
  }

  /** Bars of dates on hand, restated at will, and bars of later dates. */
  ghost predicate Restates(history: seq<CleanBar>, batch: seq<DailyBar>) {
    forall bar :: bar in batch && BarIsFinite(bar) ==> bar.day in Days(history) || IsLater(history, bar.day)
  }

  lemma RestatedOnHand(history: seq<CleanBar>, batch: seq<DailyBar>)
    requires Chronological(history) && Restates(history, batch)
    ensures DaysOnHand(history, Collect(Collect(map[], history), batch))
  {
    hide Collect;
    hide IsLater;
    var m := Collect(Collect(map[], history), batch);
    CollectOrdered(history);
    CollectKeys(Collect(map[], history), batch);
    forall d | d in m && d !in Days(history) ensures IsLater(history, d) {
      var bar :| bar in batch && BarIsFinite(bar) && bar.day == d;
    }
  }

  lemma SortedPrefixDays(history: seq<CleanBar>, m: BarMap)
    requires Chronological(history) && DaysOnHand(history, m) && WellKeyed(m)
    ensures |history| <= |SortedBars(m)| && forall i :: 0 <= i < |history| ==> SortedBars(m)[i].day == history[i].day
  {
    hide SortedDays;
    hide DaysOnHand;
    DaysSplit(history, m);
    SortedBarsOrdered(m);
    forall i | 0 <= i < |history| ensures SortedBars(m)[i].day == history[i].day {
      assert SortedBars(m)[i] == m[SortedDays(m.Keys)[i]];
    }
  }

  lemma RestatedDays(history: seq<CleanBar>, batch: seq<DailyBar>)
    requires Chronological(history) && Restates(history, batch)
    ensures |history| <= |Merged(history, batch)|
    ensures forall i :: 0 <= i < |history| ==> Merged(history, batch)[i].day == history[i].day
  {
    hide Collect;
    hide SortedBars;
    hide DaysOnHand;
    CollectWellKeyed(map[], history);
    CollectWellKeyed(Collect(map[], history), batch);
    RestatedOnHand(history, batch);
    SortedPrefixDays(history, Collect(Collect(map[], history), batch));
  }

  lemma CollectAppended(m: BarMap, bars: seq<DailyBar>, bar: CleanBar)
    ensures Collect(m, bars + [bar]) == Collect(m, bars)[bar.day := bar]
    ensures Collect(m, []) == m
  {
    assert (bars + [bar])[..|bars|] == bars;
  }

  /** Restating the first of two bars replaces it. */
  lemma TwoBarsRestated(first: CleanBar, second: CleanBar, restated: CleanBar)
    requires restated.day == first.day < second.day
    ensures Merged([first, second], [restated]) == [restated, second]
  {
    hide SortedDays;
    CollectAppended(map[], [], first);
    CollectAppended(map[], [first], second);
    assert [] + [first] == [first] && [first] + [second] == [first, second] && [] + [restated] == [restated];
    CollectAppended(Collect(map[], [first, second]), [], restated);
    var all := Collect(Collect(map[], [first, second]), [restated]);
    hide Collect;
    assert all.Keys == {restated.day, second.day};
    IncreasingUnique(SortedDays(all.Keys), [restated.day, second.day]);
  }

  /** The published prices rescaled by one factor, whatever it is. */
  ghost predicate Rescaled(published: seq<CleanBar>, refreshed: seq<CleanBar>)
    requires FullyAdjusted(published) && FullyAdjusted(refreshed)
  {
    exists g :: ScaledPrefix(Closes(published), Closes(refreshed), g)
  }

  lemma ScaledThrough(published: seq<CleanBar>, prefix: seq<CleanBar>, refreshed: seq<CleanBar>, g1: real)
    requires |published| == |prefix| > 0 && FullyAdjusted(published) && FullyAdjusted(refreshed) && g1 != 0.0
    requires forall i {:trigger Closes(published)[i]} :: 0 <= i < |published| ==> Closes(published)[i] == AdjustedValue(published, i)
    requires |prefix| <= |refreshed|
    requires forall i {:trigger Closes(refreshed)[i]} :: 0 <= i < |prefix| ==> Closes(refreshed)[i] == AdjustedValue(prefix, i) * g1
    ensures Rescaled(published, refreshed) <==> exists g :: OneFactor(published, prefix, g)
  {
    hide AdjustedValue;
    if g :| ScaledPrefix(Closes(published), Closes(refreshed), g) {
      forall i | 0 <= i < |published| ensures AdjustedValue(prefix, i) == AdjustedValue(published, i) * (g / g1) {
        assert Closes(refreshed)[i] == Closes(published)[i] * g;
        Unscale(AdjustedValue(prefix, i), AdjustedValue(published, i), g1, g);
      }
      assert OneFactor(published, prefix, g / g1);
    }
    if g :| OneFactor(published, prefix, g) {
      forall i | 0 <= i < |published| ensures Closes(refreshed)[i] == Closes(published)[i] * (g * g1) {
        assert AdjustedValue(prefix, i) == AdjustedValue(published, i) * g;
        TimesEqual(g1, AdjustedValue(prefix, i), AdjustedValue(published, i) * g);
      }
      assert ScaledPrefix(Closes(published), Closes(refreshed), g * g1);
    }
  }

  lemma Unscale(w: real, v: real, g1: real, g: real)
    requires g1 != 0.0 && w * g1 == v * g
    ensures w == v * (g / g1)
  {
    var q := g / g1;
    assert q * g1 == g;
    TimesEqual(v, q * g1, g);
    assert (v * q) * g1 == v * (q * g1);
    Cancel(w, v * q, g1);
  }

  /**
   When bars of dates on hand are restated, the published prices keep their proportions
   exactly if all adjusted returns between them stay the same.
   */
  lemma RestatementRepaintsIff(published: seq<CleanBar>, batch: seq<DailyBar>)
    requires IsMerged(published) && published != [] && Restates(published, batch) && MergeSpec(published, batch).Ok?
    requires NonZeroCloses(published)
    requires forall i :: 0 <= i < |published| && i < |Merged(published, batch)| ==> Merged(published, batch)[i].close.value != 0.0
    ensures FullyAdjusted(published) && FullyAdjusted(MergeSpec(published, batch).value)
    ensures |published| <= |Merged(published, batch)| && NonZeroCloses(Merged(published, batch)[..|published|])
    ensures Rescaled(published, MergeSpec(published, batch).value)
       <==> SameReturns(published, Merged(published, batch)[..|published|])
  {
    hide AdjustBars;
    hide Merged;
    hide Restates;
    hide IsMerged;
    hide AdjustedValue;
    hide StepBackReturn;
    hide SameReturns;
    hide Chronological;
    var g1 := RefreshedPrefix(published, batch);
    var prefix := Merged(published, batch)[..|published|];
    ScaledThrough(published, prefix, MergeSpec(published, batch).value, g1);
    OneFactorIff(published, prefix);
  }

  /** What a refresh does to the dates on hand, as one factor times their own adjusted values. */
  lemma RefreshedPrefix(published: seq<CleanBar>, batch: seq<DailyBar>) returns (g1: real)
    requires IsMerged(published) && published != [] && Restates(published, batch) && MergeSpec(published, batch).Ok?
    ensures FullyAdjusted(published) && FullyAdjusted(MergeSpec(published, batch).value) && g1 != 0.0
    ensures |published| <= |Merged(published, batch)| == |MergeSpec(published, batch).value|
    ensures var prefix := Merged(published, batch)[..|published|]; Adjustable(published) && Adjustable(prefix)
    ensures forall i {:trigger Closes(published)[i]} :: 0 <= i < |published| ==> Closes(published)[i] == AdjustedValue(published, i)
    ensures var refreshed, prefix := MergeSpec(published, batch).value, Merged(published, batch)[..|published|];
      forall i {:trigger Closes(refreshed)[i]} :: 0 <= i < |prefix| ==> Closes(refreshed)[i] == AdjustedValue(prefix, i) * g1
  {
    hide AdjustBars;
    hide Merged;
    hide AdjustedValue;
    hide SameRaw;
    hide Flips;
    hide Chronological;
    hide Adjustable;
    MergedIsAdjusted(published);
    RestatedDays(published, batch);
    var merged, n := Merged(published, batch), |published|;
    var prefix := merged[..n];
    assert merged == prefix + merged[n..];
    AdjustedHistory(merged);
    AdjustedHistory(published);
    g1 := NoRepaint(prefix, merged[n..]);
    AdjustedHistory(prefix);
    OkMeansAdjustable(prefix);
    OkMeansAdjustable(published);
  }

  lemma OkMeansAdjustable(bars: seq<CleanBar>)
    requires AdjustBars(bars).Ok?
    ensures Adjustable(bars)
  {
    AdjustableIffNoFailure(bars);
  }
}
