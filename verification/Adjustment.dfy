/**
 Merging provider bars by market date and rebuilding one split/dividend
 adjusted history.  Days are numbered from 0001-01-01, a Monday.  Prices are
 exact reals; a provider value that is not a finite number is `NonFinite`.
 */
module Adjustment {
  import opened Prelude
  import opened Ordering
  import opened RealMath

  datatype Number = Finite(value: real) | NonFinite

  datatype DailyBar = DailyBar(
    day: int, open: Number, high: Number, low: Number, close: Number, volume: int,
    dividend: Number, splitFactor: Number, adjustedClose: Option<Number>, source: string)

  predicate BarIsFinite(bar: DailyBar) {
    && bar.open.Finite? && bar.high.Finite? && bar.low.Finite? && bar.close.Finite?
    && bar.dividend.Finite? && bar.splitFactor.Finite?
    && (bar.adjustedClose.Some? ==> bar.adjustedClose.value.Finite?)
    && bar.splitFactor.value > 0.0
  }

  /** A bar that passed the finiteness filter. */
  type CleanBar = bar: DailyBar | BarIsFinite(bar)
    witness DailyBar(0, Finite(0.0), Finite(0.0), Finite(0.0), Finite(0.0), 0,
                     Finite(0.0), Finite(1.0), None, "")

  /** A bar whose adjusted close, if it has one, is a number. */
  type PricedBar = bar: DailyBar | bar.adjustedClose.Some? ==> bar.adjustedClose.value.Finite?
    witness DailyBar(0, NonFinite, NonFinite, NonFinite, NonFinite, 0, NonFinite, NonFinite, None, "")

  predicate FullyAdjusted(history: seq<DailyBar>) {
    forall k :: 0 <= k < |history| ==> history[k].adjustedClose.Some?
  }

  datatype AdjustError =
    | InvalidSplitFactor(day: int)
    | InvalidDividend(day: int)
    | DivisionByZero(day: int)

  // ----- one corporate-action step -----

  /** Does not apply a split again when the provider already adjusted its prices. */
  function EffectiveSplitFactor(previousClose: real, currentClose: real, splitFactor: real): real {
    if splitFactor == 1.0 || previousClose <= 0.0 || currentClose <= 0.0 then splitFactor
    else if Abs(currentClose / previousClose - 1.0) <= Abs(currentClose * splitFactor / previousClose - 1.0) then 1.0
    else splitFactor
  }

  function Effective(previous: CleanBar, bar: CleanBar): (eff: real)
    ensures eff > 0.0 && (eff == 1.0 || eff == bar.splitFactor.value)
  {
    EffectiveSplitFactor(previous.close.value, bar.close.value, bar.splitFactor.value)
  }

  /** The exception raised while stepping from `bar` back to `previous`, if any. */
  function StepFailure(previous: CleanBar, bar: CleanBar): Option<AdjustError> {
    if bar.splitFactor.value <= 0.0 then Some(InvalidSplitFactor(bar.day))
    else if bar.dividend.value == 0.0 then None
    else if previous.close.value <= bar.dividend.value then Some(InvalidDividend(bar.day))
    else if previous.close.value == 0.0 then Some(DivisionByZero(bar.day))
    else None
  }

  function SplitPart(previous: CleanBar, bar: CleanBar): (r: real)
    ensures r > 0.0
  {
    1.0 / Effective(previous, bar)
  }

  function DividendPart(previous: CleanBar, bar: CleanBar): real {
    var closeBefore, dividend := previous.close.value, bar.dividend.value;
    if dividend == 0.0 || closeBefore == 0.0 then 1.0 else (closeBefore - dividend) / closeBefore
  }

  /** What one step that does not fail multiplies the running factor by. */
  function Ratio(previous: CleanBar, bar: CleanBar): real {
    SplitPart(previous, bar) * DividendPart(previous, bar)
  }

  /** The part of the loop body below the first bar: checks, then the two updates of the factor. */
  method StepBack(factor: real, previous: CleanBar, bar: CleanBar) returns (r: Result<real, AdjustError>)
    ensures StepFailure(previous, bar).Some? ==> r == Err(StepFailure(previous, bar).value)
    ensures StepFailure(previous, bar).None? ==> r.Ok? && r.value == Ratio(previous, bar) * factor
  {
    if bar.splitFactor.value <= 0.0 { return Err(InvalidSplitFactor(bar.day)); }
    var previousClose, dividend, effective := previous.close.value, bar.dividend.value, Effective(previous, bar);
    var updated := factor / effective;
    if dividend != 0.0 {
      if previousClose <= dividend { return Err(InvalidDividend(bar.day)); }
      if previousClose == 0.0 { return Err(DivisionByZero(bar.day)); }
      updated := updated * ((previousClose - dividend) / previousClose);
      DivideThenTimes(factor, effective, DividendPart(previous, bar));
      TimesEqual(factor, Ratio(previous, bar), SplitPart(previous, bar) * DividendPart(previous, bar));
    } else {
      DivideIsTimesInverse(factor, effective);
      TimesEqual(factor, Ratio(previous, bar), SplitPart(previous, bar));
    }
    r := Ok(updated);
  }

  // ----- the whole history -----

  /** The loop runs from the newest bar, so the newest failing step is the one reported. */
  function NewestFailure(bars: seq<CleanBar>): Option<AdjustError> {
    var n := |bars|;
    if n <= 1 then None
    else if StepFailure(bars[n - 2], bars[n - 1]).Some? then StepFailure(bars[n - 2], bars[n - 1])
    else NewestFailure(bars[..n - 1])
  }

  /** The loop gets past bar `i` without raising. */
  ghost predicate StepsBack(bars: seq<CleanBar>, i: int) {
    1 <= i < |bars| && StepFailure(bars[i - 1], bars[i]) == None
  }

  ghost predicate Adjustable(bars: seq<CleanBar>) {
    forall i :: 1 <= i < |bars| ==> StepsBack(bars, i)
  }

  lemma {:induction false} AdjustableIffNoFailure(bars: seq<CleanBar>)
    ensures Adjustable(bars) <==> NewestFailure(bars) == None
  {
    var n := |bars|;
    if n > 1 {
      AdjustableIffNoFailure(bars[..n - 1]);
      forall i | 1 <= i < n - 1 ensures StepsBack(bars, i) <==> StepsBack(bars[..n - 1], i) {}
      if Adjustable(bars[..n - 1]) && StepsBack(bars, n - 1) {
        forall i | 1 <= i < n ensures StepsBack(bars, i) {
          assert i < n - 1 ==> StepsBack(bars[..n - 1], i);
        }
      }
      if Adjustable(bars) {
        var front := bars[..n - 1];
        forall i | 1 <= i < n - 1 ensures StepsBack(front, i) { assert StepsBack(bars, i); }
        assert StepsBack(bars, n - 1);
      }
    }
  }

  lemma {:induction false} NewestFailureAt(bars: seq<CleanBar>, k: nat)
    requires 1 <= k < |bars| && StepFailure(bars[k - 1], bars[k]).Some?
    requires forall j :: k < j < |bars| ==> StepsBack(bars, j)
    ensures NewestFailure(bars) == StepFailure(bars[k - 1], bars[k])
    decreases |bars|
  {
    if k < |bars| - 1 {
      assert StepsBack(bars, |bars| - 1);
      var front := bars[..|bars| - 1];
      forall j | k < j < |front| ensures StepsBack(front, j) { assert StepsBack(bars, j); }
      NewestFailureAt(front, k);
    }
  }

  /** The split branch of the error check can never fire on filtered bars. */
  lemma InvalidSplitUnreachable(bars: seq<CleanBar>)
    ensures NewestFailure(bars).Some? ==> !NewestFailure(bars).value.InvalidSplitFactor?
  {}

  /** Product of the step ratios of every bar after `i`. */
  ghost function Factor(bars: seq<CleanBar>, i: nat): real
    requires i < |bars|
    decreases |bars| - i
  {
    if i == |bars| - 1 then 1.0 else Ratio(bars[i], bars[i + 1]) * Factor(bars, i + 1)
  }

  ghost function AdjustedValue(bars: seq<CleanBar>, i: nat): real
    requires i < |bars|
  {
    bars[i].close.value * Factor(bars, i)
  }

  function WithAdjustedClose(bar: CleanBar, value: real): CleanBar {
    bar.(adjustedClose := Some(Finite(value)))
  }

  ghost function AdjustBars(bars: seq<CleanBar>): Result<seq<CleanBar>, AdjustError> {
    match NewestFailure(bars)
    case Some(error) => Err(error)
    case None => Ok(seq(|bars|, i requires 0 <= i < |bars| => WithAdjustedClose(bars[i], AdjustedValue(bars, i))))
  }

  /** The backward loop that fills the adjusted history. */
  method Readjust(bars: seq<CleanBar>) returns (r: Result<seq<CleanBar>, AdjustError>)
    ensures r == AdjustBars(bars)
  {
    hide Ratio;
    if bars == [] {
      r := Ok([]);
      assert |AdjustBars(bars).value| == 0;
      return;
    }
    var adjusted := new Option<CleanBar>[|bars|](_ => None);
    var factor := 1.0;
    var index := |bars| - 1;
    while index >= 0
      invariant -1 <= index < |bars|
      invariant forall j :: index < j < |bars| && 1 <= j ==> StepsBack(bars, j)
      invariant index >= 0 ==> factor == Factor(bars, index)
      invariant forall j {:trigger adjusted[j]} :: index < j < |bars| ==> adjusted[j] == Some(WithAdjustedClose(bars[j], AdjustedValue(bars, j)))
    {
      var bar := bars[index];
      assert bar.close.value * factor == AdjustedValue(bars, index);
      adjusted[index] := Some(WithAdjustedClose(bar, bar.close.value * factor));
      assert adjusted[index] == Some(WithAdjustedClose(bars[index], AdjustedValue(bars, index)));
      if index > 0 {
        var stepped := StepBack(factor, bars[index - 1], bar);
        if stepped.Err? {
          NewestFailureAt(bars, index);
          return Err(stepped.error);
        }
        factor := stepped.value;
      }
      index := index - 1;
    }
    AdjustableIffNoFailure(bars);
    var values := seq(|bars|, i requires 0 <= i < |bars| && adjusted[i].Some? reads adjusted => adjusted[i].value);
    assert values == AdjustBars(bars).value;
    r := Ok(values);
  }

  // ----- merging by date -----

  type BarMap = map<int, CleanBar>

  /** Python's dictionary update: a later finite bar of the same date wins. */
  ghost function Collect(m: BarMap, bars: seq<DailyBar>): BarMap {
    if bars == [] then m
    else
      var m' := Collect(m, bars[..|bars| - 1]);
      var bar := bars[|bars| - 1];
      if BarIsFinite(bar) then m'[bar.day := bar] else m'
  }

  ghost predicate WellKeyed(m: BarMap) {
    forall k :: k in m ==> m[k].day == k
  }

  ghost function SortedBars(m: BarMap): (r: seq<CleanBar>) {
    var days := SortedDays(m.Keys);
    seq(|days|, i requires 0 <= i < |days| => assert days[i] in days; m[days[i]])
  }

  ghost function Merged(existing: seq<DailyBar>, incoming: seq<DailyBar>): seq<CleanBar> {
    SortedBars(Collect(Collect(map[], existing), incoming))
  }

  /** What `merge_and_adjust` returns. */
  ghost function MergeSpec(existing: seq<DailyBar>, incoming: seq<DailyBar>): Result<seq<CleanBar>, AdjustError> {
    AdjustBars(Merged(existing, incoming))
  }

  method MergeAndAdjust(existing: seq<DailyBar>, incoming: seq<DailyBar>)
    returns (r: Result<seq<CleanBar>, AdjustError>)
    ensures r == MergeSpec(existing, incoming)
  {
    var merged: BarMap := map[];
    for k := 0 to |existing|
      invariant merged == Collect(map[], existing[..k])
    {
      assert existing[..k + 1][..k] == existing[..k];
      if BarIsFinite(existing[k]) { merged := merged[existing[k].day := existing[k]]; }
    }
    assert existing[..|existing|] == existing;
    for k := 0 to |incoming|
      invariant merged == Collect(Collect(map[], existing), incoming[..k])
    {
      assert incoming[..k + 1][..k] == incoming[..k];
      if BarIsFinite(incoming[k]) { merged := merged[incoming[k].day := incoming[k]]; }
    }
    assert incoming[..|incoming|] == incoming;
    var days := SortedDays(merged.Keys);
    var bars: seq<CleanBar> := seq(|days|, i requires 0 <= i < |days| => assert days[i] in days; merged[days[i]]);
    assert bars == Merged(existing, incoming);
    r := Readjust(bars);
  }
}
