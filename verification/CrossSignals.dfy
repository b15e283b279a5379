/**
 Moving-average crossings over one value series: the running-sum averages, the
 auditable list of crossings, and the signal that summarises it.
 */
module CrossSignals {
  import opened Prelude
  import opened RealMath

  datatype Trend = Golden | Death
  datatype Alignment = Trending(trend: Trend) | Equal
  datatype Phase = Unknown | New | Confirmed | Active | Aging

  datatype Crossing = Crossing(index: nat, trend: Trend)

  /** `crossStatus` and `lastCrossStatus` are None where the program says "NONE". */
  datatype CrossSignal = CrossSignal(
    alignment: Alignment, crossStatus: Option<Trend>, lastCrossStatus: Option<Trend>,
    lastCrossDate: Option<int>, periodsSinceCross: Option<nat>, spreadPct: real, phase: Phase)

  datatype CrossError = EmptySeries | InsufficientObservations | ZeroLongAverage

  // ----- averages -----

  /** The mean of the `window` values that end at `index`. */
  function WindowMean(values: seq<real>, window: nat, index: nat): real
    requires 0 < window <= index + 1 <= |values|
  {
    Mean(values[index + 1 - window..index + 1])
  }

  function Average(values: seq<real>, window: nat, index: nat): Option<real>
    requires 0 < window && index < |values|
  {
    if index + 1 >= window then Some(WindowMean(values, window, index)) else None
  }

  /** Adding the value at `index` extends the sum; dropping the first value of the window slides it. */
  lemma SlideWindow(values: seq<real>, first: nat, index: nat)
    requires first <= index < |values|
    ensures Sum(values[first..index + 1]) == Sum(values[first..index]) + values[index]
    ensures Sum(values[first + 1..index + 1]) == Sum(values[first..index + 1]) - values[first]
  {
    var window := values[first..index + 1];
    assert window[..|window| - 1] == values[first..index];
    SumFront(window);
    assert window[1..] == values[first + 1..index + 1];
  }

  lemma AverageAt(values: seq<real>, window: nat, index: nat)
    requires 0 < window && index < |values|
    ensures Average(values, window, index) ==
      if index + 1 >= window then Some(Sum(values[index + 1 - window..index + 1]) / window as real) else None
  {}

  /** The running sum refines the windowed mean at every index. */
  method MovingAverageSeries(values: seq<real>, window: nat) returns (result: array<Option<real>>)
    requires 0 < window
    ensures fresh(result) && result.Length == |values|
    ensures forall i :: 0 <= i < |values| ==> result[i] == Average(values, window, i)
  {
    hide Sum;
    hide Average;
    result := new Option<real>[|values|](_ => None);
    var running := 0.0;
    assert values[0..0] == [];
    assert Sum([]) == 0.0 by { EmptySum(); }
    for index := 0 to |values|
      invariant running == Sum(values[if index < window then 0 else index - window..index])
      invariant forall i :: 0 <= i < index ==> result[i] == Average(values, window, i)
      invariant forall i :: index <= i < |values| ==> result[i] == None
    {
      ghost var first := if index < window then 0 else index - window;
      SlideWindow(values, first, index);
      AverageAt(values, window, index);
      running := running + values[index];
      if index >= window { running := running - values[index - window]; }
      if index + 1 >= window {
        result[index] := Some(running / window as real);
      }
    }
  }

  // ----- crossings -----

  /** Both windows are covered at `index`. */
  predicate Covered(short: nat, long: nat, index: int) {
    0 < short && 0 < long && short <= index + 1 && long <= index + 1
  }

  /** Short average minus long average. */
  function Gap(values: seq<real>, short: nat, long: nat, index: nat): real
    requires Covered(short, long, index) && index < |values|
  {
    WindowMean(values, short, index) - WindowMean(values, long, index)
  }

  function CrossAt(values: seq<real>, short: nat, long: nat, index: nat): Option<Trend>
    requires index < |values|
  {
    if index == 0 || !Covered(short, long, index - 1) then None
    else if Gap(values, short, long, index - 1) <= 0.0 && Gap(values, short, long, index) > 0.0 then Some(Golden)
    else if Gap(values, short, long, index - 1) >= 0.0 && Gap(values, short, long, index) < 0.0 then Some(Death)
    else None
  }

  /** The crossings at indices below `n`, oldest first. */
  function Crossings(values: seq<real>, short: nat, long: nat, n: nat): (r: seq<Crossing>)
    requires n <= |values|
    ensures forall k :: 0 <= k < |r| ==> r[k].index < n
  {
    if n == 0 then []
    else
      var earlier := Crossings(values, short, long, n - 1);
      match CrossAt(values, short, long, n - 1)
      case Some(trend) => earlier + [Crossing(n - 1, trend)]
      case None => earlier
  }

  function CrossPhase(periodsSinceCross: Option<nat>, confirmedThrough: nat, activeThrough: nat): Phase {
    match periodsSinceCross
    case None => Unknown
    case Some(periods) =>
      if periods == 0 then New
      else if periods <= confirmedThrough then Confirmed
      else if periods <= activeThrough then Active
      else Aging
  }

  function AlignmentOf(gap: real): Alignment {
    if gap > 0.0 then Trending(Golden) else if gap < 0.0 then Trending(Death) else Equal
  }

  /** What `_detect_cross` returns. */
  function SignalOf(dates: seq<int>, values: seq<real>, short: nat, long: nat, confirmedThrough: nat, activeThrough: nat)
    : Result<CrossSignal, CrossError>
    requires |dates| == |values|
  {
    var last := |values| - 1;
    if values == [] then Err(EmptySeries)
    else if !Covered(short, long, last) then Err(InsufficientObservations)
    else if WindowMean(values, long, last) == 0.0 then Err(ZeroLongAverage)
    else
      var crossings := Crossings(values, short, long, |values|);
      var alignment := AlignmentOf(Gap(values, short, long, last));
      var spread := (WindowMean(values, short, last) / WindowMean(values, long, last) - 1.0) * 100.0;
      if crossings == [] then Ok(CrossSignal(alignment, None, None, None, None, spread, Unknown))
      else
        var cross := crossings[|crossings| - 1];
        var periods := last - cross.index;
        Ok(CrossSignal(
             alignment, if cross.index == last then Some(cross.trend) else None,
             Some(cross.trend), Some(dates[cross.index]), Some(periods), spread,
             CrossPhase(Some(periods), confirmedThrough, activeThrough)))
  }

  method ListCrossings(values: seq<real>, short: nat, long: nat, shortMa: array<Option<real>>, longMa: array<Option<real>>)
    returns (crossings: seq<Crossing>)
    requires 0 < short && 0 < long && shortMa.Length == longMa.Length == |values|
    requires forall i :: 0 <= i < |values| ==> shortMa[i] == Average(values, short, i)
    requires forall i :: 0 <= i < |values| ==> longMa[i] == Average(values, long, i)
    ensures crossings == Crossings(values, short, long, |values|)
  {
    hide WindowMean;
    crossings := [];
    if |values| == 0 { return; }
    for index := 1 to |values|
      invariant crossings == Crossings(values, short, long, index)
    {
      if shortMa[index - 1].Some? && longMa[index - 1].Some? && shortMa[index].Some? && longMa[index].Some? {
        var previousShort, previousLong := shortMa[index - 1].value, longMa[index - 1].value;
        var currentShort, currentLong := shortMa[index].value, longMa[index].value;
        if previousShort <= previousLong && currentShort > currentLong {
          crossings := crossings + [Crossing(index, Golden)];
        } else if previousShort >= previousLong && currentShort < currentLong {
          crossings := crossings + [Crossing(index, Death)];
        }
      }
    }
  }

  method DetectCross(dates: seq<int>, values: seq<real>, short: nat, long: nat, confirmedThrough: nat, activeThrough: nat)
    returns (r: Result<CrossSignal, CrossError>)
    requires |dates| == |values| && 0 < short && 0 < long
    ensures r == SignalOf(dates, values, short, long, confirmedThrough, activeThrough)
  {
    hide WindowMean;
    hide CrossAt;
    var shortMa := MovingAverageSeries(values, short);
    var longMa := MovingAverageSeries(values, long);
    if |values| == 0 { return Err(EmptySeries); }
    var latestIndex := |values| - 1;
    if shortMa[latestIndex] == None || longMa[latestIndex] == None { return Err(InsufficientObservations); }
    var latestShort, latestLong := shortMa[latestIndex].value, longMa[latestIndex].value;
    var alignment :=
      if latestShort > latestLong then Trending(Golden)
      else if latestShort < latestLong then Trending(Death)
      else Equal;

    var crossings := ListCrossings(values, short, long, shortMa, longMa);
    var currentCross, lastCross, lastCrossDate, periods := None, None, None, None;
    if crossings != [] {
      var cross := crossings[|crossings| - 1];
      if cross.index == latestIndex { currentCross := Some(cross.trend); }
      lastCross, lastCrossDate, periods := Some(cross.trend), Some(dates[cross.index]), Some(latestIndex - cross.index);
    }
    if latestLong == 0.0 { return Err(ZeroLongAverage); }
    r := Ok(CrossSignal(
              alignment, currentCross, lastCross, lastCrossDate, periods,
              (latestShort / latestLong - 1.0) * 100.0, CrossPhase(periods, confirmedThrough, activeThrough)));
  }
}
