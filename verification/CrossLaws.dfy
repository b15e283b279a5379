/** Laws of the crossing list: what it says about the averages, and that it is never rewritten. */
module CrossLaws {
  import opened Prelude
  import opened RealMath
  import opened CrossSignals

  // ----- the crossing theorem -----

  predicate SameSide(gap: real, trend: Trend) {
    if trend.Golden? then gap > 0.0 else gap < 0.0
  }

  /** No crossing is recorded at any index of `from..to`. */
  ghost predicate Quiet(values: seq<real>, short: nat, long: nat, from: nat, to: nat) {
    forall i :: from <= i < to && i < |values| ==> CrossAt(values, short, long, i) == None
  }

  lemma {:induction false} CrossingsSound(values: seq<real>, short: nat, long: nat, n: nat, k: nat)
    requires n <= |values| && k < |Crossings(values, short, long, n)|
    ensures var c := Crossings(values, short, long, n)[k]; CrossAt(values, short, long, c.index) == Some(c.trend)
  {
    hide CrossAt;
    if k < |Crossings(values, short, long, n - 1)| { CrossingsSound(values, short, long, n - 1, k); }
  }

  lemma {:induction false} CrossingsComplete(values: seq<real>, short: nat, long: nat, n: nat, i: nat)
    requires i < n <= |values| && CrossAt(values, short, long, i).Some?
    ensures Crossing(i, CrossAt(values, short, long, i).value) in Crossings(values, short, long, n)
  {
    hide CrossAt;
    if i < n - 1 { CrossingsComplete(values, short, long, n - 1, i); }
  }

  ghost predicate Increasing(r: seq<Crossing>) {
    forall j, k :: 0 <= j < k < |r| ==> r[j].index < r[k].index
  }

  lemma {:induction false} CrossingsIncrease(values: seq<real>, short: nat, long: nat, n: nat)
    requires n <= |values|
    ensures Increasing(Crossings(values, short, long, n))
  {
    hide CrossAt;
    if n > 0 {
      CrossingsIncrease(values, short, long, n - 1);
    }
  }

  lemma NotBetween(r: seq<Crossing>, k: int, c: Crossing)
    requires Increasing(r) && c in r && -1 <= k < |r|
    ensures (k >= 0 && c.index <= r[k].index) || (k + 1 < |r| && c.index >= r[k + 1].index)
  {
    var j :| 0 <= j < |r| && r[j] == c;
  }

  /** Between two consecutive recorded crossings nothing happens. */
  lemma QuietBetween(values: seq<real>, short: nat, long: nat, k: int)
    requires var r := Crossings(values, short, long, |values|); -1 <= k < |r|
    ensures var r := Crossings(values, short, long, |values|);
      Quiet(values, short, long, if k < 0 then 0 else r[k].index + 1, if k + 1 < |r| then r[k + 1].index else |values|)
  {
    hide CrossAt;
    var r := Crossings(values, short, long, |values|);
    var from, to := if k < 0 then 0 else r[k].index + 1, if k + 1 < |r| then r[k + 1].index else |values|;
    CrossingsIncrease(values, short, long, |values|);
    forall i | from <= i < to && i < |values|
      ensures CrossAt(values, short, long, i) == None
    {
      if CrossAt(values, short, long, i).Some? {
        CrossingsComplete(values, short, long, |values|, i);
        NotBetween(r, k, Crossing(i, CrossAt(values, short, long, i).value));
      }
    }
  }

  /** Going back through a quiet stretch from a strict order, the order never changes. */
  lemma {:induction false} QuietBackwards(values: seq<real>, short: nat, long: nat, first: nat, end: nat, trend: Trend)
    requires first <= end < |values| && Covered(short, long, first)
    requires Quiet(values, short, long, first + 1, end + 1) && SameSide(Gap(values, short, long, end), trend)
    ensures forall i :: first <= i <= end ==> SameSide(Gap(values, short, long, i), trend)
    decreases end
  {
    hide Gap;
    if first < end {
      assert CrossAt(values, short, long, end) == None;
      QuietBackwards(values, short, long, first, end - 1, trend);
    }
  }

  /** If the final alignment is strict and any crossing exists, the last crossing has its direction. */
  lemma LastCrossingMatchesAlignment(values: seq<real>, short: nat, long: nat)
    requires values != [] && Covered(short, long, |values| - 1)
    requires Crossings(values, short, long, |values|) != []
    requires Gap(values, short, long, |values| - 1) != 0.0
    ensures var r := Crossings(values, short, long, |values|);
      SameSide(Gap(values, short, long, |values| - 1), r[|r| - 1].trend)
  {
    hide Gap;
    var r := Crossings(values, short, long, |values|);
    var last, at := |values| - 1, r[|r| - 1].index;
    CrossingsSound(values, short, long, |values|, |r| - 1);
    QuietBetween(values, short, long, |r| - 1);
    var trend := if Gap(values, short, long, last) > 0.0 then Golden else Death;
    QuietBackwards(values, short, long, at, last, trend);
  }

  /** With no crossing the final strict order held wherever both averages exist. */
  lemma NoCrossingMeansConstantOrder(values: seq<real>, short: nat, long: nat, trend: Trend, i: nat)
    requires values != [] && i < |values| && Covered(short, long, i)
    requires Crossings(values, short, long, |values|) == []
    requires SameSide(Gap(values, short, long, |values| - 1), trend)
    ensures SameSide(Gap(values, short, long, i), trend)
  {
    QuietBetween(values, short, long, -1);
    QuietBackwards(values, short, long, i, |values| - 1, trend);
  }

  /**
   Two consecutive crossings of the same direction always have an index of exact
   equality between them: the one just before the second crossing.
   */
  lemma RepeatedDirectionNeedsEquality(values: seq<real>, short: nat, long: nat, k: nat)
    requires var r := Crossings(values, short, long, |values|); k + 1 < |r| && r[k].trend == r[k + 1].trend
    ensures var r := Crossings(values, short, long, |values|);
      && r[k].index < r[k + 1].index - 1
      && Covered(short, long, r[k + 1].index - 1) && r[k + 1].index <= |values|
      && Gap(values, short, long, r[k + 1].index - 1) == 0.0
  {
    hide Gap;
    var r := Crossings(values, short, long, |values|);
    var first, second := r[k], r[k + 1];
    CrossingsSound(values, short, long, |values|, k);
    CrossingsSound(values, short, long, |values|, k + 1);
    CrossingsIncrease(values, short, long, |values|);
    QuietBetween(values, short, long, k);
    var gap := Gap(values, short, long, second.index - 1);
    if gap != 0.0 {
      var trend := if gap > 0.0 then Golden else Death;
      QuietBackwards(values, short, long, first.index, second.index - 1, trend);
      assert false;
    }
  }

  /** It does happen: two golden crossings with no death cross between them. */
  lemma RepeatedDirectionOccurs()
    ensures Crossings([1.0, 1.0, 2.0, 2.0, 3.0], 1, 2, 5) == [Crossing(2, Golden), Crossing(4, Golden)]
  {
    var v := [1.0, 1.0, 2.0, 2.0, 3.0];
    TwoMeans(v, 1);
    TwoMeans(v, 2);
    TwoMeans(v, 3);
    TwoMeans(v, 4);
    hide WindowMean;
    assert CrossAt(v, 1, 2, 0) == None && CrossAt(v, 1, 2, 1) == None && CrossAt(v, 1, 2, 3) == None;
    assert CrossAt(v, 1, 2, 2) == Some(Golden) && CrossAt(v, 1, 2, 4) == Some(Golden);
    hide CrossAt;
    assert Crossings(v, 1, 2, 2) == [];
    assert Crossings(v, 1, 2, 4) == [Crossing(2, Golden)];
  }

  lemma TwoMeans(values: seq<real>, i: nat)
    requires 1 <= i < |values|
    ensures Gap(values, 1, 2, i) == (values[i] - values[i - 1]) / 2.0
  {
    var one, two := values[i..i + 1], values[i - 1..i + 1];
    assert one == [values[i]] && two[..1] == [values[i - 1]];
    assert one[..0] == [] && two[..1][..0] == [];
    assert Sum(one) == values[i] && Sum(two) == values[i - 1] + values[i];
  }

  // ----- crossings are never rewritten -----

  lemma MeanScaled(older: seq<real>, newer: seq<real>, g: real, window: nat, index: nat)
    requires ScaledPrefix(older, newer, g) && 0 < window <= index + 1 <= |older|
    ensures WindowMean(newer, window, index) == WindowMean(older, window, index) * g
  {
    var a, b := older[index + 1 - window..index + 1], newer[index + 1 - window..index + 1];
    forall i | 0 <= i < |a| ensures b[i] == a[i] * g {
      assert newer[index + 1 - window + i] == older[index + 1 - window + i] * g;
    }
    SumScaled(a, b, g);
    QuotientScaled(Sum(a), Sum(b), g, window as real);
  }

  lemma QuotientScaled(x: real, y: real, g: real, w: real)
    requires w > 0.0 && y == x * g
    ensures y / w == x / w * g
  {
    var q := x / w;
    TimesEqual(g, x, q * w);
    assert (q * g) * w == g * (q * w);
    Cancel(y / w, q * g, w);
  }

  lemma GapScaled(older: seq<real>, newer: seq<real>, g: real, short: nat, long: nat, index: nat)
    requires ScaledPrefix(older, newer, g) && Covered(short, long, index) && index < |older|
    ensures Gap(newer, short, long, index) == Gap(older, short, long, index) * g
  {
    hide WindowMean;
    MeanScaled(older, newer, g, short, index);
    MeanScaled(older, newer, g, long, index);
  }

  lemma SignScaled(x: real, g: real)
    requires g > 0.0
    ensures (x > 0.0 <==> x * g > 0.0) && (x < 0.0 <==> x * g < 0.0)
  {}

  lemma CrossAtScaled(older: seq<real>, newer: seq<real>, g: real, short: nat, long: nat, index: nat)
    requires ScaledPrefix(older, newer, g) && g > 0.0 && index < |older|
    ensures CrossAt(newer, short, long, index) == CrossAt(older, short, long, index)
  {
    hide Gap;
    if index > 0 && Covered(short, long, index - 1) {
      GapScaled(older, newer, g, short, long, index - 1);
      GapScaled(older, newer, g, short, long, index);
      SignScaled(Gap(older, short, long, index - 1), g);
      SignScaled(Gap(older, short, long, index), g);
    }
  }

  lemma {:induction false} CrossingsScaled(older: seq<real>, newer: seq<real>, g: real, short: nat, long: nat, n: nat)
    requires ScaledPrefix(older, newer, g) && g > 0.0 && n <= |older|
    ensures Crossings(newer, short, long, n) == Crossings(older, short, long, n)
  {
    hide CrossAt;
    if n > 0 {
      CrossingsScaled(older, newer, g, short, long, n - 1);
      CrossAtScaled(older, newer, g, short, long, n - 1);
    }
  }

  lemma {:induction false} CrossingsGrow(values: seq<real>, short: nat, long: nat, n: nat, m: nat)
    requires n <= m <= |values|
    ensures Crossings(values, short, long, n) <= Crossings(values, short, long, m)
    ensures forall k :: |Crossings(values, short, long, n)| <= k < |Crossings(values, short, long, m)|
              ==> n <= Crossings(values, short, long, m)[k].index
  {
    hide CrossAt;
    if n < m { CrossingsGrow(values, short, long, n, m - 1); }
  }

  /**
   No repainting of crossings: when a series is rescaled by a positive factor and
   extended, the crossing list keeps every published crossing and only appends
   crossings at new indices.
   */
  lemma CrossingsNeverRepaint(older: seq<real>, newer: seq<real>, g: real, short: nat, long: nat)
    requires ScaledPrefix(older, newer, g) && g > 0.0
    ensures var before, after := Crossings(older, short, long, |older|), Crossings(newer, short, long, |newer|);
      before <= after && forall k :: |before| <= k < |after| ==> |older| <= after[k].index < |newer|
  {
    CrossingsScaled(older, newer, g, short, long, |older|);
    CrossingsGrow(newer, short, long, |older|, |newer|);
  }

  /** One appended value adds at most one crossing, at the new index. */
  lemma OneBarOneCrossing(older: seq<real>, newer: seq<real>, g: real, short: nat, long: nat)
    requires ScaledPrefix(older, newer, g) && g > 0.0 && |newer| == |older| + 1
    ensures var before, after := Crossings(older, short, long, |older|), Crossings(newer, short, long, |newer|);
      after == before || (|after| == |before| + 1 && before <= after && after[|before|].index == |older|)
  {
    CrossingsScaled(older, newer, g, short, long, |older|);
  }

  /**
   If the new bar adds no crossing, the last crossing and its date are unchanged
   and the number of periods since it grows by exactly one.
   */
  lemma QuietBarAgesSignal(
      dates: seq<int>, older: seq<real>, date: int, newer: seq<real>, g: real,
      short: nat, long: nat, confirmed: nat, active: nat)
    requires |dates| == |older| && ScaledPrefix(older, newer, g) && g > 0.0 && |newer| == |older| + 1
    requires SignalOf(dates, older, short, long, confirmed, active).Ok?
    requires SignalOf(dates + [date], newer, short, long, confirmed, active).Ok?
    requires SignalOf(dates + [date], newer, short, long, confirmed, active).value.crossStatus == None
    ensures var before, after := SignalOf(dates, older, short, long, confirmed, active).value,
                                 SignalOf(dates + [date], newer, short, long, confirmed, active).value;
      && after.lastCrossStatus == before.lastCrossStatus && after.lastCrossDate == before.lastCrossDate
      && (before.periodsSinceCross.None? ==> after.periodsSinceCross.None?)
      && (before.periodsSinceCross.Some? ==>
            after.periodsSinceCross.Some? && after.periodsSinceCross.value == before.periodsSinceCross.value + 1)
  {
    hide WindowMean;
    hide Gap;
    OneBarOneCrossing(older, newer, g, short, long);
  }

  // ----- a turned sign -----

  function Opposite(trend: Trend): Trend { if trend.Golden? then Death else Golden }

  /** The same crossings in the opposite direction. */
  function Mirror(crossings: seq<Crossing>): (r: seq<Crossing>)
    ensures |r| == |crossings|
    ensures forall k :: 0 <= k < |r| ==> r[k] == Crossing(crossings[k].index, Opposite(crossings[k].trend))
  {
    seq(|crossings|, k requires 0 <= k < |crossings| => Crossing(crossings[k].index, Opposite(crossings[k].trend)))
  }

  lemma SignTurned(x: real, g: real)
    requires g < 0.0
    ensures (x > 0.0 <==> x * g < 0.0) && (x < 0.0 <==> x * g > 0.0)
  {}

  lemma CrossAtMirrored(older: seq<real>, newer: seq<real>, g: real, short: nat, long: nat, index: nat)
    requires ScaledPrefix(older, newer, g) && g < 0.0 && index < |older|
    ensures CrossAt(newer, short, long, index) ==
      if CrossAt(older, short, long, index) == None then None else Some(Opposite(CrossAt(older, short, long, index).value))
  {
    hide Gap;
    if index > 0 && Covered(short, long, index - 1) {
      GapScaled(older, newer, g, short, long, index - 1);
      GapScaled(older, newer, g, short, long, index);
      SignTurned(Gap(older, short, long, index - 1), g);
      SignTurned(Gap(older, short, long, index), g);
    }
  }

  lemma {:induction false} CrossingsMirrored(older: seq<real>, newer: seq<real>, g: real, short: nat, long: nat, n: nat)
    requires ScaledPrefix(older, newer, g) && g < 0.0 && n <= |older|
    ensures Crossings(newer, short, long, n) == Mirror(Crossings(older, short, long, n))
  {
    hide CrossAt;
    if n > 0 {
      CrossingsMirrored(older, newer, g, short, long, n - 1);
      CrossAtMirrored(older, newer, g, short, long, n - 1);
    }
  }

  /** Rescaled by a negative factor, every published crossing stays at its index and turns into its opposite. */
  lemma TurnedSignMirrors(older: seq<real>, newer: seq<real>, g: real, short: nat, long: nat)
    requires ScaledPrefix(older, newer, g) && g < 0.0
    ensures Mirror(Crossings(older, short, long, |older|)) <= Crossings(newer, short, long, |newer|)
  {
    CrossingsMirrored(older, newer, g, short, long, |older|);
    CrossingsGrow(newer, short, long, |older|, |newer|);
  }

  // ----- when directions alternate -----

  lemma {:induction false} QuietAddsNothing(values: seq<real>, short: nat, long: nat, n: nat, m: nat)
    requires n <= m <= |values| && Quiet(values, short, long, n, m)
    ensures Crossings(values, short, long, m) == Crossings(values, short, long, n)
  {
    hide CrossAt;
    if n < m {
      QuietAddsNothing(values, short, long, n, m - 1);
      assert CrossAt(values, short, long, m - 1) == None;
    }
  }

  /**
   The averages reach side `trend` after index `p`, are last there at `i`, then exactly
   equal, and at `j` back on that side without having been on the other.
   */
  ghost predicate TouchesAndReturns(values: seq<real>, short: nat, long: nat, p: nat, i: nat, j: nat, trend: Trend) {
    && p < i && i + 1 < j < |values| && Covered(short, long, p)
    && !SameSide(Gap(values, short, long, p), trend)
    && SameSide(Gap(values, short, long, i), trend) && SameSide(Gap(values, short, long, j), trend)
    && forall m {:trigger Gap(values, short, long, m)} :: i < m < j ==> Gap(values, short, long, m) == 0.0
  }

  ghost predicate Alternates(crossings: seq<Crossing>) {
    forall k {:trigger crossings[k]} :: 0 <= k < |crossings| - 1 ==> crossings[k].trend != crossings[k + 1].trend
  }

  lemma {:induction false} LastUnequal(values: seq<real>, short: nat, long: nat, first: nat, end: nat) returns (i: nat)
    requires first <= end < |values| && Covered(short, long, first) && Gap(values, short, long, first) != 0.0
    ensures first <= i <= end && Gap(values, short, long, i) != 0.0
    ensures forall m :: i < m <= end ==> Gap(values, short, long, m) == 0.0
    decreases end
  {
    hide Gap;
    if Gap(values, short, long, end) != 0.0 {
      i := end;
    } else {
      i := LastUnequal(values, short, long, first, end - 1);
    }
  }

  lemma RepetitionTouches(values: seq<real>, short: nat, long: nat, k: nat) returns (p: nat, i: nat, j: nat)
    requires var r := Crossings(values, short, long, |values|); k + 1 < |r| && r[k].trend == r[k + 1].trend
    ensures TouchesAndReturns(values, short, long, p, i, j, Crossings(values, short, long, |values|)[k].trend)
  {
    hide Gap;
    var r := Crossings(values, short, long, |values|);
    var first, second := r[k], r[k + 1];
    CrossingsSound(values, short, long, |values|, k);
    CrossingsSound(values, short, long, |values|, k + 1);
    RepeatedDirectionNeedsEquality(values, short, long, k);
    QuietBetween(values, short, long, k);
    i := LastUnequal(values, short, long, first.index, second.index - 1);
    p, j := first.index - 1, second.index;
    var side := if Gap(values, short, long, i) > 0.0 then Golden else Death;
    QuietBackwards(values, short, long, first.index, i, side);
  }

  /** An index on a side that was not always held comes after a crossing to that side, the latest so far. */
  lemma ReachedByCrossing(values: seq<real>, short: nat, long: nat, p: nat, i: nat, trend: Trend)
    requires p < i < |values| && Covered(short, long, p)
    requires !SameSide(Gap(values, short, long, p), trend) && SameSide(Gap(values, short, long, i), trend)
    ensures var r := Crossings(values, short, long, i + 1); r != [] && r[|r| - 1].trend == trend
  {
    hide Gap;
    var front := values[..i + 1];
    assert ScaledPrefix(front, values, 1.0);
    CrossingsScaled(front, values, 1.0, short, long, i + 1);
    GapScaled(front, values, 1.0, short, long, p);
    GapScaled(front, values, 1.0, short, long, i);
    if Crossings(front, short, long, i + 1) == [] {
      NoCrossingMeansConstantOrder(front, short, long, trend, p);
    } else {
      LastCrossingMatchesAlignment(front, short, long);
    }
  }

  lemma TouchRepeats(values: seq<real>, short: nat, long: nat, p: nat, i: nat, j: nat, trend: Trend)
    requires TouchesAndReturns(values, short, long, p, i, j, trend)
    ensures !Alternates(Crossings(values, short, long, |values|))
  {
    hide Gap;
    ReachedByCrossing(values, short, long, p, i, trend);
    assert Gap(values, short, long, j - 1) == 0.0;
    forall m | i + 1 <= m < j ensures CrossAt(values, short, long, m) == None {
      assert Gap(values, short, long, m) == 0.0;
    }
    QuietAddsNothing(values, short, long, i + 1, j);
    assert CrossAt(values, short, long, j) == Some(trend);
    var reached, all := Crossings(values, short, long, i + 1), Crossings(values, short, long, |values|);
    CrossingsGrow(values, short, long, j + 1, |values|);
    assert reached + [Crossing(j, trend)] <= all;
    assert all[|reached| - 1] == reached[|reached| - 1] && all[|reached|] == Crossing(j, trend);
  }

  /** Successive crossings alternate exactly when the averages never touch and return. */
  lemma AlternatesIff(values: seq<real>, short: nat, long: nat)
    ensures Alternates(Crossings(values, short, long, |values|))
       <==> !exists p, i, j, trend :: TouchesAndReturns(values, short, long, p, i, j, trend)
  {
    hide TouchesAndReturns;
    var r := Crossings(values, short, long, |values|);
    if p, i, j, trend :| TouchesAndReturns(values, short, long, p, i, j, trend) {
      TouchRepeats(values, short, long, p, i, j, trend);
    }
    if !Alternates(r) {
      var k :| 0 <= k < |r| - 1 && r[k].trend == r[k + 1].trend;
      var p, i, j := RepetitionTouches(values, short, long, k);
    }
  }

  // ----- what a signal says -----

  /** Facts every produced signal satisfies. */
  ghost predicate Coherent(signal: CrossSignal) {
    && (signal.crossStatus.Some? ==> signal.alignment == Trending(signal.crossStatus.value))
    && (signal.phase == New <==> signal.crossStatus.Some?)
    && (signal.crossStatus.Some? ==> signal.lastCrossStatus == signal.crossStatus)
    && (signal.phase == Unknown <==> signal.lastCrossStatus.None?)
    && (signal.lastCrossStatus.Some? <==> signal.lastCrossDate.Some?)
    && (signal.alignment.Trending? && signal.lastCrossStatus.Some? ==> signal.lastCrossStatus.value == signal.alignment.trend)
  }

  /** Exactly when no signal can be produced. */
  lemma SignalFailsIff(dates: seq<int>, values: seq<real>, short: nat, long: nat, confirmed: nat, active: nat)
    requires |dates| == |values| && short > 0 && long > 0
    ensures var r := SignalOf(dates, values, short, long, confirmed, active);
      && (r == Err(EmptySeries) <==> values == [])
      && (r == Err(InsufficientObservations) <==> values != [] && (|values| < short || |values| < long))
      && (r == Err(ZeroLongAverage) <==> |values| >= short && |values| >= long && Sum(values[|values| - long..]) == 0.0)
  {
    if |values| >= long { assert values[|values| - long..] == values[|values| - 1 + 1 - long..|values| - 1 + 1]; }
    hide Sum;
    hide Crossings;
    if |values| >= long { ZeroMean(values[|values| - long..]); }
  }

  lemma ZeroMean(values: seq<real>)
    requires values != []
    ensures Mean(values) == 0.0 <==> Sum(values) == 0.0
  {
    hide Sum;
  }

  lemma SignalCoherent(dates: seq<int>, values: seq<real>, short: nat, long: nat, confirmed: nat, active: nat)
    requires |dates| == |values| && SignalOf(dates, values, short, long, confirmed, active).Ok?
    ensures Coherent(SignalOf(dates, values, short, long, confirmed, active).value)
  {
    hide WindowMean;
    var r, last := Crossings(values, short, long, |values|), |values| - 1;
    if r != [] {
      CrossingsSound(values, short, long, |values|, |r| - 1);
      if Gap(values, short, long, last) != 0.0 { LastCrossingMatchesAlignment(values, short, long); }
    }
  }
}
