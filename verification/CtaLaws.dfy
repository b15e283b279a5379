/** Laws that span the stages of a refresh, and the weekly-event detector over a run of refreshes. */
module CtaLaws {
  import opened Prelude
  import opened RealMath
  import Adjustment
  import AdjustmentLaws
  import opened WeeklyPoints
  import opened CrossSignals
  import opened CrossLaws
  import opened CtaEngine

  // ----- a refresh never rewrites published crossings -----

  /** `newer` keeps every point of `older`, rescaled by one positive factor, and adds later points. */
  ghost predicate GrowsBy(older: seq<Point>, newer: seq<Point>, g: real) {
    g > 0.0 && Rescale(older, g) <= newer
  }

  lemma GrowthKeepsDatesAndValues(older: seq<Point>, newer: seq<Point>, g: real)
    requires GrowsBy(older, newer, g)
    ensures DatesOf(older) <= DatesOf(newer) && ScaledPrefix(ValuesOf(older), ValuesOf(newer), g)
  {
    forall i | 0 <= i < |older|
      ensures newer[i].day == older[i].day && newer[i].value == older[i].value * g
    {
      assert newer[i] == Rescale(older, g)[i] == ScalePoint(older[i], g);
    }
  }

  /** Points of a refreshed history: the published ones rescaled, then the new ones. */
  lemma RefreshedPoints(
      published: seq<Adjustment.CleanBar>, merged: seq<Adjustment.CleanBar>, refreshed: seq<Adjustment.CleanBar>, g: real)
    requires Adjustment.FullyAdjusted(published) && Adjustment.FullyAdjusted(refreshed)
    requires |published| <= |merged| && AdjustmentLaws.SameBases(merged[..|published|], published)
    requires AdjustmentLaws.SameRaw(refreshed, merged)
    requires ScaledPrefix(AdjustmentLaws.Closes(published), AdjustmentLaws.Closes(refreshed), g)
    ensures Points(refreshed) == Rescale(Points(published), g) + Points(refreshed)[|published|..]
  {
    forall i | 0 <= i < |published| ensures Points(refreshed)[i] == ScalePoint(Points(published)[i], g) {
      assert AdjustmentLaws.Closes(refreshed)[i] == AdjustmentLaws.Closes(published)[i] * g;
      assert AdjustmentLaws.Raw(refreshed[i]).day == AdjustmentLaws.Raw(merged[i]).day;
      assert AdjustmentLaws.SameBasis(merged[..|published|][i], published[i]);
    }
  }

  /** The batch continues the published history, nothing raises, and the sign of the history is not turned. */
  ghost predicate CleanRefresh(published: seq<Adjustment.CleanBar>, batch: seq<Adjustment.DailyBar>) {
    ContinuingRefresh(published, batch) && KeepsSign(published, Adjustment.Merged(published, batch))
  }

  ghost predicate KeepsSign(published: seq<Adjustment.CleanBar>, merged: seq<Adjustment.CleanBar>) {
    0 < |published| <= |merged| ==> AdjustmentLaws.Flips(merged, |published|) % 2 == 0
  }

  /** The first new bar of a refresh displaces the newest published weekly point. */
  ghost predicate Replaced(published: seq<Adjustment.CleanBar>, refreshed: seq<Adjustment.CleanBar>, rule: Rule) {
    var n := |published|;
    0 < n < |refreshed| && Displaces(published[n - 1].day, refreshed[n].day, rule)
  }

  /** The batch continues the published history and nothing raises. */
  ghost predicate ContinuingRefresh(published: seq<Adjustment.CleanBar>, batch: seq<Adjustment.DailyBar>) {
    && AdjustmentLaws.IsMerged(published) && AdjustmentLaws.Continues(published, batch)
    && Adjustment.MergeSpec(published, batch).Ok?
  }

  /** A refresh keeps every published point, rescaled by one factor, and adds later ones. */
  lemma RefreshRescales(published: seq<Adjustment.CleanBar>, batch: seq<Adjustment.DailyBar>) returns (g: real)
    requires ContinuingRefresh(published, batch)
    ensures var refreshed := Adjustment.MergeSpec(published, batch).value;
      && Adjustment.FullyAdjusted(published) && Adjustment.FullyAdjusted(refreshed)
      && |published| <= |refreshed| && g != 0.0
      && (g > 0.0 <==> KeepsSign(published, Adjustment.Merged(published, batch)))
      && Points(refreshed) == Rescale(Points(published), g) + Points(refreshed)[|published|..]
      && Chronological(Points(published) + Points(refreshed)[|published|..])
  {
    hide Adjustment.MergeSpec;
    hide Adjustment.Merged;
    hide AdjustmentLaws.Flips;
    hide AdjustmentLaws.Continues;
    hide AdjustmentLaws.IsMerged;
    hide AdjustmentLaws.SameBases;
    hide ScaledPrefix;
    hide Points;
    hide Rescale;
    hide Chronological;
    g := AdjustmentLaws.RefreshNeverRepaints(published, batch);
    var refreshed := Adjustment.MergeSpec(published, batch).value;
    RefreshedPoints(published, Adjustment.Merged(published, batch), refreshed, g);
    PointsOfOrdered(refreshed);
    GrownChronological(Points(published), Points(refreshed), g);
  }

  /** A published point kept up to a factor is a scaled prefix of values. */
  lemma RescaledValues(older: seq<Point>, newer: seq<Point>, g: real)
    requires Rescale(older, g) <= newer
    ensures ScaledPrefix(ValuesOf(older), ValuesOf(newer), g)
  {
    forall i | 0 <= i < |older| ensures newer[i].value == older[i].value * g {
      assert newer[i] == Rescale(older, g)[i] == ScalePoint(older[i], g);
    }
  }

  /**
   When a refresh turns the sign of the history, every published daily crossing and
   every weekly crossing before the newest week turns into its opposite.
   */
  lemma TurnedRefreshMirrors(published: seq<Adjustment.CleanBar>, batch: seq<Adjustment.DailyBar>, rule: Rule)
    requires ContinuingRefresh(published, batch) && !KeepsSign(published, Adjustment.Merged(published, batch))
    ensures var refreshed := Adjustment.MergeSpec(published, batch).value;
      && Adjustment.FullyAdjusted(published) && Adjustment.FullyAdjusted(refreshed)
      && Mirror(Crossings(ValuesOf(Points(published)), 50, 200, |published|))
         <= Crossings(ValuesOf(Points(refreshed)), 50, 200, |refreshed|)
      && var before, after := Settled(Published(Points(published), rule)), Published(Points(refreshed), rule);
      Mirror(Crossings(ValuesOf(before), 30, 50, |before|)) <= Crossings(ValuesOf(after), 30, 50, |after|)
  {
    hide Adjustment.MergeSpec;
    hide Adjustment.Merged;
    hide KeepsSign;
    hide Published;
    hide Crossings;
    hide Mirror;
    hide ScaledPrefix;
    hide Rescale;
    hide Chronological;
    var g := RefreshRescales(published, batch);
    var refreshed := Adjustment.MergeSpec(published, batch).value;
    var before, all := Points(published), Points(refreshed);
    RescaledValues(before, all, g);
    TurnedSignMirrors(ValuesOf(before), ValuesOf(all), g, 50, 200);
    SettledNeverRepaints(before, all[|published|..], g, rule);
    RescaledValues(Settled(Published(before, rule)), Published(all, rule), g);
    TurnedSignMirrors(ValuesOf(Settled(Published(before, rule))), ValuesOf(Published(all, rule)), g, 30, 50);
  }

  lemma PointsOfOrdered(history: seq<Adjustment.CleanBar>)
    requires Adjustment.FullyAdjusted(history) && AdjustmentLaws.Chronological(history)
    ensures Chronological(Points(history))
  {}

  lemma GrownChronological(before: seq<Point>, all: seq<Point>, g: real)
    requires |before| <= |all| && all == Rescale(before, g) + all[|before|..] && Chronological(all)
    ensures Chronological(before + all[|before|..])
  {
    var sum := before + all[|before|..];
    forall i | 0 <= i < |sum| ensures sum[i].day == all[i].day {
      if i < |before| { assert all[i] == Rescale(before, g)[i]; }
    }
  }

  /**
   The whole pipeline never repaints.  Refresh a published history with any batch that
   continues it, corporate actions included: the daily series keeps every published
   point up to one positive factor, and the weekly series every point before the
   newest; the crossing lists keep every crossing at these points.  Under the program's
   rules the newest weekly point survives too, exactly unless it is displaced.
   */
  lemma PipelineNeverRepaints(published: seq<Adjustment.CleanBar>, batch: seq<Adjustment.DailyBar>, rule: Rule) returns (g: real)
    requires CleanRefresh(published, batch)
    ensures var refreshed := Adjustment.MergeSpec(published, batch).value;
      && Adjustment.FullyAdjusted(published) && Adjustment.FullyAdjusted(refreshed)
      && GrowsBy(Points(published), Points(refreshed), g)
      && CrossingsKept(Points(published), Points(refreshed), 50, 200)
      && var before, after := Published(Points(published), rule), Published(Points(refreshed), rule);
      && GrowsBy(Settled(before), after, g)
      && CrossingsKept(Settled(before), after, 30, 50)
      && (ProgramRule(rule) ==>
            && (GrowsBy(before, after, g) <==> !Replaced(published, refreshed, rule))
            && (CrossingsKept(before, after, 30, 50) <==> !Replaced(published, refreshed, rule)))
  {
    hide Adjustment.MergeSpec;
    hide Published;
    hide CrossingsKept;
    hide ScalePoint;
    hide Displaces;
    g := RefreshRescales(published, batch);
    var refreshed := Adjustment.MergeSpec(published, batch).value;
    var before, all := Points(published), Points(refreshed);
    GrowthKeepsCrossings(before, all, g, 50, 200);
    SettledNeverRepaints(before, all[|published|..], g, rule);
    GrowthKeepsCrossings(Settled(Published(before, rule)), Published(all, rule), g, 30, 50);
    if ProgramRule(rule) {
      WeeklyNeverRepaints(before, all[|published|..], g, rule);
      if Replaced(published, refreshed, rule) {
        DisplacedLosesDate(before, all[|published|..], g, rule);
      } else {
        GrowthKeepsCrossings(Published(before, rule), Published(all, rule), g, 30, 50);
      }
    }
  }

  /** When the newest weekly point is displaced, its date is lost, and with it the date of any crossing there. */
  lemma DisplacedLosesDate(history: seq<Point>, later: seq<Point>, g: real, rule: Rule)
    requires Chronological(history + later) && ProgramRule(rule) && Displaced(history, later, rule)
    ensures !CrossingsKept(Published(history, rule), Published(Rescale(history, g) + later, rule), 30, 50)
  {
    hide Older;
    hide Published;
    hide Chronological;
    hide Crossings;
    ChronologicalPrefix(history, later);
    PublishedForm(history, rule);
    var before, after := Published(history, rule), Published(Rescale(history, g) + later, rule);
    var n := |before| - 1;
    if DatesOf(before) <= DatesOf(after) {
      assert DatesOf(after)[n] == DatesOf(before)[n];
      assert after[n] in after;
      RescaledDays(history, later, g);
      DisplacedDayIsGone(Rescale(history, g), later, after[n], rule);
      assert false;
    }
  }

  /** Every crossing of `older` is still there, at the same date; added ones are at new positions. */
  ghost predicate CrossingsKept(older: seq<Point>, newer: seq<Point>, short: nat, long: nat) {
    var before, after := Crossings(ValuesOf(older), short, long, |older|), Crossings(ValuesOf(newer), short, long, |newer|);
    && DatesOf(older) <= DatesOf(newer)
    && before <= after
    && forall k :: |before| <= k < |after| ==> |older| <= after[k].index < |newer|
  }

  lemma GrowthKeepsCrossings(older: seq<Point>, newer: seq<Point>, g: real, short: nat, long: nat)
    requires GrowsBy(older, newer, g)
    ensures CrossingsKept(older, newer, short, long)
  {
    GrowthKeepsDatesAndValues(older, newer, g);
    CrossingsNeverRepaint(ValuesOf(older), ValuesOf(newer), g, short, long);
  }

  // ----- the weekly event detector -----

  /** A published snapshot carries a weekly signal, or none while history is insufficient. */
  type Snapshot = Option<CrossSignal>

  function NewWeeklyCrossEvent(previous: Option<Snapshot>, current: Snapshot): Option<(Trend, int)> {
    if current.None? || current.value.crossStatus.None? || current.value.lastCrossDate.None? then None
    else
      var key := (current.value.crossStatus.value, current.value.lastCrossDate.value);
      if previous.None? || previous.value.None? then None
      else if previous.value.value.lastCrossStatus == Some(key.0) && previous.value.value.lastCrossDate == Some(key.1) then None
      else Some(key)
  }

  /** An event needs a comparable snapshot before it, a dated fresh cross, and that cross not being the last one known. */
  lemma EventIff(previous: Option<Snapshot>, current: Snapshot, trend: Trend, date: int)
    ensures NewWeeklyCrossEvent(previous, current) == Some((trend, date)) <==>
      && current.Some? && current.value.crossStatus == Some(trend) && current.value.lastCrossDate == Some(date)
      && previous.Some? && previous.value.Some?
      && !(previous.value.value.lastCrossStatus == Some(trend) && previous.value.value.lastCrossDate == Some(date))
  {}

  function SnapshotOf(weekly: seq<Point>): Snapshot {
    var signal := WeeklySignal(weekly);
    if signal.Ok? then Some(signal.value) else None
  }

  ghost predicate Grows(older: seq<Point>, newer: seq<Point>) {
    exists g :: GrowsBy(older, newer, g)
  }

  /** The newer series keeps the older one, or at least ends on a later date. */
  ghost predicate Advances(older: seq<Point>, newer: seq<Point>) {
    Grows(older, newer) || (older != [] && newer != [] && older[|older| - 1].day < newer[|newer| - 1].day)
  }

  /** Successive published weekly series. */
  ghost predicate AdvancingRun(run: seq<seq<Point>>) {
    && (forall k :: 0 <= k < |run| ==> Chronological(run[k]))
    && forall k :: 0 <= k < |run| - 1 ==> Advances(run[k], run[k + 1])
  }

  /** A series is never followed by one that ends earlier; if both end on one date it merely grew in place. */
  lemma AdvanceKeepsNewest(older: seq<Point>, newer: seq<Point>)
    requires Advances(older, newer) && Chronological(newer) && older != []
    ensures newer != [] && older[|older| - 1].day <= newer[|newer| - 1].day
    ensures older[|older| - 1].day == newer[|newer| - 1].day ==> Grows(older, newer) && |older| == |newer|
  {
    if Grows(older, newer) {
      var g :| GrowsBy(older, newer, g);
      GrowthKeepsDatesAndValues(older, newer, g);
      assert DatesOf(newer)[|older| - 1] == DatesOf(older)[|older| - 1];
      assert newer[|older| - 1].day == older[|older| - 1].day;
    }
  }

  lemma {:induction false} NewestNeverFallsBack(run: seq<seq<Point>>, i: nat, j: nat)
    requires AdvancingRun(run) && i <= j < |run| && run[i] != []
    ensures run[j] != [] && run[i][|run[i]| - 1].day <= run[j][|run[j]| - 1].day
    decreases j
  {
    hide Advances;
    hide Chronological;
    if i < j {
      NewestNeverFallsBack(run, i, j - 1);
      assert Advances(run[j - 1], run[j - 1 + 1]);
      AdvanceKeepsNewest(run[j - 1], run[j]);
    }
  }

  /** Snapshots published along a run; one may be missing when a calculation raised. */
  ghost predicate Carries(snapshots: seq<Snapshot>, run: seq<seq<Point>>) {
    |snapshots| == |run| && forall k :: 0 <= k < |run| ==> snapshots[k] == None || snapshots[k] == SnapshotOf(run[k])
  }

  /** The event reported with snapshot `k`. */
  function EventAt(snapshots: seq<Snapshot>, k: nat): Option<(Trend, int)>
    requires k < |snapshots|
  {
    NewWeeklyCrossEvent(if k == 0 then None else Some(snapshots[k - 1]), snapshots[k])
  }

  /** A series of the same length, merely rescaled, carries the same last crossing. */
  lemma SameLengthSameCross(older: seq<Point>, newer: seq<Point>, g: real)
    requires GrowsBy(older, newer, g) && |older| == |newer|
    requires SnapshotOf(older).Some? && SnapshotOf(newer).Some?
    ensures SnapshotOf(older).value.lastCrossStatus == SnapshotOf(newer).value.lastCrossStatus
    ensures SnapshotOf(older).value.lastCrossDate == SnapshotOf(newer).value.lastCrossDate
  {
    hide Crossings;
    hide WindowMean;
    GrowthKeepsDatesAndValues(older, newer, g);
    CrossingsScaled(ValuesOf(older), ValuesOf(newer), g, 30, 50, |older|);
    assert DatesOf(older) == DatesOf(newer);
  }

  /** Over a run of refreshes each (direction, date) weekly cross is reported at most once. */
  lemma EventReportedOnce(run: seq<seq<Point>>, snapshots: seq<Snapshot>, i: nat, j: nat)
    requires AdvancingRun(run) && Carries(snapshots, run) && i < j < |run|
    requires EventAt(snapshots, i).Some?
    ensures EventAt(snapshots, j) != EventAt(snapshots, i)
  {
    hide SnapshotOf;
    hide GrowsBy;
    hide Advances;
    hide Chronological;
    if EventAt(snapshots, j) == EventAt(snapshots, i) {
      LastCrossDated(run[i]);
      LastCrossDated(run[j]);
      NewestNeverFallsBack(run, i, j - 1);
      assert Advances(run[j - 1], run[j - 1 + 1]);
      AdvanceKeepsNewest(run[j - 1], run[j]);
      var g :| GrowsBy(run[j - 1], run[j], g);
      SameLengthSameCross(run[j - 1], run[j], g);
      assert false;
    }
  }

  function Newest(weekly: seq<Point>): int
    requires weekly != []
  {
    weekly[|weekly| - 1].day
  }

  /** The last cross is never dated after the newest week, and in it exactly when it is fresh. */
  lemma LastCrossDated(weekly: seq<Point>)
    requires Chronological(weekly) && SnapshotOf(weekly).Some?
    ensures weekly != []
    ensures var signal := SnapshotOf(weekly).value;
      && (signal.lastCrossDate.Some? ==> signal.lastCrossDate.value <= Newest(weekly))
      && (signal.crossStatus.Some? <==> signal.lastCrossDate == Some(Newest(weekly)))
      && (signal.crossStatus.Some? ==> signal.lastCrossStatus == signal.crossStatus)
  {
    hide WindowMean;
    var crossings := Crossings(ValuesOf(weekly), 30, 50, |weekly|);
    hide Crossings;
    if crossings != [] {
      var index := crossings[|crossings| - 1].index;
      assert DatesOf(weekly)[index] == weekly[index].day;
      assert index < |weekly| - 1 ==> weekly[index].day < Newest(weekly);
    }
  }

  /** With two successive snapshots an event is reported exactly when the newest week is new and has a cross. */
  lemma ReportedIff(older: seq<Point>, newer: seq<Point>)
    requires Advances(older, newer) && Chronological(older) && Chronological(newer)
    requires SnapshotOf(older).Some? && SnapshotOf(newer).Some?
    ensures older != [] && newer != []
    ensures var event, signal := NewWeeklyCrossEvent(Some(SnapshotOf(older)), SnapshotOf(newer)), SnapshotOf(newer).value;
      && (event.Some? <==> signal.crossStatus.Some? && Newest(older) < Newest(newer))
      && (event.Some? ==> event.value == (signal.crossStatus.value, Newest(newer)))
  {
    hide SnapshotOf;
    hide GrowsBy;
    hide Advances;
    hide Chronological;
    LastCrossDated(older);
    LastCrossDated(newer);
    AdvanceKeepsNewest(older, newer);
    if Newest(older) == Newest(newer) {
      var g :| GrowsBy(older, newer, g);
      SameLengthSameCross(older, newer, g);
    }
  }

  /** Taking back the newest point takes back at most a crossing there. */
  lemma SettledCross(weekly: seq<Point>)
    requires Chronological(weekly) && weekly != []
    requires SnapshotOf(weekly).Some? && SnapshotOf(Settled(weekly)).Some?
    requires SnapshotOf(weekly).value.crossStatus == None
    ensures SnapshotOf(weekly).value.lastCrossStatus == SnapshotOf(Settled(weekly)).value.lastCrossStatus
    ensures SnapshotOf(weekly).value.lastCrossDate == SnapshotOf(Settled(weekly)).value.lastCrossDate
  {
    hide WindowMean;
    var front := Settled(weekly);
    assert ScaledPrefix(ValuesOf(front), ValuesOf(weekly), 1.0);
    OneBarOneCrossing(ValuesOf(front), ValuesOf(weekly), 1.0, 30, 50);
    hide Crossings;
  }

  /**
   What taking back the newest weekly point reports: an event exactly when the point
   taken back and the one before it both carry a fresh cross, and then the older one again.
   */
  lemma WithdrawalReportsIff(weekly: seq<Point>)
    requires Chronological(weekly) && weekly != []
    requires SnapshotOf(weekly).Some? && SnapshotOf(Settled(weekly)).Some?
    ensures Settled(weekly) != []
    ensures var event, older := NewWeeklyCrossEvent(Some(SnapshotOf(weekly)), SnapshotOf(Settled(weekly))), SnapshotOf(Settled(weekly)).value;
      && (event.Some? <==> SnapshotOf(weekly).value.crossStatus.Some? && older.crossStatus.Some?)
      && (event.Some? ==> event.value == (older.crossStatus.value, Newest(Settled(weekly))))
  {
    var front := Settled(weekly);
    assert Chronological(front) by {
      assert front + weekly[|front|..] == weekly;
      ChronologicalPrefix(front, weekly[|front|..]);
    }
    LastCrossDated(weekly);
    LastCrossDated(front);
    assert Newest(front) < Newest(weekly);
    if SnapshotOf(weekly).value.crossStatus == None { SettledCross(weekly); }
    hide SnapshotOf;
    hide Chronological;
  }

  /** No snapshot is missing up to `j`. */
  ghost predicate Unbroken(snapshots: seq<Snapshot>, j: nat) {
    forall k :: 0 <= k < |snapshots| && k <= j ==> snapshots[k].Some?
  }

  lemma ReportedAt(run: seq<seq<Point>>, snapshots: seq<Snapshot>, j: nat)
    requires AdvancingRun(run) && Carries(snapshots, run) && 0 < j < |run| && Unbroken(snapshots, j)
    ensures run[j - 1] != [] && run[j] != []
    ensures EventAt(snapshots, j) ==
      if snapshots[j].value.crossStatus.Some? && Newest(run[j - 1]) < Newest(run[j])
      then Some((snapshots[j].value.crossStatus.value, Newest(run[j]))) else None
  {
    hide SnapshotOf;
    hide Advances;
    hide Chronological;
    assert snapshots[j - 1].Some?;
    assert Advances(run[j - 1], run[j - 1 + 1]);
    ReportedIff(run[j - 1], run[j]);
  }

  lemma FreshSameWeek(older: seq<Point>, newer: seq<Point>)
    requires Advances(older, newer) && Chronological(older) && Chronological(newer)
    requires SnapshotOf(older).Some? && SnapshotOf(newer).Some? && older != [] && newer != []
    requires Newest(older) == Newest(newer)
    ensures SnapshotOf(older).value.crossStatus == SnapshotOf(newer).value.crossStatus
  {
    hide SnapshotOf;
    hide GrowsBy;
    hide Advances;
    hide Chronological;
    LastCrossDated(older);
    LastCrossDated(newer);
    AdvanceKeepsNewest(older, newer);
    var g :| GrowsBy(older, newer, g);
    SameLengthSameCross(older, newer, g);
  }

  /**
   Nothing is missed: a fresh weekly cross, in a week newer than the first snapshot's,
   has been reported by the first snapshot of that week, with its direction and date.
   */
  lemma {:induction false} EachCrossReported(run: seq<seq<Point>>, snapshots: seq<Snapshot>, j: nat) returns (k: nat)
    requires AdvancingRun(run) && Carries(snapshots, run) && j < |run| && Unbroken(snapshots, j)
    requires run[0] != [] && run[j] != [] && Newest(run[0]) < Newest(run[j])
    requires snapshots[j].value.crossStatus.Some?
    ensures 0 < k <= j && EventAt(snapshots, k) == Some((snapshots[j].value.crossStatus.value, Newest(run[j])))
    decreases j
  {
    hide SnapshotOf;
    hide Advances;
    hide Chronological;
    hide EventAt;
    ReportedAt(run, snapshots, j);
    assert Advances(run[j - 1], run[j - 1 + 1]);
    AdvanceKeepsNewest(run[j - 1], run[j]);
    if Newest(run[j - 1]) < Newest(run[j]) {
      k := j;
    } else {
      assert snapshots[j - 1].Some?;
      FreshSameWeek(run[j - 1], run[j]);
      k := EachCrossReported(run, snapshots, j - 1);
    }
  }

  /** The weekly signal a calculation publishes, if it does not raise. */
  function PublishedSnapshot(history: seq<Adjustment.PricedBar>, rule: Rule): Snapshot {
    var r := Evaluate(history, rule);
    if r.Ok? then Some(r.value.weeklyCross) else None
  }

  lemma SnapshotIsOfPublished(history: seq<Adjustment.PricedBar>, rule: Rule)
    requires Adjustment.FullyAdjusted(history)
    ensures PublishedSnapshot(history, rule) == None || PublishedSnapshot(history, rule) == SnapshotOf(Published(Points(history), rule))
  {
    hide SignalOf;
    hide MeanOfLast;
    hide CrossPriority;
    hide Published;
  }

  /**
   One refresh under one of the program's rules.  With the newest week always published
   anything may happen within it; otherwise the newest published point is not displaced.
   */
  ghost predicate Refreshed(history: seq<Adjustment.CleanBar>, batch: seq<Adjustment.DailyBar>, next: seq<Adjustment.CleanBar>, rule: Rule) {
    && CleanRefresh(history, batch) && Adjustment.MergeSpec(history, batch) == Ok(next)
    && ProgramRule(rule) && (rule == Rule(None, false) || !Replaced(history, next, rule))
  }

  /** A run of refreshes: each history is the previous one merged with a batch that continues it. */
  ghost predicate RefreshRun(histories: seq<seq<Adjustment.CleanBar>>, batches: seq<seq<Adjustment.DailyBar>>, rule: Rule) {
    && |histories| == |batches| + 1
    && AdjustmentLaws.IsMerged(histories[0])
    && forall k :: 0 <= k < |batches| ==> Refreshed(histories[k], batches[k], histories[k + 1], rule)
  }

  lemma {:induction false} RunIsMerged(
      histories: seq<seq<Adjustment.CleanBar>>, batches: seq<seq<Adjustment.DailyBar>>, rule: Rule, k: nat)
    requires RefreshRun(histories, batches, rule) && k < |histories|
    ensures AdjustmentLaws.IsMerged(histories[k])
    ensures Adjustment.FullyAdjusted(histories[k]) && Chronological(Points(histories[k]))
    ensures Chronological(Published(Points(histories[k]), rule))
  {
    hide Adjustment.MergeSpec;
    hide Published;
    if k > 0 {
      assert Refreshed(histories[k - 1], batches[k - 1], histories[k - 1 + 1], rule);
      AdjustmentLaws.RemergeIsIdentity(histories[k - 1], batches[k - 1]);
    }
    AdjustmentLaws.MergedIsAdjusted(histories[k]);
    assert Chronological(Points(histories[k]));
    PublishedChronological(Points(histories[k]), rule);
  }

  /** The newest week is published, so its point is the newest bar. */
  lemma NewestIsPublished(history: seq<Point>)
    requires Chronological(history) && history != []
    ensures var r := Published(history, Rule(None, false)); r != [] && r[|r| - 1] == history[|history| - 1]
  {
    PublishedForm(history, Rule(None, false));
  }

  lemma RefreshAdvances(history: seq<Adjustment.CleanBar>, batch: seq<Adjustment.DailyBar>, next: seq<Adjustment.CleanBar>, rule: Rule)
    requires Refreshed(history, batch, next, rule)
    ensures Adjustment.FullyAdjusted(history) && Adjustment.FullyAdjusted(next)
    ensures Advances(Published(Points(history), rule), Published(Points(next), rule))
  {
    hide Adjustment.MergeSpec;
    hide Published;
    hide GrowsBy;
    hide CrossingsKept;
    var g := PipelineNeverRepaints(history, batch, rule);
    if Replaced(history, next, rule) {
      var h := RefreshRescales(history, batch);
      var before, all := Points(history), Points(next);
      var sum := before + all[|history|..];
      assert sum[|history| - 1] == before[|history| - 1] && sum[|sum| - 1] == all[|all| - 1];
      assert Chronological(before) && Chronological(all) by { BothChronological(before, all, h); }
      NewestIsPublished(before);
      NewestIsPublished(all);
    } else {
      assert Grows(Published(Points(history), rule), Published(Points(next), rule));
    }
  }

  lemma BothChronological(before: seq<Point>, all: seq<Point>, g: real)
    requires |before| <= |all| && all == Rescale(before, g) + all[|before|..] && Chronological(before + all[|before|..])
    ensures Chronological(before) && Chronological(all)
  {
    ChronologicalPrefix(before, all[|before|..]);
    RescaledDays(before, all[|before|..], g);
  }

  /** The weekly series that a run of refreshes publishes. */
  lemma RunPublishes(
      histories: seq<seq<Adjustment.CleanBar>>, batches: seq<seq<Adjustment.DailyBar>>, rule: Rule, snapshots: seq<Snapshot>)
    returns (run: seq<seq<Point>>)
    requires RefreshRun(histories, batches, rule) && |snapshots| == |histories|
    requires forall k :: 0 <= k < |histories| ==> snapshots[k] == PublishedSnapshot(histories[k], rule)
    ensures AdvancingRun(run) && Carries(snapshots, run)
    ensures forall k :: 0 <= k < |histories| ==>
      Adjustment.FullyAdjusted(histories[k]) && run[k] == Published(Points(histories[k]), rule)
  {
    hide Adjustment.MergeSpec;
    hide Published;
    hide Advances;
    hide Chronological;
    hide PublishedSnapshot;
    hide SnapshotOf;
    hide Refreshed;
    forall k | 0 <= k < |histories|
      ensures Adjustment.FullyAdjusted(histories[k]) && Chronological(Published(Points(histories[k]), rule))
    {
      RunIsMerged(histories, batches, rule, k);
    }
    run := seq(|histories|, k requires 0 <= k < |histories| => Published(Points(histories[k]), rule));
    forall k | 0 <= k < |run| - 1 ensures Advances(run[k], run[k + 1]) {
      assert Refreshed(histories[k], batches[k], histories[k + 1], rule);
      RefreshAdvances(histories[k], batches[k], histories[k + 1], rule);
    }
    forall k | 0 <= k < |run| ensures snapshots[k] == None || snapshots[k] == SnapshotOf(run[k]) {
      SnapshotIsOfPublished(histories[k], rule);
    }
  }

  /** In every run of refreshes no weekly cross is reported twice. */
  lemma RefreshRunReportsOnce(
      histories: seq<seq<Adjustment.CleanBar>>, batches: seq<seq<Adjustment.DailyBar>>, rule: Rule, snapshots: seq<Snapshot>)
    requires RefreshRun(histories, batches, rule) && |snapshots| == |histories|
    requires forall k :: 0 <= k < |histories| ==> snapshots[k] == PublishedSnapshot(histories[k], rule)
    ensures forall i, j :: 0 <= i < j < |snapshots| && EventAt(snapshots, i).Some? ==> EventAt(snapshots, j) != EventAt(snapshots, i)
  {
    hide RefreshRun;
    hide AdvancingRun;
    hide Carries;
    hide EventAt;
    hide PublishedSnapshot;
    var run := RunPublishes(histories, batches, rule, snapshots);
    forall i, j | 0 <= i < j < |snapshots| && EventAt(snapshots, i).Some?
      ensures EventAt(snapshots, j) != EventAt(snapshots, i)
    {
      assert |run| == |snapshots| by { CarriedLength(snapshots, run); }
      EventReportedOnce(run, snapshots, i, j);
    }
  }

  lemma CarriedLength(snapshots: seq<Snapshot>, run: seq<seq<Point>>)
    requires Carries(snapshots, run)
    ensures |run| == |snapshots|
  {}

  /** In every run of refreshes without a failed calculation no weekly cross after the first week is missed. */
  lemma RefreshRunReportsEach(
      histories: seq<seq<Adjustment.CleanBar>>, batches: seq<seq<Adjustment.DailyBar>>, rule: Rule, snapshots: seq<Snapshot>, j: nat)
    returns (k: nat)
    requires RefreshRun(histories, batches, rule) && |snapshots| == |histories|
    requires forall k :: 0 <= k < |histories| ==> snapshots[k] == PublishedSnapshot(histories[k], rule)
    requires j < |snapshots| && Unbroken(snapshots, j)
    requires snapshots[j].value.crossStatus.Some? && snapshots[j].value.lastCrossDate.Some?
    requires Adjustment.FullyAdjusted(histories[0])
    requires var first := Published(Points(histories[0]), rule);
      first != [] && Newest(first) < snapshots[j].value.lastCrossDate.value
    ensures 0 < k <= j
    ensures EventAt(snapshots, k) == Some((snapshots[j].value.crossStatus.value, snapshots[j].value.lastCrossDate.value))
  {
    hide RefreshRun;
    hide EventAt;
    hide PublishedSnapshot;
    hide SnapshotOf;
    hide Published;
    hide Chronological;
    hide Advances;
    var run := RunPublishes(histories, batches, rule, snapshots);
    LastCrossDated(run[j]);
    k := EachCrossReported(run, snapshots, j);
  }
}
