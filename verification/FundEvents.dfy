/**
 The feed of the weekly-event detector: fund NAV histories, merged by date and
 evaluated as they are, with the incomplete newest week withheld.
 */
module FundEvents {
  import opened Prelude
  import opened Ordering
  import Adjustment
  import opened FundReturns
  import opened WeeklyPoints
  import opened CtaEngine
  import opened CtaLaws

  const FUND_RULE := Rule(None, true)

  // ----- merging by date -----

  ghost predicate DateOrdered(navs: seq<FundNav>) {
    forall i, j :: 0 <= i < j < |navs| ==> navs[i].day < navs[j].day
  }

  function DaySet(m: Series): (r: set<int>)
    ensures forall d :: d in r <==> d >= 0 && d in m
  {
    set d: nat | d in m :: d as int
  }

  function NavList(m: Series): (r: seq<FundNav>)
    ensures |r| == |SortedDays(DaySet(m))|
    ensures forall i :: 0 <= i < |r| ==> r[i].day == SortedDays(DaySet(m))[i] && r[i].day in m && r[i].nav == m[r[i].day]
  {
    var days := SortedDays(DaySet(m));
    seq(|days|, i requires 0 <= i < |days| => assert days[i] in days; FundNav(days[i], m[days[i] as nat]))
  }

  method MergeNavHistory(existing: seq<FundNav>, incoming: seq<FundNav>) returns (r: seq<FundNav>)
    ensures r == NavList(NavSeries(existing + incoming))
  {
    hide NavList;
    var merged: Series := map[];
    for k := 0 to |existing|
      invariant merged == NavSeries(existing[..k])
    {
      assert existing[..k + 1][..k] == existing[..k];
      merged := merged[existing[k].day := existing[k].nav];
    }
    assert existing[..|existing|] == existing + incoming[..0];
    for k := 0 to |incoming|
      invariant merged == NavSeries(existing + incoming[..k])
    {
      var longer := existing + incoming[..k + 1];
      assert longer[..|longer| - 1] == existing + incoming[..k];
      merged := merged[incoming[k].day := incoming[k].nav];
    }
    assert incoming[..|incoming|] == incoming;
    r := NavList(merged);
  }

  lemma NavListOrdered(m: Series)
    ensures DateOrdered(NavList(m))
  {}

  ghost predicate Known(navs: seq<FundNav>, day: int) { exists k :: 0 <= k < |navs| && navs[k].day == day }

  ghost predicate Fresh(navs: seq<FundNav>, day: int) { forall k :: 0 <= k < |navs| ==> navs[k].day < day }

  /** NAVs as the provider sends them: on hand already, or of a later day. */
  ghost predicate Continues(navs: seq<FundNav>, batch: seq<FundNav>) {
    forall item :: item in batch ==> item in navs || Fresh(navs, item.day)
  }

  /** Days on hand keep their NAV; every other day is fresh. */
  ghost predicate OnHand(navs: seq<FundNav>, m: Series) {
    && (forall k :: 0 <= k < |navs| ==> navs[k].day in m && m[navs[k].day] == navs[k].nav)
    && forall d :: d in m ==> Known(navs, d) || Fresh(navs, d)
  }

  lemma {:induction false} SeriesOfOrdered(navs: seq<FundNav>)
    requires DateOrdered(navs)
    ensures OnHand(navs, NavSeries(navs))
  {
    if navs != [] {
      var front, last := navs[..|navs| - 1], navs[|navs| - 1];
      SeriesOfOrdered(front);
      forall k | 0 <= k < |navs| ensures navs[k].day in NavSeries(navs) && NavSeries(navs)[navs[k].day] == navs[k].nav {
        if k < |front| { assert front[k] == navs[k]; }
      }
      DaysOfSeries(navs);
    }
  }

  lemma {:induction false} DaysOfSeries(navs: seq<FundNav>)
    ensures forall d :: d in NavSeries(navs) ==> Known(navs, d)
  {
    if navs != [] {
      var front, last := navs[..|navs| - 1], navs[|navs| - 1];
      DaysOfSeries(front);
      forall d | d in NavSeries(navs) ensures Known(navs, d) {
        if d == last.day {
          assert navs[|front|].day == d;
        } else {
          assert d in NavSeries(front) && Known(front, d);
          var k :| 0 <= k < |front| && front[k].day == d;
          assert navs[k].day == d;
        }
      }
    }
  }

  lemma {:induction false} MergeKeepsOnHand(navs: seq<FundNav>, batch: seq<FundNav>)
    requires DateOrdered(navs) && Continues(navs, batch)
    ensures OnHand(navs, NavSeries(navs + batch))
    decreases |batch|
  {
    if batch == [] {
      assert navs + batch == navs;
      SeriesOfOrdered(navs);
    } else {
      var front, item := batch[..|batch| - 1], batch[|batch| - 1];
      assert (navs + batch)[..|navs + batch| - 1] == navs + front;
      MergeKeepsOnHand(navs, front);
      if item in navs {
        var j :| 0 <= j < |navs| && navs[j] == item;
        assert navs[j].day == item.day;
      }
    }
  }

  function NavDays(navs: seq<FundNav>): (r: seq<int>)
    ensures |r| == |navs| && forall i :: 0 <= i < |navs| ==> r[i] == navs[i].day
  {
    seq(|navs|, i requires 0 <= i < |navs| => navs[i].day as int)
  }

  ghost function DaysOn(navs: seq<FundNav>): (r: set<int>)
    ensures forall d :: d in r <==> Known(navs, d)
    ensures DateOrdered(navs) ==> SortedDays(r) == NavDays(navs)
  {
    var r := set d | d in NavDays(navs);
    assert forall d :: d in NavDays(navs) <==> Known(navs, d);
    if DateOrdered(navs) then IncreasingUnique(SortedDays(r), NavDays(navs)); r else r
  }

  /** A batch that continues an ordered history leaves it alone and adds later NAVs. */
  lemma MergedNavs(navs: seq<FundNav>, batch: seq<FundNav>)
    requires DateOrdered(navs) && Continues(navs, batch)
    ensures var r := NavList(NavSeries(navs + batch));
      navs <= r && DateOrdered(r)
  {
    hide NavSeries;
    hide OnHand;
    hide Continues;
    hide NavList;
    var m := NavSeries(navs + batch);
    MergeKeepsOnHand(navs, batch);
    NavListOrdered(m);
    NavDaysSplit(navs, m);
    var r := NavList(m);
    forall i | 0 <= i < |navs| ensures r[i] == navs[i] {
      assert m[navs[i].day] == navs[i].nav by { NavOnHand(navs, m, i); }
    }
  }

  lemma NavOnHand(navs: seq<FundNav>, m: Series, i: nat)
    requires OnHand(navs, m) && i < |navs|
    ensures navs[i].day in m && m[navs[i].day] == navs[i].nav
  {}

  lemma NavDaysSplit(navs: seq<FundNav>, m: Series)
    requires DateOrdered(navs) && OnHand(navs, m)
    ensures NavDays(navs) <= SortedDays(DaySet(m))
  {
    hide SortedDays;
    hide DateOrdered;
    var known, added := DaysOn(navs), DaySet(m) - DaysOn(navs);
    forall d | d in known ensures d in DaySet(m) {
      var k :| 0 <= k < |navs| && navs[k].day == d;
      NavOnHand(navs, m, k);
    }
    assert DaySet(m) == known + added;
    forall a, b | a in known && b in added ensures a < b {
      var k :| 0 <= k < |navs| && navs[k].day == a;
      assert Fresh(navs, b);
    }
    SortedDaysSplit(known, added);
  }

  lemma SeriesDays(navs: seq<FundNav>)
    requires DateOrdered(navs)
    ensures SortedDays(DaySet(NavSeries(navs))) == NavDays(navs)
  {
    SeriesOfOrdered(navs);
    DaysOfSeries(navs);
    hide NavSeries;
    forall d ensures d in DaySet(NavSeries(navs)) <==> d in DaysOn(navs) {
      if d in DaysOn(navs) { assert Known(navs, d); }
      if d in DaySet(NavSeries(navs)) { assert Known(navs, d); }
    }
    assert DaySet(NavSeries(navs)) == DaysOn(navs);
  }

  /** An ordered history is what merging it by date gives. */
  lemma OrderedIsMerged(navs: seq<FundNav>)
    requires DateOrdered(navs)
    ensures NavList(NavSeries(navs)) == navs
  {
    hide NavList;
    hide DateOrdered;
    assert navs + [] == navs;
    MergedNavs(navs, []);
    SeriesDays(navs);
  }

  // ----- evaluating -----

  /** NAVs enter the calculation in date order and unadjusted. */
  function NavBars(navs: seq<FundNav>): (r: seq<Adjustment.PricedBar>)
    ensures |r| == |navs| && Adjustment.FullyAdjusted(r)
    ensures forall i :: 0 <= i < |navs| ==> r[i].day == navs[i].day && r[i].adjustedClose == Some(Adjustment.Finite(navs[i].nav))
  {
    seq(|navs|, i requires 0 <= i < |navs| =>
      var nav := Adjustment.Finite(navs[i].nav);
      Adjustment.DailyBar(navs[i].day, nav, nav, nav, nav, 0, Adjustment.Finite(0.0), Adjustment.Finite(1.0), Some(nav), "nav"))
  }

  /** The weekly cross a fund result carries. */
  function FundSnapshot(navs: seq<FundNav>): Snapshot { PublishedSnapshot(NavBars(navs), FUND_RULE) }

  function FundWeekly(navs: seq<FundNav>): seq<Point> { Published(Points(NavBars(navs)), FUND_RULE) }

  lemma NavPointsOrdered(navs: seq<FundNav>)
    requires DateOrdered(navs)
    ensures Chronological(Points(NavBars(navs))) && Chronological(FundWeekly(navs))
  {
    hide Published;
    PublishedChronological(Points(NavBars(navs)), FUND_RULE);
  }

  lemma NothingRescaled(older: seq<Point>, newer: seq<Point>)
    requires older <= newer
    ensures Grows(older, newer)
  {
    forall i | 0 <= i < |older| ensures Rescale(older, 1.0)[i] == newer[i] {
      assert ScalePoint(older[i], 1.0).value == older[i].value;
    }
    assert GrowsBy(older, newer, 1.0);
  }

  lemma LongerNavPoints(navs: seq<FundNav>, next: seq<FundNav>)
    requires navs <= next
    ensures Points(NavBars(next)) == Points(NavBars(navs)) + Points(NavBars(next))[|navs|..]
  {
    forall i | 0 <= i < |navs| ensures Points(NavBars(next))[i] == Points(NavBars(navs))[i] { assert next[i] == navs[i]; }
  }

  lemma NavPointDay(navs: seq<FundNav>, i: nat)
    requires i < |navs|
    ensures Points(NavBars(navs))[i].day == navs[i].day
  {}

  /** The first new NAV falls in the week of a published Friday and takes it back: a weekend NAV. */
  ghost predicate Withdraws(navs: seq<FundNav>, next: seq<FundNav>) {
    0 < |navs| < |next| && Displaces(navs[|navs| - 1].day, next[|navs|].day, FUND_RULE)
  }

  /** NAVs of business days withdraw nothing. */
  lemma BusinessDaysNeverWithdraw(navs: seq<FundNav>, next: seq<FundNav>)
    requires DateOrdered(next) && navs <= next && (|navs| < |next| ==> Weekday(next[|navs|].day) <= FRIDAY)
    ensures !Withdraws(navs, next)
  {
    if 0 < |navs| < |next| {
      assert navs[|navs| - 1] == next[|navs| - 1];
      SafeRuleNeverDisplaces(navs[|navs| - 1].day, next[|navs|].day, FUND_RULE);
    }
  }

  /** A longer history keeps every published weekly point, never rescaled, exactly unless it withdraws the newest. */
  lemma NavRefreshGrows(navs: seq<FundNav>, next: seq<FundNav>)
    requires DateOrdered(next) && navs <= next
    ensures FundWeekly(navs) <= FundWeekly(next) <==> !Withdraws(navs, next)
  {
    hide Published;
    hide Points;
    hide NavBars;
    hide Chronological;
    hide Displaces;
    var before, all := Points(NavBars(navs)), Points(NavBars(next));
    LongerNavPoints(navs, next);
    NavPointsOrdered(next);
    if 0 < |navs| < |next| {
      NavPointDay(next, |navs|);
      NavPointDay(navs, |navs| - 1);
    }
    PublishedKeptIff(before, all[|navs|..], FUND_RULE);
  }

  lemma OrderedPrefix(navs: seq<FundNav>, next: seq<FundNav>)
    requires DateOrdered(next) && navs <= next
    ensures DateOrdered(navs)
  {
    assert forall i :: 0 <= i < |navs| ==> navs[i] == next[i];
  }

  /** While the withdrawn week lasts, the series published is the one before it without its newest point. */
  lemma WithdrawnWeekly(navs: seq<FundNav>, next: seq<FundNav>)
    requires DateOrdered(next) && navs <= next && Withdraws(navs, next)
    requires Week(next[|next| - 1].day) == Week(navs[|navs| - 1].day)
    ensures FundWeekly(next) == Settled(FundWeekly(navs))
  {
    hide Published;
    hide Points;
    hide NavBars;
    hide Chronological;
    hide Older;
    var before, all := Points(NavBars(navs)), Points(NavBars(next));
    OrderedPrefix(navs, next);
    LongerNavPoints(navs, next);
    NavPointsOrdered(navs);
    NavPointsOrdered(next);
    NavPointDay(navs, |navs| - 1);
    NavPointDay(next, |navs|);
    NavPointDay(next, |next| - 1);
    assert next[|next| - 1].day > navs[|navs| - 1].day by { assert navs[|navs| - 1] == next[|navs| - 1]; }
    OlderSameWeek(before, all[|navs|..]);
    PublishedForm(before, FUND_RULE);
    PublishedForm(all, FUND_RULE);
  }

  /** A run of NAV refreshes: each history is the previous one merged with a continuing batch that withdraws nothing. */
  ghost predicate NavRun(histories: seq<seq<FundNav>>, batches: seq<seq<FundNav>>) {
    && |histories| == |batches| + 1 && DateOrdered(histories[0])
    && forall k :: 0 <= k < |batches| ==> NavRefresh(histories[k], batches[k], histories[k + 1])
  }

  ghost predicate NavRefresh(navs: seq<FundNav>, batch: seq<FundNav>, next: seq<FundNav>) {
    Continues(navs, batch) && next == NavList(NavSeries(navs + batch)) && !Withdraws(navs, next)
  }

  lemma {:induction false} NavRunOrdered(histories: seq<seq<FundNav>>, batches: seq<seq<FundNav>>, k: nat)
    requires NavRun(histories, batches) && k < |histories|
    ensures DateOrdered(histories[k])
  {
    hide NavList;
    if k > 0 {
      assert NavRefresh(histories[k - 1], batches[k - 1], histories[k - 1 + 1]);
      NavListOrdered(NavSeries(histories[k - 1] + batches[k - 1]));
    }
  }

  /** The weekly series that a run of NAV refreshes publishes. */
  lemma NavRunPublishes(histories: seq<seq<FundNav>>, batches: seq<seq<FundNav>>, snapshots: seq<Snapshot>)
    returns (run: seq<seq<Point>>)
    requires NavRun(histories, batches) && |snapshots| == |histories|
    requires forall k :: 0 <= k < |histories| ==> snapshots[k] == FundSnapshot(histories[k])
    ensures AdvancingRun(run) && Carries(snapshots, run)
    ensures forall k :: 0 <= k < |histories| ==> run[k] == FundWeekly(histories[k])
  {
    hide PublishedSnapshot;
    hide SnapshotOf;
    hide Published;
    hide NavList;
    hide Chronological;
    hide Advances;
    hide NavRefresh;
    run := seq(|histories|, k requires 0 <= k < |histories| => FundWeekly(histories[k]));
    forall k | 0 <= k < |run| ensures Chronological(run[k]) {
      NavRunOrdered(histories, batches, k);
      NavPointsOrdered(histories[k]);
    }
    forall k | 0 <= k < |run| - 1 ensures Advances(run[k], run[k + 1]) {
      assert NavRefresh(histories[k], batches[k], histories[k + 1]);
      NavRunOrdered(histories, batches, k);
      NavStep(histories[k], batches[k], histories[k + 1]);
    }
    forall k | 0 <= k < |run| ensures snapshots[k] == None || snapshots[k] == SnapshotOf(run[k]) {
      SnapshotIsOfPublished(NavBars(histories[k]), FUND_RULE);
    }
  }

  /** Over any run of NAV refreshes each (direction, date) weekly cross of a fund is reported at most once. */
  lemma FundEventReportedOnce(histories: seq<seq<FundNav>>, batches: seq<seq<FundNav>>, snapshots: seq<Snapshot>, i: nat, j: nat)
    requires NavRun(histories, batches) && |snapshots| == |histories|
    requires forall k :: 0 <= k < |histories| ==> snapshots[k] == FundSnapshot(histories[k])
    requires i < j < |snapshots| && EventAt(snapshots, i).Some?
    ensures EventAt(snapshots, j) != EventAt(snapshots, i)
  {
    hide NavRun;
    hide AdvancingRun;
    hide EventAt;
    hide FundSnapshot;
    var run := NavRunPublishes(histories, batches, snapshots);
    EventReportedOnce(run, snapshots, i, j);
  }

  /** And it is reported: a fresh cross, in a week newer than the first published one, is never missed while no calculation fails. */
  lemma FundCrossReported(histories: seq<seq<FundNav>>, batches: seq<seq<FundNav>>, snapshots: seq<Snapshot>, j: nat)
    returns (k: nat)
    requires NavRun(histories, batches) && |snapshots| == |histories|
    requires forall k :: 0 <= k < |histories| ==> snapshots[k] == FundSnapshot(histories[k])
    requires j < |snapshots| && Unbroken(snapshots, j)
    requires snapshots[j].value.crossStatus.Some? && snapshots[j].value.lastCrossDate.Some?
    requires FundWeekly(histories[0]) != [] && Newest(FundWeekly(histories[0])) < snapshots[j].value.lastCrossDate.value
    ensures 0 < k <= j
    ensures EventAt(snapshots, k) == Some((snapshots[j].value.crossStatus.value, snapshots[j].value.lastCrossDate.value))
  {
    hide NavRun;
    hide EventAt;
    hide FundSnapshot;
    hide FundWeekly;
    hide SnapshotOf;
    hide Chronological;
    hide Advances;
    var run := NavRunPublishes(histories, batches, snapshots);
    LastCrossDated(run[j]);
    k := EachCrossReported(run, snapshots, j);
  }

  lemma NavStep(navs: seq<FundNav>, batch: seq<FundNav>, next: seq<FundNav>)
    requires NavRefresh(navs, batch, next) && DateOrdered(navs)
    ensures Advances(FundWeekly(navs), FundWeekly(next))
  {
    hide NavList;
    hide Published;
    MergedNavs(navs, batch);
    NavRefreshGrows(navs, next);
    NothingRescaled(FundWeekly(navs), FundWeekly(next));
  }
}
