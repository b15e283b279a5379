/**
 A fund's weekly cross that is reported twice.  After fifty flat weeks the NAV is 1.1 on
 a Friday, a golden cross, and 0.5 on the next Friday, a death cross.  A NAV of the
 Saturday after it makes that week incomplete again, so the death cross is withdrawn
 and the golden cross of the week before is reported a second time.
 */
module WeekendNav {
  import opened Prelude
  import opened FundReturns
  import opened WeeklyPoints
  import opened CrossSignals
  import opened CtaEngine
  import opened CtaLaws
  import opened FundEvents
  import opened FlatWeeks

  const RISE := FundNav(354, 1.1)
  const FALL := FundNav(361, 0.5)
  const SATURDAY := FundNav(362, 0.5)

  function FlatNavs(): (r: seq<FundNav>)
    ensures |r| == DAYS && forall i :: 0 <= i < DAYS ==> r[i] == FundNav(FlatDay(i), 1.0)
  {
    seq(DAYS, i requires 0 <= i < DAYS => FundNav(FlatDay(i), 1.0))
  }

  function NavPoint(nav: FundNav): Point { Point(nav.day, nav.nav) }

  /** The four histories of the example. */
  function HistoryAt(k: nat): seq<FundNav> {
    if k == 0 then FlatNavs()
    else if k == 1 then FlatNavs() + [RISE]
    else if k == 2 then FlatNavs() + [RISE] + [FALL]
    else FlatNavs() + [RISE] + [FALL] + [SATURDAY]
  }

  function PointsAt(k: nat): seq<Point> {
    if k == 0 then FlatDays()
    else if k == 1 then FlatDays() + [NavPoint(RISE)]
    else if k == 2 then FlatDays() + [NavPoint(RISE)] + [NavPoint(FALL)]
    else FlatDays() + [NavPoint(RISE)] + [NavPoint(FALL)] + [NavPoint(SATURDAY)]
  }

  function WeeklyAt(k: nat): seq<Point> {
    if k == 0 then Fridays()
    else if k == 2 then Fridays() + [NavPoint(RISE)] + [NavPoint(FALL)]
    else Fridays() + [NavPoint(RISE)]
  }

  lemma PointsOfNavs(navs: seq<FundNav>, points: seq<Point>)
    requires |navs| == |points| && forall i :: 0 <= i < |navs| ==> points[i] == NavPoint(navs[i])
    ensures Points(NavBars(navs)) == points
  {}

  lemma HistoryPoints(k: nat)
    ensures Points(NavBars(HistoryAt(k))) == PointsAt(k)
  {
    hide Points;
    hide NavBars;
    PointsOfNavs(HistoryAt(k), PointsAt(k));
  }

  lemma WeeksOfPoints()
    ensures forall k :: 0 <= k < 4 ==> Chronological(PointsAt(k))
    ensures forall k :: 0 <= k < 3 ==> LastOfWeeks(PointsAt(k)) == WeeklyAt(k)
  {
    hide LastOfWeeks;
    hide Chronological;
    FlatWeekly();
    OneMoreWeek(PointsAt(0), NavPoint(RISE));
    OneMoreWeek(PointsAt(1), NavPoint(FALL));
    ChronologicalAppend(PointsAt(2), NavPoint(SATURDAY));
  }

  lemma HistoryOrdered(k: nat)
    requires k < 4
    ensures DateOrdered(HistoryAt(k))
  {
    hide LastOfWeeks;
    hide HistoryAt;
    hide PointsAt;
    WeeksOfPoints();
    forall i | 0 <= i < |HistoryAt(k)| ensures |PointsAt(k)| == |HistoryAt(k)| && HistoryAt(k)[i].day == PointsAt(k)[i].day {
      SameDay(k, i);
    }
  }

  lemma SameDay(k: nat, i: nat)
    requires i < |HistoryAt(k)|
    ensures |PointsAt(k)| == |HistoryAt(k)| && PointsAt(k)[i] == NavPoint(HistoryAt(k)[i])
  {}

  lemma SaturdayWithdraws()
    ensures HistoryAt(2) <= HistoryAt(3) && Withdraws(HistoryAt(2), HistoryAt(3))
    ensures FundWeekly(HistoryAt(3)) == Settled(FundWeekly(HistoryAt(2)))
  {
    hide FundWeekly;
    HistoryOrdered(3);
    WithdrawnWeekly(HistoryAt(2), HistoryAt(3));
  }

  /** The published weekly series: the fourth is the second again. */
  lemma WeeklyOfHistory(k: nat)
    requires k < 4
    ensures FundWeekly(HistoryAt(k)) == WeeklyAt(k)
  {
    hide LastOfWeeks;
    hide Points;
    hide NavBars;
    hide Chronological;
    hide HistoryAt;
    hide PointsAt;
    hide WeeklyAt;
    EndsOnFriday(k);
    if k < 3 {
      WeeksOfPoints();
      HistoryPoints(k);
      SelectAll(WeeklyAt(k));
    } else {
      WeeklyOfHistory(2);
      SaturdayWithdraws();
      WeeklyRelations();
    }
  }

  lemma EndsOnFriday(k: nat)
    ensures WeeklyAt(k) != [] && Weekday(WeeklyAt(k)[|WeeklyAt(k)| - 1].day) == FRIDAY
  {}

  lemma WeeklyRelations()
    ensures WeeklyAt(0) <= WeeklyAt(1) == WeeklyAt(3) == Settled(WeeklyAt(2))
    ensures WeeklyAt(1) != [] && WeeklyAt(0) != [] && Newest(WeeklyAt(0)) < Newest(WeeklyAt(1)) == 354
  {}

  lemma PositiveAt(k: nat)
    ensures PositivePrices(PointsAt(k)) && PositivePrices(WeeklyAt(k))
  {}

  /** No calculation fails. */
  lemma SnapshotAt(k: nat)
    requires k < 4
    ensures FundSnapshot(HistoryAt(k)).Some? && FundSnapshot(HistoryAt(k)) == SnapshotOf(WeeklyAt(k))
  {
    hide Points;
    hide NavBars;
    hide Published;
    hide Evaluate;
    hide WeeklySignal;
    hide PositivePrices;
    PositiveAt(k);
    HistoryPoints(k);
    WeeklyOfHistory(k);
    EvaluatesIff(NavBars(HistoryAt(k)), FUND_RULE);
  }

  lemma Crosses()
    ensures SnapshotOf(WeeklyAt(1)).Some? && SnapshotOf(WeeklyAt(1)).value.crossStatus == Some(Golden)
    ensures SnapshotOf(WeeklyAt(2)).Some? && SnapshotOf(WeeklyAt(2)).value.crossStatus == Some(Death)
  {
    hide Crossings;
    FirstCrossing(ValuesOf(WeeklyAt(1)), Golden);
    RiseAndFall(ValuesOf(WeeklyAt(2)));
    PositiveAt(1);
    PositiveAt(2);
    FreshAtEnd(WeeklyAt(1), Golden);
    FreshAtEnd(WeeklyAt(2), Death);
  }

  lemma WeeklyGrows()
    ensures Advances(WeeklyAt(0), WeeklyAt(1))
    ensures Chronological(WeeklyAt(0)) && Chronological(WeeklyAt(1)) && Chronological(WeeklyAt(2))
  {
    hide Grows;
    assert Chronological(Fridays());
    hide Chronological;
    ChronologicalAppend(WeeklyAt(0), NavPoint(RISE));
    ChronologicalAppend(WeeklyAt(1), NavPoint(FALL));
    NothingRescaled(WeeklyAt(0), WeeklyAt(1));
  }

  /** The step from one history to the next, as a merge of one continuing NAV. */
  lemma MergedOne(k: nat, item: FundNav)
    requires k < 3 && HistoryAt(k + 1) == HistoryAt(k) + [item]
    ensures Continues(HistoryAt(k), [item]) && HistoryAt(k + 1) == NavList(NavSeries(HistoryAt(k) + [item]))
  {
    hide NavList;
    hide NavSeries;
    HistoryOrdered(k + 1);
    OrderedIsMerged(HistoryAt(k + 1));
    var n := |HistoryAt(k)|;
    forall i | 0 <= i < n ensures HistoryAt(k)[i].day < item.day {
      assert HistoryAt(k + 1)[i] == HistoryAt(k)[i] && HistoryAt(k + 1)[n] == item;
    }
  }

  lemma MergedSteps()
    ensures Continues(HistoryAt(0), [RISE]) && HistoryAt(1) == NavList(NavSeries(HistoryAt(0) + [RISE]))
    ensures Continues(HistoryAt(1), [FALL]) && HistoryAt(2) == NavList(NavSeries(HistoryAt(1) + [FALL]))
    ensures Continues(HistoryAt(2), [SATURDAY]) && HistoryAt(3) == NavList(NavSeries(HistoryAt(2) + [SATURDAY]))
  {
    hide NavList;
    hide NavSeries;
    hide Continues;
    HistorySteps();
    hide HistoryAt;
    MergedOne(0, RISE);
    MergedOne(1, FALL);
    MergedOne(2, SATURDAY);
  }

  lemma HistorySteps()
    ensures HistoryAt(1) == HistoryAt(0) + [RISE] && HistoryAt(2) == HistoryAt(1) + [FALL] && HistoryAt(3) == HistoryAt(2) + [SATURDAY]
  {}

  /**
   The same weekly cross is reported twice, in a run of merges that only add later NAVs
   and in which no calculation fails: the last merge withdraws a published Friday.
   */
  lemma CrossReportedTwice(snapshots: seq<Snapshot>)
    requires |snapshots| == 4 && forall k :: 0 <= k < 4 ==> snapshots[k] == FundSnapshot(HistoryAt(k))
    ensures Continues(HistoryAt(0), [RISE]) && HistoryAt(1) == NavList(NavSeries(HistoryAt(0) + [RISE]))
    ensures Continues(HistoryAt(1), [FALL]) && HistoryAt(2) == NavList(NavSeries(HistoryAt(1) + [FALL]))
    ensures Continues(HistoryAt(2), [SATURDAY]) && HistoryAt(3) == NavList(NavSeries(HistoryAt(2) + [SATURDAY]))
    ensures Withdraws(HistoryAt(2), HistoryAt(3))
    ensures EventAt(snapshots, 1) == EventAt(snapshots, 3) == Some((Golden, 354))
  {
    hide NavList;
    hide NavSeries;
    hide FundSnapshot;
    hide SnapshotOf;
    hide Advances;
    hide Chronological;
    hide Continues;
    hide HistoryAt;
    hide WeeklyAt;
    hide Withdraws;
    hide Settled;
    MergedSteps();
    WeeklyRelations();
    SaturdayWithdraws();
    SnapshotAt(0);
    SnapshotAt(1);
    SnapshotAt(2);
    SnapshotAt(3);
    Crosses();
    WeeklyGrows();
    ReportedIff(WeeklyAt(0), WeeklyAt(1));
    WithdrawalReportsIff(WeeklyAt(2));
  }
}
