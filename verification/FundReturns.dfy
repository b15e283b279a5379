/**
 Same-date fund-versus-proxy returns and the completed-month snapshots.  Published
 NAVs and adjusted closes are positive.  Returns are exact; the four-place rounding
 of the reported fields happens after everything modelled here.
 */
module FundReturns {
  import opened Prelude
  import opened Ordering
  import opened Calendar

  type Positive = r: real | r > 0.0 witness 1.0

  datatype FundNav = FundNav(day: nat, nav: Positive)
  datatype EtfBar = EtfBar(day: nat, adjustedClose: Option<Positive>)

  type Series = map<nat, Positive>

  datatype FundError = NonPositiveMonths | YearOutOfRange

  datatype UnknownReason = NoCommonDate | NoStartDate | StartTooFar

  datatype PeriodReturn =
    | Unknown(lastCommon: Option<int>, reason: UnknownReason)
    | Known(start: int, end: int, fundReturn: real, proxyReturn: real, excess: real)

  // ----- series -----

  function NavSeries(history: seq<FundNav>): Series {
    if history == [] then map[]
    else NavSeries(history[..|history| - 1])[history[|history| - 1].day := history[|history| - 1].nav]
  }

  function EtfSeries(history: seq<EtfBar>): Series {
    if history == [] then map[]
    else
      var earlier, bar := EtfSeries(history[..|history| - 1]), history[|history| - 1];
      if bar.adjustedClose.Some? then earlier[bar.day := bar.adjustedClose.value] else earlier
  }

  /** The last NAV of a day counts. */
  lemma {:induction false} LastNavCounts(history: seq<FundNav>, k: nat)
    requires k < |history| && forall j :: k < j < |history| ==> history[j].day != history[k].day
    ensures history[k].day in NavSeries(history) && NavSeries(history)[history[k].day] == history[k].nav
  {
    if k < |history| - 1 {
      assert history[..|history| - 1][k] == history[k];
      LastNavCounts(history[..|history| - 1], k);
    }
  }

  /** The last adjusted close of a day counts; bars without one do not. */
  lemma {:induction false} LastCloseCounts(history: seq<EtfBar>, k: nat)
    requires k < |history| && history[k].adjustedClose.Some?
    requires forall j :: k < j < |history| && history[j].adjustedClose.Some? ==> history[j].day != history[k].day
    ensures history[k].day in EtfSeries(history) && EtfSeries(history)[history[k].day] == history[k].adjustedClose.value
  {
    if k < |history| - 1 {
      assert history[..|history| - 1][k] == history[k];
      LastCloseCounts(history[..|history| - 1], k);
    }
  }

  lemma {:induction false} OnlyGivenDays(funds: seq<FundNav>, etfs: seq<EtfBar>, day: nat)
    ensures day in NavSeries(funds) ==> exists k :: 0 <= k < |funds| && funds[k].day == day
    ensures day in EtfSeries(etfs) ==> exists k :: 0 <= k < |etfs| && etfs[k].day == day && etfs[k].adjustedClose.Some?
    decreases |funds| + |etfs|
  {
    if funds != [] {
      OnlyGivenDays(funds[..|funds| - 1], etfs, day);
      if funds[|funds| - 1].day == day { assert funds[|funds| - 1].day == day; }
    }
    if etfs != [] {
      OnlyGivenDays(funds, etfs[..|etfs| - 1], day);
      if etfs[|etfs| - 1].day == day { assert etfs[|etfs| - 1].day == day; }
    }
  }

  /** The days of an increasing list that are not after `limit`. */
  function UpTo(days: seq<int>, limit: int): (r: seq<int>)
    requires StrictlyIncreasing(days)
    ensures StrictlyIncreasing(r)
    ensures forall d :: d in r <==> d in days && d <= limit
  {
    if days == [] then []
    else if days[|days| - 1] <= limit then
      assert forall d :: d in days ==> d <= limit;
      days
    else
      assert days == days[..|days| - 1] + [days[|days| - 1]];
      UpTo(days[..|days| - 1], limit)
  }

  function Common(funds: Series, etfs: Series): (r: seq<int>)
    ensures StrictlyIncreasing(r)
    ensures forall d :: d in r <==> d >= 0 && d in funds && d in etfs
  {
    SortedDays(set d: nat | d in funds && d in etfs :: d as int)
  }

  // ----- calendar months -----

  /** The same day some months earlier, clamped to the length of that month; None before year 1. */
  function PreviousMonths(day: CalendarDate, months: int): Option<CalendarDate> {
    var total := day.year * 12 + day.month - 1 - months;
    var year, month := total / 12, total % 12 + 1;
    if year < 1 || year > 9999 then None
    else
      var length := DaysInMonth(year, month);
      Some(Date(year, month, if day.day < length then day.day else length))
  }

  function MonthIndex(d: Date): int { d.year * 12 + d.month - 1 }

  /** Exactly `months` calendar months earlier; the day moves only when that month is too short. */
  lemma PreviousMonthsMeaning(day: CalendarDate, months: int)
    requires PreviousMonths(day, months).Some?
    ensures var r := PreviousMonths(day, months).value;
      && MonthIndex(r) == MonthIndex(day) - months
      && r.day <= day.day && (r.day < day.day ==> r.day == DaysInMonth(r.year, r.month) < day.day)
      && (months > 0 ==> Ordinal(r) < Ordinal(day))
  {
    var r := PreviousMonths(day, months).value;
    if months > 0 { OrdinalOrder(r, day); }
  }

  // ----- one horizon -----

  function Growth(series: Series, start: nat, end: nat): real
    requires start in series && end in series
  {
    series[end] / series[start]
  }

  /** A day both series have, not after the cutoff. */
  predicate Usable(funds: Series, etfs: Series, cutoff: Option<int>, d: int) {
    d >= 0 && d in funds && d in etfs && (cutoff.Some? ==> d <= cutoff.value)
  }

  function UsableDays(funds: Series, etfs: Series, cutoff: Option<int>): (r: seq<int>)
    ensures StrictlyIncreasing(r)
    ensures forall d :: d in r <==> Usable(funds, etfs, cutoff, d)
  {
    if cutoff.Some? then UpTo(Common(funds, etfs), cutoff.value) else Common(funds, etfs)
  }

  /** The comparison over a list of common days. */
  function Assess(funds: Series, etfs: Series, common: seq<int>, months: int, maxStartGapDays: int): Result<PeriodReturn, FundError>
    requires StrictlyIncreasing(common) && forall d :: d in common ==> d >= 0 && d in funds && d in etfs
  {
    if common == [] then Ok(Unknown(None, NoCommonDate))
    else
      var end := common[|common| - 1];
      assert end in common;
      match PreviousMonths(DateOf(end), months)
      case None => Err(YearOutOfRange)
      case Some(date) =>
        var target := Ordinal(date);
        var candidates := UpTo(common, target);
        if candidates == [] then Ok(Unknown(Some(end), NoStartDate))
        else
          var start := candidates[|candidates| - 1];
          assert start in candidates && start in common;
          if target - start > maxStartGapDays then Ok(Unknown(Some(end), StartTooFar))
          else
            var fundReturn := (Growth(funds, start, end) - 1.0) * 100.0;
            var proxyReturn := (Growth(etfs, start, end) - 1.0) * 100.0;
            Ok(Known(start, end, fundReturn, proxyReturn, fundReturn - proxyReturn))
  }

  function PeriodExcess(funds: Series, etfs: Series, months: int, cutoff: Option<int>, maxStartGapDays: int)
    : Result<PeriodReturn, FundError>
  {
    if months <= 0 then Err(NonPositiveMonths)
    else Assess(funds, etfs, UsableDays(funds, etfs, cutoff), months, maxStartGapDays)
  }

  lemma LastIsLargest(days: seq<int>)
    requires StrictlyIncreasing(days) && days != []
    ensures days[|days| - 1] in days && forall d :: d in days ==> d <= days[|days| - 1]
  {}

  /** The first day of the horizon, before any gap is allowed for. */
  function Target(end: nat, months: int): Option<int> {
    match PreviousMonths(DateOf(end), months)
    case None => None
    case Some(date) => Some(Ordinal(date))
  }

  lemma TargetBeforeEnd(end: nat, months: int)
    requires months > 0 && Target(end, months).Some?
    ensures Target(end, months).value < end
  {
    OrdinalOfDate(end);
    PreviousMonthsMeaning(DateOf(end), months);
  }

  lemma AssessKnown(funds: Series, etfs: Series, common: seq<int>, months: int, gap: int, end: nat)
    requires StrictlyIncreasing(common) && common != [] && forall d :: d in common ==> d >= 0 && d in funds && d in etfs
    requires end == common[|common| - 1] && Target(end, months).Some?
    ensures end in common
    ensures var target, r := Target(end, months).value, Assess(funds, etfs, common, months, gap);
      && r.Ok?
      && (r.value.Known? <==> exists d :: d in common && target - gap <= d <= target)
      && (r.value.Known? ==>
            && r.value.end == end && r.value.start in common && target - gap <= r.value.start <= target
            && (forall d :: d in common && d <= target ==> d <= r.value.start)
            && r.value.fundReturn == (Growth(funds, r.value.start, end) - 1.0) * 100.0
            && r.value.proxyReturn == (Growth(etfs, r.value.start, end) - 1.0) * 100.0
            && r.value.excess == (Growth(funds, r.value.start, end) - Growth(etfs, r.value.start, end)) * 100.0)
  {
    hide DateOf;
    hide Ordinal;
    hide Growth;
    hide PreviousMonths;
    assert end in common;
    var candidates := UpTo(common, Target(end, months).value);
    if candidates != [] { LastIsLargest(candidates); }
    forall d | d in common && d <= Target(end, months).value ensures d in candidates {}
  }

  /**
   A result is known exactly when a usable date lies in the `gap`-day window ending at
   the target; it then compares both series on the same two dates, the newest usable
   date and the newest usable date not after the target.
   */
  lemma KnownPeriod(funds: Series, etfs: Series, months: int, cutoff: Option<int>, gap: int, end: int)
    requires months > 0
    requires Usable(funds, etfs, cutoff, end) && forall d :: Usable(funds, etfs, cutoff, d) ==> d <= end
    requires Target(end, months).Some?
    ensures var target, r := Target(end, months).value, PeriodExcess(funds, etfs, months, cutoff, gap);
      && r.Ok? && target < end
      && (r.value.Known? <==> exists d :: Usable(funds, etfs, cutoff, d) && target - gap <= d <= target)
      && (r.value.Known? ==>
            && r.value.end == end && Usable(funds, etfs, cutoff, r.value.start)
            && target - gap <= r.value.start <= target
            && (forall d :: Usable(funds, etfs, cutoff, d) && d <= target ==> d <= r.value.start)
            && r.value.fundReturn == (Growth(funds, r.value.start, end) - 1.0) * 100.0
            && r.value.proxyReturn == (Growth(etfs, r.value.start, end) - 1.0) * 100.0
            && r.value.excess == (Growth(funds, r.value.start, end) - Growth(etfs, r.value.start, end)) * 100.0)
  {
    hide Target;
    hide Growth;
    hide Assess;
    hide UsableDays;
    var common := UsableDays(funds, etfs, cutoff);
    assert end in common;
    LastIsLargest(common);
    TargetBeforeEnd(end, months);
    AssessKnown(funds, etfs, common, months, gap, end);
    assert forall d :: Usable(funds, etfs, cutoff, d) <==> d in common;
  }

  /** Growing by this percentage carries the first value to the last one. */
  ghost predicate GrowsByPercent(series: Series, start: int, end: int, percent: real) {
    start >= 0 && end >= 0 && start in series && end in series && series[start as nat] * (1.0 + percent / 100.0) == series[end as nat]
  }

  /** What a known result says of the observations themselves. */
  lemma ReturnsMeaning(funds: Series, etfs: Series, months: int, cutoff: Option<int>, gap: int, r: PeriodReturn)
    requires PeriodExcess(funds, etfs, months, cutoff, gap) == Ok(r) && r.Known?
    ensures Usable(funds, etfs, cutoff, r.start) && Usable(funds, etfs, cutoff, r.end)
    ensures GrowsByPercent(funds, r.start, r.end, r.fundReturn) && GrowsByPercent(etfs, r.start, r.end, r.proxyReturn)
    ensures r.excess == r.fundReturn - r.proxyReturn
  {
    hide UsableDays;
    hide Assess;
    hide GrowsByPercent;
    AssessReturns(funds, etfs, UsableDays(funds, etfs, cutoff), months, gap, r);
  }

  lemma AssessReturns(funds: Series, etfs: Series, common: seq<int>, months: int, gap: int, r: PeriodReturn)
    requires StrictlyIncreasing(common) && forall d :: d in common ==> d >= 0 && d in funds && d in etfs
    requires Assess(funds, etfs, common, months, gap) == Ok(r) && r.Known?
    ensures r.start in common && r.end in common && r.excess == r.fundReturn - r.proxyReturn
    ensures GrowsByPercent(funds, r.start, r.end, r.fundReturn) && GrowsByPercent(etfs, r.start, r.end, r.proxyReturn)
  {
    hide PreviousMonths;
    hide Growth;
    hide GrowsByPercent;
    var end := common[|common| - 1];
    assert end in common;
    assert r.start in UpTo(common, Ordinal(PreviousMonths(DateOf(end), months).value));
    PercentOfGrowth(funds, r.start, end);
    PercentOfGrowth(etfs, r.start, end);
  }

  lemma PercentOfGrowth(series: Series, start: nat, end: nat)
    requires start in series && end in series
    ensures GrowsByPercent(series, start, end, (Growth(series, start, end) - 1.0) * 100.0)
  {
    var growth := Growth(series, start, end);
    assert 1.0 + (growth - 1.0) * 100.0 / 100.0 == growth;
  }

  /** When nothing is common, and when no horizon can be asked for. */
  lemma NothingCommonIff(funds: Series, etfs: Series, months: int, cutoff: Option<int>, gap: int)
    ensures PeriodExcess(funds, etfs, months, cutoff, gap) == Err(NonPositiveMonths) <==> months <= 0
    ensures PeriodExcess(funds, etfs, months, cutoff, gap) == Ok(Unknown(None, NoCommonDate)) <==>
      months > 0 && forall d :: !Usable(funds, etfs, cutoff, d)
  {
    hide DateOf;
    hide Ordinal;
    hide PreviousMonths;
    hide Growth;
    hide UsableDays;
    var common := UsableDays(funds, etfs, cutoff);
    if common != [] { assert common[0] in common; }
  }

  /** The two ways in which a horizon has no start: no usable date up to the target, or only ones too long before it. */
  lemma NoStartIff(funds: Series, etfs: Series, months: int, cutoff: Option<int>, gap: int, end: int)
    requires months > 0
    requires Usable(funds, etfs, cutoff, end) && forall d :: Usable(funds, etfs, cutoff, d) ==> d <= end
    ensures Target(end, months).None? <==> PeriodExcess(funds, etfs, months, cutoff, gap) == Err(YearOutOfRange)
    ensures Target(end, months).Some? ==>
      var target, r := Target(end, months).value, PeriodExcess(funds, etfs, months, cutoff, gap);
      && (r == Ok(Unknown(Some(end), NoStartDate)) <==> forall d :: Usable(funds, etfs, cutoff, d) ==> d > target)
      && (r == Ok(Unknown(Some(end), StartTooFar)) <==>
            && (exists d :: Usable(funds, etfs, cutoff, d) && d <= target)
            && forall d :: Usable(funds, etfs, cutoff, d) && d <= target ==> d < target - gap)
  {
    hide DateOf;
    hide Ordinal;
    hide PreviousMonths;
    hide Growth;
    hide UsableDays;
    var common := UsableDays(funds, etfs, cutoff);
    assert end in common;
    LastIsLargest(common);
    if Target(end, months).Some? {
      var candidates := UpTo(common, Target(end, months).value);
      if candidates != [] { LastIsLargest(candidates); }
      forall d | Usable(funds, etfs, cutoff, d) && d <= Target(end, months).value ensures d in candidates { assert d in common; }
    }
  }

  /** Exchanging fund and proxy negates the excess return and changes nothing else. */
  lemma SwapNegatesExcess(funds: Series, etfs: Series, months: int, cutoff: Option<int>, gap: int)
    ensures var r, s := PeriodExcess(funds, etfs, months, cutoff, gap), PeriodExcess(etfs, funds, months, cutoff, gap);
      && r.Ok? == s.Ok?
      && (r.Ok? ==> r.value.Known? == s.value.Known?)
      && (r.Ok? && r.value.Known? ==>
            r.value.start == s.value.start && r.value.end == s.value.end && r.value.excess == -s.value.excess)
  {
    hide Growth;
    hide DateOf;
    hide PreviousMonths;
    hide UsableDays;
    IncreasingUnique(UsableDays(funds, etfs, cutoff), UsableDays(etfs, funds, cutoff));
  }

  // ----- no look-ahead -----

  function Until(series: Series, limit: int): Series {
    map d | d in series && d <= limit :: series[d]
  }

  lemma CutoffHidesLater(funds: Series, etfs: Series, months: int, cutoff: int, gap: int, limit: int)
    requires cutoff <= limit
    ensures PeriodExcess(funds, etfs, months, Some(cutoff), gap)
         == PeriodExcess(Until(funds, limit), Until(etfs, limit), months, Some(cutoff), gap)
  {
    hide DateOf;
    hide PreviousMonths;
    hide UsableDays;
    var days := UsableDays(funds, etfs, Some(cutoff));
    assert forall d :: Usable(Until(funds, limit), Until(etfs, limit), Some(cutoff), d) <==> Usable(funds, etfs, Some(cutoff), d);
    IncreasingUnique(days, UsableDays(Until(funds, limit), Until(etfs, limit), Some(cutoff)));
    assert forall d :: d in days ==> Until(funds, limit)[d] == funds[d] && Until(etfs, limit)[d] == etfs[d];
  }

  /** The last day of the month before; None for the first month of year 1. */
  function EndOfPreviousMonth(d: CalendarDate): Option<CalendarDate> {
    if d.month > 1 then Some(Date(d.year, d.month - 1, DaysInMonth(d.year, d.month - 1)))
    else if d.year > 1 then Some(Date(d.year - 1, 12, 31))
    else None
  }

  /** `date(year, month, 1) - timedelta(days=1)`. */
  lemma EndOfPreviousMonthIsDayBefore(d: CalendarDate)
    requires EndOfPreviousMonth(d).Some?
    ensures Ordinal(EndOfPreviousMonth(d).value) == Ordinal(Date(d.year, d.month, 1)) - 1
  {
    NextOrdinal(EndOfPreviousMonth(d).value);
  }

  /** Snapshots for `months` month ends, the newest at `cursor`, oldest first. */
  function SnapshotsFrom(funds: Series, etfs: Series, cursor: CalendarDate, months: nat): Result<seq<PeriodReturn>, FundError>
    decreases months
  {
    if months == 0 then Ok([])
    else
      var snapshot := PeriodExcess(funds, etfs, 12, Some(Ordinal(cursor)), 10);
      if snapshot.Err? then Err(snapshot.error)
      else
        match EndOfPreviousMonth(cursor)
        case None => Err(YearOutOfRange)
        case Some(previous) =>
          var older := SnapshotsFrom(funds, etfs, previous, months - 1);
          if older.Err? then older else Ok(older.value + [snapshot.value])
  }

  /** A count of months that is not positive asks for nothing. */
  function Snapshots(funds: Series, etfs: Series, asOf: CalendarDate, months: int): Result<seq<PeriodReturn>, FundError> {
    match EndOfPreviousMonth(asOf)
    case None => Err(YearOutOfRange)
    case Some(cursor) => SnapshotsFrom(funds, etfs, cursor, if months > 0 then months else 0)
  }

  /** The month end `k` months before a month end. */
  function MonthEndBefore(cursor: CalendarDate, k: nat): Option<CalendarDate>
    decreases k
  {
    if k == 0 then Some(cursor)
    else
      match EndOfPreviousMonth(cursor)
      case None => None
      case Some(previous) => MonthEndBefore(previous, k - 1)
  }

  lemma {:induction false} MonthEndMeaning(cursor: CalendarDate, k: nat)
    requires MonthEndBefore(cursor, k).Some? && cursor.day == DaysInMonth(cursor.year, cursor.month)
    ensures var d := MonthEndBefore(cursor, k).value; MonthIndex(d) == MonthIndex(cursor) - k && d.day == DaysInMonth(d.year, d.month)
    decreases k
  {
    if k > 0 { MonthEndMeaning(EndOfPreviousMonth(cursor).value, k - 1); }
  }

  lemma {:induction false} SnapshotAtMonth(funds: Series, etfs: Series, cursor: CalendarDate, months: nat, i: nat)
    requires SnapshotsFrom(funds, etfs, cursor, months).Ok? && i < months
    ensures |SnapshotsFrom(funds, etfs, cursor, months).value| == months && MonthEndBefore(cursor, months - 1 - i).Some?
    ensures PeriodExcess(funds, etfs, 12, Some(Ordinal(MonthEndBefore(cursor, months - 1 - i).value)), 10)
         == Ok(SnapshotsFrom(funds, etfs, cursor, months).value[i])
    decreases months
  {
    hide PeriodExcess;
    hide EndOfPreviousMonth;
    hide Ordinal;
    var previous := EndOfPreviousMonth(cursor).value;
    SnapshotCount(funds, etfs, previous, months - 1);
    if i < months - 1 { SnapshotAtMonth(funds, etfs, previous, months - 1, i); }
  }

  lemma {:induction false} SnapshotCount(funds: Series, etfs: Series, cursor: CalendarDate, months: nat)
    requires SnapshotsFrom(funds, etfs, cursor, months).Ok?
    ensures |SnapshotsFrom(funds, etfs, cursor, months).value| == months
    decreases months
  {
    hide PeriodExcess;
    hide EndOfPreviousMonth;
    if months > 0 { SnapshotCount(funds, etfs, EndOfPreviousMonth(cursor).value, months - 1); }
  }

  /**
   Snapshot `i` of `months` is the twelve-month comparison, with ten days of start gap,
   cut off on the last day of the month that lies `months - i` before that of `asOf`.
   */
  lemma SnapshotsAreMonthly(funds: Series, etfs: Series, asOf: CalendarDate, months: int, i: nat) returns (monthEnd: CalendarDate)
    requires Snapshots(funds, etfs, asOf, months).Ok? && i < months
    ensures |Snapshots(funds, etfs, asOf, months).value| == months
    ensures MonthIndex(monthEnd) == MonthIndex(asOf) - (months - i) && monthEnd.day == DaysInMonth(monthEnd.year, monthEnd.month)
    ensures PeriodExcess(funds, etfs, 12, Some(Ordinal(monthEnd)), 10) == Ok(Snapshots(funds, etfs, asOf, months).value[i])
  {
    hide PeriodExcess;
    hide Ordinal;
    hide SnapshotsFrom;
    var cursor := EndOfPreviousMonth(asOf).value;
    SnapshotAtMonth(funds, etfs, cursor, months, i);
    MonthEndMeaning(cursor, months - 1 - i);
    monthEnd := MonthEndBefore(cursor, months - 1 - i).value;
  }

  function Reversed<T>(s: seq<T>): (r: seq<T>)
    ensures |r| == |s|
  {
    if s == [] then [] else Reversed(s[1..]) + [s[0]]
  }

  /** Prepending an older part to a finished list. */
  function Onto(older: Result<seq<PeriodReturn>, FundError>, newer: seq<PeriodReturn>): Result<seq<PeriodReturn>, FundError> {
    if older.Err? then older else Ok(older.value + newer)
  }

  lemma OntoNothing(older: Result<seq<PeriodReturn>, FundError>)
    ensures Onto(older, []) == older
  {
    if older.Ok? { assert older.value + [] == older.value; }
  }

  lemma {:induction false} ReversedAppend<T>(s: seq<T>, x: T)
    ensures Reversed(s + [x]) == [x] + Reversed(s)
  {
    if s == [] {
      assert Reversed([x]) == [x];
    } else {
      assert (s + [x])[1..] == s[1..] + [x];
      ReversedAppend(s[1..], x);
    }
  }

  method CompletedMonthSnapshots(fundHistory: seq<FundNav>, etfHistory: seq<EtfBar>, asOf: CalendarDate, months: int)
    returns (r: Result<seq<PeriodReturn>, FundError>)
    ensures r == Snapshots(NavSeries(fundHistory), EtfSeries(etfHistory), asOf, months)
  {
    hide PeriodExcess;
    hide EndOfPreviousMonth;
    var funds, etfs := NavSeries(fundHistory), EtfSeries(etfHistory);
    var first := EndOfPreviousMonth(asOf);
    if first == None { return Err(YearOutOfRange); }
    var cursor := first.value;
    var snapshots: seq<PeriodReturn> := [];
    ghost var wanted := if months > 0 then months else 0;
    OntoNothing(SnapshotsFrom(funds, etfs, cursor, wanted));
    while |snapshots| < months
      invariant |snapshots| <= wanted
      invariant SnapshotsFrom(funds, etfs, first.value, wanted)
             == Onto(SnapshotsFrom(funds, etfs, cursor, wanted - |snapshots|), Reversed(snapshots))
    {
      var snapshot := PeriodExcess(funds, etfs, 12, Some(Ordinal(cursor)), 10);
      if snapshot.Err? { return Err(snapshot.error); }
      ReversedAppend(snapshots, snapshot.value);
      ghost var newer := Reversed(snapshots);
      snapshots := snapshots + [snapshot.value];
      var previous := EndOfPreviousMonth(cursor);
      if previous == None { return Err(YearOutOfRange); }
      ghost var older := SnapshotsFrom(funds, etfs, previous.value, wanted - |snapshots|);
      if older.Ok? { assert older.value + [snapshot.value] + newer == older.value + ([snapshot.value] + newer); }
      cursor := previous.value;
    }
    assert [] + Reversed(snapshots) == Reversed(snapshots);
    r := Ok(Reversed(snapshots));
  }

  lemma {:induction false} SnapshotsIgnoreLater(funds: Series, etfs: Series, cursor: CalendarDate, months: nat, limit: int)
    requires Ordinal(cursor) <= limit
    ensures SnapshotsFrom(funds, etfs, cursor, months) == SnapshotsFrom(Until(funds, limit), Until(etfs, limit), cursor, months)
    decreases months
  {
    hide PeriodExcess;
    if months > 0 {
      CutoffHidesLater(funds, etfs, 12, Ordinal(cursor), 10, limit);
      if EndOfPreviousMonth(cursor).Some? {
        var previous := EndOfPreviousMonth(cursor).value;
        OrdinalOrder(previous, cursor);
        SnapshotsIgnoreLater(funds, etfs, previous, months - 1, limit);
      }
    }
  }

  lemma {:induction false} NavSeriesLater(history: seq<FundNav>, later: seq<FundNav>, limit: int)
    requires forall k :: 0 <= k < |later| ==> later[k].day > limit
    ensures Until(NavSeries(history + later), limit) == Until(NavSeries(history), limit)
  {
    if later == [] {
      assert history + later == history;
    } else {
      assert (history + later)[..|history + later| - 1] == history + later[..|later| - 1];
      NavSeriesLater(history, later[..|later| - 1], limit);
    }
  }

  lemma {:induction false} EtfSeriesLater(history: seq<EtfBar>, later: seq<EtfBar>, limit: int)
    requires forall k :: 0 <= k < |later| ==> later[k].day > limit
    ensures Until(EtfSeries(history + later), limit) == Until(EtfSeries(history), limit)
  {
    if later == [] {
      assert history + later == history;
    } else {
      assert (history + later)[..|history + later| - 1] == history + later[..|later| - 1];
      EtfSeriesLater(history, later[..|later| - 1], limit);
    }
  }

  /** Every one of these observations is dated after the month end before `asOf`. */
  ghost predicate AfterMonthEnd(asOf: CalendarDate, funds: seq<FundNav>, etfs: seq<EtfBar>) {
    EndOfPreviousMonth(asOf).Some? ==>
      && (forall k :: 0 <= k < |funds| ==> funds[k].day > Ordinal(EndOfPreviousMonth(asOf).value))
      && (forall k :: 0 <= k < |etfs| ==> etfs[k].day > Ordinal(EndOfPreviousMonth(asOf).value))
  }

  /**
   No look-ahead: observations dated after the month end before `asOf` cannot change
   any completed-month snapshot, neither a value nor an exception.
   */
  lemma NoLookAhead(
      funds: seq<FundNav>, etfs: seq<EtfBar>, laterFunds: seq<FundNav>, laterEtfs: seq<EtfBar>, asOf: CalendarDate, months: int)
    requires AfterMonthEnd(asOf, laterFunds, laterEtfs)
    ensures Snapshots(NavSeries(funds + laterFunds), EtfSeries(etfs + laterEtfs), asOf, months)
         == Snapshots(NavSeries(funds), EtfSeries(etfs), asOf, months)
  {
    hide SnapshotsFrom;
    if EndOfPreviousMonth(asOf).Some? {
      var cursor := EndOfPreviousMonth(asOf).value;
      var limit := Ordinal(cursor);
      NavSeriesLater(funds, laterFunds, limit);
      EtfSeriesLater(etfs, laterEtfs, limit);
      var wanted := if months > 0 then months else 0;
      SnapshotsIgnoreLater(NavSeries(funds + laterFunds), EtfSeries(etfs + laterEtfs), cursor, wanted, limit);
      SnapshotsIgnoreLater(NavSeries(funds), EtfSeries(etfs), cursor, wanted, limit);
    }
  }
}
