/** Cross-checking the corporate actions of two providers before publication. */
module CorporateActions {
  import opened Prelude
  import opened Ordering
  import opened RealMath

  datatype Bar = Bar(day: int, dividend: real, split: real)
  datatype Action = Action(dividend: real, split: real)
  type Actions = map<int, Action>

  const DIVIDEND_ABS_TOLERANCE := 0.001
  const MINOR_DIVIDEND_ABS_TOLERANCE := 0.005
  const MINOR_DIVIDEND_REL_TOLERANCE := 0.01
  const SPLIT_ABS_TOLERANCE := 0.000001
  const REL_TOLERANCE := 0.000000001
  const NO_ACTION := Action(0.0, 1.0)

  datatype Report = EmptyHistory | DividendGap(day: int, yahoo: real, alpha: real) | SplitGap(day: int, yahoo: real, alpha: real)

  datatype ActionError = ZeroSplit

  // ----- arithmetic of the comparison -----

  function Max(x: real, y: real): real { if x < y then y else x }

  /** `math.isclose` with its default relative tolerance. */
  predicate IsClose(a: real, b: real, absTolerance: real) {
    Abs(a - b) <= Max(REL_TOLERANCE * Max(Abs(a), Abs(b)), absTolerance)
  }

  /** A dividend difference small enough not to block publication. */
  predicate Tolerated(yahoo: real, alpha: real) {
    || IsClose(yahoo, alpha, DIVIDEND_ABS_TOLERANCE)
    || IsMinor(yahoo, alpha)
  }

  predicate IsMinor(yahoo: real, alpha: real) {
    var difference := Abs(yahoo - alpha);
    && difference <= MINOR_DIVIDEND_ABS_TOLERANCE
    && difference / Max(Max(Abs(yahoo), Abs(alpha)), 0.000000000001) <= MINOR_DIVIDEND_REL_TOLERANCE
  }

  /** The raw amount unless the share-basis amount is strictly closer. */
  function Closer(yahoo: real, raw: real, adjusted: real): real {
    if Abs(yahoo - raw) <= Abs(yahoo - adjusted) then raw else adjusted
  }

  // ----- action tables -----

  function IsAction(dividend: real, split: real): bool { dividend != 0.0 || split != 1.0 }

  function ActionMap(bars: seq<Bar>): Actions {
    if bars == [] then map[]
    else
      var earlier, bar := ActionMap(bars[..|bars| - 1]), bars[|bars| - 1];
      if IsAction(bar.dividend, bar.split) then earlier[bar.day := Action(bar.dividend, bar.split)] else earlier
  }

  function Window(authoritative: Actions, first: int, last: int): Actions {
    map day | day in authoritative && first <= day <= last && IsAction(authoritative[day].dividend, authoritative[day].split)
      :: authoritative[day]
  }

  function ActionOn(actions: Actions, day: int): Action { if day in actions then actions[day] else NO_ACTION }

  /** A table holds, for each date of an action, its last bar; a bar is an action when it pays or splits. */
  lemma {:induction false} ActionMapMeaning(bars: seq<Bar>, day: int)
    ensures day in ActionMap(bars) <==>
      exists k :: 0 <= k < |bars| && bars[k].day == day && (bars[k].dividend != 0.0 || bars[k].split != 1.0)
  {
    if bars != [] {
      var front, last := bars[..|bars| - 1], bars[|bars| - 1];
      ActionMapMeaning(front, day);
      assert bars == front + [last];
      if k :| 0 <= k < |front| && front[k].day == day && (front[k].dividend != 0.0 || front[k].split != 1.0) {
        assert bars[k] == front[k];
      }
      if last.day == day && IsAction(last.dividend, last.split) { assert bars[|front|] == last; }
    }
  }

  lemma {:induction false} LastActionWins(bars: seq<Bar>, k: nat)
    requires k < |bars| && (bars[k].dividend != 0.0 || bars[k].split != 1.0)
    requires forall j :: k < j < |bars| ==> bars[j].day != bars[k].day
    ensures bars[k].day in ActionMap(bars) && ActionMap(bars)[bars[k].day] == Action(bars[k].dividend, bars[k].split)
  {
    if k < |bars| - 1 {
      assert bars[..|bars| - 1][k] == bars[k];
      LastActionWins(bars[..|bars| - 1], k);
    }
  }

  /** Of the other provider's records those count that lie within the history and pay or split; they are taken unchanged. */
  lemma WindowMeaning(authoritative: Actions, first: int, last: int, day: int)
    ensures day in Window(authoritative, first, last) <==>
      day in authoritative && first <= day && day <= last
      && (authoritative[day].dividend != 0.0 || authoritative[day].split != 1.0)
    ensures day in Window(authoritative, first, last) ==> Window(authoritative, first, last)[day] == authoritative[day]
  {}

  /** A date without an action counts as no dividend and a split of one. */
  lemma NoActionMeaning(actions: Actions, day: int)
    requires day !in actions
    ensures ActionOn(actions, day).dividend == 0.0 && ActionOn(actions, day).split == 1.0
  {}

  /**
   The tolerances in plain numbers.  Two dividends match within a tenth of a cent, two
   splits within a millionth, and either within one part in a thousand million of the
   larger amount.
   */
  lemma CloseMeaning(a: real, b: real)
    ensures IsClose(a, b, DIVIDEND_ABS_TOLERANCE) <==> Abs(a - b) <= 0.001 || OnePartIn(1000000000.0, a, b)
    ensures IsClose(a, b, SPLIT_ABS_TOLERANCE) <==> Abs(a - b) <= 0.000001 || OnePartIn(1000000000.0, a, b)
  {}

  /** Two amounts differ by at most one part in so many of the larger one. */
  predicate OnePartIn(parts: real, a: real, b: real) {
    Times(parts, Abs(a - b)) <= Abs(a) || Times(parts, Abs(a - b)) <= Abs(b)
  }

  /** A minor difference: at most half a cent and one percent of the larger dividend. */
  lemma MinorMeaning(a: real, b: real)
    ensures IsMinor(a, b) <==> Abs(a - b) <= 0.005 && (OnePartIn(100.0, a, b) || Abs(a - b) <= 0.00000000000001)
  {
    var larger := Max(Max(Abs(a), Abs(b)), 0.000000000001);
    assert larger > 0.0;
    ShareIff(Abs(a - b), larger);
  }

  lemma ShareIff(difference: real, larger: real)
    requires larger > 0.0
    ensures difference / larger <= 0.01 <==> 100.0 * difference <= larger
  {
    var share := difference / larger;
    assert share * larger == difference;
    var gap := 1.0 - 100.0 * share;
    assert gap * larger == larger - 100.0 * (share * larger);
    SameSign(gap, larger);
  }

  lemma SameSign(x: real, y: real)
    requires y > 0.0
    ensures x * y >= 0.0 <==> x >= 0.0
  {}

  /** Of the two amounts the one nearer to Yahoo's is compared, the raw one when they are equally near. */
  lemma CloserMeaning(yahoo: real, raw: real, adjusted: real)
    ensures var r := Closer(yahoo, raw, adjusted);
      && (r == raw || r == adjusted) && Abs(yahoo - r) <= Abs(yahoo - raw) && Abs(yahoo - r) <= Abs(yahoo - adjusted)
      && (Abs(yahoo - raw) == Abs(yahoo - adjusted) ==> r == raw)
  {}

  // ----- the split product -----

  ghost function SplitProduct(actions: Actions, days: set<int>): real
    requires days <= actions.Keys
  {
    if |days| == 0 then 1.0 else Times(actions[Least(days)].split, SplitProduct(actions, days - {Least(days)}))
  }

  lemma SplitProductUnfolds(actions: Actions, days: set<int>)
    requires days <= actions.Keys && |days| > 0
    ensures SplitProduct(actions, days) == Times(actions[Least(days)].split, SplitProduct(actions, days - {Least(days)}))
  {
    hide Times;
  }

  lemma Exchange(x: real, y: real, withoutX: real, withoutY: real, rest: real)
    requires withoutX == Times(y, rest) && withoutY == Times(x, rest)
    ensures Times(x, withoutX) == Times(y, withoutY)
  {
    TimesEqual(x, withoutX, y * rest);
    TimesEqual(y, withoutY, x * rest);
  }

  /** The product does not depend on which day is multiplied in first. */
  lemma {:induction false} SplitProductPick(actions: Actions, days: set<int>, day: int)
    requires days <= actions.Keys && day in days
    ensures SplitProduct(actions, days) == Times(actions[day].split, SplitProduct(actions, days - {day}))
    decreases |days|
  {
    hide SplitProduct;
    hide Times;
    SplitProductUnfolds(actions, days);
    var d := Least(days);
    if d != day {
      SplitProductPick(actions, days - {d}, day);
      SplitProductPick(actions, days - {day}, d);
      assert days - {d} - {day} == days - {day} - {d};
      Exchange(actions[d].split, actions[day].split, SplitProduct(actions, days - {d}), SplitProduct(actions, days - {day}),
               SplitProduct(actions, days - {d} - {day}));
    }
  }

  lemma EmptyProduct(actions: Actions)
    ensures SplitProduct(actions, {}) == 1.0
  {}

  ghost function LaterDays(actions: Actions, day: int): set<int> { set d | d in actions && d > day }

  /** The product of all splits after `day`. */
  ghost function CumulativeSplit(actions: Actions, day: int): real { SplitProduct(actions, LaterDays(actions, day)) }

  /** The running product over the table, in whatever order the table is traversed. */
  method DividendOnLatestShareBasis(day: int, dividend: real, actions: Actions) returns (r: Result<real, ActionError>)
    ensures r.Err? <==> CumulativeSplit(actions, day) == 0.0
    ensures r.Ok? ==> r.value == Over(dividend, CumulativeSplit(actions, day))
  {
    hide SplitProduct;
    EmptyProduct(actions);
    var cumulative := 1.0;
    var pending := actions.Keys;
    ghost var done: set<int> := {};
    while pending != {}
      invariant pending <= actions.Keys && done == LaterDays(actions, day) - pending
      invariant cumulative == SplitProduct(actions, done)
      decreases |pending|
    {
      var actionDay :| actionDay in pending;
      pending := pending - {actionDay};
      if actionDay > day {
        ghost var more := done + {actionDay};
        SplitProductPick(actions, more, actionDay);
        assert more - {actionDay} == done;
        done := more;
        if actions[actionDay].split != 1.0 { cumulative := cumulative * actions[actionDay].split; }
      }
    }
    assert done == LaterDays(actions, day);
    if cumulative == 0.0 { return Err(ZeroSplit); }
    r := Ok(Over(dividend, cumulative));
  }

  // ----- the comparison -----

  /** The two providers' records over one history. */
  datatype Tables = Tables(yahoo: Actions, alpha: Actions)

  function TablesOf(bars: seq<Bar>, authoritative: Actions): Tables
    requires bars != []
  {
    Tables(ActionMap(bars), Window(authoritative, bars[0].day, bars[|bars| - 1].day))
  }

  function DaysToCheck(t: Tables): seq<int> { SortedDays(t.yahoo.Keys + t.alpha.Keys) }

  ghost function AlphaDividend(t: Tables, day: int): real {
    var raw := ActionOn(t.alpha, day).dividend;
    if CumulativeSplit(t.alpha, day) == 0.0 then raw
    else Closer(ActionOn(t.yahoo, day).dividend, raw, Over(raw, CumulativeSplit(t.alpha, day)))
  }

  ghost function MismatchesOn(t: Tables, day: int): seq<Report> {
    var yahoo, alpha, chosen := ActionOn(t.yahoo, day), ActionOn(t.alpha, day), AlphaDividend(t, day);
    (if Tolerated(yahoo.dividend, chosen) then [] else [DividendGap(day, yahoo.dividend, chosen)])
    + (if IsClose(yahoo.split, alpha.split, SPLIT_ABS_TOLERANCE) then [] else [SplitGap(day, yahoo.split, alpha.split)])
  }

  ghost function MinorOn(t: Tables, day: int): seq<Report> {
    var yahoo, chosen := ActionOn(t.yahoo, day), AlphaDividend(t, day);
    if !IsClose(yahoo.dividend, chosen, DIVIDEND_ABS_TOLERANCE) && IsMinor(yahoo.dividend, chosen)
    then [DividendGap(day, yahoo.dividend, chosen)] else []
  }

  ghost function Mismatches(t: Tables, days: seq<int>): seq<Report> {
    if days == [] then [] else Mismatches(t, days[..|days| - 1]) + MismatchesOn(t, days[|days| - 1])
  }

  ghost function Minors(t: Tables, days: seq<int>): seq<Report> {
    if days == [] then [] else Minors(t, days[..|days| - 1]) + MinorOn(t, days[|days| - 1])
  }

  /** Some checked day is followed by splits whose product is zero: a division by zero. */
  ghost predicate DividesByZero(t: Tables, days: seq<int>) {
    exists day :: day in days && CumulativeSplit(t.alpha, day) == 0.0
  }

  /** The body of the comparison loop: what one day contributes to the two lists. */
  /** A gap names both amounts of its date, and these do not agree. */
  ghost predicate IsGap(t: Tables, report: Report) {
    match report
    case EmptyHistory => false
    case DividendGap(day, yahoo, alpha) =>
      yahoo == ActionOn(t.yahoo, day).dividend && alpha == AlphaDividend(t, day) && Abs(yahoo - alpha) > 0.001
    case SplitGap(day, yahoo, alpha) =>
      yahoo == ActionOn(t.yahoo, day).split && alpha == ActionOn(t.alpha, day).split && Abs(yahoo - alpha) > 0.000001
  }

  lemma {:induction false} EveryReportIsAGap(t: Tables, days: seq<int>)
    ensures forall report :: report in Mismatches(t, days) || report in Minors(t, days) ==> IsGap(t, report) && report.day in days
    ensures forall report :: report in Minors(t, days) ==>
      report.DividendGap? && Abs(report.yahoo - report.alpha) <= 0.005
  {
    hide AlphaDividend;
    if days != [] {
      EveryReportIsAGap(t, days[..|days| - 1]);
      ReportsOfDay(t, days[|days| - 1]);
      hide MismatchesOn;
      hide MinorOn;
      hide IsGap;
    }
  }

  lemma ReportsOfDay(t: Tables, day: int)
    ensures forall report :: report in MismatchesOn(t, day) || report in MinorOn(t, day) ==> IsGap(t, report) && report.day == day
    ensures forall report :: report in MinorOn(t, day) ==> report.DividendGap? && Abs(report.yahoo - report.alpha) <= 0.005
  {
    hide AlphaDividend;
    var yahoo, chosen := ActionOn(t.yahoo, day), AlphaDividend(t, day);
    CloseMeaning(yahoo.dividend, chosen);
    CloseMeaning(yahoo.split, ActionOn(t.alpha, day).split);
    MinorMeaning(yahoo.dividend, chosen);
    hide IsClose;
    hide IsMinor;
    hide OnePartIn;
  }

  method CompareDay(t: Tables, day: int) returns (r: Result<(seq<Report>, seq<Report>), ActionError>)
    ensures r == if CumulativeSplit(t.alpha, day) == 0.0 then Err(ZeroSplit) else Ok((MismatchesOn(t, day), MinorOn(t, day)))
  {
    hide CumulativeSplit;
    hide IsClose;
    hide IsMinor;
    hide Over;
    var yahoo, alpha := ActionOn(t.yahoo, day), ActionOn(t.alpha, day);
    var shareBasis := DividendOnLatestShareBasis(day, alpha.dividend, t.alpha);
    if shareBasis.Err? { return Err(ZeroSplit); }
    var alphaDividend := Closer(yahoo.dividend, alpha.dividend, shareBasis.value);
    assert alphaDividend == AlphaDividend(t, day);
    var mismatches: seq<Report>, minors: seq<Report> := [], [];
    if !IsClose(yahoo.dividend, alphaDividend, DIVIDEND_ABS_TOLERANCE) {
      if IsMinor(yahoo.dividend, alphaDividend) {
        minors := minors + [DividendGap(day, yahoo.dividend, alphaDividend)];
      } else {
        mismatches := mismatches + [DividendGap(day, yahoo.dividend, alphaDividend)];
      }
    }
    if !IsClose(yahoo.split, alpha.split, SPLIT_ABS_TOLERANCE) {
      mismatches := mismatches + [SplitGap(day, yahoo.split, alpha.split)];
    }
    assert mismatches == MismatchesOn(t, day) && minors == MinorOn(t, day);
    r := Ok((mismatches, minors));
  }

  method CorporateActionDiscrepancies(bars: seq<Bar>, authoritative: Actions)
    returns (r: Result<(seq<Report>, seq<Report>), ActionError>)
    ensures bars == [] ==> r == Ok(([EmptyHistory], []))
    ensures bars != [] ==> var t := TablesOf(bars, authoritative);
      r == if DividesByZero(t, DaysToCheck(t)) then Err(ZeroSplit) else Ok((Mismatches(t, DaysToCheck(t)), Minors(t, DaysToCheck(t))))
  {
    if bars == [] { return Ok(([EmptyHistory], [])); }
    hide CumulativeSplit;
    hide MismatchesOn;
    hide MinorOn;
    hide TablesOf;
    var t := TablesOf(bars, authoritative);
    var days := DaysToCheck(t);
    var mismatches: seq<Report>, minors: seq<Report> := [], [];
    for k := 0 to |days|
      invariant mismatches == Mismatches(t, days[..k]) && minors == Minors(t, days[..k])
      invariant !DividesByZero(t, days[..k])
    {
      PrefixStep(days, k);
      var day := days[k];
      var compared := CompareDay(t, day);
      if compared.Err? { return Err(ZeroSplit); }
      mismatches, minors := mismatches + compared.value.0, minors + compared.value.1;
    }
    assert days[..|days|] == days;
    r := Ok((mismatches, minors));
  }

  // ----- the gate, both ways -----

  /** One day passes the gate. */
  ghost predicate Agrees(t: Tables, day: int) {
    && IsClose(ActionOn(t.yahoo, day).split, ActionOn(t.alpha, day).split, SPLIT_ABS_TOLERANCE)
    && Tolerated(ActionOn(t.yahoo, day).dividend, AlphaDividend(t, day))
  }

  lemma {:induction false} NoMismatchIffAllAgree(t: Tables, days: seq<int>)
    ensures Mismatches(t, days) == [] <==> forall day :: day in days ==> Agrees(t, day)
  {
    hide IsClose;
    hide IsMinor;
    hide AlphaDividend;
    if days != [] {
      var front, last := days[..|days| - 1], days[|days| - 1];
      NoMismatchIffAllAgree(t, front);
      assert days == front + [last];
      assert MismatchesOn(t, last) == [] <==> Agrees(t, last);
    }
  }

  lemma IdleDayAgrees(t: Tables, day: int)
    requires day !in t.yahoo && day !in t.alpha
    ensures Agrees(t, day)
  {
    assert Over(0.0, 1.0) == 0.0;
    if CumulativeSplit(t.alpha, day) != 0.0 { assert Over(0.0, CumulativeSplit(t.alpha, day)) == 0.0; }
  }

  /** An empty mismatch list means that every single date passes, listed or not; and conversely. */
  lemma EmptyListIffEveryDateAgrees(t: Tables)
    ensures Mismatches(t, DaysToCheck(t)) == [] <==> forall day :: Agrees(t, day)
  {
    hide Agrees;
    NoMismatchIffAllAgree(t, DaysToCheck(t));
    forall day ensures day in DaysToCheck(t) || Agrees(t, day) {
      if day !in t.yahoo && day !in t.alpha { IdleDayAgrees(t, day); }
    }
  }

  /** A passing date has equal splits and a dividend within tolerance of the raw or of the share-basis amount. */
  lemma AgreementMeans(t: Tables, day: int)
    requires Agrees(t, day) && CumulativeSplit(t.alpha, day) != 0.0
    ensures var yahoo, alpha := ActionOn(t.yahoo, day), ActionOn(t.alpha, day);
      && IsClose(yahoo.split, alpha.split, SPLIT_ABS_TOLERANCE)
      && (Tolerated(yahoo.dividend, alpha.dividend)
          || Tolerated(yahoo.dividend, Over(alpha.dividend, CumulativeSplit(t.alpha, day))))
  {}

  /** The tables hold exactly the actions of the history, and of the other provider's records those within it. */
  ghost predicate TablesHold(bars: seq<Bar>, authoritative: Actions, t: Tables, day: int)
    requires bars != []
  {
    && (day in t.yahoo <==> exists k :: 0 <= k < |bars| && bars[k].day == day && (bars[k].dividend != 0.0 || bars[k].split != 1.0))
    && (day in t.alpha <==> (day in authoritative && bars[0].day <= day <= bars[|bars| - 1].day
                             && (authoritative[day].dividend != 0.0 || authoritative[day].split != 1.0)))
    && (day in t.alpha ==> t.alpha[day] == authoritative[day])
  }

  /** The gate on its inputs: a history passes exactly when on every date the two providers agree. */
  lemma GatePassesIff(bars: seq<Bar>, authoritative: Actions)
    requires bars != []
    ensures var t := TablesOf(bars, authoritative);
      (Mismatches(t, DaysToCheck(t)) == [] <==> forall day :: Agrees(t, day)) && forall day :: TablesHold(bars, authoritative, t, day)
  {
    var t := TablesOf(bars, authoritative);
    EmptyListIffEveryDateAgrees(t);
    forall day ensures TablesHold(bars, authoritative, t, day) {
      ActionMapMeaning(bars, day);
      WindowMeaning(authoritative, bars[0].day, bars[|bars| - 1].day, day);
    }
  }

  /** Providers that differ only by share basis: Yahoo divides each dividend by all later splits. */
  ghost predicate SameActions(t: Tables) {
    forall day :: day in t.yahoo.Keys + t.alpha.Keys ==>
      && ActionOn(t.yahoo, day).split == ActionOn(t.alpha, day).split
      && CumulativeSplit(t.alpha, day) != 0.0
      && ActionOn(t.yahoo, day).dividend == Over(ActionOn(t.alpha, day).dividend, CumulativeSplit(t.alpha, day))
  }

  lemma CloseToItself(x: real, absTolerance: real)
    requires absTolerance >= 0.0
    ensures IsClose(x, x, absTolerance)
  {}

  lemma CloserIsExact(yahoo: real, raw: real)
    ensures Closer(yahoo, raw, yahoo) == yahoo
  {}

  /** When the providers agree exactly on one share basis, nothing at all is reported. */
  lemma SameActionsReportNothing(t: Tables)
    requires SameActions(t)
    ensures Mismatches(t, DaysToCheck(t)) == [] && Minors(t, DaysToCheck(t)) == []
    ensures !DividesByZero(t, DaysToCheck(t))
  {
    hide IsClose;
    hide IsMinor;
    hide CumulativeSplit;
    var days := DaysToCheck(t);
    forall day | day in days
      ensures Agrees(t, day) && MinorOn(t, day) == []
    {
      var yahoo, alpha := ActionOn(t.yahoo, day), ActionOn(t.alpha, day);
      CloserIsExact(yahoo.dividend, alpha.dividend);
      CloseToItself(yahoo.dividend, DIVIDEND_ABS_TOLERANCE);
      CloseToItself(yahoo.split, SPLIT_ABS_TOLERANCE);
    }
    NoMismatchIffAllAgree(t, days);
    NothingMinor(t, days);
  }

  lemma {:induction false} NothingMinor(t: Tables, days: seq<int>)
    requires forall day :: day in days ==> MinorOn(t, day) == []
    ensures Minors(t, days) == []
  {
    if days != [] { NothingMinor(t, days[..|days| - 1]); }
  }
}
