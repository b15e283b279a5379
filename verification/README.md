# Onecool OS: a verified model

Onecool OS publishes investment research every day: it refreshes fund price
histories and issues a moving-average decision, compares funds with proxy ETFs,
keeps an append-only portfolio history, values collectibles from verified sales,
and reads its settings from a small YAML dialect. This project models the parts
of it whose behaviour is hardest to see from one function, and proves what those
parts keep over every input and every run.

The modules follow the program:

- `Adjustment`, `AdjustmentLaws`: merging provider bars by date and rebuilding one
  split- and dividend-adjusted history.
- `WeeklyPoints`, `CrossSignals`, `CrossLaws`: one point per ISO week, running
  averages, the crossing list and the signal made from it.
- `CtaEngine`, `CtaLaws`: the BUY/HOLD/WATCH/SELL decision, laws that span all
  stages of a refresh, and the weekly-event detector over runs of refreshes.
- `FundEvents`: the detector on fund NAV histories. `AgingUpgrade`, `MidweekCross`,
  `WeekendNav`: histories on which the decision rule, a weekly cross and the detector
  surprise, built with `PlainHistories` and `FlatWeeks`.
- `ConfigText`, `ConfigParser`, `ConfigRoundTrip`, `ConfigComments`, `ConfigMerge`:
  the indentation-stack reader on a heap of aliased dictionaries, its round trip with
  and without comments, and the three-layer merge.
- `Calendar`, `FundReturns`, `Scorecards`: same-date returns, calendar months,
  half-years and drawdown.
- `DecimalText`, `HistoryModel`, `HistoryStore`: decimals as text, snapshots and
  their payload, and the append-only store.
- `Comparables`, `CorporateActions`, `DeliverySchedule`: comparable-sale selection
  and statistics, the corporate-action gate, and the search for the latest report.
- `Prelude`, `RealMath`, `Ordering`, `TextTools`: shared helpers.

Each loop of the program is a method with invariants, proved equal to a function of
its input; the laws are then proved about that function. A day is its number from
0001-01-01, which is a Monday, so `day / 7` names the ISO week and `day % 7` the
weekday (ISO 8601:2004, section 4.1.4). Prices are exact reals, with a separate
non-finite value where the program filters one.

## Where the code differs from what one would expect

In each of these the model follows the code, and the exact condition is proved.

- The store's read-back comparison can fail for a valid snapshot: a per-currency
  amount that is negative and rounds to zero prints as `-0` and reads back as `0`.
  `HistoryModel.SnapshotReadBack` proves that this is the only way, and
  `HistoryModel.ReadBackCanFail` gives an instance.
- Two ids that differ only in `:` against `_` share a file, so creating the second
  loses the first. `HistoryStore.LoadsPreservedIffPathFree` proves that earlier
  loads survive exactly when no entry uses the path, `HistoryStore.PathsCollideIff`
  when two snapshots share one (`HistoryStore.PathsCanCollide`).
- On 31 December the half-year that ends that day is not reviewed
  (`Scorecards.FirstPeriodIsLatest`); on every other date the newest one is.
- Merging configuration layers is not associative in general
  (`ConfigMerge.AssociativeIffNoClash`, `ConfigMerge.AssociativityFails`).
- The market dashboard and the Taiwan refresh use neither a closing weekday nor the
  incomplete-week rule, so the newest weekly point is replaced during its week, and a
  weekly cross published mid-week can be withdrawn (`WeeklyPoints.MidweekPointIsReplaced`,
  `MidweekCross.MidweekCrossIsWithdrawn`). `WeeklyPoints.PublishedKeptIff` gives the exact condition for each of the program's
  rules; under every rule all points before the newest are final
  (`WeeklyPoints.OlderPointsAreFinal`), and so are the crossings at them.
- A fund NAV of a Saturday or Sunday makes the week incomplete again and withdraws its
  published Friday; the committed histories hold such NAVs
  (`data/market/fund_nav/history/A10124.csv:507-508`). A cross can then be reported twice (`WeekendNav.CrossReportedTwice`). `FundEvents.NavRefreshGrows` proves exactly
  when a point is withdrawn, `CtaLaws.WithdrawalReportsIff` what is then reported.
- A provider that restates a bar on hand repaints the published prices
  (`PlainHistories.RestatedCloseRepaints`), exactly when some adjusted return between
  them changes (`AdjustmentLaws.RestatementRepaintsIff`).
- An aging weekly uptrend can be upgraded to BUY without a golden daily cross:
  `CtaEngine.AgingUpgradeWithoutGoldenIff` proves exactly when, and
  `AgingUpgrade.AgingUpgradeByDeathCross` gives a history on which the whole
  calculation does it.
- A non-zero dividend after a negative close turns the sign of the whole earlier
  history (`AdjustmentLaws.NegativeCloseTurnsSign`). `AdjustmentLaws.FactorSign` proves
  that the sign is kept exactly when the later bars do this an even number of times.
- A negative dividend after a zero close divides by zero, which the model keeps as a
  third error (`AdjustmentLaws.ZeroCloseDividesByZero`); nothing else does
  (`AdjustmentLaws.DividesByZeroIff`).
- Two crossings of the same direction can follow each other
  (`CrossLaws.RepeatedDirectionOccurs`). `CrossLaws.AlternatesIff` proves that directions
  alternate exactly when the averages never reach a side, touch and return to it.

## Model

| member | source | states |
|---|---|---|
| Adjustment.StepBack | onecool_os/market/etf_cta.py:367-382 | One backward step raises exactly the modelled errors, otherwise multiplies the factor by the step ratio |
| Adjustment.Readjust | onecool_os/market/etf_cta.py:357-383 | The backward loop gives every bar its close times the product of all later step ratios, or the newest failing step's error |
| Adjustment.NewestFailureAt | onecool_os/market/etf_cta.py:363-381 | The error reported is that of the newest failing step |
| Adjustment.AdjustableIffNoFailure | onecool_os/market/etf_cta.py:369-381 | The loop raises nothing exactly when every step can be taken |
| Adjustment.InvalidSplitUnreachable | onecool_os/market/etf_cta.py:369-372 | After the finiteness filter the split-factor error can never be raised |
| Adjustment.MergeAndAdjust | onecool_os/market/etf_cta.py:342-383 | Filtering, two dictionary updates, sorting by date and readjusting |
| AdjustmentLaws.RatioAsFraction | onecool_os/market/etf_cta.py:374-382 | A step ratio is (previous close - dividend) / (previous close * effective split) |
| AdjustmentLaws.ClosedForm | onecool_os/market/etf_cta.py:357-397 | Newest adjusted close is raw; adjusted[i-1] * close[i] * eff[i] = adjusted[i] * (close[i-1] - dividend[i]) |
| AdjustmentLaws.SmallestGapIsChosen | onecool_os/market/etf_cta.py:386-397 | For positive closes the factor used leaves a relative close-to-close gap no larger than no factor or the full split factor would, and none on a tie; otherwise the split factor is used |
| AdjustmentLaws.AdjustedGapIsSmallest | onecool_os/market/etf_cta.py:357-397 | Between neighbours without a dividend the adjusted gap is no larger than the raw gap and the split-corrected one |
| AdjustmentLaws.SplitsAreSmoothed | onecool_os/market/etf_cta.py:357-397 | A raw split, or equal raw closes under any split factor, gives equal adjusted closes |
| AdjustmentLaws.SplitExamples | onecool_os/market/etf_cta.py:386-397 | Closes 100 then 50 and 50 then 51, both with split factor 2, start at adjusted close 50 |
| AdjustmentLaws.NoRepaint | onecool_os/market/etf_cta.py:357-383 | Any later bars multiply all earlier adjusted closes by one common non-zero factor, positive exactly when they turn the sign an even number of times |
| AdjustmentLaws.FactorSign | onecool_os/market/etf_cta.py:374-382 | A factor is positive exactly when an even number of later bars has a non-zero dividend after a negative close |
| AdjustmentLaws.NormalPayoutsNeverFlip | onecool_os/market/etf_cta.py:377-382 | Dividends that are zero or follow a close that is not negative never turn the sign |
| AdjustmentLaws.NegativeCloseTurnsSign | onecool_os/market/etf_cta.py:377-382 | Two bars whose first adjusted close has the opposite sign of its close |
| AdjustmentLaws.DividesByZeroIff | onecool_os/market/etf_cta.py:377-382 | A step divides by zero exactly when a negative dividend follows a zero close |
| AdjustmentLaws.ZeroCloseDividesByZero | onecool_os/market/etf_cta.py:377-382 | Two bars on which the readjustment divides by zero |
| AdjustmentLaws.NoRepaintSign | onecool_os/market/etf_cta.py:377-382 | For one new bar the factor is positive exactly when its dividend is zero or the previous close positive |
| AdjustmentLaws.CollectKeys | onecool_os/market/etf_cta.py:347-352 | Merged dates are those on hand plus those of finite incoming bars |
| AdjustmentLaws.DroppedIff | onecool_os/market/etf_cta.py:512-527 | Exactly which single bar a merge drops: one with a non-finite field or a split factor that is not positive |
| AdjustmentLaws.MergeIncomingWins | onecool_os/market/etf_cta.py:350-352 | On each date the last finite incoming bar supplies the merged raw fields |
| AdjustmentLaws.MergedHistory | onecool_os/market/etf_cta.py:347-383 | The output is strictly date-ordered, fully adjusted, with exactly the finite input dates |
| AdjustmentLaws.IncrementalEqualsRebuild | onecool_os/market/etf_cta.py:342-383 | merge(merge(a, b), c) equals merge(a, b followed by c), value or exception |
| AdjustmentLaws.RemergeIsIdentity | onecool_os/market/etf_cta.py:342-383 | Re-merging a result with nothing changes nothing |
| AdjustmentLaws.RefreshNeverRepaints | onecool_os/market/etf_cta.py:342-383 | Refreshing a merged history with any batch that repeats dates on hand with the same close, dividend and split, or brings later ones, rescales every published price by one non-zero factor and adds the new bars |
| AdjustmentLaws.ResendIsIdentity | onecool_os/market/etf_cta.py:342-383 | Fetching bars on hand again changes nothing, not even an adjusted close |
| AdjustmentLaws.OneFactorIff | onecool_os/market/etf_cta.py:357-397 | Two adjusted histories differ by one factor exactly when all their bar-to-bar adjusted returns agree |
| AdjustmentLaws.RestatementRepaintsIff | onecool_os/market/etf_cta.py:342-383 | With dates on hand restated at will, published prices keep their proportions exactly when all adjusted returns between them stay the same |
| PlainHistories.RestatedCloseRepaints | onecool_os/market/etf_cta.py:350-352 | Two bars, one restated, whose refreshed prices no single factor explains |
| WeeklyPoints.WeeklyLastPoints | onecool_os/market/etf_cta.py:534-561 | The overwrite-in-place dictionary and the weekday filter, as one function of the history |
| WeeklyPoints.KeptIffLastOfItsWeek | onecool_os/market/etf_cta.py:550-555 | On an ordered history a bar is kept exactly when no later bar falls in its ISO week |
| WeeklyPoints.PublishedAppendOnlyIff | onecool_os/market/etf_cta.py:415-427 | A new bar leaves all published weekly points in place exactly unless it falls in the newest week and displaces a published point |
| WeeklyPoints.PublishedKeptIff | onecool_os/market/etf_cta.py:415-427 | Under every rule the program uses, any later bars keep all published weekly points exactly unless the first of them falls in the week of the newest bar and that week is published |
| WeeklyPoints.OlderPointsAreFinal | onecool_os/market/etf_cta.py:415-427 | Under every rule at all, every published weekly point before the newest is final |
| WeeklyPoints.MidweekPointIsReplaced | scripts/update_market_dashboard.py:588-594 | Without weekday and incomplete-week rule, the point published on a Monday is replaced on Tuesday |
| WeeklyPoints.SafeRuleNeverDisplaces | onecool_os/market/etf_cta.py:415-427 | Sunday closes, or a later Monday-Friday bar with the incomplete week withheld, never displace the newest point |
| WeeklyPoints.WeeklyNeverRepaints | onecool_os/market/etf_cta.py:415-427 | The same for a history that later corporate actions rescale: points keep place, date and value up to the common factor, exactly unless the newest is displaced |
| WeeklyPoints.SettledNeverRepaints | onecool_os/market/etf_cta.py:415-427 | Under every rule the points before the newest survive rescaling and later bars |
| WeeklyPoints.PublishedChronological | onecool_os/market/etf_cta.py:415-427 | Published weekly points are in date order |
| CrossSignals.MovingAverageSeries | onecool_os/market/etf_cta.py:679-692 | The running sum equals the mean of the window at every index, None before the window is full |
| CrossSignals.ListCrossings | onecool_os/market/etf_cta.py:583-595 | The loop records exactly the indices where the order of the averages changes side |
| CrossSignals.DetectCross | onecool_os/market/etf_cta.py:564-622 | The whole signal: alignment, fresh cross, last cross, its date and age, spread and phase, with the three failures |
| CrossLaws.CrossingsComplete | onecool_os/market/etf_cta.py:583-595 | Every change of side is listed |
| CrossLaws.LastCrossingMatchesAlignment | onecool_os/market/etf_cta.py:577-608 | With a strict final alignment the last crossing has its direction |
| CrossLaws.NoCrossingMeansConstantOrder | onecool_os/market/etf_cta.py:577-595 | With no crossing the final strict order held at every index with both averages |
| CrossLaws.RepeatedDirectionNeedsEquality | onecool_os/market/etf_cta.py:592-595 | Consecutive crossings of one direction have an index of exact equality just before the second |
| CrossLaws.RepeatedDirectionOccurs | onecool_os/market/etf_cta.py:592-595 | Five values with two golden crossings in a row |
| CrossLaws.AlternatesIff | onecool_os/market/etf_cta.py:583-595 | Crossings alternate in direction exactly when the averages never reach a side, become exactly equal and return to it |
| CrossLaws.TurnedSignMirrors | onecool_os/market/etf_cta.py:583-595 | Rescaled by a negative factor, every crossing stays at its index and turns into its opposite |
| CrossLaws.CrossingsNeverRepaint | onecool_os/market/etf_cta.py:583-595 | A rescaled and extended series keeps every old crossing and adds only new indices |
| CrossLaws.OneBarOneCrossing | onecool_os/market/etf_cta.py:583-595 | One more value adds at most one crossing, at the new index |
| CrossLaws.QuietBarAgesSignal | onecool_os/market/etf_cta.py:597-622 | With no new crossing, last cross and date stay and the age grows by exactly one |
| CrossLaws.SignalCoherent | onecool_os/market/etf_cta.py:564-640 | Fresh cross, alignment, phase and last cross of any produced signal fit together |
| CrossLaws.SignalFailsIff | onecool_os/market/etf_cta.py:564-582 | Each of the three failures exactly when: no values, fewer than a window, or a zero sum over the long window |
| CtaEngine.RedundantTests | onecool_os/market/etf_cta.py:643-676 | For produced signals the death-cross tests follow from the alignment tests and phase NEW is unreachable after a fresh weekly cross |
| CtaEngine.AgingUpgradeIsGolden | onecool_os/market/etf_cta.py:658-665 | An aging weekly uptrend upgraded to BUY has a golden daily cross, unless the daily averages are equal |
| CtaEngine.AgingUpgradeWithoutGoldenIff | onecool_os/market/etf_cta.py:658-665 | It is upgraded without one exactly when the averages are equal and the last daily cross, a death cross, is confirmed or active |
| CtaEngine.CalculateCta | onecool_os/market/etf_cta.py:400-460 | The full calculation: thresholds, errors in order, means, signals and decision |
| CtaEngine.EvaluatesIff | onecool_os/market/etf_cta.py:409-446 | On positive prices the calculation raises exactly for want of 200 bars or 50 published weeks |
| CtaEngine.ReportedMeansAreTheAverages | onecool_os/market/etf_cta.py:432-435 | The reported means equal the averages the crossing detector compared |
| CtaEngine.DecisionFollowsReportedMeans | onecool_os/market/etf_cta.py:428-460 | BUY implies 30-week mean above 50-week, SELL below, HOLD never under a weekly death alignment |
| CtaEngine.ReportedFields | onecool_os/market/etf_cta.py:428-460 | Date and price are those of the newest bar, and each reported mean times its length is the sum of that many last closes or weekly points |
| CtaEngine.ReportedSpreads | onecool_os/market/etf_cta.py:606-622 | The reported spread is the distance of the two reported means in percent of the long one |
| CtaEngine.ReportedPhases | onecool_os/market/etf_cta.py:625-640 | Daily phase new, confirmed, active, aging exactly at age 0, 1-5, 6-60, above 60; weekly at 0, 1-4, 5-52, above 52 |
| CtaEngine.DecisionTable | onecool_os/market/etf_cta.py:643-676 | The decision as a table over the two alignments and the ages of the two last crosses |
| CtaEngine.RecentTrendDecides | onecool_os/market/etf_cta.py:653-674 | A golden weekly trend at most 52 weeks old is BUY unless the daily one is down; a death one is SELL unless the daily averages crossed golden today |
| CtaEngine.SortedHistoryIsKept | onecool_os/market/etf_cta.py:409 | Re-sorting a merged history changes nothing |
| CtaLaws.PipelineNeverRepaints | onecool_os/market/etf_cta.py:342-622 | A refresh keeps every daily point and crossing and every weekly point and crossing before the newest, up to one positive factor; the newest weekly point, and the published list of dates and crossings as a whole, exactly unless it is displaced |
| CtaLaws.TurnedRefreshMirrors | onecool_os/market/etf_cta.py:342-622 | A refresh that turns the sign turns every published daily crossing, and every weekly one before the newest week, into its opposite |
| CtaLaws.EventReportedOnce | onecool_os/market/fund_cta_events.py:8-29 | Over a run of weekly series that grow or move on to a later date, with snapshots missing at will, each (direction, date) cross is reported at most once |
| CtaLaws.EventIff | onecool_os/market/fund_cta_events.py:18-29 | An event is reported exactly for a fresh cross of a known snapshot that a known previous snapshot does not name as its last cross |
| CtaLaws.RefreshRunReportsOnce | onecool_os/market/fund_cta_events.py:8-29 | No event repeats over any run of refreshes, if the newest week is always published or its published point is never displaced; WeekendNav.CrossReportedTwice shows a displacement that repeats one |
| FundEvents.MergeNavHistory | onecool_os/market/fund_alpha.py:163-170 | Merging NAVs by date, the incoming one winning, in date order |
| FundEvents.NavRefreshGrows | onecool_os/market/fund_cta.py:48-78 | A longer NAV history keeps every published weekly point, never rescaled, exactly unless its first new NAV falls on the weekend after a published Friday |
| FundEvents.BusinessDaysNeverWithdraw | onecool_os/market/fund_cta.py:48-78 | A first new NAV dated Monday to Friday withdraws nothing |
| FundEvents.WithdrawnWeekly | onecool_os/market/fund_cta.py:48-78 | While that weekend lasts, the series published is the one before it without its newest point |
| FundEvents.FundEventReportedOnce | onecool_os/market/fund_cta_events.py:8-29 | Over any run of NAV refreshes, resent NAVs and weekends included, in which no published Friday is withdrawn, each weekly cross of a fund is reported at most once |
| CtaLaws.WithdrawalReportsIff | onecool_os/market/fund_cta_events.py:18-29 | Withdrawing the newest week reports an event exactly when that week and the one before it both have a fresh cross: the older one, again |
| WeekendNav.CrossReportedTwice | onecool_os/market/fund_cta_events.py:8-29 | Three merges after which a golden cross has been reported twice, because a Saturday NAV withdraws a Friday |
| CtaLaws.LastCrossDated | onecool_os/market/etf_cta.py:597-608 | The last cross is never dated after the newest published week, and in that week exactly when it is fresh |
| CtaLaws.ReportedIff | onecool_os/market/fund_cta_events.py:18-29 | Between two successive snapshots an event is reported exactly when the newest week is new and has a cross, with its direction and date |
| CtaLaws.EachCrossReported | onecool_os/market/fund_cta_events.py:8-29 | Over a run with no missing snapshot, a fresh cross in a week newer than the first has been reported |
| CtaLaws.RefreshRunReportsEach | onecool_os/market/fund_cta_events.py:8-29 | The same for every run of refreshes |
| FundEvents.FundCrossReported | onecool_os/market/fund_cta_events.py:8-29 | In such a run without a failed calculation no fresh cross after the first published week is missed |
| MidweekCross.MidweekCrossIsWithdrawn | scripts/update_market_dashboard.py:588-594 | A merged history for which the whole calculation publishes a golden weekly cross on Monday and, refreshed, a death cross on Tuesday |
| MidweekCross.RefreshedOnTuesday | onecool_os/market/etf_cta.py:342-383 | Tuesday of that history is the refresh of its Monday |
| AgingUpgrade.AgingUpgradeByDeathCross | onecool_os/market/etf_cta.py:661-665 | One merged history of 280 bars for which the whole calculation returns BUY on an aging weekly trend one day after a daily death cross |
| ConfigText.ScanCanonical | onecool_os/core/config.py:275-288 | A canonical line yields its indentation, key and text |
| ConfigText.ScalarRoundTrip | onecool_os/core/config.py:307-321 | Every scalar without a comment sign survives being written and read |
| ConfigText.LinesRoundTrip | onecool_os/core/config.py:271-274 | Joined lines split into the same lines |
| ConfigText.CommentIsCut | onecool_os/core/config.py:275 | A line reads the same with a comment appended |
| ConfigText.ScanMeaning | onecool_os/core/config.py:275-288 | Exactly when a line is blank or bad in each of three ways, and what indentation, key and text an entry has |
| ConfigText.ScalarMeaning | onecool_os/core/config.py:307-321 | Exactly which words are true, false and null; any other scalar is its stripped text, less one pair of equal quotes |
| ConfigText.QuotedScalar | onecool_os/core/config.py:315-320 | Either kind of quotes is taken off, whatever is between them |
| ConfigText.SplitMeaning | onecool_os/core/config.py:271-274 | Text up to the first line break is one line, CR LF is one break, nothing follows a final break |
| ConfigText.LineBreaks | onecool_os/core/config.py:271-274 | The ten characters that end a line |
| TextTools.SpaceCharacters | onecool_os/core/config.py:275-276 | The white space that stripping removes, character by character |
| ConfigParser.PopToStacked | onecool_os/core/config.py:290-293 | Popping keeps indents strictly increasing above -1 and never empties the stack |
| ConfigParser.PopToParent | onecool_os/core/config.py:290-293 | The pop loop on the real stack: the nesting error is unreachable and popped dictionaries are finished |
| ConfigParser.OpenChild | onecool_os/core/config.py:297-300 | Storing an aliased child and pushing it keeps the stack a path from the root |
| ConfigParser.StoreScalar | onecool_os/core/config.py:301-302 | A scalar is stored in the innermost open dictionary and nowhere else |
| ConfigParser.ReadLine | onecool_os/core/config.py:275-302 | One line changes the heap exactly as it changes the meaning |
| ConfigParser.ReadYamlMapping | onecool_os/core/config.py:267-304 | The loop returns a fresh dictionary representing the parsed mapping, or the first bad line's error |
| ConfigParser.FirstBadLine | onecool_os/core/config.py:271-288 | Parsing fails exactly when some line is bad, with the number and the error of the first such line |
| ConfigRoundTrip.RunDoc | onecool_os/core/config.py:271-302 | Reading a rendered document at any depth adds exactly its entries to the dictionary open there |
| ConfigRoundTrip.LinesReadBack | onecool_os/core/config.py:267-304 | A canonical rendering parses to its mapping, whatever the key order |
| ConfigRoundTrip.RoundTrip | onecool_os/core/config.py:267-321 | Every clean nested mapping has a two-space rendering that parses back to it |
| ConfigComments.CommentsChangeNothing | onecool_os/core/config.py:267-304 | Comments on lines, and blank and comment lines between them, change no parsed mapping and no kind of error |
| ConfigComments.CommentedReadBack | onecool_os/core/config.py:267-304 | A canonical rendering, commented and spaced at will, parses to its mapping |
| ConfigComments.OnlyComments | onecool_os/core/config.py:275-277 | A file of comments and blank lines is the empty mapping |
| ConfigMerge.DeepMergeLoop | onecool_os/core/config.py:324-332 | The recursive loop computes the key-by-key merge |
| ConfigMerge.MergeIdempotent | onecool_os/core/config.py:324-332 | Merging a mapping with itself gives it back |
| ConfigMerge.MergeIdentity | onecool_os/core/config.py:324-332 | The empty mapping is a two-sided identity |
| ConfigMerge.CoveredIffAbsorbed | onecool_os/core/config.py:324-332 | An override absorbs a base exactly when it repeats every key of it, at every level |
| ConfigMerge.AssociativeIffNoClash | onecool_os/core/config.py:324-332 | Three layers merge associatively exactly when no mapping is hidden by a scalar and then only partly rebuilt |
| ConfigMerge.AssociativityFails | onecool_os/core/config.py:324-332 | Three concrete layers whose grouping matters |
| ConfigMerge.EnvironmentOverrides | onecool_os/core/config.py:155-180 | The loop over the variable table collects the overrides |
| ConfigMerge.LastNameWins | onecool_os/core/config.py:171-180 | Of two variables for one setting the later one decides |
| ConfigMerge.EnvironmentWins | onecool_os/core/config.py:148-149 | Every environment setting wins in the final configuration |
| ConfigMerge.FilesDecideTheRest | onecool_os/core/config.py:148-149 | Settings with no environment variable keep the value merged from the files |
| ConfigMerge.UserFileWins | onecool_os/core/config.py:144-149 | A scalar the user file sets stands unless an environment variable sets the same key |
| ConfigMerge.SettingsStand | onecool_os/core/config.py:144-149 | A setting stands when neither the user file nor the environment speaks of it |
| ConfigMerge.DatabasePath | onecool_os/core/config.py:161-162 | ONECOOL_OS_DB_PATH decides over ONECOOL_OS_DATABASE_PATH |
| ConfigMerge.OneNamePerSetting | onecool_os/core/config.py:156-170 | No other two variables set the same key |
| Calendar.OrdinalOfDate | onecool_os/market/fund_alpha.py:692-696 | The date of a day number has that day number |
| Calendar.DateOfOrdinal | onecool_os/market/fund_alpha.py:692-696 | Every date is the date of its day number |
| Calendar.OrdinalOrder | onecool_os/market/fund_alpha.py:561-564 | Day numbers follow calendar order |
| FundReturns.PreviousMonthsMeaning | onecool_os/market/fund_alpha.py:692-696 | Exactly that many months earlier, the day clamped only when the month is too short, and strictly earlier |
| FundReturns.KnownPeriod | onecool_os/market/fund_alpha.py:225-275 | Known exactly when a common date lies in the gap window; start and end are then the newest common dates up to target and cutoff |
| FundReturns.ReturnsMeaning | onecool_os/market/fund_alpha.py:253-275 | A known result lies between two usable dates, its returns carry the first values of fund and proxy to their last ones, and the excess is their difference |
| FundReturns.NothingCommonIff | onecool_os/market/fund_alpha.py:222-236 | The error for months, and unknown for want of any common date, each exactly when |
| FundReturns.NoStartIff | onecool_os/market/fund_alpha.py:237-252 | Unknown for want of a start date, or of one near enough, each exactly when |
| FundReturns.SwapNegatesExcess | onecool_os/market/fund_alpha.py:254-256 | Exchanging fund and proxy negates the excess return |
| FundReturns.CutoffHidesLater | onecool_os/market/fund_alpha.py:225-236 | A result with a cutoff ignores every later observation |
| FundReturns.EndOfPreviousMonthIsDayBefore | onecool_os/market/fund_alpha.py:295-302 | The cursor moves to the day before the first of the month |
| FundReturns.CompletedMonthSnapshots | onecool_os/market/fund_alpha.py:278-303 | The cursor loop gives the month-end snapshots oldest first |
| FundReturns.NoLookAhead | onecool_os/market/fund_alpha.py:278-303 | No observation after the previous month end can change any snapshot |
| FundReturns.LastNavCounts | onecool_os/market/fund_alpha.py:225 | The last NAV of a day counts |
| FundReturns.LastCloseCounts | onecool_os/market/fund_alpha.py:226-230 | The last adjusted close of a day counts; bars without one do not |
| FundReturns.SnapshotsAreMonthly | onecool_os/market/fund_alpha.py:278-303 | The i-th snapshot is the 12-month return, with gap 10, cut off at the end of the month that lies months - i months back |
| Scorecards.MaxDrawdown | onecool_os/market/fund_alpha.py:645-651 | The one-pass loop computes the drawdown |
| Scorecards.WorstFallIsWorst | onecool_os/market/fund_alpha.py:645-651 | It is attained by some i <= j and is below every value[j]/value[i] - 1; it lies in (-1, 0] |
| Scorecards.DrawdownRange | onecool_os/market/fund_alpha.py:645-651 | The percentage lies in (-100, 0] |
| Scorecards.DrawdownScaleInvariant | onecool_os/market/fund_alpha.py:645-651 | Drawdown does not depend on the unit of the series |
| Scorecards.DrawdownIsWorstFall | onecool_os/market/fund_alpha.py:645-651 | The reported percentage is the attained worst fall from an earlier or equal day to a later one |
| Scorecards.CardMeaning | onecool_os/market/fund_alpha.py:567-613 | Without naming the comparison code: dates, observations, drawdowns and wins of a known card, and advantage exactly when the fund is strictly ahead in two of growth, Sharpe ratio and worst fall |
| Scorecards.NoMutualAdvantageOnCards | onecool_os/market/fund_alpha.py:567-613 | Of a card and the card with fund and proxy exchanged, at most one shows an advantage |
| Scorecards.NoMutualAdvantage | onecool_os/market/fund_alpha.py:587-597 | Fund and proxy can never both have the advantage over each other |
| Scorecards.FirstPeriodIsLatest | onecool_os/market/fund_alpha.py:561-564 | The first cursor is the latest half-year end up to the date exactly when the date is not 31 December |
| Scorecards.StartBoundaryIsPrevious | onecool_os/market/fund_alpha.py:357-361 | The start boundary is the half-year end just before the cursor |
| Scorecards.CompletedHalfYearScorecards | onecool_os/market/fund_alpha.py:353-390 | The cursor loop gives the scorecards oldest first |
| Scorecards.ReviewHalfYears | onecool_os/market/fund_alpha.py:324-390 | The whole review, with its error and its single unknown card for no common date |
| Scorecards.NothingToReview | onecool_os/market/fund_alpha.py:342-355 | The error for the number of periods exactly below one, a single unknown card for want of a common day, otherwise as many cards as asked |
| Scorecards.KnownCardDates | onecool_os/market/fund_alpha.py:362-389 | A known card starts and ends on the newest common days up to its two boundaries, within the gap |
| Scorecards.KnownCardIff | onecool_os/market/fund_alpha.py:357-389 | Exactly when a half-year has a known card, and which days it is computed over |
| Scorecards.PeriodMeaning | onecool_os/market/fund_alpha.py:356 | June ends are first halves, December ends second ones |
| Scorecards.PeriodsAreConsecutive | onecool_os/market/fund_alpha.py:353-390 | Known or not, the cards are labelled with consecutive half-years, the last one ending at the cursor |
| Scorecards.KnownCardsInOrder | onecool_os/market/fund_alpha.py:353-390 | Known cards are chronological: each starts no earlier than any card before it ended |
| Scorecards.HalfYearsTile | onecool_os/market/fund_alpha.py:353-390 | Each known period starts on the day a known period just before it ended |
| Scorecards.HalfYearGrowth | onecool_os/market/fund_alpha.py:353-390 | Known growth factors, of the fund and of the proxy, multiply to the growth over the whole span |
| DecimalText.TextForm | onecool_os/history/models.py:344-348 | The printed text is sign, whole part, and the fraction without trailing zeros, if any |
| DecimalText.ParsePrinted | onecool_os/history/models.py:344-348 | Parsing printed text gives the value rounded half-even at four places, sign kept |
| DecimalText.PrintParseFixedPoint | onecool_os/history/models.py:344-348 | Printing and parsing moves a value by at most 0.00005, and printing again gives the same text |
| DecimalText.TextDeterminesValue | onecool_os/history/models.py:344-348 | Two decimals print alike exactly when sign and rounded value agree |
| DecimalText.ReadLeniently | onecool_os/history/validation.py:74-85 | Blanks around a number, an underscore and a plus sign change nothing |
| DecimalText.NumberIsRead | onecool_os/history/validation.py:74-85 | Sign, digits and point in every order that forms a number are read as that number |
| DecimalText.OnlyNumbersAreRead | onecool_os/history/validation.py:74-85 | Without an exponent nothing else is read |
| DecimalText.ExponentNeedsDigits | onecool_os/history/validation.py:74-85 | An exponent marker without digits makes the text no number |
| DecimalText.ExponentShifts | onecool_os/history/validation.py:74-85 | An exponent multiplies or divides by that power of ten |
| DecimalText.PercentStays | onecool_os/history/models.py:196-199 | A percentage stays within 0..100 |
| HistoryModel.DecimalDict | onecool_os/history/models.py:329-337 | Every upper-case key gets the amount of its last item, or the loop fails exactly when some amount does not parse |
| HistoryModel.UpperCaseDict | onecool_os/history/models.py:329-337 | On a payload with upper-case keys nothing is renamed or lost, whatever the key order |
| HistoryModel.BuiltIsValid | onecool_os/history/models.py:158-211 | Whatever is built satisfies the snapshot invariant |
| HistoryModel.BuiltIff | onecool_os/history/models.py:158-211 | A payload is accepted exactly when its amounts parse, both coverages lie in 0..100 and no asset occurs twice |
| HistoryModel.MissingAmounts | onecool_os/history/models.py:329-341 | An empty amount is zero, an empty or missing optional amount is missing |
| HistoryModel.AmountReadBack | onecool_os/history/models.py:329-348 | An amount prints the same after re-reading exactly when it is not a negative that rounds to zero |
| HistoryModel.SnapshotReadBack | onecool_os/history/models.py:213-251 | Every valid snapshot can be read back, to the same payload exactly when no currency amount is such a negative |
| HistoryModel.EveryFieldReadBack | onecool_os/history/models.py:158-251 | Every field of a re-read snapshot is its own field, rounded at four places where it is an amount |
| HistoryModel.PayloadNames | onecool_os/history/models.py:213-251 | Each amount is written under its own name |
| HistoryModel.LinePayloadNames | onecool_os/history/models.py:90-117 | So is each optional amount of an asset line |
| HistoryModel.ReadBackCanFail | onecool_os/history/store.py:62-65 | A loss of 0.00001 makes the comparison fail |
| HistoryStore.PortfolioHistoryStore.EntryBySnapshotId | onecool_os/history/store.py:145-149 | The scan finds the first entry with the id |
| HistoryStore.ReadInvertsWrite | onecool_os/history/serialization.py:43-68 | A written snapshot is always read back as a valid one with its id, with the same payload exactly when no currency amount is a negative that rounds to zero; other files are unaffected |
| HistoryStore.PortfolioHistoryStore.WriteSnapshot | onecool_os/history/store.py:29-88 | The whole new index and files, and the outcome |
| HistoryStore.PortfolioHistoryStore.LoadSnapshot | onecool_os/history/store.py:95-102 | Loads the file of the first entry with the id, or says which of unknown id, missing file, checksum mismatch and invalid payload it met |
| HistoryStore.PortfolioHistoryStore.LatestSnapshot | onecool_os/history/store.py:104-110 | Loads by the id of the last entry in sorted order |
| HistoryStore.IndexOnlyGrows | onecool_os/history/store.py:29-88 | Every call, forced or not, only appends to the index; DUPLICATE and REJECTED change nothing |
| HistoryStore.WriteCases | onecool_os/history/store.py:37-65 | The outcome of an unforced call, each case if and only if |
| HistoryStore.ForcedCases | onecool_os/history/store.py:37-88 | A forced call does the same as an unforced one for a new id, and otherwise always adds an entry unless the comparison fails |
| HistoryStore.OneFileWritten | onecool_os/history/store.py:58-65 | A stored or failing call writes one file of the snapshot and no other, every other call none |
| HistoryStore.StepKeeps | onecool_os/history/store.py:29-88 | A call on a free path keeps ids and paths unique, overwrites no stored file and changes no earlier load |
| HistoryStore.LoadsPreservedIffPathFree | onecool_os/history/store.py:58-61 | Earlier loads survive a creation exactly when its path is not in use |
| HistoryStore.PathsCanCollide | onecool_os/history/store.py:140-143 | Ids that differ only in ':' against '_' share a path |
| HistoryStore.PathsCollideIff | onecool_os/history/store.py:140-143 | Two snapshots share a file exactly when they have one date and ids equal but for colons against underscores |
| HistoryStore.ForcedPathsCollideIff | onecool_os/history/store.py:58-61 | Two forced writes of one id share a file exactly when generated on one date at the same second of the day |
| HistoryStore.RunConsistent | onecool_os/history/store.py:29-88 | Over any run with injective paths, ids and paths are unique and every entry is backed by its own file |
| HistoryStore.LoadIsStable | onecool_os/history/store.py:95-102 | Whatever is called later, a stored id keeps loading the same snapshot |
| HistoryStore.FirstStoredIsLoaded | onecool_os/history/store.py:95-102 | The snapshot first stored under an id is the one loaded for ever |
| HistoryStore.LatestIsMaximum | onecool_os/history/store.py:90-110 | The latest snapshot is that of the maximum (reference time, id) |
| Ordering.FirstDifferenceDecides | onecool_os/history/store.py:93 | Ids are compared at the first character that differs, and a proper prefix comes first |
| Comparables.SelectVerifiedComparables | onecool_os/fair_value/statistics.py:17-57 | Filter, sort, first record per item, cut to size |
| Comparables.OrderIndependent | onecool_os/fair_value/statistics.py:40-48 | Input order does not matter when records with equal keys are equal |
| Comparables.SelectionIsDescending | onecool_os/fair_value/statistics.py:40-57 | Only qualifying records, strictly descending, one per item |
| Comparables.QualifiesIff | onecool_os/fair_value/statistics.py:27-38 | Exactly which records qualify, the sale day and the last day of the window included |
| Comparables.SelectionIsNewestFirst | onecool_os/fair_value/statistics.py:40-57 | Newest sale first, on one day the larger item id first |
| Comparables.NewestOfItem | onecool_os/fair_value/statistics.py:40-56 | Of several qualifying records of an item the one kept is the newest, with the largest evidence id on that day |
| Comparables.LeftOutForAReason | onecool_os/fair_value/statistics.py:40-57 | A left-out qualifying record has a same-item record above it, or a full sample of other items above it |
| Comparables.StatisticsWithinRange | onecool_os/fair_value/statistics.py:60-90 | Minimum and maximum bound all prices, and median, mean and trimmed mean lie between them |
| Comparables.MedianMoves | onecool_os/fair_value/statistics.py:114-118 | Negating all prices negates the median, adding a constant shifts it |
| Comparables.MedianHalves | onecool_os/fair_value/statistics.py:114-118 | At least half of the prices are at most the median, and at least half at least it |
| Comparables.MeansShareTheSum | onecool_os/fair_value/statistics.py:121-128 | The mean shares out the sum; the trimmed mean of five or more the sum without one lowest and one highest price |
| Comparables.RaisedTopSorts | onecool_os/fair_value/statistics.py:64 | Raising the top price only replaces the last sorted price |
| Comparables.TopPriceIsHarmless | onecool_os/fair_value/statistics.py:114-128 | Raising the top price changes neither median (n >= 3) nor trimmed mean (n >= 5) |
| CorporateActions.DividendOnLatestShareBasis | scripts/update_market_dashboard.py:249-264 | The running product in any order of the table gives dividend over the product of all later splits |
| CorporateActions.ActionMapMeaning | scripts/update_market_dashboard.py:241-246 | A date has an action exactly when some bar on it pays a dividend or splits |
| CorporateActions.LastActionWins | scripts/update_market_dashboard.py:241-246 | The last such bar of a date supplies the action |
| CorporateActions.WindowMeaning | scripts/update_market_dashboard.py:275-280 | Exactly the actions dated within the bars, both ends included, unchanged |
| CorporateActions.CloseMeaning | scripts/update_market_dashboard.py:298-320 | Dividends match within 0.001, splits within 0.000001, either within one part in 10^9 of the larger |
| CorporateActions.MinorMeaning | scripts/update_market_dashboard.py:298-320 | A minor difference is at most 0.005 and one percent of the larger dividend |
| CorporateActions.CloserMeaning | scripts/update_market_dashboard.py:294-297 | The nearer of the raw and the share-basis dividend is compared, the raw one on a tie |
| CorporateActions.SplitProductPick | scripts/update_market_dashboard.py:260-263 | The split product does not depend on which day is multiplied first |
| CorporateActions.CompareDay | scripts/update_market_dashboard.py:285-323 | What one date adds to the two lists, or the division by zero |
| CorporateActions.EveryReportIsAGap | scripts/update_market_dashboard.py:285-323 | Each reported entry names both amounts of its date, which differ by more than the absolute tolerance; a minor one by at most 0.005 |
| CorporateActions.CorporateActionDiscrepancies | scripts/update_market_dashboard.py:267-324 | Both lists in date order over all action dates in the window |
| CorporateActions.NoMismatchIffAllAgree | scripts/update_market_dashboard.py:285-323 | No mismatch exactly when every checked date agrees |
| CorporateActions.EmptyListIffEveryDateAgrees | scripts/update_market_dashboard.py:267-324 | An empty list means every date at all agrees, and conversely |
| CorporateActions.GatePassesIff | scripts/update_market_dashboard.py:267-324 | From the bars and the authoritative table themselves: no mismatch exactly when every date agrees |
| CorporateActions.AgreementMeans | scripts/update_market_dashboard.py:289-322 | Agreement means close splits and a dividend within tolerance of the raw or the share-basis amount |
| CorporateActions.SameActionsReportNothing | scripts/update_market_dashboard.py:267-324 | Providers that differ only by share basis produce two empty lists |
| DeliverySchedule.AllSchedulesSearchable | onecool_os/health/delivery.py:8-14 | Every schedule in the table meets the search's needs |
| DeliverySchedule.ScheduleMeaning | onecool_os/health/delivery.py:8-14 | For each report, on which weekdays or days of the month and from which clock time on a slot counts as completed |
| DeliverySchedule.EnabledMeaning | onecool_os/health/delivery.py:17-39 | Only the cards report is ever disabled, from 18 September 2026 on |
| DeliverySchedule.ElevenDays | onecool_os/health/delivery.py:41 | Any eleven consecutive calendar days contain a day of month 2, 12 or 22 |
| DeliverySchedule.SlotWithinReach | onecool_os/health/delivery.py:41 | A slot lies within 7 days back, 11 for the home report |
| DeliverySchedule.LatestDue | onecool_os/health/delivery.py:40-42 | The loop ends within reach at the newest slot whose two-hour window has completed, or at the start of the calendar when there is none |
| DeliverySchedule.ExpectedReports | onecool_os/health/delivery.py:37-43 | Exactly the enabled schedules get an expected date, the newest completed one; an error exactly when an enabled one has none |

## Left out

- Floating-point error and the final `round(...)` to six or four places: all prices and returns are exact reals.
- The 28-digit precision of Python decimals: a value too large to quantize is not modelled.
- HistoryModel.DecimalDict: decimal digits other than 0 to 9, which Python reads too, do not parse.
- Reason texts, labels and message wording: errors and outcomes are values of a datatype.
- CSV and JSON text, file encodings and atomicity of file writes: a stored file is its checksum and payload. A failed or interrupted write is not modelled.
- SHA-256: an arbitrary function of the payload, so "same snapshot" means "same checksum".
- Upper-casing and trimming of text fields, count validation and enum parsing of a snapshot: copied fields are one opaque `details` text and the snapshot date is not tied to the reference time.
- HistoryStore.IndexOnlyGrows: for forced writes only the append-only index and first-entry loading are proved; two forced writes of one id in the same second share a file.
- HistoryStore.PathsCanCollide: paths are compared as text, so ids that hold `/` or `..` and reach one file by different texts are not recognised as colliding.
- WeeklyPoints.WeeklyLastPoints: the insertion-ordered dictionary is a sequence of entries in insertion order.
- CtaEngine.CalculateCta: adjusted closes that are infinite or not a number are not modelled, because every merge filters them; the symbol and the reason text are not part of the result.
- FundEvents.FundEventReportedOnce: NAVs that are restated for a date on hand are not covered; a restated NAV changes the averages themselves.
- HistoryModel.BuiltIsValid: a payload's keys are taken to be upper-case already, as every written payload has them; `HistoryModel.UpperCaseDict` connects this to the loop that upper-cases them.
- The Sharpe ratio and the standard deviation of comparables: the Sharpe ratio is an arbitrary function of the series.
- FundReturns.KnownPeriod: NAVs and adjusted closes are positive by type, as the download path enforces for NAVs.
- Dates after year 9999: month arithmetic reports them as errors, day-by-day steps do not reach them.
- Reading a file and universal newline translation: the parser starts from the text, split as `str.splitlines` does.
- Validation and typing of the final settings in `_build_system_config`, secrets and path strings: mostly one-branch facts.
- Comparables.SelectVerifiedComparables: the reference time defaults to the clock in the program and is a parameter here; records without an item id never qualify, so the fall-back to the sale URL is dead.
- `apply_corporate_actions`, anomaly thresholds, provider clients and retries of the price refresh: I/O plumbing.
- `consecutive_status` and `semiannual_governance`: short classifications of finished lists.
- Evaluation of delivery receipts: validation of one JSON document, branch by branch; the loop over schedules is modelled only as far as the expected date.
- Dashboards, HTML, plugins, logging, SQLite and the command line.
