/**
 One observation per ISO week.  Day 0 is a Monday, so `day / 7` numbers the weeks
 exactly as the (ISO year, ISO week) pair does and `day % 7` is the weekday.
 */
module WeeklyPoints {
  import opened Prelude

  datatype Point = Point(day: int, value: real)

  function Week(day: int): int { day / 7 }
  function Weekday(day: int): int { day % 7 }

  const SUNDAY := 6
  const FRIDAY := 4

  ghost predicate Chronological(history: seq<Point>) {
    forall i, j :: 0 <= i < j < |history| ==> history[i].day < history[j].day
  }

  // ----- the insertion-ordered dictionary -----

  /** Position of the entry for a week, or the number of entries. */
  function Find(entries: seq<Point>, week: int): (k: nat)
    ensures k <= |entries|
    ensures k < |entries| ==> Week(entries[k].day) == week
    ensures forall j :: 0 <= j < k ==> Week(entries[j].day) != week
  {
    if entries == [] then 0
    else if Week(entries[0].day) == week then 0
    else 1 + Find(entries[1..], week)
  }

  /** A week already present is overwritten in place; a new week goes to the end. */
  function Record(entries: seq<Point>, point: Point): seq<Point> {
    var k := Find(entries, Week(point.day));
    if k < |entries| then entries[k := point] else entries + [point]
  }

  function LastOfWeeks(history: seq<Point>): seq<Point> {
    if history == [] then [] else Record(LastOfWeeks(history[..|history| - 1]), history[|history| - 1])
  }

  lemma {:induction false} EntriesAreBars(history: seq<Point>)
    ensures forall p :: p in LastOfWeeks(history) ==> p in history
  {
    hide Find;
    if history != [] {
      EntriesAreBars(history[..|history| - 1]);
      assert history == history[..|history| - 1] + [history[|history| - 1]];
    }
  }

  predicate OnWeekday(point: Point, required: Option<int>) {
    required.Some? ==> Weekday(point.day) == required.value
  }

  function Select(points: seq<Point>, required: Option<int>): (r: seq<Point>)
    ensures forall p :: p in r ==> p in points && OnWeekday(p, required)
  {
    if points == [] then []
    else
      var front := Select(points[..|points| - 1], required);
      var last := points[|points| - 1];
      if OnWeekday(last, required) then front + [last] else front
  }

  method WeeklyLastPoints(history: seq<Point>, requiredCloseWeekday: Option<int>) returns (points: seq<Point>)
    ensures points == Select(LastOfWeeks(history), requiredCloseWeekday)
  {
    hide Find;
    hide Record;
    var weekly: seq<Point> := [];
    for index := 0 to |history|
      invariant weekly == LastOfWeeks(history[..index])
    {
      assert history[..index + 1][..index] == history[..index];
      weekly := Record(weekly, history[index]);
    }
    assert history[..|history|] == history;
    points := [];
    for index := 0 to |weekly|
      invariant points == Select(weekly[..index], requiredCloseWeekday)
    {
      assert weekly[..index + 1][..index] == weekly[..index];
      if requiredCloseWeekday.None? || Weekday(weekly[index].day) == requiredCloseWeekday.value {
        points := points + [weekly[index]];
      }
    }
    assert weekly[..|weekly|] == weekly;
  }

  /** Which weekly points a calculation may use. */
  datatype Rule = Rule(required: Option<int>, excludeIncomplete: bool)

  function DropIncomplete(points: seq<Point>): seq<Point> {
    if points != [] && Weekday(points[|points| - 1].day) != FRIDAY then points[..|points| - 1] else points
  }

  function Published(history: seq<Point>, rule: Rule): seq<Point> {
    var points := Select(LastOfWeeks(history), rule.required);
    if rule.excludeIncomplete then DropIncomplete(points) else points
  }

  lemma PublishedAreBars(history: seq<Point>, rule: Rule)
    ensures forall p :: p in Published(history, rule) ==> p in history
  {
    hide LastOfWeeks;
    hide Select;
    EntriesAreBars(history);
  }

  // ----- what the reduction means on an ordered history -----

  ghost predicate WeeksIncrease(entries: seq<Point>) {
    forall i, j :: 0 <= i < j < |entries| ==> Week(entries[i].day) < Week(entries[j].day)
  }

  lemma {:induction false} LastOfWeeksOrdered(history: seq<Point>)
    requires Chronological(history)
    ensures WeeksIncrease(LastOfWeeks(history))
    ensures history == [] ==> LastOfWeeks(history) == []
    ensures history != [] ==> LastOfWeeks(history) != [] && LastOfWeeks(history)[|LastOfWeeks(history)| - 1] == history[|history| - 1]
  {
    if history != [] {
      var front, last := history[..|history| - 1], history[|history| - 1];
      LastOfWeeksOrdered(front);
      if front != [] {
        assert front[|front| - 1].day < last.day;
        assert Week(front[|front| - 1].day) <= Week(last.day);
      }
    }
  }

  /** `point` is later than every bar of an ordered history. */
  ghost predicate Follows(history: seq<Point>, point: Point) {
    history != [] ==> history[|history| - 1].day < point.day
  }

  lemma ChronologicalAppend(history: seq<Point>, point: Point)
    ensures Chronological(history + [point]) <==> Chronological(history) && Follows(history, point)
  {
    var longer := history + [point];
    assert forall i :: 0 <= i < |history| ==> longer[i] == history[i];
    assert longer[|history|] == point;
    if Chronological(history) && Follows(history, point) {
      forall i, j | 0 <= i < j < |longer| ensures longer[i].day < longer[j].day {
        if j == |history| { assert i < |history| - 1 ==> history[i].day < history[|history| - 1].day; }
      }
    }
  }

  lemma ChronologicalPrefix(history: seq<Point>, later: seq<Point>)
    requires Chronological(history + later)
    ensures Chronological(history)
  {
    assert forall i :: 0 <= i < |history| ==> (history + later)[i] == history[i];
  }

  lemma FindNewest(entries: seq<Point>, week: int)
    requires WeeksIncrease(entries)
    requires entries != [] ==> Week(entries[|entries| - 1].day) <= week
    ensures Find(entries, week) ==
      if entries != [] && Week(entries[|entries| - 1].day) == week then |entries| - 1 else |entries|
  {}

  /** The new bar falls in the week of the last bar. */
  ghost predicate SameWeek(history: seq<Point>, point: Point) {
    history != [] && Week(history[|history| - 1].day) == Week(point.day)
  }

  /** On an ordered history a new bar either replaces the last entry, in its own week, or is appended. */
  lemma AppendStep(history: seq<Point>, point: Point)
    requires Chronological(history) && Follows(history, point)
    ensures SameWeek(history, point) ==>
      && LastOfWeeks(history) != []
      && LastOfWeeks(history + [point]) == LastOfWeeks(history)[..|LastOfWeeks(history)| - 1] + [point]
    ensures !SameWeek(history, point) ==> LastOfWeeks(history + [point]) == LastOfWeeks(history) + [point]
  {
    hide LastOfWeeks;
    var entries := LastOfWeeks(history);
    LastOfWeeksOrdered(history);
    FindNewest(entries, Week(point.day));
    assert (history + [point])[..|history|] == history;
    RecordLast(history, point);
    if SameWeek(history, point) {
      assert entries[|entries| - 1 := point] == entries[..|entries| - 1] + [point];
    }
  }

  lemma RecordLast(history: seq<Point>, point: Point)
    ensures LastOfWeeks(history + [point]) == Record(LastOfWeeks(history), point)
  {
    assert (history + [point])[..|history|] == history;
  }

  /** `p` is in `history` and nothing later falls in its week. */
  ghost predicate LastOfItsWeek(history: seq<Point>, p: Point) {
    p in history && forall q :: q in history && q.day > p.day ==> Week(q.day) != Week(p.day)
  }

  lemma MembersBefore(front: seq<Point>, last: Point)
    requires Chronological(front) && Follows(front, last)
    ensures forall q :: q in front ==> q.day < last.day && Week(q.day) <= Week(last.day)
    ensures forall q :: q in front ==> q == front[|front| - 1] || q.day < front[|front| - 1].day
    ensures forall q :: q in front ==> Week(q.day) <= Week(front[|front| - 1].day)
  {
    forall q | q in front
      ensures q.day < last.day && Week(q.day) <= Week(last.day) && Week(q.day) <= Week(front[|front| - 1].day)
      ensures q == front[|front| - 1] || q.day < front[|front| - 1].day
    {
      var i :| 0 <= i < |front| && front[i] == q;
      if i < |front| - 1 { assert front[i].day < front[|front| - 1].day; }
    }
  }

  lemma MembersOfAppend<T>(s: seq<T>, last: T, x: T)
    ensures x in s + [last] <==> x in s || x == last
  {}

  lemma StillLast(front: seq<Point>, last: Point, p: Point)
    requires Chronological(front) && Follows(front, last)
    ensures LastOfItsWeek(front + [last], p) <==>
            p == last || (LastOfItsWeek(front, p) && Week(p.day) != Week(last.day))
  {
    hide Week;
    MembersBefore(front, last);
    var history := front + [last];
    assert forall q :: q in history <==> q in front || q == last;
    if LastOfItsWeek(history, p) && p != last {
      assert last in history && last.day > p.day;
    }
  }

  lemma OneLastPerWeek(front: seq<Point>, p: Point)
    requires Chronological(front) && front != [] && LastOfItsWeek(front, p)
    ensures Week(p.day) == Week(front[|front| - 1].day) <==> p == front[|front| - 1]
  {
    hide Week;
    var newest := front[|front| - 1];
    var i :| 0 <= i < |front| && front[i] == p;
    if i < |front| - 1 { assert newest in front && newest.day > p.day; }
  }

  /** A point is kept exactly when no later bar falls in its week. */
  lemma {:induction false} KeptIffLastOfItsWeek(history: seq<Point>, p: Point)
    requires Chronological(history)
    ensures p in LastOfWeeks(history) <==> LastOfItsWeek(history, p)
  {
    hide Week;
    if history != [] {
      var front, last := history[..|history| - 1], history[|history| - 1];
      assert history == front + [last];
      ChronologicalAppend(front, last);
      KeptIffLastOfItsWeek(front, p);
      KeptStep(front, last, p);
    }
  }

  lemma KeptStep(front: seq<Point>, last: Point, p: Point)
    requires Chronological(front) && Follows(front, last)
    requires p in LastOfWeeks(front) <==> LastOfItsWeek(front, p)
    ensures p in LastOfWeeks(front + [last]) <==> LastOfItsWeek(front + [last], p)
  {
    hide LastOfWeeks;
    hide LastOfItsWeek;
    hide Week;
    var entries := LastOfWeeks(front);
    LastOfWeeksOrdered(front);
    AppendStep(front, last);
    StillLast(front, last, p);
    if front != [] && LastOfItsWeek(front, p) { OneLastPerWeek(front, p); }
    if SameWeek(front, last) {
      var older, newest := entries[..|entries| - 1], front[|front| - 1];
      assert entries == older + [newest];
      MembersOfAppend(older, newest, p);
      MembersOfAppend(older, last, p);
      assert newest !in older;
    } else {
      MembersOfAppend(entries, last, p);
      assert LastOfItsWeek(front, p) ==> Week(p.day) != Week(last.day) by {
        if LastOfItsWeek(front, p) && Week(p.day) == Week(last.day) { WeeksBetween(front, last, p); }
      }
    }
  }

  lemma WeeksBetween(front: seq<Point>, last: Point, p: Point)
    requires Chronological(front) && Follows(front, last) && LastOfItsWeek(front, p) && !SameWeek(front, last)
    ensures Week(p.day) != Week(last.day)
  {
    MembersBefore(front, last);
    assert front[|front| - 1] in front;
  }

  // ----- append-only -----

  /** The new bar falls in the week of the last bar, whose point is published or hides a published one. */
  ghost predicate Retracts(history: seq<Point>, point: Point, rule: Rule) {
    SameWeek(history, point) && var last := history[|history| - 1];
    && OnWeekday(last, rule.required)
    && (!rule.excludeIncomplete || Weekday(last.day) == FRIDAY
        || (rule.required.Some? && |Select(LastOfWeeks(history), rule.required)| > 1))
  }

  lemma SelectAppend(points: seq<Point>, point: Point, required: Option<int>)
    ensures Select(points + [point], required) == Select(points, required) + if OnWeekday(point, required) then [point] else []
  {
    assert (points + [point])[..|points|] == points;
  }

  /** Appending to the selection never disturbs what was published. */
  lemma GrowKeepsPublished(kept: seq<Point>, more: seq<Point>, excludeIncomplete: bool)
    requires |more| <= 1
    ensures var before, after := kept, kept + more;
      (if excludeIncomplete then DropIncomplete(before) else before) <= (if excludeIncomplete then DropIncomplete(after) else after)
  {}

  /**
   Published weekly points are never removed, moved or replaced by a later bar,
   except in exactly one situation.
   */
  lemma PublishedAppendOnlyIff(history: seq<Point>, point: Point, rule: Rule)
    requires Chronological(history) && Follows(history, point)
    ensures Published(history, rule) <= Published(history + [point], rule) <==> !Retracts(history, point, rule)
  {
    hide LastOfWeeks;
    hide Select;
    hide Chronological;
    hide WeeksIncrease;
    hide Week;
    hide Weekday;
    hide DropIncomplete;
    var entries := LastOfWeeks(history);
    AppendStep(history, point);
    if SameWeek(history, point) {
      LastOfWeeksOrdered(history);
      var older, last := entries[..|entries| - 1], history[|history| - 1];
      assert entries == older + [last];
      SelectAppend(older, last, rule.required);
      SelectAppend(older, point, rule.required);
      var kept := Select(older, rule.required);
      if OnWeekday(last, rule.required) {
        OtherWeekday(last.day, point.day);
        if kept != [] { assert kept[|kept| - 1] in kept; }
        ReplacedNewest(kept, last, point, rule);
      } else {
        assert kept + [] == kept;
        GrowKeepsPublished(kept, if OnWeekday(point, rule.required) then [point] else [], rule.excludeIncomplete);
      }
    } else {
      SelectAppend(entries, point, rule.required);
      GrowKeepsPublished(Select(entries, rule.required), if OnWeekday(point, rule.required) then [point] else [], rule.excludeIncomplete);
    }
  }

  lemma OtherWeekday(a: int, b: int)
    requires Week(a) == Week(b) && a < b
    ensures Weekday(a) != Weekday(b)
  {}

  /** The case that matters: the newest selected point gives way to another day of its week. */
  lemma ReplacedNewest(kept: seq<Point>, last: Point, point: Point, rule: Rule)
    requires Weekday(last.day) != Weekday(point.day) && OnWeekday(last, rule.required)
    requires kept != [] ==> OnWeekday(kept[|kept| - 1], rule.required)
    ensures
      var before, after := kept + [last], kept + if OnWeekday(point, rule.required) then [point] else [];
      ((if rule.excludeIncomplete then DropIncomplete(before) else before) <= (if rule.excludeIncomplete then DropIncomplete(after) else after))
      <==> rule.excludeIncomplete && Weekday(last.day) != FRIDAY && (rule.required.None? || kept == [])
  {
    var before := kept + [last];
    assert before[..|before| - 1] == kept;
    if OnWeekday(point, rule.required) {
      var after := kept + [point];
      assert after[..|after| - 1] == kept;
      assert before[|kept|] != after[|kept|];
    } else {
      assert kept + [] == kept;
      assert before[|kept|] == last;
    }
  }

  // ----- batches of later bars -----

  /** The entries that no later bar can change: all but that of the newest week. */
  function Older(history: seq<Point>): seq<Point> {
    var entries := LastOfWeeks(history);
    if entries == [] then [] else entries[..|entries| - 1]
  }

  lemma OlderIsFront(history: seq<Point>)
    requires Chronological(history) && history != []
    ensures LastOfWeeks(history) == Older(history) + [history[|history| - 1]]
  {
    hide LastOfWeeks;
    hide Chronological;
    hide WeeksIncrease;
    LastOfWeeksOrdered(history);
  }

  lemma OlderStep(history: seq<Point>, point: Point)
    requires Chronological(history) && Follows(history, point) && history != []
    ensures Older(history + [point]) == if SameWeek(history, point) then Older(history) else LastOfWeeks(history)
  {
    hide LastOfWeeks;
    AppendStep(history, point);
  }

  /** Whatever bars arrive later, the older entries stay where they are. */
  lemma {:induction false} OlderGrows(history: seq<Point>, later: seq<Point>)
    requires Chronological(history + later) && history != []
    ensures Older(history) <= Older(history + later)
    decreases |later|
  {
    hide Older;
    if later == [] {
      assert history + later == history;
    } else {
      var front, point := later[..|later| - 1], later[|later| - 1];
      assert history + later == (history + front) + [point];
      ChronologicalAppend(history + front, point);
      OlderGrows(history, front);
      OlderStep(history + front, point);
      OlderIsFront(history + front);
    }
  }

  /** Bars of the newest week leave the older entries exactly as they are. */
  lemma {:induction false} OlderSameWeek(history: seq<Point>, later: seq<Point>)
    requires Chronological(history + later) && history != []
    requires Week((history + later)[|history + later| - 1].day) == Week(history[|history| - 1].day)
    ensures Older(history + later) == Older(history)
    decreases |later|
  {
    hide Older;
    if later == [] {
      assert history + later == history;
    } else {
      var front, point := later[..|later| - 1], later[|later| - 1];
      var longer := history + front;
      assert history + later == longer + [point];
      ChronologicalAppend(longer, point);
      assert longer[|history| - 1] == history[|history| - 1];
      assert history[|history| - 1].day <= longer[|longer| - 1].day < point.day;
      OlderSameWeek(history, front);
      OlderStep(longer, point);
    }
  }

  /** Once a bar of a new week has arrived, every entry before it is an older one. */
  lemma NewWeekSettles(history: seq<Point>, later: seq<Point>)
    requires Chronological(history + later) && history != [] && later != [] && !SameWeek(history, later[0])
    ensures LastOfWeeks(history) <= Older(history + later)
  {
    hide LastOfWeeks;
    hide Older;
    var next := history + [later[0]];
    assert history + later == next + later[1..];
    ChronologicalPrefix(next, later[1..]);
    ChronologicalAppend(history, later[0]);
    OlderStep(history, later[0]);
    OlderGrows(next, later[1..]);
  }

  lemma {:induction false} SelectAll(points: seq<Point>)
    ensures Select(points, None) == points
  {
    if points != [] { SelectAll(points[..|points| - 1]); }
  }

  lemma {:induction false} SelectPrefix(points: seq<Point>, more: seq<Point>, required: Option<int>)
    requires points <= more
    ensures Select(points, required) <= Select(more, required)
    decreases |more|
  {
    if points != more {
      var front := more[..|more| - 1];
      assert points <= front;
      SelectPrefix(points, front, required);
    }
  }

  /** The program never asks for a weekday and for the incomplete-week rule together. */
  predicate ProgramRule(rule: Rule) { rule.required.None? || !rule.excludeIncomplete }

  /** Is the entry of the newest week published too? */
  predicate Shown(newest: int, rule: Rule) {
    (rule.required.Some? ==> Weekday(newest) == rule.required.value) && (rule.excludeIncomplete ==> Weekday(newest) == FRIDAY)
  }

  lemma PublishedForm(history: seq<Point>, rule: Rule)
    requires Chronological(history) && history != [] && ProgramRule(rule)
    ensures var newest := history[|history| - 1];
      Published(history, rule) == Select(Older(history), rule.required) + if Shown(newest.day, rule) then [newest] else []
  {
    hide LastOfWeeks;
    hide Older;
    OlderIsFront(history);
    SelectAppend(Older(history), history[|history| - 1], rule.required);
  }

  /** A bar on day `next` falls in the week of the newest bar, whose point is published. */
  predicate Displaces(newest: int, next: int, rule: Rule) { Week(newest) == Week(next) && Shown(newest, rule) }

  /** The first of the later bars displaces the newest published point. */
  ghost predicate Displaced(history: seq<Point>, later: seq<Point>, rule: Rule) {
    history != [] && later != [] && Displaces(history[|history| - 1].day, later[0].day, rule)
  }

  /**
   Under each of the program's rules, later bars leave every published weekly point
   as it is exactly unless the first of them displaces the newest one.
   */
  lemma PublishedKeptIff(history: seq<Point>, later: seq<Point>, rule: Rule)
    requires Chronological(history + later) && ProgramRule(rule)
    ensures Published(history, rule) <= Published(history + later, rule) <==> !Displaced(history, later, rule)
  {
    hide Published;
    hide Older;
    hide Select;
    hide Chronological;
    if history == [] {
      assert Published(history, rule) == [] by { NothingPublished(rule); }
    } else if later == [] {
      assert history + later == history;
    } else {
      ChronologicalPrefix(history, later);
      PublishedForm(history, rule);
      PublishedForm(history + later, rule);
      if SameWeek(history, later[0]) {
        OlderGrows(history, later);
        SelectPrefix(Older(history), Older(history + later), rule.required);
        if Shown(history[|history| - 1].day, rule) {
          assert history[|history| - 1] in Published(history, rule);
          if history[|history| - 1] in Published(history + later, rule) {
            DisplacedDayIsGone(history, later, history[|history| - 1], rule);
          }
        }
      } else {
        NewWeekSettles(history, later);
        OlderIsFront(history);
        SelectAppend(Older(history), history[|history| - 1], rule.required);
        SelectPrefix(LastOfWeeks(history), Older(history + later), rule.required);
      }
    }
  }

  lemma NothingPublished(rule: Rule)
    ensures Published([], rule) == []
  {}

  /** No published point bears the date of a point that was displaced. */
  lemma DisplacedDayIsGone(history: seq<Point>, later: seq<Point>, p: Point, rule: Rule)
    requires Chronological(history + later) && history != [] && later != [] && SameWeek(history, later[0])
    requires p in Published(history + later, rule)
    ensures p.day != history[|history| - 1].day
  {
    hide LastOfWeeks;
    var all, newest := history + later, history[|history| - 1];
    assert all[|history| - 1] == newest && all[|history|] == later[0] && later[0] in all;
    assert p in LastOfWeeks(all);
    KeptIffLastOfItsWeek(all, p);
  }

  /** All published points but the newest. */
  function Settled(published: seq<Point>): (r: seq<Point>)
    ensures r <= published && |r| == if published == [] then 0 else |published| - 1
  {
    if published == [] then [] else published[..|published| - 1]
  }

  /** A required weekday other than Friday makes the incomplete-week rule withhold the newest selected point. */
  predicate Withholds(rule: Rule) { rule.excludeIncomplete && rule.required.Some? && rule.required.value != FRIDAY }

  lemma WithheldForm(kept: seq<Point>, newest: Point, rule: Rule)
    requires Withholds(rule) && (kept != [] ==> OnWeekday(kept[|kept| - 1], rule.required))
    ensures DropIncomplete(kept + if OnWeekday(newest, rule.required) then [newest] else [])
         == if OnWeekday(newest, rule.required) then kept else Settled(kept)
  {
    assert (kept + [newest])[..|kept|] == kept && kept + [] == kept;
  }

  lemma OpenForm(kept: seq<Point>, newest: Point, rule: Rule)
    requires !Withholds(rule) && (kept != [] ==> OnWeekday(kept[|kept| - 1], rule.required))
    ensures var all := kept + if OnWeekday(newest, rule.required) then [newest] else [];
      var r := if rule.excludeIncomplete then DropIncomplete(all) else all;
      kept <= r && Settled(r) <= kept
  {
    hide Week;
    if OnWeekday(newest, rule.required) {
      assert (kept + [newest])[..|kept|] == kept;
    } else {
      assert kept + [] == kept;
    }
  }

  /** Publishing drops at most the newest of the selected points. */
  lemma PublishedBounds(history: seq<Point>, rule: Rule)
    requires Chronological(history) && history != []
    ensures var kept, r := Select(Older(history), rule.required), Published(history, rule);
      if Withholds(rule) then r == kept || r == Settled(kept) else kept <= r && Settled(r) <= kept
  {
    hide LastOfWeeks;
    hide Older;
    hide DropIncomplete;
    hide Settled;
    hide Chronological;
    hide Select;
    hide Withholds;
    var kept, newest := Select(Older(history), rule.required), history[|history| - 1];
    OlderIsFront(history);
    SelectAppend(Older(history), newest, rule.required);
    if kept != [] { assert kept[|kept| - 1] in kept; }
    if Withholds(rule) {
      WithheldForm(kept, newest, rule);
      assert rule.excludeIncomplete by { WithholdingExcludes(rule); }
    } else {
      OpenForm(kept, newest, rule);
    }
  }

  lemma WithholdingExcludes(rule: Rule)
    requires Withholds(rule)
    ensures rule.excludeIncomplete
  {}

  /**
   Under every rule, all published points before the newest one are final: later bars
   can at most take back or replace the newest.
   */
  lemma OlderPointsAreFinal(history: seq<Point>, later: seq<Point>, rule: Rule)
    requires Chronological(history + later)
    ensures Settled(Published(history, rule)) <= Published(history + later, rule)
  {
    hide Published;
    hide Older;
    hide Select;
    if history == [] {
      NothingPublished(rule);
    } else {
      ChronologicalPrefix(history, later);
      OlderGrows(history, later);
      SelectPrefix(Older(history), Older(history + later), rule.required);
      PublishedBounds(history, rule);
      PublishedBounds(history + later, rule);
    }
  }

  /** Without a weekday and without the incomplete-week rule, a mid-week point is replaced the next day. */
  lemma MidweekPointIsReplaced()
    ensures var rule, monday, tuesday := Rule(None, false), Point(0, 10.0), Point(1, 11.0);
      Published([monday], rule) == [monday] && Published([monday, tuesday], rule) == [tuesday]
  {
    var rule, monday, tuesday := Rule(None, false), Point(0, 10.0), Point(1, 11.0);
    assert [monday, tuesday][..1] == [monday];
    assert LastOfWeeks([monday]) == [monday];
    assert LastOfWeeks([monday, tuesday]) == [tuesday];
    assert Select([monday], None) == [monday] && Select([tuesday], None) == [tuesday];
  }

  /** Sunday closes, and Monday-Friday bars with the incomplete week withheld, displace nothing. */
  lemma SafeRuleNeverDisplaces(newest: int, next: int, rule: Rule)
    requires newest < next
    requires rule == Rule(Some(SUNDAY), false) || (rule == Rule(None, true) && Weekday(next) <= FRIDAY)
    ensures !Displaces(newest, next, rule)
  {}

  // ----- rescaled histories -----

  function ScalePoint(p: Point, g: real): (r: Point)
    ensures r.day == p.day
  {
    Point(p.day, p.value * g)
  }

  function Rescale(points: seq<Point>, g: real): (r: seq<Point>)
    ensures |r| == |points|
    ensures forall i :: 0 <= i < |points| ==> r[i] == ScalePoint(points[i], g)
  {
    seq(|points|, i requires 0 <= i < |points| => ScalePoint(points[i], g))
  }

  lemma {:induction false} FindRescaled(points: seq<Point>, g: real, week: int)
    ensures Find(Rescale(points, g), week) == Find(points, week)
  {
    hide ScalePoint;
    if points != [] {
      assert Rescale(points, g)[1..] == Rescale(points[1..], g);
      FindRescaled(points[1..], g, week);
    }
  }

  lemma {:induction false} LastOfWeeksRescaled(history: seq<Point>, g: real)
    ensures LastOfWeeks(Rescale(history, g)) == Rescale(LastOfWeeks(history), g)
  {
    hide ScalePoint;
    if history != [] {
      var front, last := history[..|history| - 1], history[|history| - 1];
      LastOfWeeksRescaled(front, g);
      assert Rescale(history, g)[..|history| - 1] == Rescale(front, g);
      FindRescaled(LastOfWeeks(front), g, Week(last.day));
    }
  }

  lemma {:induction false} SelectRescaled(points: seq<Point>, g: real, required: Option<int>)
    ensures Select(Rescale(points, g), required) == Rescale(Select(points, required), g)
  {
    hide ScalePoint;
    if points != [] {
      SelectRescaled(points[..|points| - 1], g, required);
      assert Rescale(points, g)[..|points| - 1] == Rescale(points[..|points| - 1], g);
    }
  }

  lemma PublishedRescaled(history: seq<Point>, g: real, rule: Rule)
    ensures Published(Rescale(history, g), rule) == Rescale(Published(history, rule), g)
  {
    hide ScalePoint;
    LastOfWeeksRescaled(history, g);
    SelectRescaled(LastOfWeeks(history), g, rule.required);
  }

  lemma RescaledDays(history: seq<Point>, later: seq<Point>, g: real)
    requires Chronological(history + later)
    ensures Chronological(Rescale(history, g) + later)
  {
    var all, scaled := history + later, Rescale(history, g) + later;
    assert forall i :: 0 <= i < |all| ==> scaled[i].day == all[i].day;
  }

  /**
   Later bars, which rescale the whole history by `g`, keep every published weekly
   point's place and date, and its value up to that factor, exactly unless the first
   of them displaces the newest published point.
   */
  lemma WeeklyNeverRepaints(history: seq<Point>, later: seq<Point>, g: real, rule: Rule)
    requires Chronological(history + later) && ProgramRule(rule)
    ensures Rescale(Published(history, rule), g) <= Published(Rescale(history, g) + later, rule)
        <==> !Displaced(history, later, rule)
  {
    hide Published;
    hide ScalePoint;
    RescaledDays(history, later, g);
    PublishedRescaled(history, g, rule);
    PublishedKeptIff(Rescale(history, g), later, rule);
  }

  /** Under every rule the points before the newest survive, up to the common factor. */
  lemma SettledNeverRepaints(history: seq<Point>, later: seq<Point>, g: real, rule: Rule)
    requires Chronological(history + later)
    ensures Rescale(Settled(Published(history, rule)), g) <= Published(Rescale(history, g) + later, rule)
  {
    hide Published;
    hide ScalePoint;
    RescaledDays(history, later, g);
    PublishedRescaled(history, g, rule);
    OlderPointsAreFinal(Rescale(history, g), later, rule);
    assert Settled(Rescale(Published(history, rule), g)) == Rescale(Settled(Published(history, rule)), g);
  }

  lemma WeeksToDays(points: seq<Point>)
    requires WeeksIncrease(points)
    ensures Chronological(points)
  {
    forall i, j | 0 <= i < j < |points| ensures points[i].day < points[j].day {
      assert Week(points[i].day) < Week(points[j].day);
    }
  }

  lemma {:induction false} SelectKeepsOrder(points: seq<Point>, required: Option<int>)
    requires Chronological(points)
    ensures Chronological(Select(points, required))
  {
    hide Chronological;
    hide OnWeekday;
    if points == [] {
      assert Chronological([]) by { NothingToOrder(); }
    } else {
      var front, last := points[..|points| - 1], points[|points| - 1];
      assert points == front + [last];
      ChronologicalAppend(front, last);
      SelectKeepsOrder(front, required);
      MembersBefore(front, last);
      var kept := Select(front, required);
      if kept != [] { assert kept[|kept| - 1] in front; }
      ChronologicalAppend(kept, last);
    }
  }

  lemma NothingToOrder()
    ensures Chronological([])
  {}

  /** Published weekly points are themselves in date order. */
  lemma PublishedChronological(history: seq<Point>, rule: Rule)
    requires Chronological(history)
    ensures Chronological(Published(history, rule))
  {
    LastOfWeeksOrdered(history);
    WeeksToDays(LastOfWeeks(history));
    SelectKeepsOrder(LastOfWeeks(history), rule.required);
  }
}
