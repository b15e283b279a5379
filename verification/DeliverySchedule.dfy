/**
 The search for the latest report slot whose delivery window has completed.  Local
 time is counted in microseconds from day 0; Taipei keeps one offset all year.
 */
module DeliverySchedule {
  import opened Prelude
  import opened Calendar

  const MINUTE := 60_000_000
  const DAY := 1440 * MINUTE

  /** Slots on some weekdays at one time of day, possibly only on some days of the month. */
  datatype Schedule = Schedule(name: string, weekdays: set<int>, minuteOfDay: nat, monthDays: Option<set<int>>, disabledFrom: Option<Date>)

  const SCHEDULES: seq<Schedule> := [
    Schedule("taiwan", {0, 1, 2, 3, 4}, 1080, None, None),
    Schedule("us", {1, 2, 3, 4, 5}, 960, None, None),
    Schedule("fund", {0, 1, 2, 3, 4, 5}, 690, None, None),
    Schedule("cards", {5}, 420, None, Some(Date(2026, 9, 18))),
    Schedule("home", {0, 1, 2, 3, 4, 5, 6}, 480, Some({2, 12, 22}), None)]

  function Due(s: Schedule, day: int): int { day * DAY + s.minuteOfDay * MINUTE }

  /** The report of that day was due at least two hours ago. */
  predicate WindowCompleted(s: Schedule, day: int, now: int) { Due(s, day) + 120 * MINUTE <= now }

  /** The schedule has a slot on that day. */
  predicate HasSlot(s: Schedule, day: nat) {
    day % 7 in s.weekdays && (s.monthDays.Some? ==> DateOf(day).day in s.monthDays.value)
  }

  predicate Completed(s: Schedule, day: nat, now: int) { WindowCompleted(s, day, now) && HasSlot(s, day) }

  /** The schedules the loop can meet: some weekday without a month rule, or every weekday on days 2, 12 and 22. */
  predicate Searchable(s: Schedule) {
    && s.minuteOfDay < 1440 - 120
    && (s.monthDays == None ==> exists w :: 0 <= w < 7 && w in s.weekdays)
    && (s.monthDays.Some? ==> s.monthDays == Some({2, 12, 22}) && forall w :: 0 <= w < 7 ==> w in s.weekdays)
  }

  /** How many days back the search can have to go. */
  function Reach(s: Schedule): nat { if s.monthDays.Some? then 11 else 7 }

  lemma AllSchedulesSearchable()
    ensures forall k :: 0 <= k < |SCHEDULES| ==> Searchable(SCHEDULES[k])
  {
    assert 0 in SCHEDULES[0].weekdays && 1 in SCHEDULES[1].weekdays && 0 in SCHEDULES[2].weekdays && 5 in SCHEDULES[3].weekdays;
  }

  /** A report of that time of day counts from two hours later on. */
  ghost predicate DueBy(day: int, hour: int, minute: int, now: int) {
    day * 24 * 3600 * 1000000 + ((hour + 2) * 3600 + minute * 60) * 1000000 <= now
  }

  /** The schedules in plain words: Taiwan Monday-Friday at 18:00, and so on; 0 is a Monday. */
  lemma ScheduleMeaning(day: nat, now: int)
    ensures |SCHEDULES| == 5
    ensures SCHEDULES[0].name == "taiwan" && (Completed(SCHEDULES[0], day, now) <==> day % 7 <= 4 && DueBy(day, 18, 0, now))
    ensures SCHEDULES[1].name == "us" && (Completed(SCHEDULES[1], day, now) <==> 1 <= day % 7 <= 5 && DueBy(day, 16, 0, now))
    ensures SCHEDULES[2].name == "fund" && (Completed(SCHEDULES[2], day, now) <==> day % 7 <= 5 && DueBy(day, 11, 30, now))
    ensures SCHEDULES[3].name == "cards" && (Completed(SCHEDULES[3], day, now) <==> day % 7 == 5 && DueBy(day, 7, 0, now))
    ensures SCHEDULES[4].name == "home"
         && (Completed(SCHEDULES[4], day, now) <==> (DateOf(day).day == 2 || DateOf(day).day == 12 || DateOf(day).day == 22) && DueBy(day, 8, 0, now))
  {
    hide DateOf;
  }

  /** Every schedule is enabled, except that card reports stopped on 18 September 2026. */
  lemma EnabledMeaning(now: nat)
    ensures forall k :: 0 <= k < |SCHEDULES| && k != 3 ==> Enabled(SCHEDULES[k], now)
    ensures Enabled(SCHEDULES[3], now) <==> now / DAY < Ordinal(Date(2026, 9, 18))
  {
    OrdinalOfDate(now / DAY);
    OrdinalOrder(DateOf(now / DAY), Date(2026, 9, 18));
    hide DateOf;
    hide Ordinal;
  }

  // ----- every window of days has a slot -----

  lemma {:induction false} DaysAhead(day: nat, j: nat)
    requires DateOf(day).day + j <= DaysInMonth(DateOf(day).year, DateOf(day).month)
    ensures DateOf(day + j) == Date(DateOf(day).year, DateOf(day).month, DateOf(day).day + j)
  {
    if j > 0 { DaysAhead(day, j - 1); }
  }

  /** Any eleven consecutive calendar days contain a day of month 2, 12 or 22. */
  lemma ElevenDays(day: nat) returns (k: nat)
    ensures k <= 10 && DateOf(day + k).day in {2, 12, 22}
  {
    var d := DateOf(day);
    var length := DaysInMonth(d.year, d.month);
    if d.day <= 22 {
      k := if d.day <= 2 then 2 - d.day else if d.day <= 12 then 12 - d.day else 22 - d.day;
      DaysAhead(day, k);
    } else {
      DaysAhead(day, length - d.day);
      var first := day + (length - d.day) + 1;
      assert DateOf(first).day == 1;
      DaysAhead(first, 1);
      k := length - d.day + 2;
    }
  }

  lemma SevenDays(day: nat, weekday: int) returns (k: nat)
    requires 0 <= weekday < 7
    ensures k <= 6 && (day + k) % 7 == weekday
  {
    k := (weekday - day % 7 + 7) % 7;
  }

  /** Counting back from the day before, a slot comes within reach. */
  lemma SlotWithinReach(s: Schedule, day: nat) returns (slot: nat)
    requires Searchable(s) && day >= Reach(s)
    ensures day - Reach(s) <= slot < day && HasSlot(s, slot)
  {
    hide DateOf;
    var first := day - Reach(s);
    if s.monthDays == None {
      var w :| 0 <= w < 7 && w in s.weekdays;
      var k := SevenDays(first, w);
      slot := first + k;
    } else {
      var k := ElevenDays(first);
      slot := first + k;
    }
  }

  /**
   The program's loop: one day back at a time until a completed slot is met.  None is
   the error raised when the calendar runs out, which only the first days can cause.
   */
  method LatestDue(s: Schedule, now: nat) returns (due: Option<nat>)
    requires Searchable(s)
    ensures due.Some? ==> NewestCompleted(s, due.value, now) && now / DAY - Reach(s) <= due.value <= now / DAY
    ensures due.None? ==> (forall day: nat :: !Completed(s, day, now)) && now / DAY < Reach(s)
  {
    hide DateOf;
    hide HasSlot;
    var day: nat := now / DAY;
    ghost var slot := -1;
    if now / DAY >= Reach(s) {
      slot := SlotWithinReach(s, now / DAY);
      EarlierDayCompleted(s, slot, now);
    }
    FutureNotCompleted(s, now);
    while !Completed(s, day, now)
      invariant slot <= day <= now / DAY
      invariant forall later: nat :: Completed(s, later, now) ==> later <= day
      decreases day
    {
      if day == 0 { return None; }
      day := day - 1;
    }
    due := Some(day);
  }

  lemma EarlierDayCompleted(s: Schedule, day: nat, now: nat)
    requires s.minuteOfDay < 1440 - 120 && day < now / DAY
    ensures WindowCompleted(s, day, now)
  {
    assert (day + 1) * DAY <= now;
  }

  lemma FutureNotCompleted(s: Schedule, now: nat)
    ensures forall day: nat :: WindowCompleted(s, day, now) ==> day <= now / DAY
  {
    forall day: nat | WindowCompleted(s, day, now) ensures day <= now / DAY {
      assert day * DAY <= now;
    }
  }

  predicate Enabled(s: Schedule, now: nat) {
    s.disabledFrom.Some? ==> Earlier(DateOf(now / DAY), s.disabledFrom.value)
  }

  /** `day` is the newest slot of the schedule whose window has completed. */
  ghost predicate NewestCompleted(s: Schedule, day: nat, now: nat) {
    Completed(s, day, now) && forall later: nat :: Completed(s, later, now) ==> later <= day
  }

  /** Every enabled schedule up to the `n`th has its newest completed slot in the table, and no other is in it. */
  ghost predicate ExpectedUpTo(expected: map<string, nat>, n: nat, now: nat) {
    forall k :: 0 <= k < |SCHEDULES| ==>
      (SCHEDULES[k].name in expected <==> k < n && Enabled(SCHEDULES[k], now))
      && (k < n && Enabled(SCHEDULES[k], now) ==> NewestCompleted(SCHEDULES[k], expected[SCHEDULES[k].name], now))
  }

  /** An enabled schedule without any completed slot since day 0. */
  ghost predicate NothingDue(s: Schedule, now: nat) {
    Enabled(s, now) && forall day: nat :: !Completed(s, day, now)
  }

  /** The expected report date of each schedule still enabled, keyed by name; None when the calendar runs out. */
  method ExpectedReports(now: nat) returns (r: Option<map<string, nat>>)
    ensures r.Some? ==> ExpectedUpTo(r.value, |SCHEDULES|, now)
    ensures r.None? <==> exists k :: 0 <= k < |SCHEDULES| && NothingDue(SCHEDULES[k], now)
    ensures now / DAY >= 11 ==> r.Some?
  {
    hide DateOf;
    hide Completed;
    hide Enabled;
    AllSchedulesSearchable();
    NamesDistinct();
    var expected: map<string, nat> := map[];
    for i := 0 to |SCHEDULES|
      invariant ExpectedUpTo(expected, i, now)
      invariant forall k :: 0 <= k < i ==> !NothingDue(SCHEDULES[k], now)
    {
      if Enabled(SCHEDULES[i], now) {
        var day := LatestDue(SCHEDULES[i], now);
        if day == None { return None; }
        expected := expected[SCHEDULES[i].name := day.value];
      }
    }
    r := Some(expected);
  }

  lemma NamesDistinct()
    ensures forall i, j :: 0 <= i < j < |SCHEDULES| ==> SCHEDULES[i].name != SCHEDULES[j].name
  {
    assert "taiwan"[0] == 't' && "us"[0] == 'u' && "fund"[0] == 'f' && "cards"[0] == 'c' && "home"[0] == 'h';
  }
}
