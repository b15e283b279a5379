/**
 The proleptic Gregorian calendar behind `datetime.date`.  Days are numbered from
 0 = 0001-01-01, which is a Monday, so `day % 7` is `weekday()`.
 */
module Calendar {

  datatype Date = Date(year: int, month: int, day: int)

  predicate Leap(year: int) { year % 4 == 0 && (year % 100 != 0 || year % 400 == 0) }

  function DaysInMonth(year: int, month: int): (n: int)
    ensures 28 <= n <= 31
  {
    if month == 2 then (if Leap(year) then 29 else 28)
    else if month == 4 || month == 6 || month == 9 || month == 11 then 30
    else 31
  }

  predicate IsDate(d: Date) {
    1 <= d.year && 1 <= d.month <= 12 && 1 <= d.day <= DaysInMonth(d.year, d.month)
  }

  type CalendarDate = d: Date | IsDate(d) witness Date(1, 1, 1)

  /** Days before 1 January of `year`. */
  function DaysBeforeYear(year: int): int {
    var y := year - 1;
    365 * y + y / 4 - y / 100 + y / 400
  }

  const BEFORE_MONTH: seq<int> := [0, 31, 59, 90, 120, 151, 181, 212, 243, 273, 304, 334]

  function DaysBeforeMonth(year: int, month: int): int
    requires 1 <= month <= 12
  {
    BEFORE_MONTH[month - 1] + if month > 2 && Leap(year) then 1 else 0
  }

  /** The day number of a date. */
  function Ordinal(d: CalendarDate): int {
    DaysBeforeYear(d.year) + DaysBeforeMonth(d.year, d.month) + d.day - 1
  }

  function Next(d: CalendarDate): CalendarDate {
    if d.day < DaysInMonth(d.year, d.month) then Date(d.year, d.month, d.day + 1)
    else if d.month < 12 then Date(d.year, d.month + 1, 1)
    else Date(d.year + 1, 1, 1)
  }

  /** The date of a day number. */
  function DateOf(ordinal: nat): CalendarDate {
    if ordinal == 0 then Date(1, 1, 1) else Next(DateOf(ordinal - 1))
  }

  function YearLength(year: int): int { if Leap(year) then 366 else 365 }

  lemma YearStep(year: int)
    ensures DaysBeforeYear(year + 1) == DaysBeforeYear(year) + YearLength(year)
  {
    var y := year;
    assert y / 4 == (y - 1) / 4 + if y % 4 == 0 then 1 else 0;
    assert y / 100 == (y - 1) / 100 + if y % 100 == 0 then 1 else 0;
    assert y / 400 == (y - 1) / 400 + if y % 400 == 0 then 1 else 0;
    assert y % 400 == 0 ==> y % 100 == 0;
    assert y % 100 == 0 ==> y % 4 == 0;
  }

  lemma MonthStep(year: int, month: int)
    requires 1 <= month < 12
    ensures DaysBeforeMonth(year, month + 1) == DaysBeforeMonth(year, month) + DaysInMonth(year, month)
  {}

  lemma NextOrdinal(d: CalendarDate)
    ensures Ordinal(Next(d)) == Ordinal(d) + 1
  {
    if d.month < 12 { MonthStep(d.year, d.month); }
    YearStep(d.year);
  }

  /** `date.toordinal` and `date.fromordinal` are inverse. */
  lemma {:induction false} OrdinalOfDate(ordinal: nat)
    ensures Ordinal(DateOf(ordinal)) == ordinal
  {
    if ordinal != 0 {
      OrdinalOfDate(ordinal - 1);
      NextOrdinal(DateOf(ordinal - 1));
    }
  }

  /** Calendar order of dates. */
  predicate Earlier(a: Date, b: Date) {
    a.year < b.year || (a.year == b.year && (a.month < b.month || (a.month == b.month && a.day < b.day)))
  }

  lemma WithinYear(d: CalendarDate)
    ensures DaysBeforeYear(d.year) <= Ordinal(d) < DaysBeforeYear(d.year + 1)
  {
    YearStep(d.year);
  }

  lemma {:induction false} YearsIncrease(a: int, b: int)
    requires a <= b
    ensures DaysBeforeYear(a) <= DaysBeforeYear(b)
    decreases b - a
  {
    if a < b {
      YearsIncrease(a, b - 1);
      YearStep(b - 1);
    }
  }

  /** Day numbers follow calendar order, so a date has exactly one day number. */
  lemma OrdinalOrder(a: CalendarDate, b: CalendarDate)
    ensures Ordinal(a) < Ordinal(b) <==> Earlier(a, b)
    ensures Ordinal(a) == Ordinal(b) <==> a == b
  {
    if Earlier(a, b) { EarlierIsSmaller(a, b); }
    if Earlier(b, a) { EarlierIsSmaller(b, a); }
  }

  lemma EarlierIsSmaller(a: CalendarDate, b: CalendarDate)
    requires Earlier(a, b)
    ensures Ordinal(a) < Ordinal(b)
  {
    if a.year < b.year {
      WithinYear(a);
      WithinYear(b);
      YearsIncrease(a.year + 1, b.year);
    }
  }

  lemma OrdinalNonNegative(d: CalendarDate)
    ensures Ordinal(d) >= 0
  {
    OrdinalOrder(Date(1, 1, 1), d);
  }

  /** Every date is the date of its day number. */
  lemma DateOfOrdinal(d: CalendarDate)
    ensures Ordinal(d) >= 0 && DateOf(Ordinal(d)) == d
  {
    OrdinalNonNegative(d);
    OrdinalOfDate(Ordinal(d));
    OrdinalOrder(DateOf(Ordinal(d)), d);
  }
}
