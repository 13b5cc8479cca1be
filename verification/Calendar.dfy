/**
 The proleptic Gregorian calendar, stated from its rules alone (month lengths, the leap rule
 of Appendix C of RFC 3339), and the number of days from 1970-01-01 to a date.
 Nothing here knows about the closed form that `CivilDate` proves against it.
 */
module Calendar {

  datatype Date = Date(year: int, month: int, day: int)

  predicate IsLeap(year: int) {
    year % 4 == 0 && (year % 100 != 0 || year % 400 == 0)
  }

  function YearLength(year: int): (days: int) {
    if IsLeap(year) then 366 else 365
  }

  function MonthLength(year: int, month: int): (days: int)
    requires 1 <= month <= 12
  {
    if month == 2 then if IsLeap(year) then 29 else 28
    else if month == 4 || month == 6 || month == 9 || month == 11 then 30
    else 31
  }

  predicate ValidDate(date: Date) {
    && 1 <= date.month <= 12
    && 1 <= date.day <= MonthLength(date.year, date.month)
  }

  // The next day on the calendar.
  function NextDay(date: Date): (next: Date)
    requires ValidDate(date)
  {
    if date.day < MonthLength(date.year, date.month) then date.(day := date.day + 1)
    else if date.month < 12 then Date(date.year, date.month + 1, 1)
    else Date(date.year + 1, 1, 1)
  }

  // Days from 1970-01-01 to January 1 of `year`, adding up whole years.
  function YearStart(year: int): (days: int)
    decreases if year < 1970 then 1970 - year else year - 1970
  {
    if year == 1970 then 0
    else if year > 1970 then YearStart(year - 1) + YearLength(year - 1)
    else YearStart(year + 1) - YearLength(year)
  }

  // Days from January 1 to the first of `month`, adding up whole months.
  function MonthStart(year: int, month: int): (days: int)
    requires 1 <= month <= 12
    decreases month
  {
    if month == 1 then 0 else MonthStart(year, month - 1) + MonthLength(year, month - 1)
  }

  function DayNumber(date: Date): (days: int)
    requires ValidDate(date)
  {
    YearStart(date.year) + MonthStart(date.year, date.month) + date.day - 1
  }

  // Calendar order.
  predicate Before(a: Date, b: Date) {
    || a.year < b.year
    || (a.year == b.year && a.month < b.month)
    || (a.year == b.year && a.month == b.month && a.day < b.day)
  }

  lemma YearStartStep(year: int)
    ensures YearStart(year + 1) == YearStart(year) + YearLength(year)
  {
  }

  lemma MonthsFillTheYear(year: int)
    ensures MonthStart(year, 12) + MonthLength(year, 12) == YearLength(year)
  {
    forall month | 2 <= month <= 12
      ensures MonthStart(year, month) == MonthStart(year, month - 1) + MonthLength(year, month - 1)
    {
    }
    assert MonthStart(year, 4) == MonthStart(year, 3) + 31;
    assert MonthStart(year, 7) == MonthStart(year, 6) + 30;
    assert MonthStart(year, 10) == MonthStart(year, 9) + 30;
  }

  lemma NextDayCountsOne(date: Date)
    requires ValidDate(date)
    ensures ValidDate(NextDay(date))
    ensures DayNumber(NextDay(date)) == DayNumber(date) + 1
  {
    YearStartStep(date.year);
    MonthsFillTheYear(date.year);
  }

  lemma {:induction false} YearStartIsMonotone(a: int, b: int)
    requires a <= b
    ensures YearStart(a) + 365 * (b - a) <= YearStart(b)
    decreases b - a
  {
    if a < b {
      YearStartIsMonotone(a, b - 1);
      YearStartStep(b - 1);
    }
  }

  lemma {:induction false} MonthStartIsMonotone(year: int, a: int, b: int)
    requires 1 <= a < b <= 12
    ensures MonthStart(year, a) + MonthLength(year, a) <= MonthStart(year, b)
    decreases b - a
  {
    if a + 1 < b {
      MonthStartIsMonotone(year, a, b - 1);
    }
  }

  lemma DayOfYearIsWithinTheYear(date: Date)
    requires ValidDate(date)
    ensures 0 <= MonthStart(date.year, date.month) + date.day - 1 < YearLength(date.year)
  {
    MonthsFillTheYear(date.year);
    if date.month < 12 { MonthStartIsMonotone(date.year, date.month, 12); }
    if 1 < date.month { MonthStartIsMonotone(date.year, 1, date.month); }
  }

  // The day number orders dates exactly as the calendar does.
  lemma DayNumberFollowsTheCalendar(a: Date, b: Date)
    requires ValidDate(a) && ValidDate(b)
    requires Before(a, b)
    ensures DayNumber(a) < DayNumber(b)
  {
    DayOfYearIsWithinTheYear(a);
    DayOfYearIsWithinTheYear(b);
    if a.year < b.year {
      YearStartStep(a.year);
      YearStartIsMonotone(a.year + 1, b.year);
    } else if a.month < b.month {
      MonthStartIsMonotone(a.year, a.month, b.month);
    }
  }

  lemma DayNumberIsInjective(a: Date, b: Date)
    requires ValidDate(a) && ValidDate(b)
    requires DayNumber(a) == DayNumber(b)
    ensures a == b
  {
    if Before(a, b) {
      DayNumberFollowsTheCalendar(a, b);
    } else if Before(b, a) {
      DayNumberFollowsTheCalendar(b, a);
    }
  }

  ghost predicate MovesToNextDay(dateOf: int -> Date, day: int) {
    ValidDate(dateOf(day)) && dateOf(day + 1) == NextDay(dateOf(day))
  }

  // Any conversion that starts at the epoch and moves on by the calendar's next day, forwards and
  // backwards, is the inverse of the day count.
  lemma {:induction false} SteppingInvertsDayNumber(dateOf: int -> Date, days: int)
    requires dateOf(0) == Date(1970, 1, 1)
    requires forall day :: MovesToNextDay(dateOf, day)
    ensures ValidDate(dateOf(days)) && DayNumber(dateOf(days)) == days
    decreases if days < 0 then -days else days
  {
    assert MovesToNextDay(dateOf, days);
    if days > 0 {
      SteppingInvertsDayNumber(dateOf, days - 1);
      assert MovesToNextDay(dateOf, days - 1);
      NextDayCountsOne(dateOf(days - 1));
    } else if days < 0 {
      SteppingInvertsDayNumber(dateOf, days + 1);
      NextDayCountsOne(dateOf(days));
    }
  }
}
