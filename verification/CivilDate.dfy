/**
 The closed-form conversion of a Unix day number to a civil date
 (crates/companion/src/dayparting.rs:83-97), and the proof that it is the exact inverse of the
 calendar's day count for every integer.
 */
module CivilDate {
  import opened Calendar

  // Rust's `/` on i64: the quotient is truncated toward zero.
  function TruncatingQuotient(a: int, b: int): (q: int)
    requires b > 0
  {
    if a >= 0 then a / b else -((-a) / b)
  }

  const EPOCH_SHIFT := 719_468
  const ERA_DAYS := 146_097

  function Era(shifted: int): (era: int) {
    TruncatingQuotient(if shifted >= 0 then shifted else shifted - 146_096, ERA_DAYS)
  }

  // A year here runs from March 1 and is counted from the start of its 400-year era.
  function YearOfEra(dayOfEra: int): (year: int)
    requires 0 <= dayOfEra < ERA_DAYS
  {
    (dayOfEra - dayOfEra / 1460 + dayOfEra / 36_524 - dayOfEra / 146_096) / 365
  }

  // The civil date `dayOfYear` days after March 1 of a year of an era. Months are counted from
  // March, so that the leap day comes last.
  function FromEraDay(era: int, yearOfEra: int, dayOfYear: int): (date: Date) {
    var shiftedMonth := (5 * dayOfYear + 2) / 153;
    var day := dayOfYear - (153 * shiftedMonth + 2) / 5 + 1;
    var month := if shiftedMonth < 10 then shiftedMonth + 3 else shiftedMonth - 9;
    Date(yearOfEra + era * 400 + (if month <= 2 then 1 else 0), month, day)
  }

  function FromDayOfEra(era: int, dayOfEra: int): (date: Date)
    requires 0 <= dayOfEra < ERA_DAYS
  {
    var yearOfEra := YearOfEra(dayOfEra);
    FromEraDay(era, yearOfEra, dayOfEra - (365 * yearOfEra + yearOfEra / 4 - yearOfEra / 100))
  }

  function YmdFromUnixDays(days: int): (date: Date) {
    var shifted := days + EPOCH_SHIFT;
    var era := Era(shifted);
    EraIsTheFloor(shifted);
    FromDayOfEra(era, shifted - era * ERA_DAYS)
  }

  // The truncating division in the source computes the floor, negative days included.
  lemma EraIsTheFloor(shifted: int)
    ensures Era(shifted) * ERA_DAYS <= shifted < (Era(shifted) + 1) * ERA_DAYS
  {
    if shifted < 0 {
      var up := 146_096 - shifted;
      assert up == (up / ERA_DAYS) * ERA_DAYS + up % ERA_DAYS;
    } else {
      assert shifted == (shifted / ERA_DAYS) * ERA_DAYS + shifted % ERA_DAYS;
    }
  }

  lemma EraIsUnique(shifted: int, era: int)
    requires era * ERA_DAYS <= shifted < (era + 1) * ERA_DAYS
    ensures Era(shifted) == era
  {
    EraIsTheFloor(shifted);
  }

  // Days from the start of the era to March 1 of its year `y`.
  function EraYearStart(y: int): (days: int) {
    365 * y + y / 4 - y / 100 + y / 400
  }

  // Century, four-year cycle, year and day: the digits of a day of an era.
  lemma DayOfEraDigits(dayOfEra: int) returns (c: int, k: int, j: int, r: int)
    requires 0 <= dayOfEra < ERA_DAYS
    ensures 0 <= c <= 3 && 0 <= k <= 24 && 0 <= j <= 3 && 0 <= r <= 365
    ensures r == 365 ==> j == 3 && (k < 24 || c == 3)
    ensures dayOfEra == 36_524 * c + 1461 * k + 365 * j + r
  {
    c := if dayOfEra == 146_096 then 3 else dayOfEra / 36_524;
    var inCentury := dayOfEra - 36_524 * c;
    k := inCentury / 1461;
    var inCycle := inCentury - 1461 * k;
    j := if inCycle == 1460 then 3 else inCycle / 365;
    r := inCycle - 365 * j;
  }

  // The correction terms of the closed form cancel the leap days before the year.
  lemma YearOfEraFromDigits(c: int, k: int, j: int, r: int)
    requires 0 <= c <= 3 && 0 <= k <= 24 && 0 <= j <= 3 && 0 <= r <= 365
    requires r == 365 ==> j == 3 && (k < 24 || c == 3)
    ensures var d := 36_524 * c + 1461 * k + 365 * j + r;
            0 <= d < ERA_DAYS && YearOfEra(d) == 100 * c + 4 * k + j
  {
    var d := 36_524 * c + 1461 * k + 365 * j + r;
    var q := if 24 * c + k + 365 * j + r >= 1460 then 1 else 0;
    assert d / 1460 == 25 * c + k + q;
    var last := if d == 146_096 then 1 else 0;
    assert d / 36_524 == c + last;
    assert d / 146_096 == last;
    assert 0 <= r - q <= 364;
  }

  lemma EraYearStartFromDigits(c: int, k: int, j: int)
    requires 0 <= c <= 3 && 0 <= k <= 24 && 0 <= j <= 3
    ensures EraYearStart(100 * c + 4 * k + j) == 36_524 * c + 1461 * k + 365 * j
  {
    var y := 100 * c + 4 * k + j;
    assert y / 4 == 25 * c + k && y / 100 == c && y / 400 == 0;
  }

  lemma LongYearEndsInALeapFebruary(c: int, k: int)
    requires 0 <= c <= 3 && 0 <= k <= 24
    requires k < 24 || c == 3
    ensures IsLeap(100 * c + 4 * k + 4)
  {
    var y := 100 * c + 4 * k + 4;
    assert y % 4 == 0;
    assert k < 24 ==> y % 100 == 4 * k + 4;
  }

  // In a March-based count, the year that ends in a leap February is one day longer.
  lemma EraYearLength(y: int)
    requires 0 <= y < 400
    ensures EraYearStart(y + 1) == EraYearStart(y) + YearLength(y + 1)
  {
    var c, k, j := y / 100, y % 100 / 4, y % 4;
    assert y == 100 * c + 4 * k + j;
    if j < 3 {
      ShortYearLength(c, k, j);
    } else {
      CycleEndLength(c, k);
    }
  }

  lemma ShortYearLength(c: int, k: int, j: int)
    requires 0 <= c <= 3 && 0 <= k <= 24 && 0 <= j <= 2
    ensures var y := 100 * c + 4 * k + j; EraYearStart(y + 1) == EraYearStart(y) + YearLength(y + 1)
  {
    EraYearStartFromDigits(c, k, j);
    EraYearStartFromDigits(c, k, j + 1);
    assert (100 * c + 4 * k + j + 1) % 4 == j + 1;
  }

  lemma CycleEndLength(c: int, k: int)
    requires 0 <= c <= 3 && 0 <= k <= 24
    ensures var y := 100 * c + 4 * k + 3; EraYearStart(y + 1) == EraYearStart(y) + YearLength(y + 1)
  {
    EraYearStartFromDigits(c, k, 3);
    if k < 24 {
      EraYearStartFromDigits(c, k + 1, 0);
      LongYearEndsInALeapFebruary(c, k);
    } else if c < 3 {
      EraYearStartFromDigits(c + 1, 0, 0);
      CenturyIsShort(c);
    } else {
      LongYearEndsInALeapFebruary(c, k);
    }
  }

  lemma CenturyIsShort(c: int)
    requires 0 <= c < 3
    ensures !IsLeap(100 * c + 100)
  {
    assert c == 0 || c == 1 || c == 2;
  }

  lemma YearOfEraBrackets(dayOfEra: int)
    requires 0 <= dayOfEra < ERA_DAYS
    ensures var y := YearOfEra(dayOfEra);
            && 0 <= y < 400
            && EraYearStart(y) <= dayOfEra < EraYearStart(y) + YearLength(y + 1)
  {
    var c, k, j, r := DayOfEraDigits(dayOfEra);
    YearOfEraFromDigits(c, k, j, r);
    EraYearStartFromDigits(c, k, j);
    if r == 365 {
      LongYearEndsInALeapFebruary(c, k);
    }
  }

  lemma {:induction false} EraYearStartIsMonotone(a: int, b: int)
    requires a <= b
    ensures EraYearStart(a) <= EraYearStart(b)
  {
    assert a / 100 <= b / 100 && a / 4 <= b / 4 && a / 400 <= b / 400;
    assert b / 100 - a / 100 <= b - a;
  }

  lemma YearOfEraIsUnique(dayOfEra: int, y: int)
    requires 0 <= dayOfEra < ERA_DAYS
    requires EraYearStart(y) <= dayOfEra < EraYearStart(y + 1)
    ensures YearOfEra(dayOfEra) == y
  {
    YearOfEraBrackets(dayOfEra);
    var found := YearOfEra(dayOfEra);
    EraYearLength(found);
    if found < y {
      EraYearStartIsMonotone(found + 1, y);
    } else if y < found {
      EraYearStartIsMonotone(y + 1, found);
    }
  }

  lemma RemainderRepeats(year: int, turns: int, divisor: int)
    requires divisor == 4 || divisor == 100 || divisor == 400
    ensures (year + divisor * turns) % divisor == year % divisor
  {
  }

  lemma LeapYearsRepeatEachEra(year: int, era: int)
    ensures IsLeap(year + 400 * era) == IsLeap(year)
  {
    RemainderRepeats(year, 100 * era, 4);
    RemainderRepeats(year, 4 * era, 100);
    RemainderRepeats(year, era, 400);
  }

  // Days from March 1 to the first of the month counted from March.
  function MarchMonthStart(m: int): (days: int) {
    (153 * m + 2) / 5
  }

  lemma MarchMonthBrackets(dayOfYear: int)
    requires 0 <= dayOfYear <= 365
    ensures var m := (5 * dayOfYear + 2) / 153;
            && 0 <= m <= 11
            && MarchMonthStart(m) <= dayOfYear < MarchMonthStart(m + 1)
  {
  }

  lemma MarchMonthLength(year: int, m: int)
    requires 0 <= m <= 10
    ensures MarchMonthStart(m + 1) - MarchMonthStart(m)
         == MonthLength(year, if m < 10 then m + 3 else m - 9)
  {
    assert m == 0 || m == 1 || m == 2 || m == 3 || m == 4 || m == 5 || m == 6 || m == 7 || m == 8 || m == 9 || m == 10;
  }

  lemma FromEraDayIsValid(era: int, yearOfEra: int, dayOfYear: int)
    requires 0 <= dayOfYear < YearLength(yearOfEra + 1)
    ensures ValidDate(FromEraDay(era, yearOfEra, dayOfYear))
  {
    MarchMonthBrackets(dayOfYear);
    var m := (5 * dayOfYear + 2) / 153;
    LeapYearsRepeatEachEra(yearOfEra + 1, era);
    if m <= 10 {
      MarchMonthLength(FromEraDay(era, yearOfEra, dayOfYear).year, m);
    } else {
      assert MarchMonthStart(11) == 337;
    }
  }

  // One day on, within a March-based year.
  lemma FromEraDayStep(era: int, yearOfEra: int, dayOfYear: int)
    requires 0 <= dayOfYear && dayOfYear + 1 < YearLength(yearOfEra + 1)
    ensures ValidDate(FromEraDay(era, yearOfEra, dayOfYear))
    ensures FromEraDay(era, yearOfEra, dayOfYear + 1) == NextDay(FromEraDay(era, yearOfEra, dayOfYear))
  {
    FromEraDayIsValid(era, yearOfEra, dayOfYear);
    MarchMonthBrackets(dayOfYear);
    MarchMonthBrackets(dayOfYear + 1);
    var m := (5 * dayOfYear + 2) / 153;
    LeapYearsRepeatEachEra(yearOfEra + 1, era);
    if m <= 10 {
      MarchMonthLength(FromEraDay(era, yearOfEra, dayOfYear).year, m);
    } else {
      assert MarchMonthStart(11) == 337;
    }
  }

  // One day on, over the end of February.
  lemma FromEraDayTurnOfYear(era: int, yearOfEra: int)
    ensures var last := YearLength(yearOfEra + 1) - 1;
            && ValidDate(FromEraDay(era, yearOfEra, last))
            && NextDay(FromEraDay(era, yearOfEra, last)) == Date(yearOfEra + 1 + era * 400, 3, 1)
  {
    var last := YearLength(yearOfEra + 1) - 1;
    FromEraDayIsValid(era, yearOfEra, last);
    LeapYearsRepeatEachEra(yearOfEra + 1, era);
    assert MarchMonthStart(11) == 337;
  }

  lemma DayOfEraByYear(era: int, yearOfEra: int, dayOfYear: int)
    requires 0 <= yearOfEra < 400
    requires 0 <= dayOfYear < YearLength(yearOfEra + 1)
    ensures 0 <= EraYearStart(yearOfEra) + dayOfYear < ERA_DAYS
    ensures FromDayOfEra(era, EraYearStart(yearOfEra) + dayOfYear) == FromEraDay(era, yearOfEra, dayOfYear)
  {
    YearOfADay(yearOfEra, dayOfYear);
    DayOfAYear(yearOfEra, dayOfYear);
  }

  lemma YearOfADay(yearOfEra: int, dayOfYear: int)
    requires 0 <= yearOfEra < 400
    requires 0 <= dayOfYear < YearLength(yearOfEra + 1)
    ensures 0 <= EraYearStart(yearOfEra) + dayOfYear < ERA_DAYS
    ensures YearOfEra(EraYearStart(yearOfEra) + dayOfYear) == yearOfEra
  {
    EraYearLength(yearOfEra);
    EraYearStartIsMonotone(0, yearOfEra);
    EraYearStartIsMonotone(yearOfEra + 1, 400);
    assert EraYearStart(0) == 0 && EraYearStart(400) == ERA_DAYS;
    YearOfEraIsUnique(EraYearStart(yearOfEra) + dayOfYear, yearOfEra);
  }

  lemma DayOfAYear(yearOfEra: int, dayOfYear: int)
    requires 0 <= yearOfEra < 400
    ensures EraYearStart(yearOfEra) + dayOfYear - (365 * yearOfEra + yearOfEra / 4 - yearOfEra / 100) == dayOfYear
  {
    assert yearOfEra / 400 == 0;
  }

  lemma YmdOfDayOfEra(era: int, dayOfEra: int)
    requires 0 <= dayOfEra < ERA_DAYS
    ensures YmdFromUnixDays(era * ERA_DAYS + dayOfEra - EPOCH_SHIFT) == FromDayOfEra(era, dayOfEra)
  {
    EraIsUnique(era * ERA_DAYS + dayOfEra, era);
  }

  lemma YmdOnDayOfEra(days: int, era: int, dayOfEra: int, date: Date)
    requires 0 <= dayOfEra < ERA_DAYS && days == era * ERA_DAYS + dayOfEra - EPOCH_SHIFT
    requires FromDayOfEra(era, dayOfEra) == date
    ensures YmdFromUnixDays(days) == date
  {
    YmdOfDayOfEra(era, dayOfEra);
  }

  // Where a day number lies: its era, the March-based year of the era and the day of that year.
  datatype Place = Place(era: int, yearOfEra: int, dayOfYear: int) {
    predicate Valid() {
      0 <= yearOfEra < 400 && 0 <= dayOfYear < YearLength(yearOfEra + 1)
    }

    function Days(): int {
      era * ERA_DAYS + EraYearStart(yearOfEra) + dayOfYear - EPOCH_SHIFT
    }

    function Civil(): Date {
      FromEraDay(era, yearOfEra, dayOfYear)
    }
  }

  lemma YmdOfPlace(place: Place)
    requires place.Valid()
    ensures YmdFromUnixDays(place.Days()) == place.Civil()
  {
    var dayOfEra := EraYearStart(place.yearOfEra) + place.dayOfYear;
    DayOfEraByYear(place.era, place.yearOfEra, place.dayOfYear);
    YmdOnDayOfEra(place.Days(), place.era, dayOfEra, place.Civil());
  }

  lemma PlaceOf(days: int) returns (place: Place)
    ensures place.Valid() && place.Days() == days
  {
    var era := Era(days + EPOCH_SHIFT);
    EraIsTheFloor(days + EPOCH_SHIFT);
    var dayOfEra := days + EPOCH_SHIFT - era * ERA_DAYS;
    YearOfEraBrackets(dayOfEra);
    place := Place(era, YearOfEra(dayOfEra), dayOfEra - EraYearStart(YearOfEra(dayOfEra)));
  }

  // The place of the next day, over the ends of years and eras.
  lemma NextPlace(place: Place) returns (next: Place)
    requires place.Valid()
    ensures next.Valid() && next.Days() == place.Days() + 1
    ensures ValidDate(place.Civil()) && next.Civil() == NextDay(place.Civil())
  {
    var Place(era, yearOfEra, dayOfYear) := place;
    if dayOfYear + 1 < YearLength(yearOfEra + 1) {
      FromEraDayStep(era, yearOfEra, dayOfYear);
      next := Place(era, yearOfEra, dayOfYear + 1);
    } else {
      FromEraDayTurnOfYear(era, yearOfEra);
      next := NextYearsFirst(place);
    }
  }

  // March 1 after the last day of a March-based year, which may end an era.
  lemma NextYearsFirst(place: Place) returns (next: Place)
    requires place.Valid() && place.dayOfYear + 1 == YearLength(place.yearOfEra + 1)
    ensures next.Valid() && next.Days() == place.Days() + 1
    ensures next.Civil() == Date(place.yearOfEra + 1 + place.era * 400, 3, 1)
  {
    EraYearLength(place.yearOfEra);
    if place.yearOfEra < 399 {
      next := Place(place.era, place.yearOfEra + 1, 0);
    } else {
      assert EraYearStart(400) == ERA_DAYS && EraYearStart(0) == 0;
      next := Place(place.era + 1, 0, 0);
    }
  }

  // The day after is the next day on the calendar, over month, year, century and era ends.
  lemma PlacesMoveToNextDay(dateOf: int -> Date, day: int)
    requires forall place: Place :: place.Valid() ==> dateOf(place.Days()) == place.Civil()
    ensures MovesToNextDay(dateOf, day)
  {
    var place := PlaceOf(day);
    var next := NextPlace(place);
    assert dateOf(place.Days()) == place.Civil();
    assert dateOf(next.Days()) == next.Civil();
  }

  lemma YmdSuccessor(days: int)
    ensures ValidDate(YmdFromUnixDays(days))
    ensures YmdFromUnixDays(days + 1) == NextDay(YmdFromUnixDays(days))
  {
    forall place: Place | place.Valid() ensures YmdFromUnixDays(place.Days()) == place.Civil() {
      YmdOfPlace(place);
    }
    PlacesMoveToNextDay(YmdFromUnixDays, days);
    assert MovesToNextDay(YmdFromUnixDays, days);
  }

  lemma EpochIsDayZero()
    ensures YmdFromUnixDays(0) == Date(1970, 1, 1)
  {
  }

  // Main result, one way: the calendar's count of the computed date is the number it came from.
  lemma DayNumberOfYmd(days: int)
    ensures ValidDate(YmdFromUnixDays(days))
    ensures DayNumber(YmdFromUnixDays(days)) == days
  {
    forall day ensures MovesToNextDay(YmdFromUnixDays, day) {
      YmdSuccessor(day);
    }
    EpochIsDayZero();
    SteppingInvertsDayNumber(YmdFromUnixDays, days);
  }

  // Main result, the other way: every valid date comes back from its own day number.
  lemma YmdOfDayNumber(date: Date)
    requires ValidDate(date)
    ensures YmdFromUnixDays(DayNumber(date)) == date
  {
    DayNumberOfYmd(DayNumber(date));
    DayNumberIsInjective(YmdFromUnixDays(DayNumber(date)), date);
  }

  lemma YmdIsExactly(days: int, date: Date)
    requires ValidDate(date)
    ensures YmdFromUnixDays(days) == date <==> DayNumber(date) == days
  {
    DayNumberOfYmd(days);
    YmdOfDayNumber(date);
  }
}
