/** `DateUtil`: the calendar arithmetic the library delegates to
    `java.time` — leap years, month lengths, day differences and weekday
    numbers in the proleptic Gregorian calendar (ISO 8601:2004, section
    3.2.1). Dates are counted as `LocalDate.toEpochDay` counts them. */
module DateUtil {
  import opened JavaLang

  /** The year range of `LocalDate` (`Year.MIN_VALUE` to `Year.MAX_VALUE`). */
  const MinYear: int := -999_999_999
  const MaxYear: int := 999_999_999

  /** Days from 0000-01-01 to 1970-01-01. */
  const DaysBefore1970: int := 719_528

  /** The proleptic Gregorian leap-year rule. For divisibility tests Java's
      truncating `%` and `& 3` agree with Dafny's `%`. */
  predicate IsLeap(y: int) {
    y % 4 == 0 && (y % 100 != 0 || y % 400 == 0)
  }

  /** `Month.length`: the number of days of month `m` of year `y`. */
  function LengthOfMonth(y: int, m: int): int
    requires 1 <= m <= 12
  {
    if m == 2 then (if IsLeap(y) then 29 else 28)
    else if m == 4 || m == 6 || m == 9 || m == 11 then 30
    else 31
  }

  datatype Date = Date(year: int, month: int, day: int)

  predicate Valid(d: Date) {
    MinYear <= d.year <= MaxYear && 1 <= d.month <= 12 && 1 <= d.day <= LengthOfMonth(d.year, d.month)
  }

  /** A `LocalDate`: a date that exists in the calendar and in its range. */
  type LocalDate = d: Date | Valid(d) witness Date(1970, 1, 1)

  /** The leap years counted by `toEpochDay` before year `y` (from year 0
      upwards for `y >= 0`, negated below year 0). Java divides with
      truncation; every operand here is non-negative, where truncation and
      Dafny's division coincide. */
  function LeapsBefore(y: int): int {
    if y >= 0 then (y + 3) / 4 - (y + 99) / 100 + (y + 399) / 400
    else -((-y) / 4 - (-y) / 100 + (-y) / 400)
  }

  /** `LocalDate.toEpochDay`: days since 1970-01-01, by Java's formula. */
  function EpochDay(d: Date): int
    requires 1 <= d.month <= 12
  {
    var total := 365 * d.year + LeapsBefore(d.year) + (367 * d.month - 362) / 12 + d.day - 1;
    var correction := if d.month <= 2 then 0 else if IsLeap(d.year) then 1 else 2;
    total - correction - DaysBefore1970
  }

  /** `isLeapYear`: `LocalDate.of(year, 1, 1)` rejects a year outside the
      `LocalDate` range with a `DateTimeException`; otherwise the ISO rule.
      A year is leap exactly when it has 366 days (`YearLength`). */
  function IsLeapYear(year: int32): (r: Result<bool>)
    ensures r.Ok? <==> MinYear <= year <= MaxYear
    ensures r.Err? ==> r.error == DateTime
    ensures r.Ok? ==> (r.value <==> YearStart(year + 1) - YearStart(year) == 366)
  {
    if year < MinYear || MaxYear < year then Err(DateTime)
    else
      YearLength(year);
      Ok(IsLeap(year))
  }

  /** `getDaysInMonth`: `YearMonth.of` rejects a year outside the range or a
      month outside 1..12 with a `DateTimeException`; otherwise the length
      of the month, which is 28 to 31 and 29 in February exactly in a leap
      year. */
  function GetDaysInMonth(year: int32, month: int32): (r: Result<int>)
    ensures r.Ok? <==> MinYear <= year <= MaxYear && 1 <= month <= 12
    ensures r.Err? ==> r.error == DateTime
    ensures r.Ok? ==> 28 <= r.value <= 31
    ensures r.Ok? && month == 2 ==> (r.value == 29 <==> IsLeap(year))
    ensures r.Ok? && month != 2 ==> r.value >= 30
  {
    if year < MinYear || MaxYear < year || month < 1 || 12 < month then Err(DateTime)
    else Ok(LengthOfMonth(year, month))
  }

  /** Calendar order of dates. */
  predicate Before(a: Date, b: Date) {
    a.year < b.year ||
    (a.year == b.year && (a.month < b.month || (a.month == b.month && a.day < b.day)))
  }

  /** `daysBetween`: `ChronoUnit.DAYS.between(start, end)`, that is
      `end.toEpochDay() - start.toEpochDay()`; a `null` date throws. The
      result is positive exactly when `start` comes first, zero exactly for
      the same date and negative exactly when `end` comes first. */
  function DaysBetween(start: Option<LocalDate>, end: Option<LocalDate>): (r: Result<int>)
    ensures r.Ok? <==> start.Some? && end.Some?
    ensures r.Err? ==> r.error == NullPointer
    ensures r.Ok? ==> (r.value > 0 <==> Before(start.value, end.value))
    ensures r.Ok? ==> (r.value == 0 <==> start.value == end.value)
    ensures r.Ok? ==> (r.value < 0 <==> Before(end.value, start.value))
  {
    if start.None? || end.None? then Err(NullPointer)
    else
      EpochDayOrder(start.value, end.value);
      EpochDayOrder(end.value, start.value);
      Ok(EpochDay(end.value) - EpochDay(start.value))
  }

  /** A date is zero days from itself, the difference changes sign when the
      dates swap, and differences add up along a chain of dates. */
  lemma DaysBetweenAdds(a: LocalDate, b: LocalDate, c: LocalDate)
    ensures DaysBetween(Some(a), Some(a)) == Ok(0)
    ensures DaysBetween(Some(a), Some(b)).value == -DaysBetween(Some(b), Some(a)).value
    ensures DaysBetween(Some(a), Some(b)).value + DaysBetween(Some(b), Some(c)).value
         == DaysBetween(Some(a), Some(c)).value
  {
  }

  /** `getDayOfWeek`: `DayOfWeek.getValue` of the date, computed by
      `LocalDate` as `floorMod(toEpochDay() + 3, 7) + 1` (1 is Monday, 7 is
      Sunday); a `null` date throws. */
  function DayOfWeek(date: Option<LocalDate>): (r: Result<int>)
    ensures r.Ok? <==> date.Some?
    ensures r.Err? ==> r.error == NullPointer
    ensures r.Ok? ==> 1 <= r.value <= 7
  {
    if date.None? then Err(NullPointer)
    else Ok((EpochDay(date.value) + 3) % 7 + 1)
  }

  /** 1970-01-01, day zero of the count, was a Thursday. */
  lemma EpochIsThursday()
    ensures EpochDay(Date(1970, 1, 1)) == 0
    ensures DayOfWeek(Some(Date(1970, 1, 1))) == Ok(4)
  {
  }

  /** The day after `d` in the calendar. */
  function Tomorrow(d: LocalDate): Date {
    if d.day < LengthOfMonth(d.year, d.month) then Date(d.year, d.month, d.day + 1)
    else if d.month < 12 then Date(d.year, d.month + 1, 1)
    else Date(d.year + 1, 1, 1)
  }

  /** Each day is one epoch day after the one before it. */
  lemma EpochDayTomorrow(d: LocalDate)
    requires d != Date(MaxYear, 12, 31)
    ensures Valid(Tomorrow(d))
    ensures EpochDay(Tomorrow(d)) == EpochDay(d) + 1
  {
    var t := Tomorrow(d);
    DayInMonth(d);
    DayInMonth(t);
    if d.day == LengthOfMonth(d.year, d.month) {
      if d.month < 12 {
        MonthStep(d.year, d.month);
      } else {
        YearStep(d.year);
      }
    }
  }

  /** The weekday of the next day is the next weekday, Sunday wrapping
      round to Monday. */
  lemma DayOfWeekTomorrow(d: LocalDate)
    requires d != Date(MaxYear, 12, 31)
    ensures Valid(Tomorrow(d))
    ensures DayOfWeek(Some(Tomorrow(d))).value == DayOfWeek(Some(d)).value % 7 + 1
  {
    EpochDayTomorrow(d);
    NextWeekday(EpochDay(d) + 3);
  }

  /** Counting on by one day moves the weekday index on by one, modulo 7. */
  lemma NextWeekday(e: int)
    ensures (e + 1) % 7 == if e % 7 == 6 then 0 else e % 7 + 1
  {
    if e % 7 == 6 {
      assert e + 1 == 7 * (e / 7 + 1);
    } else {
      assert e + 1 == 7 * (e / 7) + (e % 7 + 1);
    }
  }

  /** The first day of month `m` of year `y`, and of year `y`. */
  function MonthStart(y: int, m: int): int
    requires 1 <= m <= 12
  {
    EpochDay(Date(y, m, 1))
  }

  function YearStart(y: int): int {
    MonthStart(y, 1)
  }

  /** `(b + 1) / d` exceeds `b / d` exactly when `d` divides `b + 1`. */
  lemma DivStep(b: int, d: int)
    requires b >= 0 && (d == 4 || d == 100 || d == 400)
    ensures (b + 1) / d - b / d == if (b + 1) % d == 0 then 1 else 0
  {
    var q, r := b / d, b % d;
    assert b == d * q + r && 0 <= r < d;
    if r == d - 1 {
      assert b + 1 == d * (q + 1);
    } else {
      assert b + 1 == d * q + (r + 1);
    }
  }

  /** Divisibility by 400 implies it by 100, which implies it by 4, and
      the sign of a year does not change what divides it. */
  lemma Divides400(y: int)
    ensures y % 400 == 0 ==> y % 100 == 0
  {
  }

  lemma Divides100(y: int)
    ensures y % 100 == 0 ==> y % 4 == 0
  {
  }

  lemma NegatedBy4(y: int)
    ensures (-y) % 4 == 0 <==> y % 4 == 0
  {
  }

  lemma NegatedBy100(y: int)
    ensures (-y) % 100 == 0 <==> y % 100 == 0
  {
  }

  lemma NegatedBy400(y: int)
    ensures (-y) % 400 == 0 <==> y % 400 == 0
  {
  }

  /** The three leap-year terms of `LeapsBefore` step together. */
  lemma LeapTerms(a: int, b: int, c: int, y: int)
    requires a == (if y % 4 == 0 then 1 else 0)
    requires b == (if y % 100 == 0 then 1 else 0)
    requires c == (if y % 400 == 0 then 1 else 0)
    ensures a - b + c == if IsLeap(y) then 1 else 0
  {
    Divides400(y);
    Divides100(y);
  }

  /** `LeapsBefore` goes up by one across a leap year and stays put across
      any other year. */
  lemma LeapsStep(y: int)
    ensures LeapsBefore(y + 1) - LeapsBefore(y) == if IsLeap(y) then 1 else 0
  {
    if y >= 0 {
      LeapsStepAbove(y);
    } else if y < -1 {
      LeapsStepBelow(y);
    }
  }

  lemma LeapsStepAbove(y: int)
    requires y >= 0
    ensures LeapsBefore(y + 1) - LeapsBefore(y) == if IsLeap(y) then 1 else 0
  {
    DivStep(y + 3, 4);
    DivStep(y + 99, 100);
    DivStep(y + 399, 400);
    assert (y + 4) % 4 == y % 4 && (y + 100) % 100 == y % 100 && (y + 400) % 400 == y % 400;
    LeapTerms((y + 4) / 4 - (y + 3) / 4, (y + 100) / 100 - (y + 99) / 100,
      (y + 400) / 400 - (y + 399) / 400, y);
  }

  lemma LeapsStepBelow(y: int)
    requires y < -1
    ensures LeapsBefore(y + 1) - LeapsBefore(y) == if IsLeap(y) then 1 else 0
  {
    DivStep(-y - 1, 4);
    DivStep(-y - 1, 100);
    DivStep(-y - 1, 400);
    NegatedBy4(y);
    NegatedBy100(y);
    NegatedBy400(y);
    LeapTerms((-y) / 4 - (-y - 1) / 4, (-y) / 100 - (-y - 1) / 100,
      (-y) / 400 - (-y - 1) / 400, y);
  }

  /** Java's month offsets `(367 * m - 362) / 12`, less the February
      correction, advance by the length of each month. */
  lemma MonthStep(y: int, m: int)
    requires 1 <= m < 12
    ensures MonthStart(y, m + 1) - MonthStart(y, m) == LengthOfMonth(y, m)
  {
  }

  /** December is 31 days long in the epoch-day count. */
  lemma YearStep(y: int)
    ensures YearStart(y + 1) - MonthStart(y, 12) == 31
  {
    LeapsStep(y);
  }

  /** A leap year has 366 days, any other year 365. */
  lemma YearLength(y: int)
    ensures YearStart(y + 1) - YearStart(y) == if IsLeap(y) then 366 else 365
  {
    LeapsStep(y);
  }

  /** The month lengths of a year add up to the length of the year. */
  lemma MonthsFillYear(y: int)
    ensures LengthOfMonth(y, 1) + LengthOfMonth(y, 2) + LengthOfMonth(y, 3) + LengthOfMonth(y, 4)
      + LengthOfMonth(y, 5) + LengthOfMonth(y, 6) + LengthOfMonth(y, 7) + LengthOfMonth(y, 8)
      + LengthOfMonth(y, 9) + LengthOfMonth(y, 10) + LengthOfMonth(y, 11) + LengthOfMonth(y, 12)
      == YearStart(y + 1) - YearStart(y)
  {
    YearLength(y);
  }

  /** Every month starts after the earlier months of its year have ended. */
  lemma {:induction false} MonthStartsIncrease(y: int, m1: int, m2: int)
    requires 1 <= m1 < m2 <= 12
    ensures MonthStart(y, m1) + LengthOfMonth(y, m1) <= MonthStart(y, m2)
    decreases m2 - m1
  {
    MonthStep(y, m1);
    if m1 + 1 < m2 {
      MonthStartsIncrease(y, m1 + 1, m2);
    }
  }

  /** Every date of year `y` falls before the start of year `y + 1`. */
  lemma WithinYear(d: LocalDate)
    ensures YearStart(d.year) <= EpochDay(d) < YearStart(d.year + 1)
  {
    YearStep(d.year);
    if d.month > 1 {
      MonthStartsIncrease(d.year, 1, d.month);
    }
    if d.month < 12 {
      MonthStartsIncrease(d.year, d.month, 12);
    }
  }

  /** Later years start later. */
  lemma {:induction false} YearStartsIncrease(y1: int, y2: int)
    requires y1 <= y2
    ensures YearStart(y1) <= YearStart(y2)
    decreases y2 - y1
  {
    if y1 < y2 {
      YearLength(y1);
      YearStartsIncrease(y1 + 1, y2);
    }
  }

  /** The epoch-day count follows the calendar order. */
  lemma EpochDayOrder(a: LocalDate, b: LocalDate)
    ensures Before(a, b) <==> EpochDay(a) < EpochDay(b)
  {
    if Before(a, b) {
      EarlierDate(a, b);
    } else if a != b {
      assert Before(b, a);
      EarlierDate(b, a);
    }
  }

  lemma EarlierDate(a: LocalDate, b: LocalDate)
    requires Before(a, b)
    ensures EpochDay(a) < EpochDay(b)
  {
    if a.year < b.year {
      EarlierYear(a, b);
    } else if a.month < b.month {
      EarlierMonth(a, b);
    } else {
      DayInMonth(a);
      DayInMonth(b);
    }
  }

  lemma EarlierYear(a: LocalDate, b: LocalDate)
    requires a.year < b.year
    ensures EpochDay(a) < EpochDay(b)
  {
    WithinYear(a);
    WithinYear(b);
    YearStartsIncrease(a.year + 1, b.year);
  }

  lemma EarlierMonth(a: LocalDate, b: LocalDate)
    requires a.year == b.year && a.month < b.month
    ensures EpochDay(a) < EpochDay(b)
  {
    DayInMonth(a);
    DayInMonth(b);
    MonthStartsIncrease(a.year, a.month, b.month);
  }

  /** Days of a month are counted on from its first day. */
  lemma DayInMonth(d: Date)
    requires 1 <= d.month <= 12
    ensures EpochDay(d) == MonthStart(d.year, d.month) + d.day - 1
  {
  }
}
