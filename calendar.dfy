/**
 * Proleptic Gregorian calendar arithmetic, as the JS `Date` object does it for
 * local dates: leap years, month lengths, day numbers counted from
 * 1 January 1970 and the day of the week (0 = Sunday, as `getDay` returns).
 * Months are numbered 0..11 as in `Date`.
 */
module Calendar {

  predicate IsLeapYear(y: int)
  {
    y % 4 == 0 && (y % 100 != 0 || y % 400 == 0)
  }

  /** The number of days of month `m` (0 = January) of year `y`. */
  function DaysInMonth(y: int, m: nat): (n: nat)
    requires m < 12
    ensures 28 <= n <= 31
    ensures n == 29 <==> m == 1 && IsLeapYear(y)
    ensures n == 28 <==> m == 1 && !IsLeapYear(y)
  {
    if m == 1 then (if IsLeapYear(y) then 29 else 28)
    else if m == 3 || m == 5 || m == 8 || m == 10 then 30
    else 31
  }

  /** The number of days of year `y` before the first of month `m` (12: the whole year). */
  function DaysBeforeMonth(y: int, m: nat): nat
    requires m <= 12
  {
    [0, 31, 59, 90, 120, 151, 181, 212, 243, 273, 304, 334, 365][m]
      + if m >= 2 && IsLeapYear(y) then 1 else 0
  }

  /** The cumulative table agrees with the month lengths. */
  lemma DaysBeforeMonthStep(y: int, m: nat)
    requires m < 12
    ensures DaysBeforeMonth(y, m + 1) == DaysBeforeMonth(y, m) + DaysInMonth(y, m)
  {
  }

  /** A count of leap years whose step from `y` to `y + 1` is 1 exactly when `y` is leap. */
  function LeapYearsBefore(y: int): int
  {
    (y - 1) / 4 - (y - 1) / 100 + (y - 1) / 400
  }

  /** Days from 1 January 1970 to 1 January of year `y` (negative before 1970). */
  function DaysBeforeYear(y: int): int
  {
    365 * (y - 1970) + LeapYearsBefore(y) - LeapYearsBefore(1970)
  }

  /** Days from 1 January 1970 to day `d` of month `m` of year `y`. */
  function DayNumber(y: int, m: nat, d: int): int
    requires m < 12
  {
    DaysBeforeYear(y) + DaysBeforeMonth(y, m) + d - 1
  }

  /** The day of the week, 0 = Sunday; 1 January 1970 was a Thursday (4). */
  function Weekday(y: int, m: nat, d: int): (w: nat)
    requires m < 12
    ensures w < 7
  {
    (DayNumber(y, m, d) + 4) % 7
  }

  /** The month after (`y`, `m`), wrapping December into January of the next year. */
  function NextMonth(y: int, m: nat): (r: (int, nat))
    requires m < 12
    ensures r.1 < 12
  {
    if m == 11 then (y + 1, 0) else (y, m + 1)
  }

  /** Floor division by 4, 100 and 400 steps up exactly at the multiples. */
  lemma FloorDivSteps(y: int)
    ensures y / 4 - (y - 1) / 4 == if y % 4 == 0 then 1 else 0
    ensures y / 100 - (y - 1) / 100 == if y % 100 == 0 then 1 else 0
    ensures y / 400 - (y - 1) / 400 == if y % 400 == 0 then 1 else 0
  {
  }

  lemma LeapStep(y: int)
    ensures LeapYearsBefore(y + 1) - LeapYearsBefore(y) == if IsLeapYear(y) then 1 else 0
  {
    FloorDivSteps(y);
    if y % 400 == 0 {
      CenturyOf400(y);
    }
    if y % 100 == 0 {
      FourOfCentury(y);
    }
  }

  /** A multiple of 400 is a multiple of 100. */
  lemma CenturyOf400(y: int)
    requires y % 400 == 0
    ensures y % 100 == 0
  {
    var q := y / 400;
    assert y == 100 * (4 * q);
  }

  /** A multiple of 100 is a multiple of 4. */
  lemma FourOfCentury(y: int)
    requires y % 100 == 0
    ensures y % 4 == 0
  {
    var q := y / 100;
    assert y == 4 * (25 * q);
  }

  /** A year has 366 days when it is leap and 365 otherwise. */
  lemma YearLength(y: int)
    ensures DaysBeforeYear(y + 1) - DaysBeforeYear(y) == DaysBeforeMonth(y, 12)
    ensures DaysBeforeMonth(y, 12) == if IsLeapYear(y) then 366 else 365
  {
    LeapStep(y);
  }

  /**
   * The first of the next month comes exactly `DaysInMonth(y, m)` days after
   * the first of this one, across a year boundary too.
   */
  lemma NextMonthFirstDay(y: int, m: nat)
    requires m < 12
    ensures DayNumber(NextMonth(y, m).0, NextMonth(y, m).1, 1) == DayNumber(y, m, 1) + DaysInMonth(y, m)
  {
    DaysBeforeMonthStep(y, m);
    if m == 11 {
      YearLength(y);
    }
  }

  /** Hence the next month starts on the weekday after this month's last day. */
  lemma NextMonthWeekday(y: int, m: nat)
    requires m < 12
    ensures Weekday(NextMonth(y, m).0, NextMonth(y, m).1, 1) == (Weekday(y, m, 1) + DaysInMonth(y, m)) % 7
  {
    NextMonthFirstDay(y, m);
    ModSevenShift(DayNumber(y, m, 1) + 4, DaysInMonth(y, m));
  }

  lemma ModSevenShift(x: int, n: int)
    ensures (x + n) % 7 == (x % 7 + n) % 7
  {
  }

  /**
   * The year `new Date(year, month, day)` means: a year 0..99 is read as
   * 1900..1999.
   */
  function DateConstructorYear(year: int): (y: int)
    ensures 0 <= year <= 99 ==> y == 1900 + year
    ensures !(0 <= year <= 99) ==> y == year
  {
    if 0 <= year <= 99 then 1900 + year else year
  }
}

/**
 * What the application reads from a parsed `Date`: the instant in
 * milliseconds and its local calendar and clock fields. Parsing itself
 * (`new Date(text)`) is a parameter of the model, as is the time zone.
 */
module JsDate {
  import opened Wrappers
  import opened Calendar

  /** The getters of a valid `Date`: `getTime`, `getFullYear`, `getMonth`, ... `getDay`. */
  datatype LocalDateTime = LocalDateTime(
    time: int, year: int, month: nat, day: nat,
    hours: nat, minutes: nat, seconds: nat, weekday: nat)
  {
    /** The fields name a real local date and time; the weekday is the calendar's. */
    predicate WellFormed()
    {
      && month < 12 && 1 <= day <= DaysInMonth(year, month)
      && hours < 24 && minutes < 60 && seconds < 60
      && weekday == Weekday(year, month, day)
    }
  }

  type DateTime = d: LocalDateTime | d.WellFormed()
    witness LocalDateTime(0, 1970, 0, 1, 0, 0, 0, 4)

  /** `new Date(text)`: `None` is the invalid date, whose `getTime()` is NaN. */
  type DateParser = string -> Option<DateTime>

  /**
   * `toDateString()`. Its text ("Fri Jan 05 2024", "Invalid Date") is a one-to-one
   * function of the local calendar day, so the day itself stands for it.
   */
  datatype DayText = InvalidDate | DayOf(year: int, month: nat, day: nat)

  function ToDateString(d: Option<DateTime>): (r: DayText)
    ensures d.None? <==> r == InvalidDate
    ensures d.Some? ==> r == DayOf(d.value.year, d.value.month, d.value.day)
  {
    match d
    case None => InvalidDate
    case Some(t) => DayOf(t.year, t.month, t.day)
  }
}
