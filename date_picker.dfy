/**
 * The date picker: the displayed month and its navigation, the selected
 * day, the month grid with leading blanks, the year and month lists, and the
 * clear button. "Today" comes from the clock and is a parameter.
 */
module DatePicker {
  import opened Wrappers
  import opened Decimal
  import opened Calendar

  /** Which panel of the drop-down is shown. */
  datatype Panel = CalendarPanel | YearPanel | MonthPanel

  /** What the picker asks of the page. */
  datatype Callback = OnClear

  /** Months counted from year 0, so that one step of navigation is one unit. */
  function MonthIndex(year: int, month: nat): int
  {
    year * 12 + month
  }

  /** The displayed month after `navigateMonth(direction)`: "prev" goes back, anything else forward. */
  function Navigate(year: int, month: nat, direction: string): (r: (int, nat))
    requires month < 12
    ensures r.1 < 12
    ensures MonthIndex(r.0, r.1) == MonthIndex(year, month) + (if direction == "prev" then -1 else 1)
  {
    if direction == "prev" then
      if month == 0 then (year - 1, 11) else (year, month - 1)
    else
      if month == 11 then (year + 1, 0) else (year, month + 1)
  }

  /** A month is determined by its index. */
  lemma MonthIndexInjective(y1: int, m1: nat, y2: int, m2: nat)
    requires m1 < 12 && m2 < 12
    requires MonthIndex(y1, m1) == MonthIndex(y2, m2)
    ensures y1 == y2 && m1 == m2
  {
  }

  /** "prev" undoes "next" and "next" undoes "prev"; "next" is the calendar's next month. */
  lemma NavigateInverse(year: int, month: nat)
    requires month < 12
    ensures var n := Navigate(year, month, "next"); Navigate(n.0, n.1, "prev") == (year, month)
    ensures var p := Navigate(year, month, "prev"); Navigate(p.0, p.1, "next") == (year, month)
    ensures Navigate(year, month, "next") == NextMonth(year, month)
  {
    var n := Navigate(year, month, "next");
    var back := Navigate(n.0, n.1, "prev");
    MonthIndexInjective(back.0, back.1, year, month);
    var p := Navigate(year, month, "prev");
    var fwd := Navigate(p.0, p.1, "next");
    MonthIndexInjective(fwd.0, fwd.1, year, month);
  }

  /** The first day of the grid's month is `new Date(year, month, 1)`, whose year reads 0..99 as 19xx. */
  function StartingDay(year: int, month: nat): (w: nat)
    requires month < 12
    ensures w < 7
  {
    Weekday(DateConstructorYear(year), month, 1)
  }

  /** `new Date(year, month + 1, 0).getDate()`: the last day of the month. */
  function MonthLength(year: int, month: nat): (n: nat)
    requires month < 12
    ensures 28 <= n <= 31
  {
    DaysInMonth(DateConstructorYear(year), month)
  }

  /** The grid of `generateCalendar`: `StartingDay` blanks, then the days 1..n. */
  function MonthGrid(year: int, month: nat): (g: seq<Option<nat>>)
    requires month < 12
    ensures |g| == StartingDay(year, month) + MonthLength(year, month)
  {
    var start, n := StartingDay(year, month), MonthLength(year, month);
    seq(start + n, i requires 0 <= i < start + n => if i < start then None else Some(i - start + 1))
  }

  /**
   * Every day of the month is in the grid exactly once, in the column (index
   * mod 7) of its day of the week, Sunday first, and the cells before it are blank.
   */
  lemma MonthGridColumns(year: int, month: nat, d: nat)
    requires month < 12 && 1 <= d <= MonthLength(year, month)
    ensures var g := MonthGrid(year, month); var i := StartingDay(year, month) + d - 1;
      && g[i] == Some(d)
      && (forall j :: 0 <= j < |g| && j != i ==> g[j] != Some(d))
      && i % 7 == Weekday(DateConstructorYear(year), month, d)
    ensures forall j :: 0 <= j < StartingDay(year, month) ==> MonthGrid(year, month)[j] == None
  {
    var y := DateConstructorYear(year);
    var base := DayNumber(y, month, 1) + 4;
    assert DayNumber(y, month, d) + 4 == base + (d - 1);
    ModSevenShift(base, d - 1);
  }

  /** `generateYearRange`: the 21 years from ten before to ten after `currentYear`. */
  method GenerateYearRange(currentYear: int) returns (years: seq<int>)
    ensures |years| == 21
    ensures forall i :: 0 <= i < |years| ==> years[i] == currentYear - 10 + i
    ensures years[10] == currentYear
  {
    years := [];
    var year := currentYear - 10;
    while year <= currentYear + 10
      invariant currentYear - 10 <= year <= currentYear + 11
      invariant |years| == year - (currentYear - 10)
      invariant forall i :: 0 <= i < |years| ==> years[i] == currentYear - 10 + i
    {
      years := years + [year];
      year := year + 1;
    }
  }

  /** `generateMonths`. */
  const MonthLabels: seq<string> :=
    ["1月", "2月", "3月", "4月", "5月", "6月", "7月", "8月", "9月", "10月", "11月", "12月"]

  /** Twelve labels, the `i`-th being the month number `i + 1` followed by 月. */
  lemma MonthLabelsSpec()
    ensures |MonthLabels| == 12
    ensures forall i :: 0 <= i < 12 ==> MonthLabels[i] == NatToString(i + 1) + "月"
  {
    assert NatToString(10) == "10" && NatToString(11) == "11" && NatToString(12) == "12";
  }

  class Picker {
    var isOpen: bool
    var panel: Panel
    var selectedYear: int
    var selectedMonth: nat
    var selectedDay: Option<nat>
    var displayYear: int
    var displayMonth: nat

    /** Both months are month numbers 0..11. */
    ghost predicate Valid()
      reads this
    {
      selectedMonth < 12 && displayMonth < 12
    }

    /** The first render: closed, on the calendar panel, showing and selecting today's month. */
    constructor(todayYear: int, todayMonth: nat)
      requires todayMonth < 12
      ensures Valid()
      ensures !isOpen && panel == CalendarPanel && selectedDay == None
      ensures selectedYear == todayYear && selectedMonth == todayMonth
      ensures displayYear == todayYear && displayMonth == todayMonth
    {
      isOpen := false;
      panel := CalendarPanel;
      selectedYear, selectedMonth, selectedDay := todayYear, todayMonth, None;
      displayYear, displayMonth := todayYear, todayMonth;
    }

    /** `navigateMonth(direction)`: only the displayed month moves, by one. */
    method NavigateMonth(direction: string)
      requires Valid()
      modifies this
      ensures Valid()
      ensures (displayYear, displayMonth) == Navigate(old(displayYear), old(displayMonth), direction)
      ensures selectedYear == old(selectedYear) && selectedMonth == old(selectedMonth)
      ensures selectedDay == old(selectedDay) && isOpen == old(isOpen) && panel == old(panel)
    {
      if direction == "prev" {
        if displayMonth == 0 {
          displayMonth := 11;
          displayYear := displayYear - 1;
        } else {
          displayMonth := displayMonth - 1;
        }
      } else {
        if displayMonth == 11 {
          displayMonth := 0;
          displayYear := displayYear + 1;
        } else {
          displayMonth := displayMonth + 1;
        }
      }
    }

    /** `handleClear`: no selected day, both months back to today's, the page told, the panel closed. */
    method HandleClear(todayYear: int, todayMonth: nat) returns (calls: seq<Callback>)
      requires Valid() && todayMonth < 12
      modifies this
      ensures Valid()
      ensures selectedDay == None && calls == [OnClear]
      ensures selectedYear == todayYear && selectedMonth == todayMonth
      ensures displayYear == todayYear && displayMonth == todayMonth
      ensures !isOpen && panel == CalendarPanel
    {
      selectedDay := None;
      selectedYear, selectedMonth := todayYear, todayMonth;
      displayYear, displayMonth := todayYear, todayMonth;
      calls := [OnClear];
      isOpen := false;
      panel := CalendarPanel;
    }

    /** A year of the year panel: it is displayed and the month panel opens. */
    method PickYear(year: int)
      requires Valid()
      modifies this
      ensures Valid()
      ensures displayYear == year && panel == MonthPanel
      ensures displayMonth == old(displayMonth) && selectedDay == old(selectedDay) && isOpen == old(isOpen)
      ensures selectedYear == old(selectedYear) && selectedMonth == old(selectedMonth)
    {
      displayYear := year;
      panel := MonthPanel;
    }

    /** A month of the month panel, by its index in `MonthLabels`: it is displayed and the grid returns. */
    method PickMonth(index: nat)
      requires Valid() && index < |MonthLabels|
      modifies this
      ensures Valid()
      ensures displayMonth == index && panel == CalendarPanel
      ensures displayYear == old(displayYear) && selectedDay == old(selectedDay) && isOpen == old(isOpen)
      ensures selectedYear == old(selectedYear) && selectedMonth == old(selectedMonth)
    {
      displayMonth := index;
      panel := CalendarPanel;
    }

    /** `generateCalendar`: the blanks, then the days, pushed one at a time. */
    method GenerateCalendar() returns (days: seq<Option<nat>>)
      requires Valid()
      ensures days == MonthGrid(displayYear, displayMonth)
    {
      var startingDay := StartingDay(displayYear, displayMonth);
      var daysInMonth := MonthLength(displayYear, displayMonth);
      ghost var grid := MonthGrid(displayYear, displayMonth);
      days := [];
      var i := 0;
      while i < startingDay
        invariant 0 <= i <= startingDay
        invariant days == grid[..i]
      {
        days := days + [None];
        i := i + 1;
      }
      var day := 1;
      while day <= daysInMonth
        invariant 1 <= day <= daysInMonth + 1
        invariant days == grid[..startingDay + day - 1]
      {
        days := days + [Some(day)];
        day := day + 1;
      }
    }
  }
}
