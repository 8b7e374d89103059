/** The booking form's calendar date-picker: the displayed (month, year), the
    rendered grid of day cells, month navigation with year wrap, past-date
    disabling against a given "today", and the date written into the form's
    date field when a day is picked. */
module Calendar {
  import opened Gregorian
  import IsoDate

  /** JavaScript's `new Date(year, month, day)` reads a year 0..99 as 1900..1999;
      every Date the picker builds from its displayed year goes through this. */
  function JsYear(year: int): (r: int)
    ensures 0 <= year <= 99 ==> r == 1900 + year
    ensures !(0 <= year <= 99) ==> r == year
    ensures !(0 <= r <= 99)
  {
    if 0 <= year <= 99 then 1900 + year else year
  }

  /** Weekday of the first of the displayed month: the number of blank cells. */
  function StartingDay(year: int, month: int): (r: int)
    requires 0 <= month < 12
    ensures 0 <= r < 7
  {
    DayOfWeek(JsYear(year), month, 1)
  }

  /** Number of days of the displayed month: the number of day cells. */
  function MonthLength(year: int, month: int): (r: int)
    requires 0 <= month < 12
    ensures 28 <= r <= 31
  {
    DaysInMonth(JsYear(year), month)
  }

  /** Day `day` of the displayed month is before today's midnight: the two
      timestamps compare as their day numbers do. For a day of the month and a
      real today, that is exactly "strictly before today" in calendar order. */
  predicate IsPast(year: int, month: int, day: int, today: Date)
    requires 0 <= month < 12 && 0 <= today.month < 12
    ensures 1 <= day <= MonthLength(year, month) && IsValidDate(today) ==>
              (IsPast(year, month, day, today) <==> Precedes(Date(JsYear(year), month, day), today))
  {
    var shown := Date(JsYear(year), month, day);
    if IsValidDate(shown) && IsValidDate(today) then
      PrecedesIffEarlier(shown, today);
      DateNumber(shown) < DateNumber(today)
    else
      DateNumber(shown) < DateNumber(today)
  }

  const DayLabels: seq<string> := ["Sun", "Mon", "Tue", "Wed", "Thu", "Fri", "Sat"]

  /** One child of the calendar grid element. */
  datatype Cell =
    | Label(text: string)              // weekday heading
    | Blank                            // leading empty cell
    | Day(number: int, disabled: bool) // day cell; clickable exactly when not disabled

  /** The layout of the grid for the displayed month: the seven weekday labels
      Sun..Sat, then one blank per weekday before the 1st, then the days
      1..monthLength in order, each disabled exactly when it is past. */
  predicate IsGrid(cells: seq<Cell>, year: int, month: int, today: Date)
    requires 0 <= month < 12 && 0 <= today.month < 12
    ensures IsGrid(cells, year, month, today) ==>
              |cells| == 7 + StartingDay(year, month) + MonthLength(year, month)
              && cells[..7] == [Label("Sun"), Label("Mon"), Label("Tue"), Label("Wed"),
                                Label("Thu"), Label("Fri"), Label("Sat")]
  {
    var sd, ml := StartingDay(year, month), MonthLength(year, month);
    |cells| == 7 + sd + ml
    && (forall k :: 0 <= k < 7 ==> cells[k] == Label(DayLabels[k]))
    && (forall k :: 7 <= k < 7 + sd ==> cells[k] == Blank)
    && (forall k :: 7 + sd <= k < |cells| ==>
          cells[k] == Day(k - 6 - sd, IsPast(year, month, k - 6 - sd, today)))
  }

  /** `updateCalendar`'s three loops, appending the cells one by one. */
  method RenderGrid(year: int, month: int, today: Date) returns (cells: seq<Cell>)
    requires 0 <= month < 12 && 0 <= today.month < 12
    ensures IsGrid(cells, year, month, today)
  {
    var startingDay := StartingDay(year, month);
    var monthLength := MonthLength(year, month);
    cells := [];
    for k := 0 to 7
      invariant |cells| == k
      invariant forall j :: 0 <= j < k ==> cells[j] == Label(DayLabels[j])
    {
      cells := cells + [Label(DayLabels[k])];
    }
    for i := 0 to startingDay
      invariant |cells| == 7 + i
      invariant forall j :: 0 <= j < 7 ==> cells[j] == Label(DayLabels[j])
      invariant forall j :: 7 <= j < 7 + i ==> cells[j] == Blank
    {
      cells := cells + [Blank];
    }
    for i := 1 to monthLength + 1
      invariant |cells| == 6 + startingDay + i
      invariant forall j :: 0 <= j < 7 ==> cells[j] == Label(DayLabels[j])
      invariant forall j :: 7 <= j < 7 + startingDay ==> cells[j] == Blank
      invariant forall j :: 7 + startingDay <= j < |cells| ==>
                  cells[j] == Day(j - 6 - startingDay, IsPast(year, month, j - 6 - startingDay, today))
    {
      var disabled := IsPast(year, month, i, today);
      cells := cells + [Day(i, disabled)];
    }
  }

  // ---------------------------------------------------------------------------
  // Navigation

  /** The "previous month" button on (year, month): back one month, December of
      the year before after January. Counting months as `12 * year + month`, it
      is one less. */
  function PrevMonth(year: int, month: int): (r: (int, int))
    requires 0 <= month < 12
    ensures 0 <= r.1 < 12
    ensures 12 * r.0 + r.1 == 12 * year + month - 1
  {
    var m := month - 1;
    if m < 0 then (year - 1, 11) else (year, m)
  }

  /** The "next month" button on (year, month): forward one month, January of
      the year after after December. Counting months as `12 * year + month`, it
      is one more. */
  function NextMonth(year: int, month: int): (r: (int, int))
    requires 0 <= month < 12
    ensures 0 <= r.1 < 12
    ensures 12 * r.0 + r.1 == 12 * year + month + 1
  {
    var m := month + 1;
    if m > 11 then (year + 1, 0) else (year, m)
  }

  /** The two boundary cases of the year wrap. */
  lemma YearWrap(year: int)
    ensures PrevMonth(year, 0) == (year - 1, 11)
    ensures NextMonth(year, 11) == (year + 1, 0)
  {
  }

  /** "Next" after "previous", and "previous" after "next", come back to the
      month they started from. */
  lemma NavigationRoundTrip(year: int, month: int)
    requires 0 <= month < 12
    ensures var p := PrevMonth(year, month); NextMonth(p.0, p.1) == (year, month)
    ensures var n := NextMonth(year, month); PrevMonth(n.0, n.1) == (year, month)
  {
    var p := PrevMonth(year, month);
    var n := NextMonth(year, month);
    MonthCountDetermines(NextMonth(p.0, p.1), (year, month));
    MonthCountDetermines(PrevMonth(n.0, n.1), (year, month));
  }

  /** A month count `12 * year + month` with month in 0..11 has one (year, month). */
  lemma MonthCountDetermines(a: (int, int), b: (int, int))
    requires 0 <= a.1 < 12 && 0 <= b.1 < 12
    requires 12 * a.0 + a.1 == 12 * b.0 + b.1
    ensures a == b
  {
    assert a.0 == (12 * a.0 + a.1) / 12;
    assert b.0 == (12 * b.0 + b.1) / 12;
  }

  /** The month after the displayed one starts on the weekday that follows its
      last day, except across the two year boundaries where JavaScript's year
      reading jumps (from 99, read as 1999, to 100; from -1 to 0, read as 1900). */
  lemma NextMonthStartingDay(year: int, month: int)
    requires 0 <= month < 12
    requires month == 11 ==> year != 99 && year != -1
    ensures var n := NextMonth(year, month);
      StartingDay(n.0, n.1) == (StartingDay(year, month) + MonthLength(year, month)) % 7
  {
    WeekdayOfFollowingMonth(JsYear(year), month);
  }

  // ---------------------------------------------------------------------------
  // Properties of the grid

  /** The grid is fully determined by the displayed month and today. */
  lemma GridIsUnique(a: seq<Cell>, b: seq<Cell>, year: int, month: int, today: Date)
    requires 0 <= month < 12 && 0 <= today.month < 12
    requires IsGrid(a, year, month, today) && IsGrid(b, year, month, today)
    ensures a == b
  {
  }

  /** Day cells are in 1..monthLength, and day `i` sits at index `6 + sd + i`:
      the grid has exactly `7 + sd + monthLength` cells. */
  lemma GridDays(cells: seq<Cell>, year: int, month: int, today: Date)
    requires 0 <= month < 12 && 0 <= today.month < 12
    requires IsGrid(cells, year, month, today)
    ensures forall k :: 0 <= k < |cells| && cells[k].Day? ==>
              1 <= cells[k].number <= MonthLength(year, month)
              && k == 6 + StartingDay(year, month) + cells[k].number
  {
  }

  /** With the seven labels as the first row of a 7-column grid, every day
      cell's column is its day of the week. */
  lemma DayColumnIsWeekday(cells: seq<Cell>, year: int, month: int, today: Date, k: int)
    requires 0 <= month < 12 && 0 <= today.month < 12
    requires IsGrid(cells, year, month, today)
    requires 0 <= k < |cells| && cells[k].Day?
    ensures k % 7 == DayOfWeek(JsYear(year), month, cells[k].number)
  {
    var sd, i := StartingDay(year, month), cells[k].number;
    assert k == 7 + (sd + i - 1);
    WeekdayOfDay(JsYear(year), month, i);
    ShiftMod7(sd + i - 1, 7);
  }

  /** February 2024 has 29 day cells after four blanks (the 1st was a Thursday). */
  lemma February2024(cells: seq<Cell>, today: Date)
    requires 0 <= today.month < 12
    requires IsGrid(cells, 2024, 1, today)
    ensures |cells| == 7 + 4 + 29
    ensures cells[10] == Blank && cells[11].Day? && cells[11].number == 1
    ensures cells[39].Day? && cells[39].number == 29
  {
    KnownWeekdays();
  }

  // ---------------------------------------------------------------------------
  // The widget

  /** The date-picker's state: the displayed month and year (closure variables
      of the source), the grid it rendered, the date field's value and the set
      of cell indexes marked "selected". */
  class DatePicker {
    var currentMonth: int
    var currentYear: int
    var cells: seq<Cell>
    var dateValue: string
    var selected: set<int>

    /** The displayed month is in range and the grid belongs to it. */
    predicate Valid()
      reads this
    {
      0 <= currentMonth < 12
      && forall k :: 0 <= k < |cells| && cells[k].Day? ==>
           1 <= cells[k].number <= MonthLength(currentYear, currentMonth)
    }

    /** Page load: show today's month and render it. */
    constructor (today: Date, dateField: string)
      requires IsValidDate(today)
      ensures Valid()
      ensures currentMonth == today.month && currentYear == today.year
      ensures IsGrid(cells, currentYear, currentMonth, today)
      ensures dateValue == dateField && selected == {}
    {
      currentMonth := today.month;
      currentYear := today.year;
      dateValue := dateField;
      selected := {};
      new;
      UpdateCalendar(today);
    }

    /** `updateCalendar`: replace the grid by a fresh rendering; the old cells
        and their marks are gone. */
    method UpdateCalendar(today: Date)
      requires 0 <= currentMonth < 12 && 0 <= today.month < 12
      modifies this`cells, this`selected
      ensures Valid()
      ensures IsGrid(cells, currentYear, currentMonth, today)
      ensures selected == {}
    {
      cells := RenderGrid(currentYear, currentMonth, today);
      GridDays(cells, currentYear, currentMonth, today);
      selected := {};
    }

    /** The "previous month" button. */
    method PrevMonthClicked(today: Date)
      requires Valid() && 0 <= today.month < 12
      modifies this
      ensures Valid()
      ensures (currentYear, currentMonth) == PrevMonth(old(currentYear), old(currentMonth))
      ensures IsGrid(cells, currentYear, currentMonth, today)
      ensures dateValue == old(dateValue) && selected == {}
    {
      currentMonth := currentMonth - 1;
      if currentMonth < 0 {
        currentMonth := 11;
        currentYear := currentYear - 1;
      }
      UpdateCalendar(today);
    }

    /** The "next month" button. */
    method NextMonthClicked(today: Date)
      requires Valid() && 0 <= today.month < 12
      modifies this
      ensures Valid()
      ensures (currentYear, currentMonth) == NextMonth(old(currentYear), old(currentMonth))
      ensures IsGrid(cells, currentYear, currentMonth, today)
      ensures dateValue == old(dateValue) && selected == {}
    {
      currentMonth := currentMonth + 1;
      if currentMonth > 11 {
        currentMonth := 0;
        currentYear := currentYear + 1;
      }
      UpdateCalendar(today);
    }

    /** `selectDate(day)`: write the chosen day of the displayed month into the
        date field as `year-MM-DD`. The day is always within the month, so the
        Date built from it is not normalised. Every "selected" mark is removed
        and none is added. */
    method SelectDate(day: int)
      requires Valid() && 1 <= day <= MonthLength(currentYear, currentMonth)
      modifies this`dateValue, this`selected
      ensures dateValue == IsoDate.FormatDate(JsYear(currentYear), currentMonth + 1, day)
      ensures selected == {}
    {
      var year := JsYear(currentYear);
      dateValue := IsoDate.FormatDate(year, currentMonth + 1, day);
      selected := {};
    }

    /** A click on grid cell `k`: only day cells that are not disabled carry
        a click handler, and it selects that cell's day. */
    method ClickCell(k: int)
      requires Valid()
      modifies this`dateValue, this`selected
      ensures var clickable := 0 <= k < |cells| && cells[k].Day? && !cells[k].disabled;
        (clickable ==> dateValue == IsoDate.FormatDate(JsYear(currentYear), currentMonth + 1, cells[k].number)
                       && selected == {})
        && (!clickable ==> dateValue == old(dateValue) && selected == old(selected))
    {
      if 0 <= k < |cells| && cells[k].Day? && !cells[k].disabled {
        SelectDate(cells[k].number);
      }
    }
  }
}
