/**
 The month view of the family calendar: the grid of day cells, the day
 window each cell lists events for, selection and today highlighting, and
 event colours. Month navigation is `Dates.NextMonth` / `Dates.PreviousMonth`.
 */
module Calendar {
  import opened Common
  import opened Dates
  import opened Events

  /** One cell of the month grid; a leading blank has no date. */
  datatype DayCell = DayCell(date: Option<DateTime>, isCurrentMonth: bool, events: seq<CalendarEvent>)

  const Blank: DayCell := DayCell(None, false, [])

  /** `new Date(y, m, d)`: local midnight. */
  function StartOfDay(d: DateTime): DateTime
  {
    Midnight(d.year, d.month, d.day)
  }

  /** `new Date(y, m, d, 23, 59, 59)`: the last whole second of the day. */
  function EndOfDay(d: DateTime): DateTime
  {
    DateTime(d.year, d.month, d.day, 23, 59, 59, 0)
  }

  /** getEventsForDate: the events overlapping 00:00:00.000 .. 23:59:59.000 of that day. */
  function GetEventsForDate(events: seq<CalendarEvent>, date: DateTime): (r: seq<CalendarEvent>)
    ensures forall i :: 0 <= i < |r| ==> r[i] in events && Overlaps(r[i], At(StartOfDay(date)), At(EndOfDay(date)))
    ensures forall i :: 0 <= i < |events| && Overlaps(events[i], At(StartOfDay(date)), At(EndOfDay(date))) ==> events[i] in r
  {
    GetEventsByDateRange(events, At(StartOfDay(date)), At(EndOfDay(date)))
  }

  /** An event that starts and ends on a day, before its last sub-second, is listed on that day. */
  lemma EventWithinDayIsListed(events: seq<CalendarEvent>, e: CalendarEvent, date: DateTime)
    requires e in events && Valid(date)
    requires e.startDate.At? && Valid(e.startDate.t) && SameDay(e.startDate.t, date)
    requires e.endDate.At? && Valid(e.endDate.t) && SameDay(e.endDate.t, date)
    requires !(e.startDate.t.hour == 23 && e.startDate.t.minute == 59 && e.startDate.t.second == 59 && e.startDate.t.ms > 0)
    ensures e in GetEventsForDate(events, date)
  {
    var i :| 0 <= i < |events| && events[i] == e;
    var s := e.startDate.t;
    assert Ticks(s) <= Ticks(EndOfDay(date)) by {
      assert (s.hour * 60 + s.minute) * 60000 + s.second * 1000 + s.ms <= (23 * 60 + 59) * 60000 + 59 * 1000;
    }
  }

  /**
   The day window ends at 23:59:59.000, so an event that lies wholly in the
   last second after it is listed neither on its own day nor on the next.
   */
  lemma LastSubSecondIsOnNoDay()
    ensures var t := DateTime(2024, 0, 15, 23, 59, 59, 500);
      var e := CalendarEvent("e", "late", None, At(t), At(t), Work, false, None, None, None, None, None);
      && GetEventsForDate([e], Midnight(2024, 0, 15)) == []
      && GetEventsForDate([e], Midnight(2024, 0, 16)) == []
  {
    var t := DateTime(2024, 0, 15, 23, 59, 59, 500);
    DayNumberStep(2024, 0, 15);
    DayNumberStep(2024, 0, 16);
    assert Ticks(t) > Ticks(EndOfDay(Midnight(2024, 0, 15)));
    assert Ticks(t) < Ticks(Midnight(2024, 0, 16));
  }

  /** Cells for days `from` .. `last` of month `m` of year `y`, each with its events. */
  function MonthCells(events: seq<CalendarEvent>, y: int, m: int, from: int, last: int): (cells: seq<DayCell>)
    requires from >= 1
    ensures |cells| == if last < from then 0 else last - from + 1
    ensures forall i :: 0 <= i < |cells| ==>
      cells[i] == DayCell(Some(Midnight(y, m, from + i)), true, GetEventsForDate(events, Midnight(y, m, from + i)))
    decreases last - from
  {
    if last < from then []
    else
      var date := Midnight(y, m, from);
      [DayCell(Some(date), true, GetEventsForDate(events, date))] + MonthCells(events, y, m, from + 1, last)
  }

  function Blanks(n: nat): (cells: seq<DayCell>)
    ensures |cells| == n && forall i :: 0 <= i < n ==> cells[i] == Blank
  {
    seq(n, _ => Blank)
  }

  /**
   calendarDays: one blank per weekday before the first of the month, then
   days 1 .. N of the month the current date is in.
   */
  function CalendarDays(events: seq<CalendarEvent>, current: DateTime): (days: seq<DayCell>)
    requires 0 <= current.month < 12
    ensures var start := Weekday(current.year, current.month, 1);
      && |days| == start + DaysInMonth(current.year, current.month)
      && (forall i :: 0 <= i < start ==> days[i] == Blank)
      && (forall i :: start <= i < |days| ==>
            var date := Midnight(current.year, current.month, i - start + 1);
            days[i] == DayCell(Some(date), true, GetEventsForDate(events, date)))
  {
    Grid(events, current.year, current.month, Weekday(current.year, current.month, 1),
         DaysInMonth(current.year, current.month))
  }

  /** `start` blanks, then the cells of days 1 .. n of month `m` of year `y`. */
  function Grid(events: seq<CalendarEvent>, y: int, m: int, start: nat, n: nat): (days: seq<DayCell>)
    ensures |days| == start + n
    ensures forall i :: 0 <= i < start ==> days[i] == Blank
    ensures forall i :: start <= i < |days| ==>
      var date := Midnight(y, m, i - start + 1);
      days[i] == DayCell(Some(date), true, GetEventsForDate(events, date))
  {
    Pad(start, MonthCells(events, y, m, 1, n))
  }

  /** `start` blanks in front of `cells`. */
  function Pad(start: nat, cells: seq<DayCell>): (days: seq<DayCell>)
    ensures |days| == start + |cells|
    ensures forall i :: 0 <= i < start ==> days[i] == Blank
    ensures forall i :: start <= i < |days| ==> days[i] == cells[i - start]
  {
    Blanks(start) + cells
  }

  /** Every dated cell sits in the column of its weekday (a 7-column grid, Sunday first). */
  lemma CellsLineUpWithWeekdays(events: seq<CalendarEvent>, current: DateTime, i: nat)
    requires 0 <= current.month < 12
    requires Weekday(current.year, current.month, 1) <= i
             < Weekday(current.year, current.month, 1) + DaysInMonth(current.year, current.month)
    ensures var d := CalendarDays(events, current)[i].date;
      d.Some? && Valid(d.value) && i % 7 == Weekday(d.value.year, d.value.month, d.value.day)
  {
    var y, m := current.year, current.month;
    var start := Weekday(y, m, 1);
    var day := i - start + 1;
    assert CalendarDays(events, current)[i].date == Some(Midnight(y, m, day));
    assert 1 <= day <= DaysInMonth(y, m);
    WeekdayOfDay(y, m, day);
    assert start + day - 1 == i;
  }

  /** isSelected: both dates present and on the same calendar day. */
  function IsSelected(date: Option<DateTime>, selected: Option<DateTime>): (r: bool)
    ensures date.None? || selected.None? ==> !r
    ensures date.Some? && selected.Some? ==> (r <==> SameDay(date.value, selected.value))
  {
    match (date, selected)
    case (Some(d), Some(s)) => d.day == s.day && d.month == s.month && d.year == s.year
    case _ => false
  }

  /** isToday, with the current time as a parameter. */
  function IsToday(date: Option<DateTime>, today: DateTime): (r: bool)
    ensures date.None? ==> !r
    ensures date.Some? ==> (r <==> SameDay(date.value, today))
  {
    match date
    case Some(d) => d.day == today.day && d.month == today.month && d.year == today.year
    case None => false
  }

  /**
   When the selected date lies in the month shown, exactly one cell is
   highlighted as selected: the one for its day.
   */
  lemma OneSelectedCell(events: seq<CalendarEvent>, current: DateTime, selected: DateTime, i: nat)
    requires 0 <= current.month < 12 && Valid(selected)
    requires selected.year == current.year && selected.month == current.month
    requires i < Weekday(current.year, current.month, 1) + DaysInMonth(current.year, current.month)
    ensures IsSelected(CalendarDays(events, current)[i].date, Some(selected))
            <==> i == Weekday(current.year, current.month, 1) + selected.day - 1
  {
  }

  /** No cell is selected or marked today when the date is outside the month shown. */
  lemma OtherMonthNeverHighlighted(events: seq<CalendarEvent>, current: DateTime, other: DateTime, i: nat)
    requires 0 <= current.month < 12
    requires other.year != current.year || other.month != current.month
    requires i < Weekday(current.year, current.month, 1) + DaysInMonth(current.year, current.month)
    ensures !IsSelected(CalendarDays(events, current)[i].date, Some(other))
    ensures !IsToday(CalendarDays(events, current)[i].date, other)
  {
  }

  /** getEventColor: the event's own non-empty colour, else its category's; `None` for an unknown category. */
  function GetEventColor(e: CalendarEvent): (c: Option<string>)
    ensures e.color.Some? && e.color.value != "" ==> c == e.color
    ensures e.color.None? || e.color.value == "" ==> c == CategoryColor(e.category)
  {
    if e.color.Some? && e.color.value != "" then e.color else CategoryColor(e.category)
  }

  /** Every event of one of the eight categories is drawn in some colour. */
  lemma KnownCategoryHasColor(e: CalendarEvent)
    requires e.category in [Work, Kids, Personal, Family, Sports, School, Appointment, Other]
    ensures GetEventColor(e).Some?
  {
  }
}
