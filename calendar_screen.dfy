/**
 * The month grid of the calendar screen: for the month of a given date, a
 * list of weeks of seven day cells, from the Sunday on or before the 1st to
 * the Saturday that ends the week holding the month's last day. Each cell is
 * labelled with its date as text and its day of month, and lists the events
 * of that day whose calendar is selected.
 */
module CalendarScreen {
  import opened Wrappers
  import opened Gregorian
  import opened IsoDates
  import opened Backend
  import CalendarScreenReducer

  /** An event together with the record of its calendar. */
  datatype EventWithCalendar = EventWithCalendar(event: Event, calendar: Calendar)

  /** `getDate()`, which is NaN on an Invalid Date. */
  datatype DayOfMonth = Day(n: int) | NotANumber

  datatype Cell = Cell(dayOfMonth: DayOfMonth, date: string, events: seq<EventWithCalendar>)

  /** The label every cell of an Invalid Date gets: each of its three fields prints as NaN. */
  const NaNDate := "NaN-NaN-NaN"

  /** `calendars.findIndex(cal => cal.id === id)`: the first match, or -1. */
  function FindCalendar(calendars: seq<Calendar>, id: int): (i: int)
    ensures -1 <= i < |calendars|
    ensures i == -1 <==> forall j :: 0 <= j < |calendars| ==> calendars[j].id != id
    ensures 0 <= i ==> calendars[i].id == id && forall j :: 0 <= j < i ==> calendars[j].id != id
  {
    if |calendars| == 0 then -1
    else if calendars[0].id == id then 0
    else
      var i := FindCalendar(calendars[1..], id);
      if i == -1 then -1 else i + 1
  }

  /** `calendarsSelected[i]` read as a condition: `undefined` (any index out of range, -1 too) is false. */
  predicate IsSelected(calendarsSelected: seq<bool>, i: int)
    ensures IsSelected(calendarsSelected, i) ==> 0 <= i < |calendarsSelected|
  {
    0 <= i < |calendarsSelected| && calendarsSelected[i]
  }

  /**
   * Read as a condition, `toggleCalendar(i)` for any index i >= 0 flips the
   * reading at i, also past the end, where `undefined` becomes `true`, and
   * keeps the reading at every other index, holes included.
   */
  lemma ToggleFlipsSelection(calendarsSelected: seq<bool>, i: int, j: int)
    requires 0 <= i
    ensures IsSelected(CalendarScreenReducer.Toggle(calendarsSelected, i), j)
      <==> (IsSelected(calendarsSelected, j) != (j == i))
  {
    var r := CalendarScreenReducer.Toggle(calendarsSelected, i);
    if i >= |calendarsSelected| && |calendarsSelected| <= j < i {
      assert !r[j];
    }
  }

  /** Whether an event appears in the cell labelled `isoDate`. */
  predicate Shown(e: Event, isoDate: string, calendars: seq<Calendar>, calendarsSelected: seq<bool>) {
    e.date == isoDate && IsSelected(calendarsSelected, FindCalendar(calendars, e.calendarId))
  }

  /** The events a cell lists: the shown ones, in input order, each with its calendar. */
  function EventsOn(isoDate: string, allEvents: seq<Event>, calendars: seq<Calendar>,
                    calendarsSelected: seq<bool>): seq<EventWithCalendar>
  {
    if allEvents == [] then []
    else
      var e := allEvents[|allEvents| - 1];
      EventsOn(isoDate, allEvents[..|allEvents| - 1], calendars, calendarsSelected) +
      (if Shown(e, isoDate, calendars, calendarsSelected)
       then [EventWithCalendar(e, calendars[FindCalendar(calendars, e.calendarId)])]
       else [])
  }

  /** The cell the grid holds for a valid date. */
  function CellFor(d: Date, allEvents: seq<Event>, calendars: seq<Calendar>,
                   calendarsSelected: seq<bool>): Cell
    requires IsValid(d)
  {
    Cell(Day(d.day), FormatIsoDate(d), EventsOn(FormatIsoDate(d), allEvents, calendars, calendarsSelected))
  }

  /** The cell the grid holds on every day of an Invalid Date. */
  function NaNCell(allEvents: seq<Event>, calendars: seq<Calendar>, calendarsSelected: seq<bool>): Cell {
    Cell(NotANumber, NaNDate, EventsOn(NaNDate, allEvents, calendars, calendarsSelected))
  }

  /** The weekday of the 1st: how many days of the previous month open the grid. */
  function Lead(y: int, m: int): (n: int)
    requires 1 <= m <= 12
    ensures 0 <= n < 7
  {
    DayOfWeek(FirstOfMonth(y, m))
  }

  /** The first cell's date: `setDate(1 - dayOfWeek)` on the 1st. */
  function GridStart(y: int, m: int): (d: Date)
    requires 1 <= m <= 12
    ensures IsValid(d)
  {
    SetDate(y, m, 1 - Lead(y, m))
  }

  /** The number of weeks: enough whole weeks for the leading days and the month. */
  function WeekCount(y: int, m: int): int
    requires 1 <= m <= 12
  {
    (Lead(y, m) + DaysInMonth(y, m) + 6) / 7
  }

  /** The inner `for ... of allEvents` loop that fills one cell. */
  method CellEvents(isoDate: string, allEvents: seq<Event>, calendars: seq<Calendar>,
                    calendarsSelected: seq<bool>) returns (events: seq<EventWithCalendar>)
    ensures events == EventsOn(isoDate, allEvents, calendars, calendarsSelected)
  {
    events := [];
    for k := 0 to |allEvents|
      invariant events == EventsOn(isoDate, allEvents[..k], calendars, calendarsSelected)
    {
      var event := allEvents[k];
      if event.date == isoDate {
        var calIndex := FindCalendar(calendars, event.calendarId);
        if IsSelected(calendarsSelected, calIndex) {
          events := events + [EventWithCalendar(event, calendars[calIndex])];
        }
      }
      assert allEvents[..k + 1][..k] == allEvents[..k];
    }
    assert allEvents[..|allEvents|] == allEvents;
  }

  /**
   * `generateCalendar(date, allEvents, calendars, calendarsSelected)`. For a
   * date `new Date` accepts, the weeks from GridStart on, WeekCount of them,
   * with cell i of week w holding the date 7 * w + i days after GridStart. For
   * one it rejects, a single week of NaN cells: the do-while loop runs once
   * because NaN equals nothing, not even the NaN month it is compared with.
   */
  method GenerateCalendar(date: string, allEvents: seq<Event>, calendars: seq<Calendar>,
                          calendarsSelected: seq<bool>) returns (weeks: seq<seq<Cell>>)
    ensures ParseDateOnly(date).None? ==>
      weeks == [seq(7, _ => NaNCell(allEvents, calendars, calendarsSelected))]
    ensures ParseDateOnly(date).Some? ==>
      var y, m := ParseDateOnly(date).value.year, ParseDateOnly(date).value.month;
      && |weeks| == WeekCount(y, m)
      && (forall w :: 0 <= w < |weeks| ==> |weeks[w]| == 7)
      && (forall w, i :: 0 <= w < |weeks| && 0 <= i < 7 ==>
            weeks[w][i] == CellFor(AddDays(GridStart(y, m), 7 * w + i), allEvents, calendars, calendarsSelected))
  {
    var parsed := ParseDateOnly(date);
    if parsed.None? {
      var week: seq<Cell> := [];
      for i := 0 to 7
        invariant week == seq(i, _ => NaNCell(allEvents, calendars, calendarsSelected))
      {
        var events := CellEvents(NaNDate, allEvents, calendars, calendarsSelected);
        week := week + [Cell(NotANumber, NaNDate, events)];
      }
      weeks := [week];
      return;
    }
    weeks := MonthGrid(parsed.value, allEvents, calendars, calendarsSelected);
    assert forall w :: 0 <= w < |weeks| ==> IsGridWeek(weeks[w], GridStart(parsed.value.year, parsed.value.month),
      7 * w, allEvents, calendars, calendarsSelected);
  }

  /** Week `week` of a grid starting at `start` holds the seven days from `offset` on. */
  ghost predicate IsGridWeek(week: seq<Cell>, start: Date, offset: nat, allEvents: seq<Event>,
                             calendars: seq<Calendar>, calendarsSelected: seq<bool>)
    requires IsValid(start)
  {
    |week| == 7 &&
    forall i :: 0 <= i < 7 ==> week[i] == CellFor(AddDays(start, offset + i), allEvents, calendars, calendarsSelected)
  }

  /** The do-while loop of `generateCalendar` on a valid date `d`. */
  method MonthGrid(d: Date, allEvents: seq<Event>, calendars: seq<Calendar>,
                   calendarsSelected: seq<bool>) returns (weeks: seq<seq<Cell>>)
    requires IsValid(d)
    ensures |weeks| == WeekCount(d.year, d.month)
    ensures forall w :: 0 <= w < |weeks| ==>
      IsGridWeek(weeks[w], GridStart(d.year, d.month), 7 * w, allEvents, calendars, calendarsSelected)
  {
    var y, m := d.year, d.month;
    var dayOfWeek := DayOfWeek(FirstOfMonth(y, m));
    var current := SetDate(y, m, 1 - dayOfWeek);
    ghost var start := GridStart(y, m);
    ghost var days := DaysInMonth(y, m);
    weeks := [];
    var more := true;
    while more
      invariant current == AddDays(start, 7 * |weeks|)
      invariant more <==> 7 * |weeks| < dayOfWeek + days
      invariant 7 * |weeks| <= dayOfWeek + days + 6
      invariant |weeks| > 0 || more
      invariant forall w :: 0 <= w < |weeks| ==>
        IsGridWeek(weeks[w], start, 7 * w, allEvents, calendars, calendarsSelected)
      decreases dayOfWeek + days - 7 * |weeks|
    {
      var week;
      week, current := FillWeek(start, 7 * |weeks|, current, allEvents, calendars, calendarsSelected);
      weeks := weeks + [week];
      GridMonthTest(y, m, |weeks|);
      more := current.month == m;
    }
    WeekCountSpan(y, m);
  }

  /**
   * The body of the week loop: seven cells from `current` on, advancing
   * `current` one day per cell.
   */
  method FillWeek(ghost start: Date, ghost offset: nat, current: Date, allEvents: seq<Event>,
                  calendars: seq<Calendar>, calendarsSelected: seq<bool>) returns (week: seq<Cell>, after: Date)
    requires IsValid(start) && current == AddDays(start, offset)
    ensures IsGridWeek(week, start, offset, allEvents, calendars, calendarsSelected)
    ensures after == AddDays(start, offset + 7)
  {
    week := [];
    after := current;
    for i := 0 to 7
      invariant after == AddDays(start, offset + i)
      invariant |week| == i
      invariant forall j :: 0 <= j < i ==>
        week[j] == CellFor(AddDays(start, offset + j), allEvents, calendars, calendarsSelected)
    {
      var isoDate := FormatIsoDate(after);
      var events := CellEvents(isoDate, allEvents, calendars, calendarsSelected);
      week := week + [Cell(Day(after.day), isoDate, events)];
      AddDaysSucc(start, offset + i);
      after := Next(after);
    }
  }

  // ---------------------------------------------------------------------------
  // Lemmas on the grid

  /** Cells from index Lead on are the days of the month, in order. */
  lemma GridCellInMonth(y: int, m: int, n: nat)
    requires 1 <= m <= 12 && Lead(y, m) <= n < Lead(y, m) + DaysInMonth(y, m)
    ensures AddDays(GridStart(y, m), n) == Date(y, m, n - Lead(y, m) + 1)
  {
    var lead := Lead(y, m);
    AddDaysAdd(GridStart(y, m), lead, n - lead);
    SetDateThenForward(y, m, lead);
    AddDaysFromFirst(y, m, n - lead);
  }

  /** The cells after the month are the first days of the next month. */
  lemma GridCellAfterMonth(y: int, m: int, n: nat)
    requires 1 <= m <= 12
    requires Lead(y, m) + DaysInMonth(y, m) <= n < Lead(y, m) + DaysInMonth(y, m) + 28
    ensures var nm := NextMonth(y, m);
      AddDays(GridStart(y, m), n) == Date(nm.0, nm.1, n - Lead(y, m) - DaysInMonth(y, m) + 1)
  {
    var lead := Lead(y, m);
    assert GridStart(y, m) == SetDate(y, m, 1 - lead);
    SetDatePastMonth(y, m, lead, n - lead - DaysInMonth(y, m));
  }

  /**
   * The loop's test after week w: the day after the last cell is still in the
   * month exactly when the weeks so far do not yet reach past the month.
   */
  lemma GridMonthTest(y: int, m: int, w: nat)
    requires 1 <= m <= 12 && w >= 1 && 7 * (w - 1) < Lead(y, m) + DaysInMonth(y, m)
    ensures AddDays(GridStart(y, m), 7 * w).month == m <==> 7 * w < Lead(y, m) + DaysInMonth(y, m)
  {
    if 7 * w < Lead(y, m) + DaysInMonth(y, m) {
      GridCellInMonth(y, m, 7 * w);
    } else {
      GridCellAfterMonth(y, m, 7 * w);
    }
  }

  /** The first cell is a Sunday, on or before the 1st, and the 1st is in the first week. */
  lemma GridStartsOnSunday(y: int, m: int)
    requires 1 <= m <= 12
    ensures DayOfWeek(GridStart(y, m)) == 0
    ensures DayNumber(GridStart(y, m)) <= DayNumber(FirstOfMonth(y, m)) < DayNumber(GridStart(y, m)) + 7
    ensures AddDays(GridStart(y, m), Lead(y, m)) == FirstOfMonth(y, m) && Lead(y, m) < 7
  {
    SetDateThenForward(y, m, Lead(y, m));
    SetDateDayNumber(y, m, 1 - Lead(y, m));
    var f := DayNumber(FirstOfMonth(y, m));
    assert DayNumber(GridStart(y, m)) == f - f % 7;
    DownToWeekStart(f);
  }

  lemma DownToWeekStart(a: int)
    ensures (a - a % 7) % 7 == 0
  {
  }


  /** Consecutive cells hold consecutive days, from the end of one week to the start of the next too. */
  lemma GridCellsConsecutive(y: int, m: int, n: nat)
    requires 1 <= m <= 12
    ensures AddDays(GridStart(y, m), n + 1) == Next(AddDays(GridStart(y, m), n))
    ensures DayNumber(AddDays(GridStart(y, m), n + 1)) == DayNumber(AddDays(GridStart(y, m), n)) + 1
  {
    AddDaysSucc(GridStart(y, m), n);
    NextIsOneDayLater(AddDays(GridStart(y, m), n));
  }

  /** Cell n falls on weekday n mod 7, so column i of every week is weekday i. */
  lemma GridColumnIsWeekday(y: int, m: int, n: nat)
    requires 1 <= m <= 12
    ensures DayOfWeek(AddDays(GridStart(y, m), n)) == n % 7
  {
    GridStartsOnSunday(y, m);
    AddDaysWeekday(GridStart(y, m), n);
  }

  /** Every day of the month has a cell in the grid. */
  lemma GridCoversMonth(y: int, m: int, day: int)
    requires 1 <= m <= 12 && 1 <= day <= DaysInMonth(y, m)
    ensures var n := Lead(y, m) + day - 1;
      n < 7 * WeekCount(y, m) && AddDays(GridStart(y, m), n) == Date(y, m, day)
  {
    GridCellInMonth(y, m, Lead(y, m) + day - 1);
  }

  /** The last cell of the grid is a Saturday. */
  lemma GridEndsOnSaturday(y: int, m: int)
    requires 1 <= m <= 12
    ensures WeekCount(y, m) >= 1
    ensures DayOfWeek(AddDays(GridStart(y, m), 7 * WeekCount(y, m) - 1)) == 6
  {
    var wc := WeekCount(y, m);
    WeekCountSpan(y, m);
    GridColumnIsWeekday(y, m, 7 * wc - 1);
    assert (7 * wc - 1) % 7 == 6;
  }

  /** The last cell is no earlier than the month's last day. */
  lemma GridReachesLastDay(y: int, m: int)
    requires 1 <= m <= 12
    ensures WeekCount(y, m) >= 1
    ensures DayNumber(AddDays(GridStart(y, m), 7 * WeekCount(y, m) - 1)) >= DayNumber(LastOfMonth(y, m))
  {
    var wc, start := WeekCount(y, m), GridStart(y, m);
    var lead, len := Lead(y, m), DaysInMonth(y, m);
    WeekCountSpan(y, m);
    GridCellInMonth(y, m, lead + len - 1);
    AddDaysMonotone(start, lead + len - 1, 7 * wc - 1);
  }

  /**
   * The day after the grid is outside the month, and the last week starts
   * inside it, so the grid has no superfluous week.
   */
  lemma GridStopsAfterMonth(y: int, m: int)
    requires 1 <= m <= 12
    ensures WeekCount(y, m) >= 1
    ensures AddDays(GridStart(y, m), 7 * WeekCount(y, m)).month != m
    ensures WeekCount(y, m) >= 2 ==> AddDays(GridStart(y, m), 7 * (WeekCount(y, m) - 1)).month == m
  {
    var wc := WeekCount(y, m);
    WeekCountSpan(y, m);
    GridMonthTest(y, m, wc);
    if wc >= 2 {
      GridCellInMonth(y, m, 7 * (wc - 1));
    }
  }

  /** WeekCount whole weeks reach past the month, and one week fewer would not. */
  lemma WeekCountSpan(y: int, m: int)
    requires 1 <= m <= 12
    ensures WeekCount(y, m) >= 1
    ensures 7 * (WeekCount(y, m) - 1) < Lead(y, m) + DaysInMonth(y, m) <= 7 * WeekCount(y, m)
  {
  }

  /** A month grid has four to six weeks; four only for a 28-day February that starts on a Sunday. */
  lemma WeekCountBounds(y: int, m: int)
    requires 1 <= m <= 12
    ensures 4 <= WeekCount(y, m) <= 6
    ensures WeekCount(y, m) == 4 <==> DaysInMonth(y, m) == 28 && Lead(y, m) == 0
  {
  }

  /** A cell's label is the ISO date of its day (when the year has four digits), and its number is that day. */
  lemma CellLabelIsIsoDate(d: Date, allEvents: seq<Event>, calendars: seq<Calendar>, calendarsSelected: seq<bool>)
    requires IsValid(d) && 1000 <= d.year <= 9999
    ensures var c := CellFor(d, allEvents, calendars, calendarsSelected);
      && HasIsoDateShape(c.date)
      && ParseIsoDate(c.date) == Some(d)
      && c.dayOfMonth == Day(ParseIsoDate(c.date).value.day)
  {
    ParseFormat(d);
  }

  // ---------------------------------------------------------------------------
  // Lemmas on the events of a cell

  /** Events of later input come after events of earlier input. */
  lemma {:induction false} EventsOnConcat(isoDate: string, a: seq<Event>, b: seq<Event>,
                                          calendars: seq<Calendar>, calendarsSelected: seq<bool>)
    ensures EventsOn(isoDate, a + b, calendars, calendarsSelected) ==
            EventsOn(isoDate, a, calendars, calendarsSelected) + EventsOn(isoDate, b, calendars, calendarsSelected)
    decreases |b|
  {
    if b == [] {
      assert a + b == a;
    } else {
      var b' := b[..|b| - 1];
      assert (a + b)[..|a + b| - 1] == a + b';
      assert (a + b)[|a + b| - 1] == b[|b| - 1];
      EventsOnConcat(isoDate, a, b', calendars, calendarsSelected);
    }
  }

  /**
   * A cell lists exactly the shown events of the input, each paired with its
   * own calendar: the calendar has the event's calendar id and is in the list.
   */
  lemma {:induction false} EventsOnExactly(isoDate: string, allEvents: seq<Event>,
                                           calendars: seq<Calendar>, calendarsSelected: seq<bool>,
                                           x: EventWithCalendar)
    ensures x in EventsOn(isoDate, allEvents, calendars, calendarsSelected) <==>
      && x.event in allEvents
      && Shown(x.event, isoDate, calendars, calendarsSelected)
      && x.calendar == calendars[FindCalendar(calendars, x.event.calendarId)]
    ensures x in EventsOn(isoDate, allEvents, calendars, calendarsSelected) ==>
      x.event.date == isoDate && x.calendar.id == x.event.calendarId && x.calendar in calendars
    decreases |allEvents|
  {
    if allEvents != [] {
      var p := allEvents[..|allEvents| - 1];
      EventsOnExactly(isoDate, p, calendars, calendarsSelected, x);
      assert allEvents == p + [allEvents[|allEvents| - 1]];
    }
  }

  /** An event whose calendar id matches no calendar is never listed, whatever is selected. */
  lemma UnknownCalendarNeverShown(e: Event, isoDate: string, calendars: seq<Calendar>, calendarsSelected: seq<bool>)
    requires forall j :: 0 <= j < |calendars| ==> calendars[j].id != e.calendarId
    ensures !Shown(e, isoDate, calendars, calendarsSelected)
    ensures EventsOn(isoDate, [e], calendars, calendarsSelected) == []
  {
    assert [e][..0] == [];
  }
}
