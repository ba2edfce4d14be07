# Calendar screen core of react-calendar, in Dafny

react-calendar is a small month-view calendar. Its screen shows one month as a
grid of weeks and lists in each day cell the events of that day whose calendar
is ticked. It also has a header whose arrows move to the previous or the next
month. This project models the logic behind that screen and proves properties
of it:

- `generateCalendar` builds the grid of weeks for the month of a date
  (`calendar_screen.dfy`, module `CalendarScreen`). It is imperative code with a
  do-while loop over weeks, a loop over the seven days of a week and a loop over
  the events, so it is written as methods with loops and invariants. Each method
  is proved against specification functions (`GridStart`, `WeekCount`,
  `CellFor`, `EventsOn`), and the properties of the grid are lemmas about those
  functions.
- `reducer` is the screen's state machine (`calendar_screen_reducer.dfy`,
  module `CalendarScreenReducer`), a pure function from a state and an action to
  a new state.
- `MONTHS`, `getToday`, `formatMonth` and `addMonths` are the month helpers
  (`date_functions.dfy`, module `DateFunctions`). They are pure functions.

Supporting modules:

- `Gregorian` (`gregorian.dfy`): the proleptic Gregorian calendar that
  JavaScript's `Date` uses, that is month lengths, the next day, the day of the
  week, and `setDate` rolling back into the previous month.
- `IsoDates` (`iso_text.dfy`): dates as `YYYY-MM-DD` text, in the form the front
  end writes them, and the date-only forms `YYYY-MM-DD`, `YYYY-MM` and `YYYY`
  that `new Date` reads.
- `Backend` (`backend.dfy`): the calendar and event records.
- `Wrappers` (`wrappers.dfy`): `Option`.

JavaScript-specific behaviour is modelled explicitly:

- A text `new Date` rejects gives an Invalid Date, and every field of an
  Invalid Date prints as `NaN`.
- `parseInt` skips leading white space, takes a sign, reads a `0x` prefix as
  base 16 and stops at the first non-digit.
- `MONTHS[k]` outside 0..11 is `undefined`, which a template prints as that
  word.
- Reading `calendarsSelected[i]` past the end gives `undefined`, which counts
  as false.
- Assigning past the end of an array grows it and leaves holes.
- `calendars[0].id` on an empty list throws a TypeError.

## Model

| member | source | states |
|---|---|---|
| CalendarScreen.GenerateCalendar | frontend/src/app/CalendarScreen.tsx:101-144 | For a date `new Date` accepts in any of its date-only forms (`YYYY-MM-DD`, `YYYY-MM`, `YYYY`), the grid has WeekCount weeks of 7 cells, and cell i of week w is the cell of the day 7w+i days after the Sunday that starts the grid. For a rejected date, the grid is one week of seven NaN cells. |
| CalendarScreen.MonthGrid | frontend/src/app/CalendarScreen.tsx:110-141 | The do-while loop over weeks yields exactly WeekCount(year, month) weeks of seven cells, numbered on from the grid's start. It stops at the first week after which the next day is outside the month. |
| CalendarScreen.FillWeek | frontend/src/app/CalendarScreen.tsx:118-139 | The week loop yields seven cells for seven consecutive days from the current day, and leaves the current day seven days later. |
| CalendarScreen.CellEvents | frontend/src/app/CalendarScreen.tsx:124-132 | The events loop yields EventsOn: the events of that date whose calendar exists and is selected, in input order, each with its calendar. |
| CalendarScreen.FindCalendar | frontend/src/app/CalendarScreen.tsx:127 | `findIndex` gives -1 exactly when no calendar has the id, and otherwise the first index whose calendar has it. |
| CalendarScreen.IsSelected | frontend/src/app/CalendarScreen.tsx:128 | `calendarsSelected[calIndex]` read as a condition: true only at an index inside the list, so `undefined`, out of range or -1, is false. |
| CalendarScreen.ToggleFlipsSelection | frontend/src/app/CalendarScreen.tsx:128 | Read that way, `toggleCalendar(i)` for any i >= 0 flips the reading at i, past the end too, and keeps it at every other index. |
| CalendarScreen.GridMonthTest | frontend/src/app/CalendarScreen.tsx:141 | After w weeks, the loop's test (the next day is still in the month) holds exactly when 7w is less than the leading days plus the month's length. |
| CalendarScreen.GridCellInMonth | frontend/src/app/CalendarScreen.tsx:113-115 | Cell n, for Lead ≤ n < Lead + length, is day n − Lead + 1 of the month. |
| CalendarScreen.GridCellAfterMonth | frontend/src/app/CalendarScreen.tsx:138 | The cells after the month's last day are the first days of the next month, with December rolling into January. |
| CalendarScreen.GridStartsOnSunday | frontend/src/app/CalendarScreen.tsx:113-115 | The first cell is a Sunday, on or before the 1st and less than a week before it, and the 1st is Lead cells after it. |
| CalendarScreen.GridCellsConsecutive | frontend/src/app/CalendarScreen.tsx:138 | Consecutive cells hold consecutive days, also across the end of a week, and their serial day numbers differ by one. |
| CalendarScreen.GridColumnIsWeekday | frontend/src/app/CalendarScreen.tsx:115-119 | Cell n falls on weekday n mod 7, so each of the seven columns is one weekday, Sunday first. |
| CalendarScreen.GridCoversMonth | frontend/src/app/CalendarScreen.tsx:117-141 | Every day of the month has a cell in the grid, at index Lead + day − 1. |
| CalendarScreen.GridEndsOnSaturday | frontend/src/app/CalendarScreen.tsx:117-141 | The grid's last cell is a Saturday. |
| CalendarScreen.GridReachesLastDay | frontend/src/app/CalendarScreen.tsx:117-141 | The grid's last cell is no earlier than the month's last day. |
| CalendarScreen.GridStopsAfterMonth | frontend/src/app/CalendarScreen.tsx:141 | The day after the grid is outside the month, and the last week starts inside the month, so no week is superfluous. |
| CalendarScreen.WeekCountSpan | frontend/src/app/CalendarScreen.tsx:117-141 | WeekCount whole weeks cover the leading days and the month, and one week fewer would not. |
| CalendarScreen.WeekCountBounds | frontend/src/app/CalendarScreen.tsx:117-141 | The grid has four to six weeks, and four exactly for a 28-day February whose 1st is a Sunday. |
| CalendarScreen.CellLabelIsIsoDate | frontend/src/app/CalendarScreen.tsx:120-122 | A cell's label has the `YYYY-MM-DD` form for a four-digit year, `new Date` reads it back as the cell's own day, and its dayOfMonth is that day. |
| CalendarScreen.EventsOnConcat | frontend/src/app/CalendarScreen.tsx:125-132 | The cell's events keep the input order: the events of `a + b` are those of `a` followed by those of `b`. |
| CalendarScreen.EventsOnExactly | frontend/src/app/CalendarScreen.tsx:125-132 | An entry is in a cell exactly when it pairs an input event that is shown (same date, calendar found and selected) with that event's calendar. Every entry's calendar has the event's calendar id and comes from the list. |
| CalendarScreen.UnknownCalendarNeverShown | frontend/src/app/CalendarScreen.tsx:127-128 | An event whose calendar id matches no calendar is never listed, because index -1 reads as unselected (see Left out for `calendarsSelected[-1]`). |
| CalendarScreenReducer.Toggle | frontend/src/app/calendarScreenReducer.tsx:61-62 | An index in range flips that entry only. An index past the end grows the list to index + 1, sets that entry true, keeps the old entries and leaves the holes false. A negative index leaves the entries unchanged (see Left out). |
| CalendarScreenReducer.Reduce | frontend/src/app/calendarScreenReducer.tsx:31-67 | The reducer throws exactly for `new` with no calendars. Only `load` changes calendars and events, only `load` and `toggleCalendar` change the checkboxes, and neither of those touches the editing event. Each action's full effect is stated by the lemmas below. |
| CalendarScreenReducer.LoadWithCalendars | frontend/src/app/calendarScreenReducer.tsx:36-46 | `load` with calendars replaces the events and the calendars, selects every calendar and keeps the editing event. |
| CalendarScreenReducer.LoadWithoutCalendars | frontend/src/app/calendarScreenReducer.tsx:36-46 | `load` without calendars replaces the events only. |
| CalendarScreenReducer.EditOpensEvent | frontend/src/app/calendarScreenReducer.tsx:47-48 | `edit` sets the editing event and changes nothing else. |
| CalendarScreenReducer.NewOpensBlankEvent | frontend/src/app/calendarScreenReducer.tsx:49-57 | `new` throws exactly when there is no calendar. Otherwise it opens an event with no id and no time, the given date, an empty description and the first calendar's id, and changes nothing else. |
| CalendarScreenReducer.CloseDialogIdempotent | frontend/src/app/calendarScreenReducer.tsx:58-59 | `closeDialog` clears the editing event only, and doing it twice is the same as once. |
| CalendarScreenReducer.ToggleFlipsOne | frontend/src/app/calendarScreenReducer.tsx:60-63 | `toggleCalendar` with an index in range flips that checkbox and changes nothing else. |
| CalendarScreenReducer.ToggleTwiceRestores | frontend/src/app/calendarScreenReducer.tsx:60-63 | Toggling the same in-range calendar twice gives back the original state. |
| CalendarScreenReducer.ToggleBeyondEnd | frontend/src/app/calendarScreenReducer.tsx:60-63 | Toggling past the end selects that index, keeps the old checkboxes and leaves the holes unselected. |
| CalendarScreenReducer.ToggleNegativeIgnored | frontend/src/app/calendarScreenReducer.tsx:60-63 | Toggling a negative index gives back the state, entry for entry (see Left out for the property JavaScript adds). |
| CalendarScreenReducer.ReduceKeepsAligned | frontend/src/app/calendarScreenReducer.tsx:31-67 | Every action that returns keeps one checkbox per calendar, given that toggles name existing calendars. |
| CalendarScreenReducer.InitialIsAligned | frontend/src/app/CalendarScreen.tsx:14-19 | The initial state given to `useReducer`, with no calendars, checkboxes or events, has one checkbox per calendar and no open dialog. |
| DateFunctions.MonthsHasTwelveNames | frontend/src/app/dateFunctions.tsx:1-14 | There are twelve month names, January first and December last. |
| DateFunctions.GetToday | frontend/src/app/dateFunctions.tsx:16-18 | "Today" is a ten-character date text. |
| DateFunctions.TodayParses | frontend/src/app/dateFunctions.tsx:16-18 | "Today" reads as the date 2021-06-17. |
| DateFunctions.TodayMonthIsWellFormed | frontend/src/app/dateFunctions.tsx:16-18 | The month part of "today" is the well-formed month 2021-06. |
| DateFunctions.TodayTitle | frontend/src/app/dateFunctions.tsx:20-23 | The title of today's month is the sixth name, "Junho", followed by " de " and "2021". |
| DateFunctions.TodayNextMonth | frontend/src/app/dateFunctions.tsx:25-29 | The month after today's is "2021-07". |
| DateFunctions.Split | frontend/src/app/dateFunctions.tsx:21 | `split` yields at least one field, and no field contains the separator. |
| DateFunctions.SplitJoin | frontend/src/app/dateFunctions.tsx:21 | Joining the fields of `split` with the separator gives the string back. |
| DateFunctions.SplitFirstField | frontend/src/app/dateFunctions.tsx:21 | The first field is the text up to the first separator. |
| DateFunctions.SplitNoSeparator | frontend/src/app/dateFunctions.tsx:21 | A string without the separator splits into itself alone. |
| DateFunctions.ParseIntDigits | frontend/src/app/dateFunctions.tsx:22 | `parseInt` of a non-empty run of decimal digits is their value, leading zeros included. |
| DateFunctions.ParseInt | frontend/src/app/dateFunctions.tsx:22 | No ensures of its own: ParseIntDigits states its result on digit strings. |
| DateFunctions.MonthNameText | frontend/src/app/dateFunctions.tsx:22 | `MONTHS[k]` is the k-th name for k in 0..11 and "undefined" otherwise or for NaN. |
| DateFunctions.FormatMonth | frontend/src/app/dateFunctions.tsx:20-23 | No ensures of its own: FormatMonthOfYearMonth, FormatMonthOfFormatted and TodayTitle state its result. |
| DateFunctions.FormatMonthOfYearMonth | frontend/src/app/dateFunctions.tsx:20-23 | The title of a well-formed `YYYY-MM` is the month's name, " de " and the year's four characters. |
| DateFunctions.FormatMonthOfFormatted | frontend/src/app/dateFunctions.tsx:20-23 | The title of any month that addMonths prints, for a non-negative year, is its name followed by " de " and the year. |
| DateFunctions.ParseYearMonth | frontend/src/app/dateFunctions.tsx:26 | A month read through `new Date(month + "-01T12:00:00")` lies in 1..12. |
| DateFunctions.ParseYearMonthExactly | frontend/src/app/dateFunctions.tsx:26 | That date is valid exactly when the text is a well-formed `YYYY-MM` or a bare year `YYYY`. A `YYYY-MM` reads as that year and month, and a bare year as January of it. |
| DateFunctions.ShiftMonth | frontend/src/app/dateFunctions.tsx:27 | `setMonth(getMonth() + k)` on the 1st moves the month index year·12 + month − 1 by exactly k, with the month in 1..12. |
| DateFunctions.AddMonths | frontend/src/app/dateFunctions.tsx:25-29 | No ensures of its own: AddMonthsShape, AddMonthsBareYear, AddMonthsByMonthIndex, AddMonthsIsShiftMonth, AddMonthsCompose and AddMonthsZero state its result. |
| DateFunctions.FormatYearMonth | frontend/src/app/dateFunctions.tsx:28 | No ensures of its own: YearMonthRoundTrip and YearMonthPrintsBack make it the inverse of reading `YYYY-MM`. |
| DateFunctions.AddMonthsShape | frontend/src/app/dateFunctions.tsx:25-29 | A text that is neither a well-formed `YYYY-MM` nor a bare year gives "NaN-NaN". Either form gives a year, a hyphen and a two-digit month. |
| DateFunctions.AddMonthsBareYear | frontend/src/app/dateFunctions.tsx:25-29 | A bare year moves like January of that year: `addMonths("2021", k)` equals `addMonths("2021-01", k)`, so "2021" +1 is "2021-02". |
| DateFunctions.BareYear2021IsJanuary | frontend/src/app/dateFunctions.tsx:26 | `new Date("2021-01T12:00:00")`, what the URL month "2021" gives, is January 2021. |
| DateFunctions.AddMonthsByMonthIndex | frontend/src/app/dateFunctions.tsx:25-29 | addMonths prints the unique (year, month) whose month index is the input's plus the increment. |
| DateFunctions.MonthIndexUnique | frontend/src/app/dateFunctions.tsx:27 | Two (year, month) pairs with the same month index are equal. |
| DateFunctions.AddMonthsIsShiftMonth | frontend/src/app/dateFunctions.tsx:25-29 | addMonths on a well-formed month prints ShiftMonth of its year and month. |
| DateFunctions.ShiftMonthCompose | frontend/src/app/dateFunctions.tsx:27 | Shifting by a and then by b is shifting by a + b. |
| DateFunctions.YearMonthRoundTrip | frontend/src/app/dateFunctions.tsx:28 | A printed month with a four-digit year is well formed and reads back as the same year and month. |
| DateFunctions.YearMonthPrintsBack | frontend/src/app/dateFunctions.tsx:28 | A well-formed month whose year has no leading zero is printed back unchanged. |
| DateFunctions.AddMonthsOfFormatted | frontend/src/app/dateFunctions.tsx:25-29 | A month printed from a (year, month) with a four-digit year moves like that (year, month). |
| DateFunctions.AddMonthsCompose | frontend/src/app/dateFunctions.tsx:25-29 | Moving by a then by b is moving by a + b, when the intermediate year has four digits. |
| DateFunctions.AddMonthsZero | frontend/src/app/dateFunctions.tsx:25-29 | Moving by zero months gives the month back. |
| DateFunctions.NextMonthInRange | frontend/src/app/dateFunctions.tsx:27 | One month on from a four-digit month other than 9999-12 keeps a four-digit year and changes the month. |
| DateFunctions.PreviousMonthInRange | frontend/src/app/dateFunctions.tsx:27 | One month back from a four-digit month other than 1000-01 keeps a four-digit year. |
| DateFunctions.NextThenPreviousIsIdentity | frontend/src/app/dateFunctions.tsx:25-29 | The header's "next" then "previous" returns to the month shown. |
| DateFunctions.NextMonthDiffers | frontend/src/app/dateFunctions.tsx:25-29 | The header's "next" always shows another month. |
| DateFunctions.PreviousThenNextIsIdentity | frontend/src/app/dateFunctions.tsx:25-29 | The header's "previous" then "next" returns to the month shown. |
| DateFunctions.DecemberCarries | frontend/src/app/dateFunctions.tsx:27-28 | One month after December is January of the next year. |
| DateFunctions.JanuaryBorrows | frontend/src/app/dateFunctions.tsx:27-28 | One month before January is December of the previous year. |
| Gregorian.DaysInMonth | frontend/src/app/CalendarScreen.tsx:138 | Month lengths are 28 to 31 days: 31 for the seven long months, 30 for the four short ones, and 29 for February exactly in a leap year. |
| Gregorian.Next | frontend/src/app/CalendarScreen.tsx:138 | `setDate(getDate() + 1)` is the next day of the month, or the 1st of the next month after the last day. |
| Gregorian.NextIsOneDayLater | frontend/src/app/CalendarScreen.tsx:138 | The next day's serial day number is one more, across months and years. |
| Gregorian.SetDate | frontend/src/app/CalendarScreen.tsx:113-115 | `setDate(k)` gives a valid date that stays in the month, on day k, exactly when k ≥ 1; otherwise it rolls back into the previous month. |
| Gregorian.SetDateDayNumber | frontend/src/app/CalendarScreen.tsx:113-115 | `setDate(k)` lands k − 1 days after the 1st, counting backwards across the month boundary for k < 1. |
| Gregorian.SetDateThenForward | frontend/src/app/CalendarScreen.tsx:113-115 | Going back with `setDate(1 − back)` and then forward by back days returns to the 1st. |
| Gregorian.SetDatePastMonth | frontend/src/app/CalendarScreen.tsx:113-138 | From `setDate(1 − back)`, back days, then the month's length, then j more days land on day j + 1 of the next month. |
| Gregorian.DayOfWeek | frontend/src/app/CalendarScreen.tsx:114 | `getDay()` is a weekday in 0..6; DayOfWeekIsWeekDay ties the numbering to ECMAScript's. |
| Gregorian.DayOfWeekIsWeekDay | frontend/src/app/CalendarScreen.tsx:114 | `getDay()` is ECMAScript's WeekDay: days since 1970-01-01 plus 4, modulo 7, so 1970-01-01 is a Thursday (4) and 0 is Sunday. |
| Gregorian.AddDaysDayNumber | frontend/src/app/CalendarScreen.tsx:138 | Moving k days forward adds k to the serial day number. |
| Gregorian.AddDaysSucc | frontend/src/app/CalendarScreen.tsx:138 | Moving k + 1 days is moving k days and then to the next day. |
| Gregorian.AddDays | frontend/src/app/CalendarScreen.tsx:138 | k repetitions of `setDate(getDate() + 1)` give a valid date. It has only that ensures; AddDaysDayNumber, AddDaysSucc, AddDaysAdd and AddDaysWithinMonth state what it computes. |
| Gregorian.AddDaysAdd | frontend/src/app/CalendarScreen.tsx:138 | Moving a + b days is moving a days and then b days. |
| Gregorian.AddDaysMonthLength | frontend/src/app/CalendarScreen.tsx:138 | A month's length after its 1st is the 1st of the next month. |
| Gregorian.AddDaysWithinMonth | frontend/src/app/CalendarScreen.tsx:138 | Moving forward while staying inside the month only advances the day of month. |
| Gregorian.AddDaysWeekday | frontend/src/app/CalendarScreen.tsx:114-138 | k days later is k weekdays later, modulo a week. |
| Gregorian.PrevLastThenFirst | frontend/src/app/CalendarScreen.tsx:115 | The last day of the previous month is followed by the 1st of this one, with day numbers one apart. |
| Gregorian.LeapDaysStep | frontend/src/app/CalendarScreen.tsx:138 | The count of leap days before a year grows by one exactly after a leap year. |
| IsoDates.Decimal | frontend/src/app/CalendarScreen.tsx:120-122 | `toString()` of a non-negative integer is non-empty decimal digits with no leading zero. |
| IsoDates.IntToDecimal | frontend/src/app/CalendarScreen.tsx:122 | `${getFullYear()}` for any year: a leading minus sign exactly for a negative year, then decimal digits, so the grid for "0000-01" starts on "-1-12-26". |
| IsoDates.IntToDecimalValue | frontend/src/app/dateFunctions.tsx:28 | The digits after the optional minus sign read back as the year's magnitude. |
| DateFunctions.ParseIntOfDecimal | frontend/src/app/dateFunctions.tsx:22-28 | `parseInt` reads back every integer that `toString` prints, negative years included. |
| IsoDates.DecimalValue | frontend/src/app/CalendarScreen.tsx:120-122 | Reading the printed digits gives the number back. |
| IsoDates.DecimalOfValue | frontend/src/app/CalendarScreen.tsx:120-122 | Digits without a leading zero are what `toString` prints for their value. |
| IsoDates.Pad2 | frontend/src/app/CalendarScreen.tsx:120-121 | `padStart(2, "0")` of a number below 100 is exactly two digits. |
| IsoDates.Pad2Value | frontend/src/app/CalendarScreen.tsx:120-121 | Two padded digits read back as the number. |
| IsoDates.Pad2OfValue | frontend/src/app/CalendarScreen.tsx:120-121 | Any two digits are the padding of their value. |
| IsoDates.ParseIsoDate | frontend/src/app/CalendarScreen.tsx:109 | The strict `YYYY-MM-DD` form: a date exactly when the text has that shape and names a real day, with a year in 0..9999 (see Left out for days a month does not have). |
| IsoDates.ParseDateOnly | frontend/src/app/CalendarScreen.tsx:109 | What `new Date(date + "T12:00:00")` reads, over the three date-only forms of the ECMAScript Date Time String Format. Any date it gives is valid, with a year in 0..9999. |
| IsoDates.ParseDateOnlyPads | frontend/src/app/CalendarScreen.tsx:109 | `YYYY` reads as `YYYY-01-01` and `YYYY-MM` as `YYYY-MM-01` in the strict form. Any other text reads as the strict form reads it. |
| IsoDates.ParseFormat | frontend/src/app/CalendarScreen.tsx:109-122 | A valid date with a four-digit year prints as `YYYY-MM-DD` and reads back as itself. |
| IsoDates.FormatIsoDate | frontend/src/app/CalendarScreen.tsx:120-122 | No ensures of its own: ParseFormat and FormatParse make it the inverse of ParseIsoDate. |
| IsoDates.FormatParse | frontend/src/app/CalendarScreen.tsx:109-122 | Accepted text whose year has no leading zero is what the front end prints for the date read. |

## Left out

- The React components and what they render, the `fetch` wrappers of `backend.tsx`, and the server in `backend/server.js` are not part of this model.
- The `console.log` calls in `generateCalendar` are output with no effect on the result, so they are omitted.
- Time zones and daylight-saving time are left out. The front end appends `T12:00:00`, so a date is read as local noon and cannot shift to a neighbouring day under daylight-saving changes. Zones that skipped a whole calendar day are not modelled. Dates are therefore modelled as calendar dates, without time.
- The range limit of ECMAScript time values is left out. Time values run ±8.64e15 ms from 1970, that is from year −271,821 to year 275,760. Years here are unbounded integers, and a `Date` outside that range would become an Invalid Date.
- Six-digit years with a sign, the time forms other than `THH:mm:ss`, and the engine-specific fallback formats that some engines also accept for `new Date` are left out. The date-only forms of the ECMAScript Date Time String Format, `YYYY-MM-DD`, `YYYY-MM` and `YYYY`, are modelled. A bare year can reach `addMonths` and `generateCalendar` through the route `/calendar/:month` (frontend/src/app/App.tsx:26): for `/calendar/2021` the grid is January 2021, and the arrows give "2020-12" and "2021-02". Any other text is modelled as an Invalid Date.
- IsoDates.ParseIsoDate: a day the month does not have, such as "2021-02-30", is an Invalid Date in the model. ECMA-262 leaves such text to implementation-specific parsing, and V8 rolls it over into the next month. This never matters here, because every caller asks for day 01 (frontend/src/app/CalendarScreen.tsx:23, frontend/src/app/dateFunctions.tsx:26).
- DateFunctions.AddMonths: the increment is an integer. A JavaScript `number` with a fraction is truncated by `setMonth` and is not modelled.
- Gregorian.SetDate: only arguments from −27 up to the month's length are modelled, which is the range the month grid uses (`1 − dayOfWeek` ≥ −5).
- DateFunctions.ParseInt: its contract is stated through ParseIntDigits for the decimal-digit months the application produces. The `0x` and white-space paths are modelled in the body but carry no lemma.
- DateFunctions.IsJsWhiteSpace: the white-space set of ECMA-262 is written out as of its current edition. It only matters to `parseInt` on hand-written month texts.
- CalendarScreenReducer.Toggle: a negative index in JavaScript sets a non-index property on the copied array, to `!undefined`, that is true. For -1, `generateCalendar` reads that property when `findIndex` finds no calendar (frontend/src/app/CalendarScreen.tsx:127-128), and a `load` without calendars keeps it. The model does not track it, because the only dispatcher of `toggleCalendar` (frontend/src/app/CalendarsView.tsx:27) passes an index 0 ≤ i < the number of calendars.
- CalendarScreenReducer.ToggleNegativeIgnored: holds in the model only. In JavaScript, toggling -1 leaves `calendarsSelected[-1]` true, which no dispatcher of the screen does (see the line above).
- CalendarScreen.UnknownCalendarNeverShown: holds for every state the screen can reach. After a `toggleCalendar` of -1, which the screen never dispatches, JavaScript would list such an event with `calendar: undefined`.
- CalendarScreenReducer.Reduce: the `default` branch (frontend/src/app/calendarScreenReducer.tsx:64-65) cannot be reached with the typed actions, so it has no counterpart in the closed `Action` datatype.
- CalendarScreenReducer.Reduce: an `edit` payload that also carries a `calendar` field (an IEventWithCalendar passed as IEvent) keeps that field in JavaScript. The model's event record has no such field.
- CalendarScreen.GenerateCalendar: the pushed event objects are spread copies `{ ...event, calendar }`. They are modelled as a value pairing the event with its calendar, since values are never shared or mutated.
- CalendarScreen.CellLabelIsIsoDate, IsoDates.ParseFormat, DateFunctions.AddMonthsCompose and the other round trips are stated for four-digit years only. Years below 1000 print unpadded, such as "999-01-01", so `new Date` does not read them back. Years above 9999 print with five digits or more, which the strict format rejects.
