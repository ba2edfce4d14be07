/**
 * The proleptic Gregorian calendar used by JavaScript's `Date`, reduced to the
 * calendar-date arithmetic the front end relies on: leap years, month lengths,
 * the day after a given day, the day of the week, and `setDate` with a day of
 * month outside 1..length (which rolls into the neighbouring month).
 *
 * Years use astronomical numbering (year 0 exists, -1 precedes it), as
 * `getFullYear` reports them.
 */
module Gregorian {

  /** A calendar date; `month` runs 1..12 (JavaScript's `getMonth() + 1`). */
  datatype Date = Date(year: int, month: int, day: int)

  predicate IsLeapYear(y: int) {
    y % 4 == 0 && (y % 100 != 0 || y % 400 == 0)
  }

  function DaysInMonth(y: int, m: int): (n: int)
    requires 1 <= m <= 12
    ensures 28 <= n <= 31
    ensures n == 31 <==> m in {1, 3, 5, 7, 8, 10, 12}
    ensures n == 30 <==> m in {4, 6, 9, 11}
    ensures m == 2 ==> (n == 29 <==> IsLeapYear(y))
  {
    if m == 2 then (if IsLeapYear(y) then 29 else 28)
    else if m == 4 || m == 6 || m == 9 || m == 11 then 30
    else 31
  }

  predicate IsValid(d: Date) {
    1 <= d.month <= 12 && 1 <= d.day <= DaysInMonth(d.year, d.month)
  }

  function FirstOfMonth(y: int, m: int): (d: Date)
    requires 1 <= m <= 12
    ensures IsValid(d) && d.year == y && d.month == m && d.day == 1
  {
    Date(y, m, 1)
  }

  function LastOfMonth(y: int, m: int): (d: Date)
    requires 1 <= m <= 12
    ensures IsValid(d) && d.year == y && d.month == m && d.day == DaysInMonth(y, m)
  {
    Date(y, m, DaysInMonth(y, m))
  }

  /** The (year, month) after (y, m): December carries into January of the next year. */
  function NextMonth(y: int, m: int): (ym: (int, int))
    requires 1 <= m <= 12
    ensures 1 <= ym.1 <= 12 && ym.1 != m
    ensures ym.0 * 12 + ym.1 == y * 12 + m + 1
  {
    if m == 12 then (y + 1, 1) else (y, m + 1)
  }

  /** The (year, month) before (y, m): January borrows December of the previous year. */
  function PrevMonth(y: int, m: int): (ym: (int, int))
    requires 1 <= m <= 12
    ensures 1 <= ym.1 <= 12 && ym.1 != m
    ensures ym.0 * 12 + ym.1 == y * 12 + m - 1
  {
    if m == 1 then (y - 1, 12) else (y, m - 1)
  }

  /** The following day: `setDate(getDate() + 1)`. */
  function Next(d: Date): (r: Date)
    requires IsValid(d)
    ensures IsValid(r)
    ensures d.day < DaysInMonth(d.year, d.month) ==> r == Date(d.year, d.month, d.day + 1)
    ensures d.day == DaysInMonth(d.year, d.month) ==>
              r == FirstOfMonth(NextMonth(d.year, d.month).0, NextMonth(d.year, d.month).1)
  {
    if d.day < DaysInMonth(d.year, d.month) then Date(d.year, d.month, d.day + 1)
    else if d.month == 12 then Date(d.year + 1, 1, 1)
    else Date(d.year, d.month + 1, 1)
  }

  /** The date `k` days after `d`. */
  function AddDays(d: Date, k: nat): (r: Date)
    requires IsValid(d)
    ensures IsValid(r)
    decreases k
  {
    if k == 0 then d else AddDays(Next(d), k - 1)
  }

  /** Leap days in the years strictly before `y` (counted from year 0 backwards as negative). */
  function LeapDaysBefore(y: int): int {
    (y - 1) / 4 - (y - 1) / 100 + (y - 1) / 400
  }

  function DaysBeforeMonth(y: int, m: int): int
    requires 1 <= m <= 12
  {
    var common :=
      if m == 1 then 0 else if m == 2 then 31 else if m == 3 then 59
      else if m == 4 then 90 else if m == 5 then 120 else if m == 6 then 151
      else if m == 7 then 181 else if m == 8 then 212 else if m == 9 then 243
      else if m == 10 then 273 else if m == 11 then 304 else 334;
    common + (if m > 2 && IsLeapYear(y) then 1 else 0)
  }

  /** A serial day number: consecutive dates get consecutive numbers (see NextIsOneDayLater). */
  function DayNumber(d: Date): int
    requires IsValid(d)
  {
    365 * d.year + LeapDaysBefore(d.year) + DaysBeforeMonth(d.year, d.month) + d.day - 1
  }

  /**
   * `getDay()`: 0 is Sunday, 6 is Saturday. That this numbering is the one of
   * ECMAScript is DayOfWeekIsWeekDay.
   */
  function DayOfWeek(d: Date): (w: int)
    requires IsValid(d)
    ensures 0 <= w < 7
  {
    DayNumber(d) % 7
  }

  /**
   * `setDate(k)` on a date of year y and month m: day k of that month, where
   * k <= 0 counts back into the previous month (day 0 is its last day). Only
   * the range the month grid uses is modelled: a step back of less than a
   * month.
   */
  function SetDate(y: int, m: int, k: int): (r: Date)
    requires 1 <= m <= 12
    requires -27 <= k <= DaysInMonth(y, m)
    ensures IsValid(r)
    ensures r.month == m <==> 1 <= k
    ensures 1 <= k ==> r.day == k
  {
    if k >= 1 then Date(y, m, k)
    else
      var p := PrevMonth(y, m);
      Date(p.0, p.1, DaysInMonth(p.0, p.1) + k)
  }

  /** 1970-01-01, the day ECMAScript counts time values from. */
  const Epoch := Date(1970, 1, 1)

  // ---------------------------------------------------------------------------
  // Lemmas

  lemma FloorDivStep4(y: int)
    ensures y / 4 - (y - 1) / 4 == (if y % 4 == 0 then 1 else 0)
  {
  }

  lemma FloorDivStep100(y: int)
    ensures y / 100 - (y - 1) / 100 == (if y % 100 == 0 then 1 else 0)
  {
  }

  lemma FloorDivStep400(y: int)
    ensures y / 400 - (y - 1) / 400 == (if y % 400 == 0 then 1 else 0)
  {
  }

  lemma LeapDaysStep(y: int)
    ensures LeapDaysBefore(y + 1) == LeapDaysBefore(y) + (if IsLeapYear(y) then 1 else 0)
  {
    FloorDivStep4(y);
    FloorDivStep100(y);
    FloorDivStep400(y);
    CenturyIsMultipleOf4(y);
    QuadCenturyIsCentury(y);
  }

  lemma CenturyIsMultipleOf4(y: int)
    ensures y % 100 == 0 ==> y % 4 == 0
  {
    if y % 100 == 0 {
      var k := y / 100;
      assert y == 4 * (25 * k);
    }
  }

  lemma QuadCenturyIsCentury(y: int)
    ensures y % 400 == 0 ==> y % 100 == 0
  {
    if y % 400 == 0 {
      var k := y / 400;
      assert y == 100 * (4 * k);
    }
  }

  /** The day number of the day after `d` is one more than that of `d`, across months and years. */
  lemma NextIsOneDayLater(d: Date)
    requires IsValid(d)
    ensures DayNumber(Next(d)) == DayNumber(d) + 1
  {
    if d.day == DaysInMonth(d.year, d.month) && d.month == 12 {
      LeapDaysStep(d.year);
    }
  }

  /** The last day of the previous month is followed by the first of this one. */
  lemma PrevLastThenFirst(y: int, m: int)
    requires 1 <= m <= 12
    ensures Next(LastOfMonth(PrevMonth(y, m).0, PrevMonth(y, m).1)) == FirstOfMonth(y, m)
    ensures DayNumber(FirstOfMonth(y, m)) ==
            DayNumber(LastOfMonth(PrevMonth(y, m).0, PrevMonth(y, m).1)) + 1
  {
    NextIsOneDayLater(LastOfMonth(PrevMonth(y, m).0, PrevMonth(y, m).1));
  }

  lemma {:induction false} AddDaysDayNumber(d: Date, k: nat)
    requires IsValid(d)
    ensures DayNumber(AddDays(d, k)) == DayNumber(d) + k
    decreases k
  {
    if k > 0 {
      NextIsOneDayLater(d);
      AddDaysDayNumber(Next(d), k - 1);
    }
  }

  /** Later offsets give later dates. */
  lemma AddDaysMonotone(d: Date, a: nat, b: nat)
    requires IsValid(d) && a <= b
    ensures DayNumber(AddDays(d, a)) <= DayNumber(AddDays(d, b))
  {
    AddDaysDayNumber(d, a);
    AddDaysDayNumber(d, b);
  }

  /**
   * DayOfWeek is ECMA-262's WeekDay(t) = (Day(t) + 4) modulo 7 (in the
   * chapter on Date objects), where Day(t) counts days from the epoch, a
   * Thursday.
   */
  lemma DayOfWeekIsWeekDay(d: Date)
    requires IsValid(d)
    ensures DayOfWeek(d) == (DayNumber(d) - DayNumber(Epoch) + 4) % 7
    ensures DayOfWeek(Epoch) == 4
  {
    assert LeapDaysBefore(1970) == 477;
    assert DayNumber(Epoch) == 719527;
    EpochShift7(DayNumber(d) - 719523);
  }

  /** 719523, the day number of the epoch less four, is a whole number of weeks. */
  lemma EpochShift7(a: int)
    ensures (a + 719523) % 7 == a % 7
  {
    assert 719523 == 7 * 102789;
  }

  /** k days later is k weekdays later, modulo a week. */
  lemma AddDaysWeekday(d: Date, k: nat)
    requires IsValid(d)
    ensures DayOfWeek(AddDays(d, k)) == (DayOfWeek(d) + k) % 7
  {
    AddDaysDayNumber(d, k);
    ModShift7(DayNumber(d), k);
  }

  lemma ModShift7(a: int, k: int)
    ensures (a + k) % 7 == (a % 7 + k) % 7
  {
  }

  lemma {:induction false} AddDaysSucc(d: Date, k: nat)
    requires IsValid(d)
    ensures AddDays(d, k + 1) == Next(AddDays(d, k))
    decreases k
  {
    if k > 0 {
      AddDaysSucc(Next(d), k - 1);
    }
  }

  lemma {:induction false} AddDaysAdd(d: Date, a: nat, b: nat)
    requires IsValid(d)
    ensures AddDays(d, a + b) == AddDays(AddDays(d, a), b)
    decreases a
  {
    if a > 0 {
      AddDaysAdd(Next(d), a - 1, b);
    }
  }

  /** Moving forward inside one month only advances the day of month. */
  lemma {:induction false} AddDaysWithinMonth(d: Date, k: nat)
    requires IsValid(d) && d.day + k <= DaysInMonth(d.year, d.month)
    ensures AddDays(d, k) == Date(d.year, d.month, d.day + k)
    decreases k
  {
    if k > 0 {
      AddDaysWithinMonth(Next(d), k - 1);
    }
  }

  /** Day j + 1 of a month is j days after its first day. */
  lemma AddDaysFromFirst(y: int, m: int, j: nat)
    requires 1 <= m <= 12 && j < DaysInMonth(y, m)
    ensures AddDays(FirstOfMonth(y, m), j) == Date(y, m, j + 1)
  {
    AddDaysWithinMonth(FirstOfMonth(y, m), j);
  }

  /** A whole month's length after its first day is the first day of the next month. */
  lemma AddDaysMonthLength(y: int, m: int)
    requires 1 <= m <= 12
    ensures AddDays(FirstOfMonth(y, m), DaysInMonth(y, m)) ==
            FirstOfMonth(NextMonth(y, m).0, NextMonth(y, m).1)
  {
    var n := DaysInMonth(y, m);
    AddDaysFromFirst(y, m, n - 1);
    AddDaysSucc(FirstOfMonth(y, m), n - 1);
  }

  /** `setDate(k)` lands k - 1 days after the 1st, counting backwards for k < 1. */
  lemma SetDateDayNumber(y: int, m: int, k: int)
    requires 1 <= m <= 12 && -27 <= k <= DaysInMonth(y, m)
    ensures DayNumber(SetDate(y, m, k)) == DayNumber(FirstOfMonth(y, m)) + k - 1
  {
    if k < 1 {
      PrevLastThenFirst(y, m);
    }
  }

  /** Going back into the previous month with `SetDate` and forward again returns to day 1. */
  lemma SetDateThenForward(y: int, m: int, back: nat)
    requires 1 <= m <= 12 && back <= 27
    ensures AddDays(SetDate(y, m, 1 - back), back) == FirstOfMonth(y, m)
  {
    if back > 0 {
      var p := PrevMonth(y, m);
      var s := SetDate(y, m, 1 - back);
      assert s == Date(p.0, p.1, DaysInMonth(p.0, p.1) + 1 - back);
      AddDaysWithinMonth(s, back - 1);
      AddDaysSucc(s, back - 1);
      PrevLastThenFirst(y, m);
    }
  }

  /**
   * From `setDate(1 - back)`, moving back days, then the month's length, then
   * j more days lands on day j + 1 of the next month.
   */
  lemma SetDatePastMonth(y: int, m: int, back: nat, j: nat)
    requires 1 <= m <= 12 && back <= 27
    requires j < DaysInMonth(NextMonth(y, m).0, NextMonth(y, m).1)
    ensures var nm := NextMonth(y, m);
      AddDays(SetDate(y, m, 1 - back), back + DaysInMonth(y, m) + j) == Date(nm.0, nm.1, j + 1)
  {
    var start, first, len := SetDate(y, m, 1 - back), FirstOfMonth(y, m), DaysInMonth(y, m);
    var nm := NextMonth(y, m);
    SetDateThenForward(y, m, back);
    AddDaysAdd(start, back, len + j);
    AddDaysAdd(first, len, j);
    AddDaysMonthLength(y, m);
    AddDaysFromFirst(nm.0, nm.1, j);
  }
}
